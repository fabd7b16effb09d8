/** A fixed-capacity slot store of four `Option` slots, with no dynamic allocation,
    and the hand-written cursor that walks it. It is the substrate of both the
    executor's task set and the timer's waker registry. */
module Containers {

  datatype Option<T> = None | Some(value: T)

  /** Number of slots of every container. */
  const Capacity: nat := 4

  // ---------------------------------------------------------------------------
  // Specification functions over the slot contents
  // ---------------------------------------------------------------------------

  /** The live count: how many slots are occupied. */
  function Count<T>(s: seq<Option<T>>): (n: nat)
    ensures n <= |s|
  {
    if s == [] then 0 else Count(s[..|s| - 1]) + (if s[|s| - 1].Some? then 1 else 0)
  }

  /** The slot `push` takes: the lowest empty slot at or above `k`, or slot 0 when there is none. */
  function LowestFreeFrom<T>(s: seq<Option<T>>, k: nat): (i: nat)
    ensures i == 0 || k <= i < |s|
    decreases |s| - k
  {
    if k >= |s| then 0
    else if s[k].None? then k
    else LowestFreeFrom(s, k + 1)
  }

  function LowestFree<T>(s: seq<Option<T>>): (i: nat)
    ensures |s| > 0 ==> i < |s|
  {
    LowestFreeFrom(s, 0)
  }

  /** The first occupied slot at or above `k`, or `|s|` when there is none. */
  function NextOccupied<T>(s: seq<Option<T>>, k: nat): (j: nat)
    ensures j <= |s| && (k <= |s| ==> k <= j)
    ensures j < |s| ==> s[j].Some?
    ensures forall m :: k <= m < j ==> s[m].None?
    decreases |s| - k
  {
    if k >= |s| then |s|
    else if s[k].Some? then k
    else NextOccupied(s, k + 1)
  }

  /** The indices the cursor yields when it starts at position `k`. A step only
      happens while the position is below the live count (not below the
      capacity), so occupied slots at or above the live count can be skipped. */
  function Visits<T>(s: seq<Option<T>>, k: nat): seq<nat>
    decreases |s| - k
  {
    if k < Count(s) then
      var j := NextOccupied(s, k);
      if j < |s| then [j] + Visits(s, j + 1) else []
    else []
  }

  /** The slots of `s` hold exactly the values of `q` in slots `0..|q|-1` and nothing else. */
  ghost predicate HoldsPrefix<T>(s: seq<Option<T>>, q: seq<T>)
  {
    |q| <= |s| && forall j :: 0 <= j < |s| ==> s[j] == if j < |q| then Some(q[j]) else None
  }

  /** The occupied slots are exactly `0..n-1`. */
  ghost predicate OccupiedPrefix<T>(s: seq<Option<T>>, n: nat)
  {
    n <= |s| && forall j :: 0 <= j < |s| ==> (s[j].Some? <==> j < n)
  }

  /** Two slot sequences with the same occupancy pattern. */
  ghost predicate SameShape<T>(s: seq<Option<T>>, t: seq<Option<T>>)
  {
    |s| == |t| && forall j :: 0 <= j < |s| ==> (s[j].Some? <==> t[j].Some?)
  }

  function Range(lo: nat, hi: nat): (r: seq<nat>)
    decreases hi - lo
  {
    if lo >= hi then [] else [lo] + Range(lo + 1, hi)
  }

  // ---------------------------------------------------------------------------
  // Lemmas about the specification functions
  // ---------------------------------------------------------------------------

  /** The live count is zero exactly when every slot is empty, and the capacity
      exactly when every slot is occupied. */
  lemma {:induction false} CountExtremes<T>(s: seq<Option<T>>)
    ensures Count(s) == 0 <==> forall j :: 0 <= j < |s| ==> s[j].None?
    ensures Count(s) == |s| <==> forall j :: 0 <= j < |s| ==> s[j].Some?
    decreases |s|
  {
    if s != [] {
      var init := s[..|s| - 1];
      CountExtremes(init);
      assert forall j :: 0 <= j < |init| ==> init[j] == s[j];
    }
  }

  lemma {:induction false} CountAppend<T>(a: seq<Option<T>>, b: seq<Option<T>>)
    ensures Count(a + b) == Count(a) + Count(b)
    decreases |b|
  {
    if b != [] {
      var b' := b[..|b| - 1];
      assert (a + b)[..|a + b| - 1] == a + b';
      CountAppend(a, b');
    } else {
      assert a + b == a;
    }
  }

  /** Overwriting one slot changes the live count by the occupancy difference of that slot. */
  lemma {:induction false} CountUpdate<T>(s: seq<Option<T>>, i: nat, x: Option<T>)
    requires i < |s|
    ensures Count(s[i := x]) == Count(s) - (if s[i].Some? then 1 else 0) + (if x.Some? then 1 else 0)
  {
    assert s == s[..i] + [s[i]] + s[i + 1..];
    assert s[i := x] == s[..i] + [x] + s[i + 1..];
    CountAppend(s[..i] + [s[i]], s[i + 1..]);
    CountAppend(s[..i], [s[i]]);
    CountAppend(s[..i] + [x], s[i + 1..]);
    CountAppend(s[..i], [x]);
    assert [s[i]][..0] == [];
    assert [x][..0] == [];
  }

  lemma {:induction false} LowestFreeFromSpec<T>(s: seq<Option<T>>, k: nat)
    requires forall j :: 0 <= j < k && j < |s| ==> s[j].Some?
    ensures (exists j :: k <= j < |s| && s[j].None?) ==>
              LowestFreeFrom(s, k) < |s| && s[LowestFreeFrom(s, k)].None? &&
              forall j :: 0 <= j < LowestFreeFrom(s, k) ==> s[j].Some?
    ensures (forall j :: k <= j < |s| ==> s[j].Some?) ==> LowestFreeFrom(s, k) == 0
    decreases |s| - k
  {
    if k < |s| && s[k].Some? {
      LowestFreeFromSpec(s, k + 1);
    }
  }

  /** `push` picks the lowest empty slot when there is one, and slot 0 when every slot is full. */
  lemma LowestFreeSpec<T>(s: seq<Option<T>>)
    ensures Count(s) < |s| ==>
              LowestFree(s) < |s| && s[LowestFree(s)].None? &&
              forall j :: 0 <= j < LowestFree(s) ==> s[j].Some?
    ensures Count(s) == |s| ==> LowestFree(s) == 0
  {
    CountExtremes(s);
    LowestFreeFromSpec(s, 0);
  }

  /** While the position is below the live count there is an occupied slot at or
      above it, so the cursor's skip loop never runs past the last slot. */
  lemma NextOccupiedInRange<T>(s: seq<Option<T>>, k: nat)
    requires k < Count(s)
    ensures k <= NextOccupied(s, k) < |s|
    ensures s[NextOccupied(s, k)].Some?
  {
    assert s == s[..k] + s[k..];
    CountAppend(s[..k], s[k..]);
    assert Count(s[k..]) > 0;
    CountExtremes(s[k..]);
    var m :| 0 <= m < |s[k..]| && s[k..][m].Some?;
    assert s[k + m].Some?;
  }

  /** Every yielded index is an occupied slot at or above the start, the indices
      strictly increase, and so there are at most `|s| - k` of them. */
  lemma {:induction false} VisitsSound<T>(s: seq<Option<T>>, k: nat)
    ensures forall x :: x in Visits(s, k) ==> k <= x < |s| && s[x].Some?
    ensures forall a, b :: 0 <= a < b < |Visits(s, k)| ==> Visits(s, k)[a] < Visits(s, k)[b]
    ensures |Visits(s, k)| <= |s| - k || k > |s|
    decreases |s| - k
  {
    if k < Count(s) {
      NextOccupiedInRange(s, k);
      var j := NextOccupied(s, k);
      VisitsSound(s, j + 1);
      var v := Visits(s, k);
      assert v == [j] + Visits(s, j + 1);
      forall a, b | 0 <= a < b < |v| ensures v[a] < v[b] {
        if a > 0 {
          assert v[a] == Visits(s, j + 1)[a - 1];
        }
        assert v[b] == Visits(s, j + 1)[b - 1];
        assert Visits(s, j + 1)[b - 1] in Visits(s, j + 1);
      }
    }
  }

  /** Every occupied slot below the live count is yielded. */
  lemma {:induction false} VisitsCoversBelowCount<T>(s: seq<Option<T>>, k: nat, j: nat)
    requires k <= j < Count(s) && s[j].Some?
    ensures j in Visits(s, k)
    decreases |s| - k
  {
    NextOccupiedInRange(s, k);
    var n := NextOccupied(s, k);
    if n != j {
      VisitsCoversBelowCount(s, n + 1, j);
    }
  }

  lemma {:induction false} CountOfPrefix<T>(s: seq<Option<T>>, n: nat)
    requires OccupiedPrefix(s, n)
    ensures Count(s) == n
  {
    var occupied, empty := s[..n], s[n..];
    assert s == occupied + empty;
    CountAppend(occupied, empty);
    assert forall j :: 0 <= j < |occupied| ==> occupied[j].Some?;
    assert forall j :: 0 <= j < |empty| ==> empty[j].None? by {
      forall j | 0 <= j < |empty| ensures empty[j].None? { assert empty[j] == s[n + j]; }
    }
    CountExtremes(occupied);
    CountExtremes(empty);
  }

  lemma {:induction false} VisitsOfPrefixFrom<T>(s: seq<Option<T>>, n: nat, k: nat)
    requires OccupiedPrefix(s, n) && k <= n
    ensures Visits(s, k) == Range(k, n)
    decreases n - k
  {
    CountOfPrefix(s, n);
    if k < n {
      assert NextOccupied(s, k) == k;
      VisitsOfPrefixFrom(s, n, k + 1);
    }
  }

  /** When the occupied slots form a prefix `0..n-1`, the cursor yields exactly
      `0, 1, ..., n-1`, each once and in order. */
  lemma VisitsOfPrefix<T>(s: seq<Option<T>>, n: nat)
    requires OccupiedPrefix(s, n)
    ensures Visits(s, 0) == Range(0, n)
  {
    VisitsOfPrefixFrom(s, n, 0);
  }

  lemma {:induction false} RangeSpec(lo: nat, hi: nat)
    ensures |Range(lo, hi)| == if lo <= hi then hi - lo else 0
    ensures forall m :: 0 <= m < |Range(lo, hi)| ==> Range(lo, hi)[m] == lo + m
    decreases hi - lo
  {
    if lo < hi {
      RangeSpec(lo + 1, hi);
    }
  }

  /** With occupied slots at 1 and 3 only, the live count is 2, so after yielding
      slot 1 the cursor stops: slot 3 is never yielded. */
  lemma VisitsSkipsSlotAboveCount<T>(a: T, b: T)
    ensures Visits([None, Some(a), None, Some(b)], 0) == [1]
  {
    var s := [None, Some(a), None, Some(b)];
    assert s[..3] == [None, Some(a), None];
    assert s[..3][..2] == [None, Some(a)];
    assert s[..3][..2][..1] == [None];
    assert s[..3][..2][..1][..0] == [];
    assert Count([None, Some(a)][..1]) == 0;
    assert Count(s[..3][..2]) == 1;
    assert Count(s[..3]) == 1;
    assert Count(s) == 2;
    assert NextOccupied(s, 0) == 1;
  }

  lemma {:induction false} CountSameShape<T>(s: seq<Option<T>>, t: seq<Option<T>>)
    requires SameShape(s, t)
    ensures Count(s) == Count(t)
    decreases |s|
  {
    if s != [] {
      CountSameShape(s[..|s| - 1], t[..|t| - 1]);
    }
  }

  lemma {:induction false} NextOccupiedSameShape<T>(s: seq<Option<T>>, t: seq<Option<T>>, k: nat)
    requires SameShape(s, t)
    ensures NextOccupied(s, k) == NextOccupied(t, k)
    decreases |s| - k
  {
    if k < |s| {
      NextOccupiedSameShape(s, t, k + 1);
    }
  }

  /** Two slot sequences whose cursors agree on the live count, on the next
      occupied slot from `k` and on everything after it agree from `k`. */
  lemma VisitsAgree<T>(s: seq<Option<T>>, t: seq<Option<T>>, k: nat)
    requires |s| == |t| && Count(s) == Count(t) && NextOccupied(s, k) == NextOccupied(t, k)
    requires NextOccupied(s, k) < |s| ==> Visits(s, NextOccupied(s, k) + 1) == Visits(t, NextOccupied(s, k) + 1)
    ensures Visits(s, k) == Visits(t, k)
  {
  }

  /** The cursor depends only on which slots are occupied, not on what they hold. */
  lemma {:induction false} VisitsSameShape<T>(s: seq<Option<T>>, t: seq<Option<T>>, k: nat)
    requires SameShape(s, t)
    ensures Visits(s, k) == Visits(t, k)
    decreases |s| - k
  {
    CountSameShape(s, t);
    NextOccupiedSameShape(s, t, k);
    var j := NextOccupied(s, k);
    if j < |s| {
      VisitsSameShape(s, t, j + 1);
    }
    VisitsAgree(s, t, k);
  }

  /** Pushing onto a container whose slots hold a prefix `q` with room left
      stores the value right after the prefix. */
  lemma PushOntoPrefix<T>(s: seq<Option<T>>, q: seq<T>, x: T)
    requires HoldsPrefix(s, q) && |q| < |s|
    ensures LowestFree(s) == |q|
    ensures HoldsPrefix(s[|q| := Some(x)], q + [x])
  {
    assert forall j :: 0 <= j < |s| ==> (s[j].Some? <==> j < |q|);
    LowestFreeFromSpec(s, 0);
    assert s[|q|].None?;
  }

  /** The cursor over a container holding the prefix `q` yields its slot indices `0..|q|-1`. */
  lemma VisitsOfHeldPrefix<T>(s: seq<Option<T>>, q: seq<T>)
    requires HoldsPrefix(s, q)
    ensures Visits(s, 0) == Range(0, |q|)
  {
    assert OccupiedPrefix(s, |q|);
    VisitsOfPrefix(s, |q|);
  }

  // ---------------------------------------------------------------------------
  // The container
  // ---------------------------------------------------------------------------

  class Container<T> {
    /** The four slots, stored inline. */
    const data: array<Option<T>>

    ghost predicate Valid()
    {
      data.Length == Capacity
    }

    /** The slot contents as a sequence. */
    ghost function Slots(): (s: seq<Option<T>>)
      reads data
    {
      data[..]
    }

    /** An empty container: four empty slots. */
    constructor ()
      ensures Valid() && fresh(data)
      ensures Slots() == [None, None, None, None]
      ensures Count(Slots()) == 0
    {
      data := new Option<T>[Capacity](_ => None);
      new;
      assert data[..] == [None, None, None, None];
      CountExtremes(data[..]);
    }

    /** Store `v` in the lowest empty slot and return its index; when every slot
        is occupied, slot 0 is overwritten. */
    method Push(v: T) returns (i: nat)
      requires Valid()
      modifies data
      ensures i == LowestFree(old(Slots())) && i < Capacity
      ensures Slots() == old(Slots())[i := Some(v)]
      ensures Get(i) == Some(v)
      ensures Count(old(Slots())) < Capacity ==>
                old(Slots())[i].None? && (forall j :: 0 <= j < i ==> old(Slots())[j].Some?) &&
                Count(Slots()) == Count(old(Slots())) + 1
      ensures Count(old(Slots())) == Capacity ==> i == 0 && Count(Slots()) == Capacity
    {
      ghost var s := data[..];
      var r := 0;
      for k := 0 to data.Length
        invariant r == 0
        invariant forall j :: 0 <= j < k ==> data[j].Some?
        invariant LowestFreeFrom(s, k) == LowestFree(s)
      {
        if data[k].None? {
          r := k;
          break;
        }
      }
      i := r;
      LowestFreeSpec(s);
      CountUpdate(s, i, Some(v));
      data[i] := Some(v);
    }

    /** The live count: the number of occupied slots. */
    method Size() returns (r: nat)
      requires Valid()
      ensures r == Count(Slots())
      ensures r <= Len()
    {
      r := 0;
      for k := 0 to data.Length
        invariant r == Count(data[..k])
      {
        assert data[..k + 1][..k] == data[..k];
        if data[k].Some? {
          r := r + 1;
        }
      }
      assert data[..data.Length] == data[..];
    }

    /** The capacity of the underlying slot array. */
    function Len(): (n: nat)
      requires Valid()
      ensures n == Capacity
    {
      data.Length
    }

    /** The contents of slot `i` (indexing past the last slot panics in the source). */
    function Get(i: nat): (r: Option<T>)
      requires i < data.Length
      reads data
      ensures r == Slots()[i]
    {
      data[i]
    }

    /** Empty slot `i`, touching no other slot. */
    method Remove(i: nat)
      requires Valid() && i < Capacity
      modifies data
      ensures Slots() == old(Slots())[i := None] && Get(i) == None
      ensures Count(Slots()) == Count(old(Slots())) - (if old(Slots())[i].Some? then 1 else 0)
    {
      CountUpdate(data[..], i, None);
      data[i] := None;
    }

    /** A write through the mutable reference that `get` or the cursor hands out
        for an occupied slot: the slot keeps being occupied, with the new value. */
    method WriteBack(i: nat, v: T)
      requires Valid() && i < Capacity && Get(i).Some?
      modifies data
      ensures Slots() == old(Slots())[i := Some(v)]
      ensures SameShape(Slots(), old(Slots()))
    {
      data[i] := Some(v);
    }

    /** A fresh cursor at position 0 over this container. */
    method Iter() returns (it: ContainerIterator<T>)
      ensures fresh(it)
      ensures it.container == this && it.index == 0
    {
      it := new ContainerIterator(this);
    }
  }

  class ContainerIterator<T> {
    var index: nat
    const container: Container<T>

    constructor (c: Container<T>)
      ensures container == c && index == 0
    {
      index := 0;
      container := c;
    }

    /** Yield the next occupied slot, or `(0, None)` once the position has reached
        the live count. The yielded index is the head of `Visits` from the old
        position and the new position continues the rest. */
    method Next() returns (i: nat, item: Option<T>)
      requires container.Valid()
      modifies this
      ensures item.Some? ==>
                i < Capacity && item == container.data[i] && index == i + 1 &&
                Visits(container.Slots(), old(index)) == [i] + Visits(container.Slots(), index)
      ensures item.None? ==>
                i == 0 && index == old(index) && Visits(container.Slots(), old(index)) == []
    {
      ghost var s := container.data[..];
      i, item := 0, None;
      var n := container.Size();
      if index < n {
        NextOccupiedInRange(s, index);
        ghost var target := NextOccupied(s, index);
        while container.Get(index).None? && index < container.Len()
          invariant index <= target < Capacity
          invariant NextOccupied(s, index) == target
          decreases Capacity - index
        {
          index := index + 1;
        }
        match container.Get(index)
        case Some(v) =>
          i := index;
          item := Some(v);
          index := index + 1;
        case None =>
      }
    }
  }

  // ---------------------------------------------------------------------------
  // Walking a container with its cursor
  // ---------------------------------------------------------------------------

  /** Move the cursor on, tracked against the visit sequence `v` of a slot
      sequence `s0` with the container's occupancy; `u` is what it has yielded. */
  method Advance<T>(c: Container<T>, iter: ContainerIterator<T>, ghost s0: seq<Option<T>>, ghost v: seq<nat>, ghost u: seq<nat>)
    returns (i: nat, item: Option<T>)
    requires iter.container == c && c.Valid() && SameShape(c.data[..], s0)
    requires v == u + Visits(s0, iter.index)
    modifies iter
    ensures iter.container == c
    ensures item.Some? ==> i < Capacity && item == c.data[i] && v == u + [i] + Visits(s0, iter.index)
    ensures item.None? ==> v == u
  {
    VisitsSameShape(iter.container.data[..], s0, iter.index);
    i, item := iter.Next();
    VisitsSameShape(iter.container.data[..], s0, iter.index);
    if item.Some? {
      assert v == u + ([i] + Visits(s0, iter.index));
    }
  }
}
