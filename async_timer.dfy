/** The timer-wait future and the process-wide waker registry it registers in.
    The registry is a slot container of (handle, waker) pairs plus a wrapping
    32-bit handle counter; the timer interrupt wakes every entry the cursor
    visits and removes none. */
module AsyncTimer {
  import opened Containers
  import opened Wakers

  const U32Modulus: int := 0x1_0000_0000

  type U32 = x: int | 0 <= x < 0x1_0000_0000

  /** `overflowing_add(1).0` on a `u32`: the successor, wrapping to 0. */
  function WrappingIncrement(h: U32): (r: U32)
    ensures h < U32Modulus - 1 ==> r == h + 1
    ensures h == U32Modulus - 1 ==> r == 0
  {
    (h + 1) % U32Modulus
  }

  /** A registration: a handle and the waker to invoke on each tick. */
  type Entry = (U32, Waker)

  // ---------------------------------------------------------------------------
  // Registration
  // ---------------------------------------------------------------------------

  /** The last index of `v` whose slot in `s` holds an entry with handle `h`:
      the scan remembers every match and keeps the latest one. */
  function LastMatch(s: seq<Option<Entry>>, v: seq<nat>, h: U32): (r: Option<nat>)
    ensures r.Some? ==> r.value < |s| && s[r.value].Some? && s[r.value].value.0 == h
  {
    if v == [] then None
    else
      var x := v[|v| - 1];
      if x < |s| && s[x].Some? && s[x].value.0 == h then Some(x)
      else LastMatch(s, v[..|v| - 1], h)
  }

  /** The scan finds a match exactly when some visited entry has handle `h`, and
      what it finds is a visited index. */
  lemma {:induction false} LastMatchSpec(s: seq<Option<Entry>>, v: seq<nat>, h: U32)
    ensures LastMatch(s, v, h).Some? ==> LastMatch(s, v, h).value in v
    ensures LastMatch(s, v, h).None? ==> forall x :: x in v && x < |s| && s[x].Some? ==> s[x].value.0 != h
    decreases |v|
  {
    if v != [] {
      var x := v[|v| - 1];
      var init := v[..|v| - 1];
      LastMatchSpec(s, init, h);
      assert v == init + [x];
      forall y: nat ensures y in v <==> y in init || y == x {}
    }
  }

  /** The registry contents after registering `(h, w)`: the last matching entry the
      scan visited is removed, then `(h, w)` is pushed into the lowest empty slot
      (slot 0 when the registry is full). */
  function Registered(s: seq<Option<Entry>>, h: U32, w: Waker): (r: seq<Option<Entry>>)
    requires |s| == Capacity
    ensures |r| == |s|
    ensures exists j :: 0 <= j < |r| && r[j] == Some((h, w))
  {
    var s1 := match LastMatch(s, Visits(s, 0), h)
      case Some(i) => s[i := None]
      case None => s;
    var i := LowestFree(s1);
    assert s1[i := Some((h, w))][i] == Some((h, w));
    s1[i := Some((h, w))]
  }

  /** Some occupied slot carries handle `h`. */
  ghost predicate HasHandle(s: seq<Option<Entry>>, h: U32)
  {
    exists j :: 0 <= j < |s| && s[j].Some? && s[j].value.0 == h
  }

  /** No two occupied slots carry the same handle. */
  ghost predicate UniqueHandles(s: seq<Option<Entry>>)
  {
    forall a, b :: 0 <= a < |s| && 0 <= b < |s| && s[a].Some? && s[b].Some? && s[a].value.0 == s[b].value.0 ==> a == b
  }

  /** While the registry's occupied slots form a prefix, registering keeps them a
      prefix. Re-registering a handle already present keeps the live count; a new
      handle adds one entry unless the registry is full, in which case slot 0 is
      overwritten and the count stays at the capacity. */
  lemma RegisteredKeepsPrefix(s: seq<Option<Entry>>, n: nat, h: U32, w: Waker)
    requires |s| == Capacity && OccupiedPrefix(s, n)
    ensures HasHandle(s, h) ==> OccupiedPrefix(Registered(s, h, w), n)
    ensures !HasHandle(s, h) && n < Capacity ==> OccupiedPrefix(Registered(s, h, w), n + 1)
    ensures !HasHandle(s, h) && n == Capacity ==> OccupiedPrefix(Registered(s, h, w), n)
    ensures Count(Registered(s, h, w)) == if HasHandle(s, h) || n == Capacity then n else n + 1
    ensures OccupiedPrefix(Registered(s, h, w), Count(Registered(s, h, w)))
  {
    VisitsOfPrefix(s, n);
    RangeSpec(0, n);
    var v := Visits(s, 0);
    var m := LastMatch(s, v, h);
    LastMatchSpec(s, v, h);
    var r := Registered(s, h, w);
    if HasHandle(s, h) {
      var j :| 0 <= j < |s| && s[j].Some? && s[j].value.0 == h;
      assert v[j] == j;
      RefillKeepsPrefix(s, n, m.value, Some((h, w)));
    } else {
      assert m.None?;
      PushKeepsPrefix(s, n, Some((h, w)));
    }
    CountOfPrefix(r, if HasHandle(s, h) || n == Capacity then n else n + 1);
  }

  /** Emptying an occupied slot of a prefix and storing into the lowest empty
      slot refills that same slot. */
  lemma RefillKeepsPrefix(s: seq<Option<Entry>>, n: nat, i: nat, e: Option<Entry>)
    requires |s| == Capacity && OccupiedPrefix(s, n) && i < |s| && s[i].Some? && e.Some?
    ensures LowestFree(s[i := None]) == i
    ensures OccupiedPrefix(s[i := None][i := e], n)
  {
    var s1 := s[i := None];
    LowestFreeSpec(s1);
    CountUpdate(s1, i, e);
  }

  /** Storing into the lowest empty slot of a prefix extends it by one slot, or
      overwrites slot 0 when every slot is occupied. */
  lemma PushKeepsPrefix(s: seq<Option<Entry>>, n: nat, e: Option<Entry>)
    requires |s| == Capacity && OccupiedPrefix(s, n) && e.Some?
    ensures n < Capacity ==> LowestFree(s) == n && OccupiedPrefix(s[n := e], n + 1)
    ensures n == Capacity ==> LowestFree(s) == 0 && OccupiedPrefix(s[0 := e], n)
  {
    LowestFreeSpec(s);
    CountOfPrefix(s, n);
    CountUpdate(s, LowestFree(s), e);
    if n < Capacity {
      assert s[n].None?;
    }
  }

  /** While the registry is a prefix, registering keeps every handle unique: the
      scan sees every entry, so an old entry for the same handle is always the one
      replaced. */
  lemma RegisteredKeepsUnique(s: seq<Option<Entry>>, n: nat, h: U32, w: Waker)
    requires |s| == Capacity && OccupiedPrefix(s, n) && UniqueHandles(s)
    ensures UniqueHandles(Registered(s, h, w))
    ensures HasHandle(Registered(s, h, w), h)
  {
    VisitsOfPrefix(s, n);
    RangeSpec(0, n);
    var v := Visits(s, 0);
    var m := LastMatch(s, v, h);
    LastMatchSpec(s, v, h);
    var s1 := match m case Some(i) => s[i := None] case None => s;
    var k := LowestFree(s1);
    var r := Registered(s, h, w);
    assert r == s1[k := Some((h, w))];
    if m.None? {
      forall j | 0 <= j < |s| && s[j].Some? ensures s[j].value.0 != h {
        assert v[j] == j;
      }
    }
    assert forall j :: 0 <= j < |s1| && s1[j].Some? ==> s1[j].value.0 != h;
    StoreFreshHandle(s1, k, (h, w));
  }

  /** Storing an entry whose handle no slot carries keeps the handles unique. */
  lemma StoreFreshHandle(s: seq<Option<Entry>>, k: nat, e: Entry)
    requires UniqueHandles(s) && k < |s|
    requires forall j :: 0 <= j < |s| && s[j].Some? ==> s[j].value.0 != e.0
    ensures UniqueHandles(s[k := Some(e)])
  {
  }

  /** The scan only sees the occupied slots below the live count: with entries in
      slots 1 and 3 only, re-registering the handle held in slot 3 leaves that
      entry in place and adds a second entry for the same handle in slot 0. The
      registry never reaches such a shape (see WakerRegistry.Valid). */
  lemma RegisteredBehindGapDuplicates(w1: Waker, w2: Waker, w3: Waker)
    ensures Registered([None, Some((5, w1)), None, Some((7, w2))], 7, w3)
         == [Some((7, w3)), Some((5, w1)), None, Some((7, w2))]
  {
    var s: seq<Option<Entry>> := [None, Some((5, w1)), None, Some((7, w2))];
    VisitsSkipsSlotAboveCount<Entry>((5, w1), (7, w2));
    assert Visits(s, 0) == [1];
    assert [1][..0] == [];
    assert LastMatch(s, [1], 7) == None;
  }

  // ---------------------------------------------------------------------------
  // Notification
  // ---------------------------------------------------------------------------

  /** The ready flags after waking, in order, the waker of every slot in `v`. */
  function Notified(w: seq<bool>, s: seq<Option<Entry>>, v: seq<nat>): (r: seq<bool>)
    ensures |r| == |w|
  {
    if v == [] then w
    else
      var x := v[|v| - 1];
      var r' := Notified(w, s, v[..|v| - 1]);
      if x < |s| && s[x].Some? && s[x].value.1.slot < |w| then r'[s[x].value.1.slot := true] else r'
  }

  /** A flag is set after the wakes exactly when it was set before or some
      visited entry's waker names it. */
  lemma {:induction false} NotifiedAt(w: seq<bool>, s: seq<Option<Entry>>, v: seq<nat>)
    ensures forall j :: 0 <= j < |w| ==>
              (Notified(w, s, v)[j] <==> w[j] || exists x :: x in v && x < |s| && s[x].Some? && s[x].value.1.slot == j)
    decreases |v|
  {
    if v != [] {
      var x := v[|v| - 1];
      var init := v[..|v| - 1];
      NotifiedAt(w, s, init);
      assert v == init + [x];
      forall y: nat ensures y in v <==> y in init || y == x {}
    }
  }

  /** While the registry is a prefix, an interrupt wakes the waker of every
      registered entry and no other flag changes. */
  lemma NotifyWakesAllRegistered(w: seq<bool>, s: seq<Option<Entry>>, n: nat)
    requires |s| == Capacity && OccupiedPrefix(s, n)
    ensures forall j :: 0 <= j < |w| ==>
              (Notified(w, s, Visits(s, 0))[j] <==>
               w[j] || exists x :: 0 <= x < |s| && s[x].Some? && s[x].value.1.slot == j)
  {
    NotifiedAt(w, s, Visits(s, 0));
    VisitsOfPrefix(s, n);
    RangeSpec(0, n);
    forall x | 0 <= x < |s| && s[x].Some? ensures x in Visits(s, 0) {
      assert Visits(s, 0)[x] == x;
    }
  }

  // ---------------------------------------------------------------------------
  // The registry: the WAKERS and WAKER_HANDLE globals
  // ---------------------------------------------------------------------------

  class WakerRegistry {
    /** WAKERS: the registered (handle, waker) pairs. */
    const wakers: Container<Entry>
    /** WAKER_HANDLE: the last handle issued. */
    var lastHandle: U32

    /** The occupied slots always form a prefix, and each handle is registered at most once. */
    ghost predicate Valid()
      reads wakers.data
    {
      wakers.Valid() &&
      OccupiedPrefix(wakers.data[..], Count(wakers.data[..])) &&
      UniqueHandles(wakers.data[..])
    }

    /** The registry at start-up: no entries, handle counter 0. */
    constructor ()
      ensures Valid() && fresh(wakers) && fresh(wakers.data)
      ensures lastHandle == 0 && wakers.Slots() == [None, None, None, None]
    {
      wakers := new Container<Entry>();
      lastHandle := 0;
    }

    /** Advance the handle counter by one, wrapping, and return the new value. */
    method NextHandle() returns (h: U32)
      modifies this
      ensures lastHandle == WrappingIncrement(old(lastHandle)) && h == lastHandle
    {
      lastHandle := WrappingIncrement(lastHandle);
      h := lastHandle;
    }

    /** The scan of `poll`: walk the registry with the cursor and remember the
        index of the last visited entry whose handle is `h`. */
    method FindLast(h: U32) returns (toRemove: Option<nat>)
      requires wakers.Valid()
      ensures toRemove == LastMatch(wakers.Slots(), Visits(wakers.Slots(), 0), h)
    {
      ghost var s := wakers.data[..];
      ghost var v := Visits(s, 0);
      ghost var u: seq<nat> := [];
      toRemove := None;
      var iter := wakers.Iter();
      var index: nat, item := Advance(wakers, iter, s, v, u);
      while item.Some?
        invariant iter.container == wakers && wakers.data[..] == s
        invariant item.Some? ==> index < Capacity && item == s[index] && v == u + [index] + Visits(s, iter.index)
        invariant item.None? ==> v == u
        invariant toRemove == LastMatch(s, u, h)
        decreases |v| - |u|
      {
        index, item, toRemove, u := ScanVisited(h, iter, index, item.value, toRemove, s, v, u);
      }
    }

    /** One round of the scan: remember the yielded slot if its entry has handle
        `h`, then move the cursor on. */
    method ScanVisited(h: U32, iter: ContainerIterator<Entry>, index: nat, entry: Entry, toRemove: Option<nat>,
                       ghost s: seq<Option<Entry>>, ghost v: seq<nat>, ghost u: seq<nat>)
      returns (index': nat, item': Option<Entry>, toRemove': Option<nat>, ghost u': seq<nat>)
      requires wakers.Valid() && iter.container == wakers && wakers.data[..] == s
      requires index < |s| && s[index] == Some(entry) && v == u + [index] + Visits(s, iter.index)
      requires toRemove == LastMatch(s, u, h)
      modifies iter
      ensures u' == u + [index] && toRemove' == LastMatch(s, u', h)
      ensures item'.Some? ==> index' < Capacity && item' == s[index'] && v == u' + [index'] + Visits(s, iter.index)
      ensures item'.None? ==> v == u'
    {
      toRemove' := if h == entry.0 then Some(index) else toRemove;
      assert (u + [index])[..|u|] == u;
      u' := u + [index];
      index', item' := Advance(wakers, iter, s, v, u');
    }

    /** Register `(h, w)`: remove the last entry for `h` the scan found, then push
        `(h, w)`. The prefix shape and the uniqueness of handles are kept. */
    method Register(h: U32, w: Waker)
      requires Valid()
      modifies wakers.data
      ensures Valid()
      ensures wakers.Slots() == Registered(old(wakers.Slots()), h, w)
      ensures HasHandle(wakers.Slots(), h)
      ensures HasHandle(old(wakers.Slots()), h) ==> Count(wakers.Slots()) == Count(old(wakers.Slots()))
    {
      ghost var s := wakers.data[..];
      var toRemove := FindLast(h);
      if toRemove.Some? {
        wakers.Remove(toRemove.value);
      }
      var _ := wakers.Push((h, w));
      RegisteredKeepsPrefix(s, Count(s), h, w);
      RegisteredKeepsUnique(s, Count(s), h, w);
    }

    /** The interrupt body: wake the waker of every entry the cursor visits;
        no entry is removed or altered. */
    method Notify(woken: array<bool>)
      requires wakers.Valid() && woken.Length == 4
      modifies woken
      ensures woken[..] == Notified(old(woken[..]), wakers.Slots(), Visits(wakers.Slots(), 0))
      ensures wakers.Slots() == old(wakers.Slots())
    {
      ghost var s := wakers.data[..];
      ghost var v := Visits(s, 0);
      ghost var w0 := woken[..];
      ghost var u: seq<nat> := [];
      var iter := wakers.Iter();
      var index: nat, item := Advance(wakers, iter, s, v, u);
      while item.Some?
        invariant iter.container == wakers && wakers.data[..] == s
        invariant item.Some? ==> index < Capacity && item == s[index] && v == u + [index] + Visits(s, iter.index)
        invariant item.None? ==> v == u
        invariant woken[..] == Notified(w0, s, u)
        decreases |v| - |u|
      {
        index, item, u := WakeVisited(woken, iter, index, item.value, s, v, w0, u);
      }
    }

    /** One round of the interrupt body: wake the yielded entry's waker, then
        move the cursor on. */
    method WakeVisited(woken: array<bool>, iter: ContainerIterator<Entry>, index: nat, entry: Entry,
                       ghost s: seq<Option<Entry>>, ghost v: seq<nat>, ghost w0: seq<bool>, ghost u: seq<nat>)
      returns (index': nat, item': Option<Entry>, ghost u': seq<nat>)
      requires wakers.Valid() && woken.Length == 4 && iter.container == wakers && wakers.data[..] == s
      requires index < |s| && s[index] == Some(entry) && v == u + [index] + Visits(s, iter.index)
      requires woken[..] == Notified(w0, s, u)
      modifies woken, iter
      ensures u' == u + [index] && woken[..] == Notified(w0, s, u')
      ensures item'.Some? ==> index' < Capacity && item' == s[index'] && v == u' + [index'] + Visits(s, iter.index)
      ensures item'.None? ==> v == u'
    {
      WakeByRef(entry.1, woken);
      assert wakers.data[..] == s;
      assert (u + [index])[..|u|] == u;
      u' := u + [index];
      ghost var w1 := woken[..];
      index', item' := Advance(wakers, iter, s, v, u');
      assert woken[..] == w1;
    }
  }

  // ---------------------------------------------------------------------------
  // The timer-wait future
  // ---------------------------------------------------------------------------

  /** One poll of a timer-wait with the given target and progress: the result and the new progress. */
  function TimerStep(target: U32, current: U32): (Poll, U32)
  {
    if current >= target then (Ready, current) else (Pending, current + 1)
  }

  /** The results of `n` successive polls starting from progress `current`. */
  function TimerTrace(target: U32, current: U32, n: nat): (r: seq<Poll>)
    ensures |r| == n
    decreases n
  {
    if n == 0 then []
    else
      var (p, c) := TimerStep(target, current);
      [p] + TimerTrace(target, c, n - 1)
  }

  /** From progress `current`, poll number `k` (counting from 0) is pending exactly
      while `current + k` is below the target. */
  lemma {:induction false} TimerTraceAt(target: U32, current: U32, n: nat, k: nat)
    requires k < n
    ensures TimerTrace(target, current, n)[k] == if current + k < target then Pending else Ready
    decreases n
  {
    if k > 0 {
      var (p, c) := TimerStep(target, current);
      TimerTraceAt(target, c, n - 1, k - 1);
      if current >= target {
        assert c == current;
        // Ready is a fixed point: once reached, every later poll stays Ready.
        assert TimerTrace(target, c, n - 1)[k - 1] == Ready;
      }
    }
  }

  /** A fresh timer-wait with target `N` is pending on exactly its first `N` polls
      and ready on every later one; with target 0 the first poll is ready. */
  lemma TimerCompletesAfterTarget(target: U32, n: nat)
    ensures forall k :: 0 <= k < n ==> (TimerTrace(target, 0, n)[k] == Pending <==> k < target)
  {
    forall k | 0 <= k < n ensures TimerTrace(target, 0, n)[k] == Pending <==> k < target {
      TimerTraceAt(target, 0, n, k);
    }
  }

  class TimerFuture {
    const target: U32
    var current: U32
    const handle: U32

    /** `TimerFuture::new`: take the next handle from the registry's counter and start at progress 0. */
    constructor (target: U32, registry: WakerRegistry)
      modifies registry
      ensures registry.lastHandle == WrappingIncrement(old(registry.lastHandle))
      ensures this.target == target && current == 0 && handle == registry.lastHandle
    {
      var h := registry.NextHandle();
      this.target := target;
      current := 0;
      handle := h;
    }

    /** Ready once the progress has reached the target, without touching the
        registry; otherwise advance the progress by one, register the polling
        task's waker under this future's handle, and stay pending. */
    method Poll(cx: Waker, registry: WakerRegistry) returns (p: Poll)
      requires registry.Valid()
      modifies this, registry.wakers.data
      ensures registry.Valid()
      ensures (p, current) == TimerStep(target, old(current))
      ensures p == Ready ==> registry.wakers.Slots() == old(registry.wakers.Slots())
      ensures p == Pending ==> registry.wakers.Slots() == Registered(old(registry.wakers.Slots()), handle, cx)
    {
      if current >= target {
        p := Ready;
      } else {
        current := current + 1;
        var waker := Clone(cx);
        registry.Register(handle, waker);
        p := Pending;
      }
    }
  }

  /** `async_wait(ticks)`: a timer-wait future for `ticks` ticks. */
  method AsyncWait(ticks: U32, registry: WakerRegistry) returns (f: TimerFuture)
    modifies registry
    ensures fresh(f)
    ensures f.target == ticks && f.current == 0
    ensures f.handle == registry.lastHandle == WrappingIncrement(old(registry.lastHandle))
  {
    f := new TimerFuture(ticks, registry);
  }
}
