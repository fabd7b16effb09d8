/** The executor: a slot container of tasks plus a same-indexed array of ready
    flags. Each pass polls every visited task whose flag is set, then removes
    the tasks that completed. A task is modelled by the script of what its
    successive polls do. */
module Executors {
  import opened Containers
  import opened Wakers
  import opened AsyncTimer
  import YieldFuture

  /** What one poll of a task does: its result, and whether the task woke its own waker while being polled. */
  datatype Outcome = Outcome(poll: Poll, wakesSelf: bool)

  /** A spawned task: what its successive polls do, and how many times it has
      been polled. Past the end of its script a task stays pending and wakes nothing. */
  datatype Task = Task(script: seq<Outcome>, polls: nat)

  /** What the task's next poll does. */
  function OutcomeOf(t: Task): Outcome
  {
    if t.polls < |t.script| then t.script[t.polls] else Outcome(Pending, false)
  }

  function Polled(t: Task): Task
  {
    t.(polls := t.polls + 1)
  }

  // ---------------------------------------------------------------------------
  // Specification of one pass
  // ---------------------------------------------------------------------------

  /** Slot `j` holds a task and its flag is set. */
  predicate Pollable(s: seq<Option<Task>>, w: seq<bool>, j: nat)
  {
    j < |s| && j < |w| && w[j] && s[j].Some?
  }

  /** Slot `j` is polled in a pass that visits `v`: visited, occupied and flagged. */
  predicate PolledAt(s: seq<Option<Task>>, w: seq<bool>, v: seq<nat>, j: nat)
  {
    j in v && Pollable(s, w, j)
  }

  /** The slots after the polls of a pass that visits `v`, before any removal:
      each visited, occupied, flagged task has been polled once more. */
  function AfterPolls(s: seq<Option<Task>>, w: seq<bool>, v: seq<nat>): (r: seq<Option<Task>>)
    ensures |r| == |s|
    decreases |v|
  {
    if v == [] then s
    else
      var x := v[|v| - 1];
      var r := AfterPolls(s, w, v[..|v| - 1]);
      if Pollable(s, w, x) then r[x := Some(Polled(s[x].value))] else r
  }

  /** The flags after the polls of a pass that visits `v`: a polled task's flag was
      cleared before the poll, so it is set only if the task woke itself. */
  function FlagsAfterPolls(s: seq<Option<Task>>, w: seq<bool>, v: seq<nat>): (r: seq<bool>)
    ensures |r| == |w|
    decreases |v|
  {
    if v == [] then w
    else
      var x := v[|v| - 1];
      var r := FlagsAfterPolls(s, w, v[..|v| - 1]);
      if Pollable(s, w, x) then r[x := OutcomeOf(s[x].value).wakesSelf] else r
  }

  /** Slot by slot, the polls of a pass change exactly the polled slots, and
      leave the occupancy as it was. */
  lemma {:induction false} AfterPollsAt(s: seq<Option<Task>>, w: seq<bool>, v: seq<nat>)
    ensures forall j :: 0 <= j < |s| ==>
              AfterPolls(s, w, v)[j] == if PolledAt(s, w, v, j) then Some(Polled(s[j].value)) else s[j]
    ensures forall j :: 0 <= j < |w| ==>
              FlagsAfterPolls(s, w, v)[j] == if PolledAt(s, w, v, j) then OutcomeOf(s[j].value).wakesSelf else w[j]
    ensures SameShape(AfterPolls(s, w, v), s)
    decreases |v|
  {
    if v != [] {
      var x := v[|v| - 1];
      var init := v[..|v| - 1];
      AfterPollsAt(s, w, init);
      assert v == init + [x];
      forall j: nat ensures j in v <==> j in init || j == x {}
    }
  }

  /** The slots queued for removal by a pass that visits `v`, in visiting order. */
  function ReadyQueue(s: seq<Option<Task>>, w: seq<bool>, v: seq<nat>): (q: seq<nat>)
    ensures |q| <= |v|
  {
    if v == [] then []
    else
      var x := v[|v| - 1];
      var q := ReadyQueue(s, w, v[..|v| - 1]);
      if Pollable(s, w, x) && OutcomeOf(s[x].value).poll == Ready then q + [x] else q
  }

  /** The queue holds exactly the visited slots whose task was polled and completed. */
  lemma {:induction false} ReadyQueueMembers(s: seq<Option<Task>>, w: seq<bool>, v: seq<nat>)
    ensures forall x: nat :: x in ReadyQueue(s, w, v) <==> PolledAt(s, w, v, x) && OutcomeOf(s[x].value).poll == Ready
    decreases |v|
  {
    if v != [] {
      var x := v[|v| - 1];
      var init := v[..|v| - 1];
      ReadyQueueMembers(s, w, init);
      assert v == init + [x];
      forall y ensures y in v <==> y in init || y == x {}
    }
  }

  /** The task slots after a whole pass: a polled task that completed is gone, a
      polled task that is still pending has advanced, every other slot is unchanged. */
  function SweptSlots(s: seq<Option<Task>>, w: seq<bool>): (r: seq<Option<Task>>)
  {
    var v := Visits(s, 0);
    seq(|s|, j requires 0 <= j < |s| =>
      if PolledAt(s, w, v, j) then
        (if OutcomeOf(s[j].value).poll == Ready then None else Some(Polled(s[j].value)))
      else s[j])
  }

  /** The flags after a whole pass: a completed task's flag is cleared, a pending
      polled task's flag is set only if it woke itself, every other flag is unchanged. */
  function SweptFlags(s: seq<Option<Task>>, w: seq<bool>): (r: seq<bool>)
  {
    var v := Visits(s, 0);
    seq(|w|, j requires 0 <= j < |w| =>
      if PolledAt(s, w, v, j) then
        OutcomeOf(s[j].value).poll == Pending && OutcomeOf(s[j].value).wakesSelf
      else w[j])
  }

  /** Extending the visited prefix `u` by a slot `i` it does not contain changes
      the polled state at `i` alone, and only when `i` is occupied and flagged. */
  lemma PollStep(s: seq<Option<Task>>, w: seq<bool>, u: seq<nat>, i: nat)
    requires |s| == |w| && i < |s| && i !in u && s[i].Some?
    ensures AfterPolls(s, w, u)[i] == s[i] && FlagsAfterPolls(s, w, u)[i] == w[i]
    ensures AfterPolls(s, w, u + [i]) ==
              if w[i] then AfterPolls(s, w, u)[i := Some(Polled(s[i].value))] else AfterPolls(s, w, u)
    ensures FlagsAfterPolls(s, w, u + [i]) ==
              if w[i] then FlagsAfterPolls(s, w, u)[i := OutcomeOf(s[i].value).wakesSelf] else FlagsAfterPolls(s, w, u)
    ensures ReadyQueue(s, w, u + [i]) ==
              if w[i] && OutcomeOf(s[i].value).poll == Ready then ReadyQueue(s, w, u) + [i] else ReadyQueue(s, w, u)
  {
    assert (u + [i])[..|u|] == u;
    AfterPollsAt(s, w, u);
  }

  /** In a strictly increasing visit sequence split as `u + [i] + rest`, the
      index `i` has not been visited before. */
  lemma FreshVisit<T>(s: seq<Option<T>>, u: seq<nat>, i: nat, rest: seq<nat>)
    requires Visits(s, 0) == u + [i] + rest
    ensures i !in u && |u| < |s| && i < |s| && s[i].Some?
  {
    var v := Visits(s, 0);
    VisitsSound(s, 0);
    assert v[|u|] == i && i in v;
    forall m | 0 <= m < |u| ensures u[m] != i {
      assert v[m] == u[m];
    }
  }

  /** The state of a pass that has visited `u`: the slots `s`, the flags `w`, the
      queue `ready` of completed slots, and the queue's container slots `q`. */
  ghost predicate PolledUpTo(s0: seq<Option<Task>>, w0: seq<bool>, u: seq<nat>,
                             s: seq<Option<Task>>, w: seq<bool>, ready: seq<nat>, q: seq<Option<nat>>)
  {
    |s0| == Capacity && |w0| == Capacity &&
    s == AfterPolls(s0, w0, u) && w == FlagsAfterPolls(s0, w0, u) &&
    ready == ReadyQueue(s0, w0, u) && HoldsPrefix(q, ready)
  }

  /** `s` with every position listed in `q` set to `x`, one position at a time. */
  function Cleared<X>(s: seq<X>, q: seq<nat>, x: X): (r: seq<X>)
    ensures |r| == |s|
    ensures forall j :: 0 <= j < |s| ==> r[j] == if j in q then x else s[j]
  {
    if q == [] then s
    else
      var last := q[|q| - 1];
      assert q == q[..|q| - 1] + [last];
      var r := Cleared(s, q[..|q| - 1], x);
      if last < |s| then r[last := x] else r
  }

  // ---------------------------------------------------------------------------
  // Lemmas about a pass
  // ---------------------------------------------------------------------------

  /** Every occupied, flagged slot below the live count is polled in the pass. */
  lemma SweepPollsFlaggedBelowCount(s: seq<Option<Task>>, w: seq<bool>, j: nat)
    requires |s| == |w| && j < Count(s) && s[j].Some? && w[j]
    ensures SweptSlots(s, w)[j] ==
              if OutcomeOf(s[j].value).poll == Ready then None else Some(Polled(s[j].value))
    ensures SweptFlags(s, w)[j] ==
              (OutcomeOf(s[j].value).poll == Pending && OutcomeOf(s[j].value).wakesSelf)
  {
    VisitsCoversBelowCount(s, 0, j);
  }

  /** When the occupied slots form a prefix, the pass polls every flagged task. */
  lemma SweepCompleteOnPrefix(s: seq<Option<Task>>, w: seq<bool>, n: nat)
    requires |s| == |w| && OccupiedPrefix(s, n)
    ensures forall j :: 0 <= j < n && w[j] ==> PolledAt(s, w, Visits(s, 0), j)
  {
    CountOfPrefix(s, n);
    forall j | 0 <= j < n && w[j] ensures PolledAt(s, w, Visits(s, 0), j) {
      VisitsCoversBelowCount(s, 0, j);
    }
  }

  /** With tasks in slots 1 and 3 only, the pass never reaches slot 3: that task
      keeps its state and its flag even when it is flagged and would complete. */
  lemma SweepSkipsTaskBehindGap(a: Task, b: Task, w: seq<bool>)
    requires |w| == Capacity
    ensures SweptSlots([None, Some(a), None, Some(b)], w)[3] == Some(b)
    ensures SweptFlags([None, Some(a), None, Some(b)], w)[3] == w[3]
  {
    VisitsSkipsSlotAboveCount(a, b);
  }

  /** The task never completes, however often it is polled from now on. */
  ghost predicate NeverCompletes(t: Task)
  {
    forall n :: t.polls <= n < |t.script| ==> t.script[n].poll == Pending
  }

  /** A task that awaits one yield future and then finishes. */
  function YieldTask(): Task
  {
    var r := YieldFuture.YieldTrace(true, 2);
    Task([Outcome(r[0].poll, r[0].wakes), Outcome(r[1].poll, r[1].wakes)], 0)
  }

  /** The yield task is pending and wakes itself on its first poll, and is ready
      without waking on its second. */
  lemma YieldTaskOutcomes()
    ensures OutcomeOf(YieldTask()) == Outcome(Pending, true)
    ensures OutcomeOf(Polled(YieldTask())) == Outcome(Ready, false)
  {
    YieldFuture.YieldPendingOnce(1);
    YieldFuture.YieldPendingOnce(2);
  }

  /** A pass over a lone task in slot 0 visits exactly that slot. */
  lemma LoneTaskVisited(t: Task)
    ensures Visits([Some(t), None, None, None], 0) == [0]
  {
    var s: seq<Option<Task>> := [Some(t), None, None, None];
    assert OccupiedPrefix(s, 1);
    VisitsOfPrefix(s, 1);
  }

  /** A pass over a lone task in slot 0 whose flag alone is set polls that task:
      it is removed with its flag cleared if it completes, and otherwise it stays,
      flagged exactly when it woke itself. */
  lemma LoneTaskPass(t: Task)
    ensures SweptSlots([Some(t), None, None, None], [true, false, false, false]) ==
              [if OutcomeOf(t).poll == Ready then None else Some(Polled(t)), None, None, None]
    ensures SweptFlags([Some(t), None, None, None], [true, false, false, false]) ==
              [OutcomeOf(t).poll == Pending && OutcomeOf(t).wakesSelf, false, false, false]
  {
    LoneTaskVisited(t);
  }

  /** Spawned alone, a task that awaits one yield is polled on two successive
      passes without any interrupt: the first leaves it pending and flagged by its
      own wake, the second completes and removes it. */
  lemma YieldTaskRunsTwoPasses()
    ensures SweptSlots([Some(YieldTask()), None, None, None], [true, false, false, false])
              == [Some(Polled(YieldTask())), None, None, None]
    ensures SweptFlags([Some(YieldTask()), None, None, None], [true, false, false, false])
              == [true, false, false, false]
    ensures SweptSlots([Some(Polled(YieldTask())), None, None, None], [true, false, false, false])
              == [None, None, None, None]
    ensures SweptFlags([Some(Polled(YieldTask())), None, None, None], [true, false, false, false])
              == [false, false, false, false]
  {
    YieldTaskOutcomes();
    LoneTaskPass(YieldTask());
    LoneTaskPass(Polled(YieldTask()));
  }

  /** The task slots and flags at the end of a run over the tick schedule
      `ticks` against the registry contents `reg`: before each pass the
      interrupt wakes the registered wakers if that entry is true, then the pass
      runs; the run stops after the first pass that leaves no task, or when the
      schedule is exhausted. */
  function RunFrom(s: seq<Option<Task>>, w: seq<bool>, reg: seq<Option<Entry>>, ticks: seq<bool>): (r: (seq<Option<Task>>, seq<bool>))
    ensures |r.0| == |s| && |r.1| == |w|
    decreases |ticks|
  {
    if ticks == [] then (s, w)
    else
      var w1 := if ticks[0] then Notified(w, reg, Visits(reg, 0)) else w;
      var s2, w2 := SweptSlots(s, w1), SweptFlags(s, w1);
      if Count(s2) == 0 then (s2, w2) else RunFrom(s2, w2, reg, ticks[1..])
  }

  /** Starvation behind a gap: while the task in slot 1 never completes, a run
      never polls the task in slot 3, whatever the flags it starts from, the
      registered wakers and the tick schedule. */
  lemma {:induction false} TaskBehindGapStarves(a: Task, b: Task, w: seq<bool>, reg: seq<Option<Entry>>, ticks: seq<bool>)
    requires NeverCompletes(a) && |w| == Capacity
    ensures RunFrom([None, Some(a), None, Some(b)], w, reg, ticks).0[3] == Some(b)
    decreases |ticks|
  {
    if ticks != [] {
      var s := [None, Some(a), None, Some(b)];
      var w1 := if ticks[0] then Notified(w, reg, Visits(reg, 0)) else w;
      VisitsSkipsSlotAboveCount(a, b);
      var a' := if w1[1] then Polled(a) else a;
      var s2 := SweptSlots(s, w1);
      assert s2 == [None, Some(a'), None, Some(b)];
      CountExtremes(s2);
      assert s2[1].Some?;
      TaskBehindGapStarves(a', b, SweptFlags(s, w1), reg, ticks[1..]);
    }
  }

  /** A pass over a lone task in slot 0 whose flag is set polls that task,
      whatever the other flags: it is removed if it completes, and otherwise it
      stays, flagged exactly when it woke itself. */
  lemma LoneFlaggedTaskPass(t: Task, w: seq<bool>)
    requires |w| == Capacity && w[0]
    ensures SweptSlots([Some(t), None, None, None], w) ==
              [if OutcomeOf(t).poll == Ready then None else Some(Polled(t)), None, None, None]
    ensures SweptFlags([Some(t), None, None, None], w)[0] ==
              (OutcomeOf(t).poll == Pending && OutcomeOf(t).wakesSelf)
  {
    LoneTaskVisited(t);
  }

  /** `execute(yield_now())` removes the task within two passes under any tick
      schedule: an interrupt only sets flags, and the yield's own wake keeps
      slot 0 flagged for the second pass. */
  lemma YieldFinishesUnderAnySchedule(reg: seq<Option<Entry>>, ticks: seq<bool>)
    requires |ticks| >= 2
    ensures RunFrom([Some(YieldTask()), None, None, None], [true, false, false, false], reg, ticks).0
              == [None, None, None, None]
  {
    YieldTaskOutcomes();
    var s0: seq<Option<Task>> := [Some(YieldTask()), None, None, None];
    var w0 := [true, false, false, false];
    var w1 := if ticks[0] then Notified(w0, reg, Visits(reg, 0)) else w0;
    NotifiedAt(w0, reg, Visits(reg, 0));
    assert w1[0];
    LoneFlaggedTaskPass(YieldTask(), w1);
    var s2: seq<Option<Task>> := [Some(Polled(YieldTask())), None, None, None];
    assert SweptSlots(s0, w1) == s2;
    assert Count(s2) == 1 by {
      assert OccupiedPrefix(s2, 1);
      CountOfPrefix(s2, 1);
    }
    var w2 := SweptFlags(s0, w1);
    assert w2[0];
    var rest := ticks[1..];
    var w3 := if rest[0] then Notified(w2, reg, Visits(reg, 0)) else w2;
    NotifiedAt(w2, reg, Visits(reg, 0));
    assert w3[0];
    LoneFlaggedTaskPass(Polled(YieldTask()), w3);
    var e: seq<Option<Task>> := [None, None, None, None];
    assert SweptSlots(s2, w3) == e;
    assert Count(e) == 0 by {
      CountExtremes(e);
    }
  }

  /** `execute(yield_now())`: spawned alone, the yield task finishes within two
      passes, without any interrupt, and leaves every slot empty and every flag clear. */
  lemma ExecuteYieldFinishes(reg: seq<Option<Entry>>, ticks: seq<bool>)
    requires |ticks| >= 2 && !ticks[0] && !ticks[1]
    ensures RunFrom([Some(YieldTask()), None, None, None], [true, false, false, false], reg, ticks)
              == ([None, None, None, None], [false, false, false, false])
  {
    YieldTaskRunsTwoPasses();
    var s1: seq<Option<Task>> := [Some(Polled(YieldTask())), None, None, None];
    var e: seq<Option<Task>> := [None, None, None, None];
    assert Count(s1) == 1 by {
      assert OccupiedPrefix(s1, 1);
      CountOfPrefix(s1, 1);
    }
    assert Count(e) == 0 by {
      CountExtremes(e);
    }
  }

  // ---------------------------------------------------------------------------
  // The executor
  // ---------------------------------------------------------------------------

  class Executor {
    /** The task set. */
    const tasks: Container<Task>
    /** The ready flag of each task slot. */
    const woken: array<bool>

    ghost predicate Valid()
    {
      tasks.Valid() && woken.Length == Capacity
    }

    ghost function Slots(): seq<Option<Task>>
      reads tasks.data
    {
      tasks.data[..]
    }

    ghost function Flags(): seq<bool>
      reads woken
    {
      woken[..]
    }

    /** An empty task set with every flag clear. */
    constructor ()
      ensures Valid() && fresh(tasks) && fresh(tasks.data) && fresh(woken)
      ensures Slots() == [None, None, None, None] && Flags() == [false, false, false, false]
    {
      tasks := new Container<Task>();
      woken := new bool[Capacity](_ => false);
      new;
      assert woken[..] == [false, false, false, false];
    }

    /** Store the task where `push` puts it (slot 0 when the set is full) and set
        exactly that slot's flag. */
    method Spawn(t: Task)
      requires Valid()
      modifies tasks.data, woken
      ensures Slots() == old(Slots())[LowestFree(old(Slots())) := Some(t)]
      ensures Flags() == old(Flags())[LowestFree(old(Slots())) := true]
      ensures Count(old(Slots())) < Capacity ==> Count(Slots()) == Count(old(Slots())) + 1
      ensures Count(old(Slots())) == Capacity ==> LowestFree(old(Slots())) == 0
    {
      var i := tasks.Push(t);
      woken[i] := true;
    }

    /** The polling loop of a pass: every visited task whose flag is set has the
        flag cleared and is polled with a waker for its own slot; the slots of
        the tasks that completed are queued in a fresh container. */
    method PollPass() returns (toRemove: Container<nat>, ghost ready: seq<nat>)
      requires Valid()
      modifies tasks.data, woken
      ensures fresh(toRemove) && fresh(toRemove.data) && toRemove.Valid()
      ensures PolledUpTo(old(Slots()), old(Flags()), Visits(old(Slots()), 0), Slots(), Flags(), ready, toRemove.Slots())
    {
      ghost var s0, w0 := tasks.data[..], woken[..];
      ghost var v := Visits(s0, 0);
      toRemove := new Container<nat>();
      ready := [];
      ghost var u: seq<nat> := [];
      var iter := tasks.Iter();
      var i: nat, item := iter.Next();
      while item.Some?
        invariant fresh(toRemove) && fresh(toRemove.data) && toRemove.Valid()
        invariant fresh(iter) && iter.container == tasks
        invariant PolledUpTo(s0, w0, u, tasks.data[..], woken[..], ready, toRemove.data[..])
        invariant item.Some? ==> i < Capacity && v == u + [i] + Visits(s0, iter.index)
        invariant item.None? ==> v == u
        decreases |v| - |u|
      {
        i, item, u, ready := PollVisited(iter, i, toRemove, s0, w0, v, u, ready);
      }
    }

    /** One round of the polling loop: poll the slot the cursor yielded, then
        move the cursor on. */
    method PollVisited(iter: ContainerIterator<Task>, i: nat, toRemove: Container<nat>,
                       ghost s0: seq<Option<Task>>, ghost w0: seq<bool>, ghost v: seq<nat>,
                       ghost u: seq<nat>, ghost ready: seq<nat>)
      returns (i': nat, item': Option<Task>, ghost u': seq<nat>, ghost ready': seq<nat>)
      requires Valid() && toRemove.Valid() && iter.container == tasks
      requires v == Visits(s0, 0) && i < Capacity && v == u + [i] + Visits(s0, iter.index)
      requires PolledUpTo(s0, w0, u, tasks.data[..], woken[..], ready, toRemove.data[..])
      modifies tasks.data, woken, toRemove.data, iter
      ensures u' == u + [i] && iter.container == tasks
      ensures PolledUpTo(s0, w0, u', tasks.data[..], woken[..], ready', toRemove.data[..])
      ensures item'.Some? ==> i' < Capacity && v == u' + [i'] + Visits(s0, iter.index)
      ensures item'.None? ==> v == u'
    {
      FreshVisit(s0, u, i, Visits(s0, iter.index));
      AfterPollsAt(s0, w0, u + [i]);
      ready' := PollSlot(i, toRemove, s0, w0, u, ready);
      u' := u + [i];
      assert v == u' + Visits(s0, iter.index);
      ghost var s1, w1, q1 := tasks.data[..], woken[..], toRemove.data[..];
      i', item' := Advance(tasks, iter, s0, v, u');
      assert tasks.data[..] == s1 && woken[..] == w1 && toRemove.data[..] == q1;
    }

    /** One step of the polling loop on occupied slot `i`: if its flag is set,
        clear it, poll the task with a waker for slot `i`, let the task wake
        itself, and queue the slot when the task completed. */
    method PollSlot(i: nat, toRemove: Container<nat>, ghost s0: seq<Option<Task>>, ghost w0: seq<bool>,
                    ghost u: seq<nat>, ghost ready: seq<nat>) returns (ghost ready': seq<nat>)
      requires Valid() && toRemove.Valid() && i < Capacity && i !in u && |u| < Capacity
      requires PolledUpTo(s0, w0, u, tasks.data[..], woken[..], ready, toRemove.data[..]) && s0[i].Some?
      modifies tasks.data, woken, toRemove.data
      ensures PolledUpTo(s0, w0, u + [i], tasks.data[..], woken[..], ready', toRemove.data[..])
    {
      PollStep(s0, w0, u, i);
      ready' := ready;
      var t := tasks.Get(i).value;
      if woken[i] {
        woken[i] := false;
        var outcome := OutcomeOf(t);
        ghost var q := toRemove.data[..];
        tasks.WriteBack(i, Polled(t));
        if outcome.wakesSelf {
          WakeByRef(Waker(i), woken);
        }
        assert woken[..] == FlagsAfterPolls(s0, w0, u + [i]);
        assert tasks.data[..] == AfterPolls(s0, w0, u + [i]);
        assert toRemove.data[..] == q;
        if outcome.poll == Ready {
          ghost var s1, w1 := tasks.data[..], woken[..];
          PushOntoPrefix(toRemove.data[..], ready, i);
          var _ := toRemove.Push(i);
          ready' := ready + [i];
          assert tasks.data[..] == s1 && woken[..] == w1;
        }
      }
    }

    /** The removal loop of a pass: walk the queue and, for each queued slot,
        remove its task and clear its flag. */
    method RemovePass(toRemove: Container<nat>, ghost ready: seq<nat>)
      requires Valid() && toRemove.Valid()
      requires HoldsPrefix(toRemove.Slots(), ready)
      requires forall x :: x in ready ==> x < Capacity
      modifies tasks.data, woken
      ensures Slots() == Cleared(old(Slots()), ready, None)
      ensures Flags() == Cleared(old(Flags()), ready, false)
    {
      ghost var r := toRemove.data[..];
      ghost var s0, w0 := tasks.data[..], woken[..];
      ghost var n := |ready|;
      ghost var v := Visits(r, 0);
      VisitsOfHeldPrefix(r, ready);
      RangeSpec(0, n);
      ghost var u: seq<nat> := [];
      ghost var done: seq<nat>, todo := [], ready;
      var iter := toRemove.Iter();
      var m: nat, item := Advance(toRemove, iter, r, v, u);
      while item.Some?
        invariant fresh(iter) && iter.container == toRemove && toRemove.data[..] == r
        invariant ready == done + todo && |done| == |u|
        invariant item.Some? ==> m < Capacity && item == r[m] && v == u + [m] + Visits(r, iter.index)
        invariant item.None? ==> v == u
        invariant tasks.data[..] == Cleared(s0, done, None)
        invariant woken[..] == Cleared(w0, done, false)
        decreases n - |u|
      {
        m, item, u, done, todo := RemoveVisited(toRemove, iter, m, item.value, r, v, u, s0, w0, ready, done, todo);
      }
      assert done == ready;
    }

    /** One round of the removal loop: remove the task of the queued slot the
        cursor yielded, clear its flag, and move the cursor on. */
    method RemoveVisited(toRemove: Container<nat>, iter: ContainerIterator<nat>, m: nat, slot: nat,
                         ghost r: seq<Option<nat>>, ghost v: seq<nat>, ghost u: seq<nat>,
                         ghost s0: seq<Option<Task>>, ghost w0: seq<bool>,
                         ghost ready: seq<nat>, ghost done: seq<nat>, ghost todo: seq<nat>)
      returns (m': nat, item': Option<nat>, ghost u': seq<nat>, ghost done': seq<nat>, ghost todo': seq<nat>)
      requires Valid() && toRemove.Valid() && iter.container == toRemove && toRemove.data[..] == r
      requires HoldsPrefix(r, ready) && v == Range(0, |ready|) && (forall x :: x in ready ==> x < Capacity)
      requires ready == done + todo && |done| == |u|
      requires m < Capacity && r[m] == Some(slot) && v == u + [m] + Visits(r, iter.index)
      requires tasks.data[..] == Cleared(s0, done, None) && woken[..] == Cleared(w0, done, false)
      modifies tasks.data, woken, iter
      ensures iter.container == toRemove && ready == done' + todo' && |done'| == |u'| && |u'| == |u| + 1
      ensures item'.Some? ==> m' < Capacity && item' == r[m'] && v == u' + [m'] + Visits(r, iter.index)
      ensures item'.None? ==> v == u'
      ensures tasks.data[..] == Cleared(s0, done', None) && woken[..] == Cleared(w0, done', false)
    {
      RangeSpec(0, |ready|);
      assert v[|u|] == m;
      assert slot == todo[0] && todo[0] in ready;
      RemoveQueued(slot, s0, w0, done);
      assert ready == (done + [todo[0]]) + todo[1..];
      done', todo' := done + [todo[0]], todo[1..];
      u' := u + [m];
      m', item' := Advance(toRemove, iter, r, v, u');
    }

    /** One round of the removal loop: remove the queued slot's task and clear its flag. */
    method RemoveQueued(slot: nat, ghost s0: seq<Option<Task>>, ghost w0: seq<bool>, ghost done: seq<nat>)
      requires Valid() && slot < Capacity
      requires tasks.data[..] == Cleared(s0, done, None) && woken[..] == Cleared(w0, done, false)
      modifies tasks.data, woken
      ensures tasks.data[..] == Cleared(s0, done + [slot], None) && woken[..] == Cleared(w0, done + [slot], false)
    {
      assert (done + [slot])[..|done|] == done;
      tasks.Remove(slot);
      woken[slot] := false;
    }

    /** One pass of the run loop, as one atomic step: poll the flagged visited
        tasks, remove the completed ones, and report whether the task set is
        now empty. */
    method Sweep() returns (done: bool)
      requires Valid()
      modifies tasks.data, woken
      ensures Slots() == SweptSlots(old(Slots()), old(Flags()))
      ensures Flags() == SweptFlags(old(Slots()), old(Flags()))
      ensures done <==> Count(Slots()) == 0
    {
      ghost var s0, w0 := Slots(), Flags();
      ghost var v := Visits(s0, 0);
      var toRemove, ready := PollPass();
      ReadyQueueMembers(s0, w0, v);
      AfterPollsAt(s0, w0, v);
      ghost var s1, w1 := Slots(), Flags();
      RemovePass(toRemove, ready);
      assert Slots() == SweptSlots(s0, w0) by {
        forall j | 0 <= j < Capacity ensures Slots()[j] == SweptSlots(s0, w0)[j] {
          assert s1[j] == AfterPolls(s0, w0, v)[j];
        }
      }
      assert Flags() == SweptFlags(s0, w0) by {
        forall j | 0 <= j < Capacity ensures Flags()[j] == SweptFlags(s0, w0)[j] {
          assert w1[j] == FlagsAfterPolls(s0, w0, v)[j];
        }
      }
      var n := tasks.Size();
      done := n == 0;
    }

    /** The run loop: passes repeat until the task set is empty. A run need not
        end, so the model runs at most one pass per entry of `ticks`; an entry
        that is true means the timer interrupt fires (and wakes the registered
        wakers) just before that pass. */
    method Run(registry: WakerRegistry, ticks: seq<bool>) returns (done: bool)
      requires Valid() && registry.wakers.Valid()
      modifies tasks.data, woken
      ensures (Slots(), Flags()) == RunFrom(old(Slots()), old(Flags()), registry.wakers.Slots(), ticks)
      ensures done <==> |ticks| > 0 && Count(Slots()) == 0
    {
      ghost var reg := registry.wakers.Slots();
      ghost var target := RunFrom(Slots(), Flags(), reg, ticks);
      done := false;
      var k := 0;
      while !done && k < |ticks|
        invariant 0 <= k <= |ticks| && registry.wakers.Slots() == reg
        invariant done ==> k > 0 && Count(Slots()) == 0 && target == (Slots(), Flags())
        invariant !done ==> target == RunFrom(Slots(), Flags(), reg, ticks[k..])
        invariant k > 0 && !done ==> Count(Slots()) != 0
      {
        assert ticks[k..][1..] == ticks[k + 1..];
        if ticks[k] {
          registry.Notify(woken);
        }
        done := Sweep();
        k := k + 1;
      }
    }
  }

  /** `execute`: spawn one task on a fresh executor and run it; the run starts
      from the task alone in slot 0 with only its flag set. */
  method Execute(task: Task, registry: WakerRegistry, ticks: seq<bool>) returns (exec: Executor, done: bool)
    requires registry.wakers.Valid()
    ensures fresh(exec) && exec.Valid()
    ensures (exec.Slots(), exec.Flags()) ==
              RunFrom([Some(task), None, None, None], [true, false, false, false], registry.wakers.Slots(), ticks)
    ensures done <==> |ticks| > 0 && Count(exec.Slots()) == 0
  {
    exec := new Executor();
    assert LowestFree(exec.Slots()) == 0;
    exec.Spawn(task);
    assert exec.Slots() == [Some(task), None, None, None];
    assert exec.Flags() == [true, false, false, false];
    done := exec.Run(registry, ticks);
  }

  /** `execute2`: spawn two tasks on a fresh executor and run them; the run
      starts from the tasks in slots 0 and 1 with both flags set. */
  method Execute2(task1: Task, task2: Task, registry: WakerRegistry, ticks: seq<bool>) returns (exec: Executor, done: bool)
    requires registry.wakers.Valid()
    ensures fresh(exec) && exec.Valid()
    ensures (exec.Slots(), exec.Flags()) ==
              RunFrom([Some(task1), Some(task2), None, None], [true, true, false, false], registry.wakers.Slots(), ticks)
    ensures done <==> |ticks| > 0 && Count(exec.Slots()) == 0
  {
    exec := new Executor();
    assert LowestFree(exec.Slots()) == 0;
    exec.Spawn(task1);
    assert exec.Slots() == [Some(task1), None, None, None];
    assert exec.Flags() == [true, false, false, false];
    assert LowestFreeFrom(exec.Slots(), 1) == 1;
    exec.Spawn(task2);
    assert exec.Slots() == [Some(task1), Some(task2), None, None];
    assert exec.Flags() == [true, true, false, false];
    done := exec.Run(registry, ticks);
  }
}
