/** The yield future: pending once, waking its own task so that it is polled
    again on the next executor pass, then ready for good. */
module YieldFuture {
  import opened Wakers

  /** What one poll does: its result, the new value of the flag, and whether it woke the caller. */
  datatype YieldResult = YieldResult(poll: Poll, flag: bool, wakes: bool)

  function YieldStep(flag: bool): YieldResult
  {
    if flag then YieldResult(Pending, false, true) else YieldResult(Ready, false, false)
  }

  /** The results of `n` successive polls starting with the given flag. */
  function YieldTrace(flag: bool, n: nat): (r: seq<YieldResult>)
    ensures |r| == n
  {
    if n == 0 then []
    else
      var step := YieldStep(flag);
      [step] + YieldTrace(step.flag, n - 1)
  }

  /** How many of the given polls woke the caller. */
  function WakeCount(r: seq<YieldResult>): nat
  {
    if r == [] then 0 else (if r[0].wakes then 1 else 0) + WakeCount(r[1..])
  }

  /** Once the flag is false, every poll is ready, wakes nothing and leaves the flag false. */
  lemma {:induction false} YieldSettled(n: nat)
    ensures forall k :: 0 <= k < n ==> YieldTrace(false, n)[k] == YieldResult(Ready, false, false)
    ensures WakeCount(YieldTrace(false, n)) == 0
  {
    if n > 0 {
      YieldSettled(n - 1);
      var t := YieldTrace(false, n);
      assert t == [YieldResult(Ready, false, false)] + YieldTrace(false, n - 1);
      assert t[1..] == YieldTrace(false, n - 1);
    }
  }

  /** A fresh yield future is pending on its first poll only and ready on every
      later one, its flag never becomes true again, and it wakes its caller
      exactly once over its lifetime. */
  lemma YieldPendingOnce(n: nat)
    requires n > 0
    ensures YieldTrace(true, n)[0] == YieldResult(Pending, false, true)
    ensures forall k :: 1 <= k < n ==> YieldTrace(true, n)[k] == YieldResult(Ready, false, false)
    ensures forall k :: 0 <= k < n ==> !YieldTrace(true, n)[k].flag
    ensures WakeCount(YieldTrace(true, n)) == 1
  {
    YieldSettled(n - 1);
    var t := YieldTrace(true, n);
    assert t == [YieldResult(Pending, false, true)] + YieldTrace(false, n - 1);
    assert t[1..] == YieldTrace(false, n - 1);
  }

  class YieldNow {
    var yieldNow: bool

    /** The future `yield_now()` awaits: constructed with its flag set. */
    constructor ()
      ensures yieldNow
    {
      yieldNow := true;
    }

    /** With the flag set: clear it, wake the caller through a clone of its waker
        and return pending. With the flag clear: return ready and wake nothing. */
    method Poll(cx: Waker, woken: array<bool>) returns (p: Poll)
      requires woken.Length == 4
      modifies this, woken
      ensures p == YieldStep(old(yieldNow)).poll && yieldNow == YieldStep(old(yieldNow)).flag
      ensures woken[..] == if YieldStep(old(yieldNow)).wakes then old(woken[..])[cx.slot := true] else old(woken[..])
    {
      if yieldNow {
        yieldNow := false;
        WakeByRef(Clone(cx), woken);
        p := Pending;
      } else {
        p := Ready;
      }
    }
  }
}
