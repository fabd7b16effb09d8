/** The poll result of a future and the executor's wake signal. A waker is a raw
    pointer to one task's ready flag; its only effect is to set that flag. */
module Wakers {

  datatype Poll = Ready | Pending

  /** A task slot index of the executor. */
  type Slot = i: nat | i < 4

  /** A waker names the ready flag of the task in `slot`. */
  datatype Waker = Waker(slot: Slot)

  /** Cloning a waker yields a waker for the same flag. */
  function Clone(w: Waker): (c: Waker)
    ensures c.slot == w.slot
  {
    Waker(w.slot)
  }

  /** Set the waker's own flag and nothing else. */
  method WakeByRef(w: Waker, woken: array<bool>)
    requires woken.Length == 4
    modifies woken
    ensures woken[..] == old(woken[..])[w.slot := true]
  {
    woken[w.slot] := true;
  }

  /** Waking by value has the same effect as waking by reference. */
  method Wake(w: Waker, woken: array<bool>)
    requires woken.Length == 4
    modifies woken
    ensures woken[..] == old(woken[..])[w.slot := true]
  {
    WakeByRef(w, woken);
  }
}
