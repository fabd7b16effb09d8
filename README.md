# Allocation-free async runtime for the BL602, modelled in Dafny

This project models the core of a small single-threaded async runtime for a
RISC-V microcontroller without a heap:

- **`Containers`** (`container.dfy`): the fixed four-slot container and its cursor.
  - `push` takes the lowest empty slot, or slot 0 when every slot is full.
  - `size` counts the occupied slots; `remove` empties one slot.
  - The cursor's `next` only steps while its position is below the live count.
- **`Wakers`** (`wakers.dfy`): the poll result and the waker vtable.
  - A waker points at one ready flag of the executor.
  - Waking by value or by reference sets that flag; cloning keeps the same flag; dropping does nothing.
- **`YieldFuture`** (`yield_now.dfy`): the `yield_now` future.
  - Its first poll is pending and wakes its own task; every later poll is ready.
- **`AsyncTimer`** (`async_timer.dfy`): the timer interrupt's waker registry and the timer-wait future.
  - The registry (the `WAKERS` container and the wrapping `WAKER_HANDLE` counter) is the class `WakerRegistry`.
  - The interrupt body is `WakerRegistry.Notify`.
  - The future polls ready once its progress reaches its target. Until then it re-registers its waker under its handle on every poll.
- **`Executors`** (`executor.dfy`): the executor, with its task container and its array of ready flags.
  - It has `spawn`, the run loop, and `execute`/`execute2`.

The imperative code stays imperative:
- The containers are classes over an `array`, and every loop is a `while` or `for` loop.
- Each method is proved against a specification function: `Visits` for the cursor, `Registered` and `Notified` for the registry, and `SweptSlots`/`SweptFlags`/`RunFrom` for the executor.

The lemmas then state what those functions promise:
- When the occupied slots form a prefix, the cursor visits every one of them.
- A task or registration behind a gap is skipped, and the skipped task starves.
- The registry keeps the prefix shape and unique handles under registration.
- A fresh timer-wait is pending on exactly its first `target` polls.
- A yield is pending once and wakes once.
- `execute(yield_now())` finishes in two passes.

One might expect the cursor to visit every occupied slot in ascending order.
- The code (`src/container.rs:73`) stops as soon as the position reaches the live count.
- So with slots 1 and 3 occupied, slot 3 is never visited (`VisitsSkipsSlotAboveCount`).
- The registry can never take such a shape (`WakerRegistry.Valid`, kept by `Register`).
- The task set can (`SweepSkipsTaskBehindGap`, `TaskBehindGapStarves`).

## Model

| member | source | states |
|---|---|---|
| Containers.Container.constructor | src/container.rs:10-14 | a new container has four empty slots and live count 0 |
| Containers.Container.Push | src/container.rs:16-31 | stores the value in the lowest empty slot and returns that index; when every slot is occupied it overwrites slot 0 and the count stays at 4; otherwise the count grows by one; no other slot changes |
| Containers.LowestFreeSpec | src/container.rs:16-31 | the slot `push` picks is empty with every lower slot occupied, or slot 0 when the container is full |
| Containers.PushOntoPrefix | src/container.rs:16-31 | pushing onto a container that holds a prefix of values appends the value right after that prefix |
| Containers.Container.Size | src/container.rs:33-42 | returns the number of occupied slots, at most the capacity |
| Containers.CountExtremes | src/container.rs:33-42 | the live count is 0 exactly when every slot is empty, and 4 exactly when every slot is occupied |
| Containers.CountUpdate | src/container.rs:33-42 | overwriting one slot changes the live count by the change in that slot's occupancy |
| Containers.CountOfPrefix | src/container.rs:33-42 | when slots `0..n-1` are occupied and the rest empty, the live count is `n` |
| Containers.Container.Len | src/container.rs:44-47 | the capacity is 4 |
| Containers.Container.WriteBack | src/container.rs:49-51 | writing through the mutable reference `get` hands out for an occupied slot replaces that slot's value and changes no occupancy |
| Containers.Container.Get | src/container.rs:49-51 | returns the contents of slot `i`; after `Push(v)` returns `i`, `Get(i) == Some(v)`, and after `Remove(i)`, `Get(i) == None` |
| Containers.Container.Remove | src/container.rs:53-55 | empties slot `i` (so `Get(i)` is `None`) and no other, decreasing the live count exactly when the slot was occupied |
| Containers.Container.Iter | src/container.rs:57-63 | returns a fresh cursor at position 0 over this container, built by `ContainerIterator.constructor` |
| Containers.ContainerIterator.constructor | src/container.rs:59-62 | the cursor literal built by `iter`: position 0 over the given container |
| Containers.ContainerIterator.Next | src/container.rs:72-90 | yields the head of `Visits` from the old position and moves past it, or returns `(0, None)` without moving once `Visits` is empty |
| Containers.NextOccupiedInRange | src/container.rs:73-76 | while the position is below the live count, the skip loop stops on an occupied slot inside the array, so `get` never reads past the last slot |
| Containers.VisitsSound | src/container.rs:72-90 | every yielded index is an occupied slot at or above the start, and the yielded indices strictly increase |
| Containers.VisitsCoversBelowCount | src/container.rs:72-90 | every occupied slot below the live count is yielded |
| Containers.VisitsOfPrefix | src/container.rs:72-90 | when the occupied slots are `0..n-1`, the cursor yields exactly `0, 1, ..., n-1` in order |
| Containers.VisitsOfHeldPrefix | src/container.rs:72-90 | a container holding a prefix of values is walked over exactly that prefix's slots |
| Containers.VisitsSkipsSlotAboveCount | src/container.rs:73-89 | with only slots 1 and 3 occupied, the cursor yields slot 1 and then stops; slot 3 is never yielded |
| Containers.VisitsSameShape | src/container.rs:72-90 | what the cursor yields depends only on which slots are occupied, not on their values |
| Wakers.Clone | src/executor.rs:11-13 | a cloned waker names the same ready flag |
| Wakers.Wake | src/executor.rs:14-16 | waking by value sets exactly the waker's own flag |
| Wakers.WakeByRef | src/executor.rs:17-20 | waking by reference sets exactly the waker's own flag and leaves every other flag as it was |
| YieldFuture.YieldNow.constructor | src/yield_now.rs:25-27 | `yield_now()` awaits a future whose flag is set |
| YieldFuture.YieldNow.Poll | src/yield_now.rs:11-22 | with the flag set: clears it, sets the caller's ready flag and returns pending; with the flag clear: returns ready and wakes nothing |
| YieldFuture.YieldSettled | src/yield_now.rs:15-21 | once the flag is clear, every poll is ready and wakes nothing |
| YieldFuture.YieldPendingOnce | src/yield_now.rs:11-27 | a fresh yield is pending on its first poll only, ready on every later one, and wakes its caller exactly once |
| AsyncTimer.WrappingIncrement | src/async_timer.rs:62 | the handle counter steps by one and wraps from `u32::MAX` to 0 |
| AsyncTimer.WakerRegistry.constructor | src/async_timer.rs:16-17 | the registry starts with no entries and handle counter 0 |
| AsyncTimer.WakerRegistry.NextHandle | src/async_timer.rs:61-64 | advances the counter by a wrapping increment and returns its new value |
| AsyncTimer.TimerFuture.constructor | src/async_timer.rs:60-71 | a new timer-wait takes the next handle and starts at progress 0 with the given target |
| AsyncTimer.AsyncWait | src/async_timer.rs:111-113 | `async_wait(ticks)` is a fresh timer-wait with target `ticks`, progress 0 and the next handle |
| AsyncTimer.LastMatchSpec | src/async_timer.rs:91-98 | the scan finds a slot exactly when some visited entry carries the handle, and the slot it finds was visited |
| AsyncTimer.WakerRegistry.FindLast | src/async_timer.rs:91-98 | the cursor scan returns the last visited slot whose entry carries the handle, or none |
| AsyncTimer.WakerRegistry.ScanVisited | src/async_timer.rs:94-98 | one scan step remembers the yielded slot when its handle matches and extends the visited prefix by that slot |
| AsyncTimer.Registered | src/async_timer.rs:91-103 | after registration an entry `(h, w)` is present |
| AsyncTimer.WakerRegistry.Register | src/async_timer.rs:90-104 | removes the entry the scan found, pushes `(h, w)`, and keeps the registry's prefix shape and unique handles; re-registering a present handle keeps the count |
| AsyncTimer.RegisteredKeepsPrefix | src/async_timer.rs:91-103 | on a prefix registry, re-registering keeps the count and a new handle adds one entry (overwriting slot 0 when full); the result is again a prefix |
| AsyncTimer.RefillKeepsPrefix | src/async_timer.rs:100-103 | removing an entry and then pushing fills the same slot again |
| AsyncTimer.PushKeepsPrefix | src/async_timer.rs:103 | pushing onto a prefix registry extends the prefix by one slot, or overwrites slot 0 when full |
| AsyncTimer.RegisteredKeepsUnique | src/async_timer.rs:91-103 | on a prefix registry with unique handles, registration keeps the handles unique and leaves the handle registered |
| AsyncTimer.RegisteredBehindGapDuplicates | src/async_timer.rs:91-103 | on a registry with a gap, re-registering a handle held behind the gap leaves two entries for it |
| AsyncTimer.NotifiedAt | src/async_timer.rs:43-46 | after the wakes, a flag is set exactly when it was set before or some visited entry's waker names it |
| AsyncTimer.WakerRegistry.Notify | src/async_timer.rs:43-46 | the interrupt wakes every visited entry's waker, in visiting order, and leaves the registry unchanged |
| AsyncTimer.WakerRegistry.WakeVisited | src/async_timer.rs:44-46 | one interrupt step wakes the yielded entry's waker and extends the visited prefix |
| AsyncTimer.NotifyWakesAllRegistered | src/async_timer.rs:43-46 | on a prefix registry, the interrupt sets exactly the flags of all registered wakers plus the ones already set |
| AsyncTimer.TimerFuture.Poll | src/async_timer.rs:77-108 | ready without touching the registry once progress has reached the target; otherwise advances progress by one, registers the caller's waker under the future's handle, and is pending; the registry stays valid |
| AsyncTimer.TimerTraceAt | src/async_timer.rs:81-107 | from progress `c`, poll `k` is pending exactly when `c + k` is below the target |
| AsyncTimer.TimerCompletesAfterTarget | src/async_timer.rs:81-107 | a fresh timer-wait with target `N` is pending on exactly its first `N` polls |
| Executors.Executor.constructor | src/executor.rs:34-39 | an empty task set with every flag clear |
| Executors.Executor.Spawn | src/executor.rs:71-75 | stores the task where `push` puts it (slot 0 when full) and sets exactly that slot's flag |
| Executors.AfterPollsAt | src/executor.rs:84-99 | the polls of a pass advance exactly the visited, occupied, flagged tasks; their flags become whether each woke itself; occupancy is unchanged |
| Executors.ReadyQueueMembers | src/executor.rs:95-97 | the removal queue holds exactly the polled tasks that completed |
| Executors.PollStep | src/executor.rs:84-98 | polling one more unvisited slot changes the pass state at that slot alone, and only when its flag is set |
| Executors.Executor.PollPass | src/executor.rs:82-99 | after the polling loop, slots, flags and removal queue equal the pass specification over all visited slots |
| Executors.Executor.PollVisited | src/executor.rs:84-99 | one round of the polling loop extends the visited prefix by the yielded slot and keeps the pass state in step |
| Executors.Executor.PollSlot | src/executor.rs:85-98 | a flagged slot has its flag cleared, its task polled with a waker for its own slot, and the slot queued when the task completed |
| Executors.Cleared | src/executor.rs:101-105 | each queued position is set to the cleared value and every other position is unchanged |
| Executors.Executor.RemovePass | src/executor.rs:101-105 | every queued slot's task is removed and its flag cleared; nothing else changes |
| Executors.Executor.RemoveVisited | src/executor.rs:102-105 | one round of the removal loop clears the next queued slot and moves the cursor on |
| Executors.Executor.RemoveQueued | src/executor.rs:103-104 | removes one queued slot's task and clears its flag |
| Executors.Executor.Sweep | src/executor.rs:81-108 | one pass: completed polled tasks are removed with their flags cleared; pending polled tasks advance with their flag equal to whether they woke themselves; every other slot and flag is unchanged; `done` says whether no task is left |
| Executors.SweepPollsFlaggedBelowCount | src/executor.rs:83-99 | every occupied, flagged slot below the live count is polled in the pass |
| Executors.SweepCompleteOnPrefix | src/executor.rs:83-99 | when the tasks fill a prefix of the slots, the pass polls every flagged task |
| Executors.SweepSkipsTaskBehindGap | src/executor.rs:83-99 | with tasks in slots 1 and 3 only, the pass leaves slot 3's task and flag untouched |
| Executors.TaskBehindGapStarves | src/executor.rs:77-110 | while the task in slot 1 never completes, a run never polls the task in slot 3, from any flags, under any registry and tick schedule |
| Executors.Executor.Run | src/executor.rs:77-110 | the final slots and flags are those of `RunFrom` over the tick schedule; `done` is set exactly when some pass ran and left no task |
| Executors.Execute | src/executor.rs:42-50 | runs from the single task in slot 0 with only its flag set, as `RunFrom` describes |
| Executors.Execute2 | src/executor.rs:53-69 | runs from the two tasks in slots 0 and 1 with both flags set, as `RunFrom` describes |
| Executors.YieldTaskOutcomes | src/yield_now.rs:25-27 | a task awaiting one yield is pending and wakes itself on its first poll, and is ready on its second |
| Executors.LoneTaskVisited | src/executor.rs:83-84 | a pass over a lone task in slot 0 visits exactly slot 0 |
| Executors.LoneTaskPass | src/executor.rs:81-108 | a pass over a lone flagged task removes it if it completes, and otherwise keeps it flagged exactly when it woke itself |
| Executors.YieldTaskRunsTwoPasses | src/executor.rs:77-110 | a lone yield task is polled on two successive passes without any interrupt and is removed by the second |
| Executors.ExecuteYieldFinishes | src/executor.rs:42-50 | `execute(yield_now())` ends after two passes, with no interrupt, and leaves every slot empty and every flag clear |
| Executors.LoneFlaggedTaskPass | src/executor.rs:81-108 | a pass over a lone task in slot 0 with its flag set polls it whatever the other flags: removed if it completes, otherwise kept, flagged exactly when it woke itself |
| Executors.YieldFinishesUnderAnySchedule | src/executor.rs:42-50 | under any tick schedule of at least two passes, `execute(yield_now())` leaves every task slot empty: interrupts only set flags, so the yield's own wake carries it to the second pass |

## Left out

- The hardware layer is not modelled: the board set-up in `src/main.rs`, timer channel configuration (`timer_init`), clearing the match interrupt, and interrupt enabling. The timer interrupt is an input: one boolean per pass says whether it fires before that pass.
- Critical sections are not modelled. Each pass and each interrupt is one atomic step, so an interrupt can land between passes but never inside one.
- Raw pointers, `Pin`, `unsafe` and `MaybeUninit` are not modelled. A waker is the index of the ready flag it points at, and the `WAKERS`/`WAKER_HANDLE` globals are fields of one `WakerRegistry` object passed explicitly.
- Executors.Task: an `async` block or `dyn Future` is not modelled as code. A task is the script of what its successive polls do (ready or pending, and whether it wakes its own waker). Past the end of its script it stays pending. A task's polls do not register timer wakers in the model, so the registry stays fixed during a run.
- Executors.Executor.Run: `run` may loop forever. The model runs at most one pass per entry of the tick schedule, so it describes every finite prefix of a run and not an infinite one.
- Wakers: `drop` of a waker is a no-op in the source and has no counterpart in the model.
- Containers.Container.Get: `get` hands out a mutable reference. The model returns the slot's value, and a write through the reference is `WriteBack`. Indexing past the last slot panics in the source; the model requires an in-range index instead.
- A timer-wait dropped before it completes leaves its registry entry behind. The model has no dropping of futures, so this leak does not appear.
- Lifetimes are not modelled. The cursor's exclusive borrow of its container becomes a plain reference, and the loops that walk a container are proved not to change its occupancy while they do.
