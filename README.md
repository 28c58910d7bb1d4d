# STIMER in Dafny

STIMER multiplexes one periodic hardware timer into any number of software
timers. Each software timer is a caller-owned `STIMER_HANDLE` with the following fields:

- a mode (one-shot or periodic);
- a tick counter `tmr_cnt` and its reload value `tmr_need`;
- a callback;
- a `next` pointer.

The module keeps the active handles in an intrusive singly-linked list, headed by
the static `timerData`, which also records the hardware period in
microseconds. It has five operations:

- `STIMER_Initialize` records the period and empties the list.
- `STIMER_Create` computes the reload count and prepends a handle.
- `STIMER_InterruptHandler` runs on every hardware tick and counts every
  non-zero counter down by one.
- `STIMER_Tasks` runs from the main loop. It fires every handle whose counter
  has reached zero, reloads it, and passes a fired one-shot handle to
  `STIMER_Remove`.
- `STIMER_Remove` unlinks a handle.

The project has three files.

- `timer_spec.dfy` (module `TimerSpec`) is the value-level model:
  - the `uint32_t` counter arithmetic;
  - what a pass does to the ordered sequence of timer states: `TickAll`,
    `Reloaded`, `Fired`, and `Unlinked` for the pass as written;
  - `Kept`, for a pass that unlinks every due one-shot timer;
  - `RemoveAsWritten`, and `RemoveIntended`, which follows the doc comment.

  It also holds the lemmas about these functions.
- `stimer.dfy` (module `STimer`) is the imperative model:
  - `Handle` is a class with the fields of `STIMER_HANDLE`.
  - `Registry` is a class for `timerData`. Its ghost sequence `list` is the
    chain of handles reachable from `timerList`. Its ghost log `fired`
    records every callback invocation.
  - Each C function is a method whose loops walk the chain through `next`.
    Every operation but Initialize is proved against the functions of
    `TimerSpec`; Initialize states its new state outright.
  - `Valid()` states that `list` follows the `next` pointers from `timerList`
    to a null at the tail. From this, `LinkedDistinct` derives that the
    chain has no repeated handle and so no cycle.
- `scenarios.dfy` (module `Scenarios`) holds client runs: sequences of calls
  with the state each must leave behind.

The model also carries corrected versions of Remove and Tasks (see Findings).

## Model

| member | source | states |
|---|---|---|
| STimer.Handle.constructor | src/stimer.h:33-39 | A handle starts with every field zero and `next` null, as static storage does. |
| STimer.Registry.constructor | src/stimer.c:22 | The static registry starts with a zero period, an empty list and no callbacks fired. |
| STimer.Registry.Initialize | src/stimer.c:33-37 | The period is the argument, the list is empty and the callback log is unchanged. No handle is written. |
| TimerSpec.TicksFor | src/stimer.c:94 | The reload count r is the floor of the delay over whole ticks of `callbackTime / 1000` ms: `r * tick <= delay < (r + 1) * tick`. Also `r <= delay`, so it fits in 32 bits. |
| TimerSpec.TicksForZero | src/stimer.c:94 | The reload count is zero exactly when the delay is shorter than one tick. |
| TimerSpec.TicksForOneMillisecond | src/stimer.c:94 | With a 1000 µs period the reload count equals the delay in milliseconds. |
| STimer.Registry.Create | src/stimer.c:89-113 | The handle gets the given mode and callback, `need == TicksFor(callbackTime, delay)` and `cnt == need`. The list becomes `[h] + old list`. Every handle linked before is unchanged, the chain stays valid and the result is true. |
| STimer.LinkedCons | src/stimer.c:96-110 | Pointing a handle at the head of a valid chain gives a valid chain one longer. |
| STimer.Registry.InterruptHandler | src/stimer.c:70-79 | The new counters are `TickAll` of the old states: each counter drops by one and stops at 0. Only the counters change; mode, reload count and links stay. The loop ends at the null tail. |
| TimerSpec.TicksCountDown | src/stimer.c:75-76 | n ticks bring a counter c to `c - n` when `n <= c`, else to 0. The counter never wraps. |
| TimerSpec.TickAllNPointwise | src/stimer.c:70-79 | n interrupts act on each timer alone: its counter takes n ticks of `Ticks`, and its mode and reload count are kept. |
| TimerSpec.TickAllNCountDown | src/stimer.c:70-79 | n interrupts keep every timer's mode and reload count, and bring each counter down by n, stopping at zero. |
| STimer.LinkedDistinct | src/stimer.h:38 | A chain that ends in null has no repeated handle, so it has no cycle. |
| STimer.LinkedUnique | src/stimer.c:73-78 | Each handle of the chain differs from every other one, so writing its counter touches no other handle. |
| STimer.LinkedAt | src/stimer.c:62 | Following `next` from the i-th handle of the chain reaches the (i+1)-th, or null after the last. |
| STimer.States | src/stimer.h:33-39 | The state sequence has one entry per handle: its mode, counter and reload count. |
| STimer.Registry.Remove | src/stimer.c:120-153 | As written: the result and the new list are `RemoveAsWritten(old list, h)`, so only the head can be unlinked. The removed handle keeps its `next`, the chain stays valid and the period and callback log are unchanged. The test at line 145 always fails, so the unlink and result at lines 147-148 are unreachable. |
| TimerSpec.RemoveAsWrittenMatchesIntended | src/stimer.c:115-153 | Remove as written matches the doc comment exactly when the handle is absent or is the head. |
| TimerSpec.RemoveMissesSecond | src/stimer.c:141-151 | On the list [1, 2], removing 2 as written returns false and keeps 2 linked; the intended Remove returns true and leaves [1]. |
| TimerSpec.CreateThenRemove | src/stimer.c:108-109 | After prepending x, Remove as written unlinks x again and returns true. |
| STimer.Registry.RemoveFixed | src/stimer.c:115-153 | Corrected: the result and new list are `RemoveIntended(old list, h)`: h was linked, and it is unlinked wherever it sits. Only the predecessor's `next` changes, h keeps its own `next`, and the chain stays valid. |
| TimerSpec.WithoutAt | src/stimer.c:145-148 | In a list without repeats, unlinking the element at position i leaves the others in order. |
| TimerSpec.WithoutSplit | src/stimer.c:145-148 | Unlinking x from `a + [x] + b`, with x not in a, leaves `a + b`. |
| STimer.Registry.Serve | src/stimer.c:51-55 | The visited timer is due iff its counter was 0. A due timer's callback is logged once and its counter is reloaded to `need`; the other handles are untouched. |
| STimer.Registry.SweptAll | src/stimer.c:48-63 | After a pass has visited every handle, the states are `Reloaded` of the old ones and the log has grown by `Fired`. |
| STimer.Registry.Visit | src/stimer.c:50-62 | One loop turn as written, after which the pass invariant holds one handle further on. A due one-shot is unlinked only if everything visited before it has been unlinked, because only then is it the head. |
| STimer.Registry.PassDone | src/stimer.c:48-63 | At the end of the pass as written, the chain is still intact. The list is the old list without its leading run of due one-shots, and the states and log are as in SweptAll. |
| STimer.Registry.Tasks | src/stimer.c:43-64 | After a pass:<br>• the list is `old list[Unlinked(old states)..]`;<br>• the states of all handles linked at the start are `Reloaded(old states)`;<br>• the log has grown by `Fired(old list, old states)`;<br>• the old chain's links are intact, so the walk reached every handle. |
| TimerSpec.Fired | src/stimer.c:51-53 | A pass fires at most as many callbacks as there are handles. |
| TimerSpec.FiredWithin | src/stimer.c:51-53 | Only linked handles are fired. |
| TimerSpec.FiredExactlyOnce | src/stimer.c:51-54 | In a pass, every due handle's callback runs exactly once and no other callback runs. |
| TimerSpec.ReloadedZero | src/stimer.c:51-54 | After a pass, a timer is due again at once exactly when it was due and its reload count is 0: such a timer fires on every pass. |
| TimerSpec.Unlinked | src/stimer.c:57-60 | The pass as written unlinks at most as many handles as there are. |
| TimerSpec.UnlinkedIsLeadingRun | src/stimer.c:57-60 | The handles unlinked by the pass as written are the leading run of due one-shots, and the first handle past that run is not a due one-shot. |
| TimerSpec.UnlinkedMembers | src/stimer.c:57-60 | After a pass as written, a handle stays linked exactly when it lies past the leading run of due one-shots. |
| TimerSpec.TasksAsWrittenMatchesIntended | src/stimer.c:57-60 | The pass as written leaves what the intended pass leaves exactly when no due one-shot sits behind a handle that stays. |
| TimerSpec.Kept | src/stimer.c:57-60 | The intended pass keeps at most as many handles as there are. |
| TimerSpec.KeptMembers | src/stimer.c:57-60 | With the intended Remove, a handle stays linked after a pass exactly when it is not a due one-shot. |
| TimerSpec.KeptWithin | src/stimer.c:57-60 | Only handles of the list are kept. |
| TimerSpec.KeptIsSuffix | src/stimer.c:57-60 | When no due one-shot follows the leading run, `Kept` is the list past that run. |
| TimerSpec.KeptOfUnlinkedPrefix | src/stimer.c:57-60 | A list made only of due one-shots keeps nothing. |
| TimerSpec.UnlinkedAllDue | src/stimer.c:57-60 | A list made only of due one-shots is unlinked whole by the pass as written. |
| STimer.Registry.Settle | src/stimer.c:56-60 | With the corrected Remove, a due one-shot leaves the list from its position between the kept handles and the unvisited ones, and keeps its `next`. |
| STimer.Registry.VisitFixed | src/stimer.c:50-62 | One loop turn with the corrected Remove: the list is the handles kept so far followed by the unvisited ones. The visited handle's `next` still leads to the next handle to visit. |
| STimer.Registry.FixedPassDone | src/stimer.c:48-63 | At the end of the corrected pass, the list is `Kept(old list, old states)` and the states and log are as in SweptAll. |
| STimer.Registry.TasksFixed | src/stimer.c:43-64 | The corrected pass: the list becomes `Kept(old list, old states)` and the chain stays valid. The states and log change as for Tasks. |
| Scenarios.StartOne | src/stimer.c:33-37 | After Initialize(1000) and Create of one timer with delay d, the list holds that handle alone, with counter and reload count d. |
| Scenarios.FourTicks | src/stimer.c:70-79 | Four interrupts and a pass on a periodic 5 ms timer leave it at counter 1, linked and not fired. |
| Scenarios.FifthTick | src/stimer.c:43-64 | A fifth interrupt and a pass fire it once, reload it to 5 and keep it linked. |
| Scenarios.PeriodicRun | src/stimer.c:89-113 | A whole run of a periodic 5 ms timer on a 1000 µs tick:<br>• the counter is 1 after four ticks;<br>• the timer fires once after the fifth;<br>• it is reloaded to 5 and is still the head. |
| Scenarios.TwoTicks | src/stimer.c:70-79 | Two interrupts bring a one-shot 2 ms timer from 2 to 0, linked and not fired. |
| Scenarios.OneShotRun | src/stimer.c:120-136 | A one-shot 2 ms timer, after two interrupts, fires once in the next pass and is unlinked. Removing it afterwards returns false. |
| Scenarios.StartPair | src/stimer.c:105-110 | A periodic timer created after a one-shot heads the list in front of it. |
| Scenarios.OneShotBehindPeriodic | src/stimer.c:57-60 | As written, a due one-shot behind a periodic head fires in both of two passes and stays linked. |
| Scenarios.FirstFixedPass | src/stimer.c:57-60 | With the corrected Remove, the first pass fires that one-shot and unlinks it. |
| Scenarios.OneShotBehindPeriodicFixed | src/stimer.c:57-60 | With the corrected Remove, the one-shot fires once over two passes and the periodic timer alone stays linked. |

## Left out

- The hardware timer and the interrupt context that calls
  `STIMER_InterruptHandler`. Each operation runs to completion before the next
  one starts. The interleaving of the interrupt with `STIMER_Tasks` is not
  modelled.
- Callbacks are opaque function pointers.
  - A handle stores a number naming its callback.
  - Running a callback appends the handle to the ghost log `fired`.
  - A callback that calls back into the module is not modelled.
- C undefined behaviour is ruled out by preconditions, not modelled as an
  outcome:
  - `Create` requires `callbackTime >= 1000`, because with a smaller period
    (or before `Initialize`) the reload count divides by zero;
  - `Create` requires a handle that is not linked yet, because re-adding a
    linked handle makes a cycle or drops handles;
  - handles are the non-null type `Handle`, because a null handle dereferences
    NULL.
- Memory ownership and lifetime of the caller's handles. Handles are distinct
  heap objects that live for the whole run.
- `STimer.Registry.Initialize` leaves the `next` fields of handles that were
  linked before untouched, as the C code does. The model does not track those
  stale pointers after the list is emptied.
- The include guards and includes of src/stimer.h. Only its type definitions
  are used.

## Findings

| source | as written | input that shows it | evidently intended | confidence | as-written member | corrected member |
|---|---|---|---|---|---|---|
| src/stimer.c:141 | The search loop continues while the cursor's successor is the handle or is not null. For a non-null handle that means "while not null", so the walk always stops at the tail, the test at line 145 always fails, and only the head can be removed. | List [A, B]; Remove(B) returns false and B stays linked. | Walk while the successor is neither the handle nor null, then unlink the successor if it is the handle, as the doc comment at lines 115-118 says. | not executed | TimerSpec.RemoveMissesSecond (on TimerSpec.RemoveAsWritten, STimer.Registry.Remove) | STimer.Registry.RemoveFixed (TimerSpec.RemoveIntended, TimerSpec.WithoutAt) |
| src/stimer.c:57-60 | Because of the row above, a due one-shot timer behind a handle that stays linked is fired and reloaded but not unlinked. So it stays linked, is reloaded, and fires again each time its counter runs out, like a periodic timer (on every pass when its reload count is 0). | Create a one-shot O with delay 0, then a periodic P with delay 5 ms (1000 µs tick); the list is [P, O]. Each call to Tasks fires O. | A fired one-shot timer leaves the list, so it fires once. | not executed | Scenarios.OneShotBehindPeriodic (with TimerSpec.TasksAsWrittenMatchesIntended, STimer.Registry.Tasks) | Scenarios.OneShotBehindPeriodicFixed (with STimer.Registry.TasksFixed, TimerSpec.KeptMembers) |
