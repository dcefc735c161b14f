# A verified model of the poll() event loop in models/event_loop.py

`models/event_loop.py` implements the event loop that libvirt drives through its
six add/update/remove callbacks for file handles and timers: the class
`VirEventLoopPoll`. One tick (`run_once`) does four things in order:

- it frees the opaques of records removed since the previous tick;
- it sleeps in `poll()` until the next timer deadline;
- it dispatches the descriptor events to the handle callbacks;
- it fires the timers that are due, allowing 20 ms of slack.

Another thread may add, update or remove records while the loop sleeps. A
self-pipe wakes `poll()` in that case. At most one wake byte is written until
the tick reads it. The same file also translates event flags between libvirt
and poll(2), and names domain lifecycle events and their details.

The model has five modules:

- `EventBits` (`event_bits.dfy`): `events_to_poll` and `events_from_poll` over
  32-bit masks. Their round trips are proved, and so is how the two error
  conditions merge.
- `DomainEvents` (`domain_events.dfy`): `dom_event_to_string` and
  `dom_detail_to_string`, with Python's tuple indexing. A negative index counts
  from the end, and any other miss is `None` where Python raises IndexError.
  Each name leads back to its code.
- `Seqs` (`seqs.dfy`): the first-match search behind `get_handle_by_*`, and the
  filter that the list-rebuilding loops of `remove_handle` and `remove_timer`
  compute.
- `Reactor` (`reactor.dfy`): the class `EventLoop`, with the source's fields and
  one method per source method. Each method is proved against specification
  functions:
  - `NextDeadline` for the next deadline;
  - `PollTimeout` for the time `poll()` may sleep;
  - `DispatchCalls` for the handle callbacks;
  - `FireDue` and `TimerCalls` for the timer pass;
  - `Without`, `DroppedCtx`, `DroppedFds` and `Unregister` for removal;
  - `Wakes` for the self-pipe.

  The class invariant `Valid` has three parts. Ids are unique and ascending, and
  lie between 2 and the last id issued. At most one wake byte is outstanding,
  and only while a wake-up is pending.
- `Scenarios` (`scenarios.dfy`): short runs of a fresh loop whose outcomes
  follow from the contracts alone.

The operating system appears only as values:

- the poll object is a map from descriptor to registered poll mask;
- the self-pipe is its read descriptor plus a count of unread bytes;
- the clock is a parameter in integer milliseconds;
- what `poll()` answered is a parameter of the second half of a tick.

`run_once` is split into `RunOnceBegin`, which covers everything up to the
`poll()` call, and `RunOnceEnd`, which takes poll's answer. Changes made by
another thread can then be placed between the two. `RunOnce` is the two halves
in sequence. Callbacks are not run. Each invocation is appended to `trace`,
and each opaque handed to libvirt's free callback is appended to `freed`.

Three source quirks are kept as written:

- Both id counters start at 1 and are incremented before use, so the first
  handle id and the first timer id are 2.
- `next_timeout` uses 0 to mean "no deadline", so a real deadline of 0 is
  hidden. Lemma `FreshZeroIntervalTimerHidden` shows the effect: a timer with
  interval 0 that has never fired gives no deadline.
- A new timer starts with `last_fired` 0 (line 67), while the clock is
  `int(time.time() * 1000)`, in milliseconds since the epoch. A freshly added
  timer is therefore already overdue and fires at the first tick, whatever its
  interval (`Scenarios.FreshTimerOverdue`).

Two behaviours of the code worth noting:

- The timer test is `now >= last_fired + interval - 20`. As the comment at
  lines 155-162 explains, a timer therefore fires up to 20 ms before its
  deadline, never after waiting 20 ms past it.
- `poll.unregister` raises KeyError for a descriptor it does not know.
  `update_handle` and `remove_handle` propagate that error: they return
  `KeyError(fd)`.

## Model

| member | source | states |
|---|---|---|
| `EventBits.EventsToPoll` | models/event_loop.py:300-310 | the registered mask holds only POLLIN, POLLOUT, POLLERR and POLLHUP |
| `EventBits.EventsFromPoll` | models/event_loop.py:314-326 | the reported mask holds only libvirt's four handle flags |
| `EventBits.EventsRoundTrip` | models/event_loop.py:300-326 | a libvirt mask translated to poll flags and back is unchanged |
| `EventBits.PollRoundTrip` | models/event_loop.py:300-326 | a mask of the four mapped poll flags translated to libvirt and back is unchanged |
| `EventBits.ErrorConditionsMerge` | models/event_loop.py:320-323 | ERROR is reported exactly when POLLERR or POLLNVAL is; POLLNVAL alone comes back as POLLERR |
| `EventBits.UnmappedFlagsIgnored` | models/event_loop.py:300-326 | flags without a counterpart, POLLPRI among them, do not affect either translation |
| `EventBits.EventsToPollUnion` | models/event_loop.py:300-310 | the translation of a union of masks is the union of their translations |
| `DomainEvents.PyIndex` | models/event_loop.py:430 | tuple indexing succeeds exactly for -len <= i < len; a negative i counts from the end |
| `DomainEvents.DomEventToString` | models/event_loop.py:419-430 | an event code has a name exactly in the tuple's index range, and the name is the tuple's entry |
| `DomainEvents.DomDetailToString` | models/event_loop.py:433-455 | a detail name exists exactly for an event in range and a detail in range of that event's row, negative codes counting from the end, and it is that row's entry |
| `DomainEvents.DomEventRoundTrip` | models/event_loop.py:421-429 | the event names are distinct, so every event code is recovered from its name |
| `DomainEvents.DomDetailRoundTrip` | models/event_loop.py:435-454 | there is one detail row per event type and each row's names are distinct, so every detail code is recovered from its name |
| `Seqs.FirstIndex` | models/event_loop.py:131-142 | the result is the first position whose key matches, and None exactly when no position matches |
| `Seqs.WithoutMembers` | models/event_loop.py:276-296 | a record survives a removal exactly when it was present and its id differs from the removed id |
| `Seqs.WithoutAscending` | models/event_loop.py:276-296 | removal keeps the remaining ids in ascending order |
| `Seqs.WithoutBounded` | models/event_loop.py:276-296 | removal keeps the remaining ids within the bounds they had |
| `Seqs.WithoutAbsent` | models/event_loop.py:276-296 | removing an id that no record holds leaves the list unchanged |
| `Seqs.WithoutUnique` | models/event_loop.py:276-296 | with unique ids, removing the id of position i drops exactly that record and keeps the others in order |
| `Seqs.AscendingUpdate` | models/event_loop.py:258-261 | replacing a record by one with the same id keeps the ids ascending |
| `Seqs.AscendingFirstIndex` | models/event_loop.py:138-142 | with unique ids, the lookup by a record's id finds that record |
| `Reactor.NextDeadlineFromBounds` | models/event_loop.py:118-128 | the scan result is at most every enabled deadline, is the accumulator or some enabled deadline, and is 0 exactly when it started at 0 and nothing is enabled |
| `Reactor.NextDeadlineNone` | models/event_loop.py:118-128 | with no enabled timer, next_timeout returns 0 |
| `Reactor.NextDeadlineIsEarliest` | models/event_loop.py:118-128 | when enabled deadlines are positive, next_timeout is 0 exactly when nothing is enabled, and is otherwise the earliest enabled deadline |
| `Reactor.FreshZeroIntervalTimerHidden` | models/event_loop.py:118-128 | a never-fired timer with interval 0 is due, yet next_timeout reports no deadline, so poll sleeps without limit |
| `Reactor.PollTimeout` | models/event_loop.py:164-178 | with no deadline poll waits without limit (-1); otherwise it sleeps until the deadline, or not at all once the deadline has passed |
| `Reactor.PollTimeoutUnitMismatch` | models/event_loop.py:178 | the value passed as written is a thousandth of the intended millisecond timeout: 0.5 instead of 500 |
| `Reactor.FireDueIssued` | models/event_loop.py:196-207 | firing timers changes no id |
| `Reactor.TimerCallsFromDue` | models/event_loop.py:196-207 | every timer callback of a tick belongs to a due timer |
| `Reactor.TimerFiresIffDue` | models/event_loop.py:196-207 | a timer fires exactly when it is enabled and now >= last_fired + interval - 20; a firing timer records now and every other timer keeps its state |
| `Reactor.SignalledPrefix` | models/event_loop.py:183-190 | the self-pipe was seen in the first i+1 events exactly when it was seen in the first i or is event i |
| `Reactor.SignalledOnce` | models/event_loop.py:187-190 | when poll reports each descriptor once, the self-pipe event is the first of its kind |
| `Reactor.DispatchPrefix` | models/event_loop.py:183-194 | dispatching one more event appends that event's callbacks |
| `Reactor.DispatchSound` | models/event_loop.py:183-194 | every handle callback goes to a registered handle, for an event on its descriptor other than the self-pipe, with translated flags |
| `Reactor.DispatchComplete` | models/event_loop.py:183-194 | every event on a registered descriptor other than the self-pipe reaches the first handle on that descriptor |
| `Reactor.WithoutIssued` | models/event_loop.py:276-296 | removal keeps ids unique, ascending and within the issued range |
| `Reactor.AddRemoveTimerRoundTrip` | models/event_loop.py:247-296 | removing the timer just added restores the previous timer list and queues exactly its opaque |
| `Reactor.AddRemoveHandleRoundTrip` | models/event_loop.py:230-285 | removing the handle just added restores the previous handle list, unregisters its descriptor without KeyError and queues exactly its opaque |
| `Reactor.FilterTimers` | models/event_loop.py:289-295 | the rebuilt list is the timers whose id differs, in order, and the opaque of the dropped timer is appended to cleanup |
| `Reactor.FilterHandles` | models/event_loop.py:277-284 | the rebuilt list is the handles whose id differs, the dropped handle's descriptor is unregistered and its opaque queued; an unknown descriptor raises KeyError |
| `Reactor.EventLoop.constructor` | models/event_loop.py:88-113 | only the self-pipe is registered, for POLLIN; there are no records, no wake-up pending, and both counters are 1 |
| `Reactor.EventLoop.NextTimeout` | models/event_loop.py:118-128 | the loop returns NextDeadline of the timer list |
| `Reactor.EventLoop.GetHandleByFd` | models/event_loop.py:131-135 | the result is the first handle on the descriptor, or None |
| `Reactor.EventLoop.GetHandleById` | models/event_loop.py:138-142 | the result is the first handle with the id, or None |
| `Reactor.EventLoop.Interrupt` | models/event_loop.py:221-224 | a wake byte is written, and a wake-up marked pending, only if poll is running and none is pending yet; at most one byte is outstanding |
| `Reactor.EventLoop.RunOnceBegin` | models/event_loop.py:164-178 | every queued opaque is freed in order, cleanup is emptied, poll is marked running, and the sleep is PollTimeout of the next deadline |
| `Reactor.EventLoop.DispatchEvents` | models/event_loop.py:183-194 | the callbacks are DispatchCalls of the events; the pending wake-up is cleared, and its byte read, exactly when the self-pipe is reported |
| `Reactor.EventLoop.FireTimers` | models/event_loop.py:196-207 | the timers become FireDue at now, and the callbacks are TimerCalls at now, in list order |
| `Reactor.EventLoop.RunOnceEnd` | models/event_loop.py:180-213 | a ready poll dispatches and then fires timers; EINTR skips both silently; any other error is raised; poll is no longer running in every case |
| `Reactor.EventLoop.RunOnce` | models/event_loop.py:163-213 | a whole tick: frees the cleanup queue, sleeps PollTimeout, dispatches and fires on a ready poll, invokes nothing after EINTR or an error, raises exactly on a non-EINTR error, always leaves the poll phase, and keeps handles, poll registrations and counters |
| `Reactor.EventLoop.AddHandle` | models/event_loop.py:230-240 | the new id is the previous counter plus one and exceeds every existing id; the handle is appended, its descriptor registered with the translated mask, and poll woken |
| `Reactor.EventLoop.AddTimer` | models/event_loop.py:247-255 | the new id is the previous counter plus one and exceeds every existing id; the timer is appended with last_fired 0 and poll woken |
| `Reactor.EventLoop.UpdateHandle` | models/event_loop.py:258-264 | an unknown id changes nothing; otherwise the record's events change, then a registered descriptor gets the new mask and poll is woken, while an unregistered one raises KeyError |
| `Reactor.EventLoop.UpdateTimer` | models/event_loop.py:267-273 | an unknown id changes nothing and wakes nobody; otherwise only that timer's interval changes and poll is woken |
| `Reactor.EventLoop.RemoveHandle` | models/event_loop.py:276-285 | the outcome is Unregister; on success the handles are Without the id, its descriptor is unregistered, its opaque is queued and poll woken; on KeyError nothing changes |
| `Reactor.EventLoop.RemoveTimer` | models/event_loop.py:288-296 | the timers are Without the id, its opaque is queued, and poll is woken even for an unknown id |
| `Scenarios.FirstIdsAreTwo` | models/event_loop.py:230-255 | on a fresh loop the first handle id and the first timer id are both 2 |
| `Scenarios.CoalescedWake` | models/event_loop.py:221-224 | three additions during one poll sleep write one wake byte; reading the pipe in the tick consumes it and clears the pending wake-up |
| `Scenarios.DeferredFree` | models/event_loop.py:164-169 | a removed timer's opaque is freed by the next tick, not by the removal |
| `Scenarios.AddRemoveHandle` | models/event_loop.py:276-285 | adding and then removing a handle leaves no handle; on the self-pipe's descriptor it also unregisters the pipe |
| `Scenarios.DispatchToHandle` | models/event_loop.py:183-194 | POLLIN and POLLHUP on a handle's descriptor reach its callback as READABLE and HANGUP |
| `Scenarios.TimerSlack` | models/event_loop.py:196-207 | on a clock that starts at 0, a timer with interval 100 makes poll sleep 100 ms, fires when the tick ends 20 ms early, and does not fire 21 ms early |
| `Scenarios.NoWakeOutsidePoll` | models/event_loop.py:209-224 | after a tick ended by EINTR nothing was invoked and poll is no longer running, so a later addition writes no wake byte |
| `Scenarios.FreshTimerOverdue` | models/event_loop.py:62-67 | a new timer has last_fired 0, so on a clock past its interval less 20 ms it fires at the first tick, whatever the interval |

## Left out

- `run_loop` (lines 216-219) is not modelled. It repeats `run_once` until `quit` is set, and nothing in the file sets `quit`. The model covers a single tick, so `quit` is not modelled either.
- The module-level glue is not modelled (lines 335-416 and 458). It covers the global instance, the six `vir_event_*_impl` forwarders, the registration with libvirt and the background threads. Each forwarder only calls the method of the same name.
- Concurrency is not modelled. Changes from another thread are modelled only between the two halves of a tick, not interleaved inside an operation.
- Re-entrant callbacks are not modelled. A callback that changes the lists during dispatch is not captured, because callbacks are recorded in `trace` rather than run.
- The handle and timer records are values, not shared objects. Aliasing of those objects is therefore not captured. A lookup returns a position in the list instead of the object.
- Callback functions are not stored. A `Call` records the id, the descriptor, the flags and the opaque.
- The OS is abstracted. `os.pipe`, `os.read` and `os.write` become the pending-byte count, and `select.poll` becomes a map.
- `time.time()` becomes a parameter in milliseconds, already truncated to an integer.
- The poll answer is a parameter. The model assumes each descriptor appears at most once in it, and the self-pipe only when a byte is waiting. This is the `AnswerConsistent` precondition of `DispatchEvents`.
- Errors from `os.read` and `os.write` are not modelled.
- Masks are 32-bit words, while Python's integers are unbounded. Only the four libvirt flags and five poll flags (POLLIN, POLLOUT, POLLNVAL, POLLERR, POLLHUP) are ever tested, so the translations are the same at any width.
- Reactor.EventLoop.RunOnceBegin: the sleep it returns is the corrected millisecond value, not the value line 178 passes to poll(). See Findings.
- Reactor.EventLoop.RunOnce: it returns the same corrected sleep as `RunOnceBegin`.
- The history of `cleanup` and `freed` across ticks is stated per operation only. There is no global invariant relating the two.
- models/host.py, models/disk.py, models/status.py and models/__init__.py are not part of this model.

## Findings

| source | as written | input that shows it | evidently intended | confidence | as-written member | corrected member |
|---|---|---|---|---|---|---|
| models/event_loop.py:178 | `sleep = (_next - now) / 1000.0` passes seconds to `select.poll().poll`, whose timeout is in milliseconds | a timer due 500 ms after now: poll is given 0.5 and wakes after about half a millisecond, so the loop spins until the deadline | `sleep = _next - now`, the remaining milliseconds | high, not executed | `Reactor.PollTimeoutUnitMismatch` | `Reactor.PollTimeout` |
