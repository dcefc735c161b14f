/**
 * Short runs of a fresh event loop, whose outcomes follow from the contracts
 * of the loop's operations alone.
 */
module Scenarios {
  import opened Wrappers
  import opened EventBits
  import opened Reactor

  /** Both counters start at 1 and are incremented before use: the first ids issued are 2. */
  method FirstIdsAreTwo(pipe: nat, fd: nat, ctx: Opaque) returns (handleId: int, timerId: int)
    ensures handleId == 2 && timerId == 2
  {
    var loop := new EventLoop(pipe);
    handleId := loop.AddHandle(fd, READABLE, ctx);
    timerId := loop.AddTimer(1000, ctx);
  }

  /**
   * Changes made while poll() sleeps write a single wake byte between them; reading
   * the self-pipe in the tick consumes it and clears the pending wake-up.
   */
  method CoalescedWake() returns (ids: seq<int>, bytesWhileAsleep: nat, bytesAfter: nat, pendingAfter: bool)
    ensures ids == [2, 3, 4]
    ensures bytesWhileAsleep == 1
    ensures bytesAfter == 0 && !pendingAfter
  {
    var loop := new EventLoop(3);
    var sleep := loop.RunOnceBegin(0);
    var a := loop.AddHandle(5, READABLE, 50);
    var b := loop.AddHandle(6, WRITABLE, 60);
    var c := loop.AddHandle(7, READABLE | HANGUP, 70);
    ids, bytesWhileAsleep := [a, b, c], loop.pendingBytes;
    var raised := loop.RunOnceEnd(Ready([PollEvent(3, POLLIN)]), 0);
    bytesAfter, pendingAfter := loop.pendingBytes, loop.pendingWakeup;
  }

  /**
   * The ctx of a removed timer is not freed by the removal, only by the start of
   * the next tick.
   */
  method DeferredFree(ctx: Opaque) returns (freedAtRemoval: seq<Opaque>, freedNextTick: seq<Opaque>)
    ensures freedAtRemoval == []
    ensures freedNextTick == [ctx]
  {
    var loop := new EventLoop(3);
    var id := loop.AddTimer(1000, ctx);
    AddRemoveTimerRoundTrip([], Timer(id, 1000, 0, ctx));
    loop.RemoveTimer(id);
    freedAtRemoval := loop.freed;
    var sleep := loop.RunOnceBegin(0);
    freedNextTick := loop.freed;
  }

  /**
   * Adding and then removing a handle leaves no handle; its descriptor is
   * unregistered, so when it is the self-pipe's own descriptor poll loses the pipe.
   */
  method AddRemoveHandle(pipe: nat, fd: nat, events: bv32, ctx: Opaque)
    returns (r: Outcome, handles: seq<Handle>, pollSet: map<nat, bv32>, cleanup: seq<Opaque>)
    ensures r == Done && handles == [] && cleanup == [ctx]
    ensures pollSet == if fd == pipe then map[] else map[pipe := POLLIN]
  {
    var loop := new EventLoop(pipe);
    var id := loop.AddHandle(fd, events, ctx);
    AddRemoveHandleRoundTrip([], Handle(id, fd, events, ctx), map[pipe := POLLIN]);
    r := loop.RemoveHandle(id);
    handles, pollSet, cleanup := loop.handles, loop.pollSet, loop.cleanup;
  }

  /**
   * An event on a registered descriptor reaches its handle's callback with the
   * poll flags translated to libvirt's.
   */
  method DispatchToHandle() returns (trace: seq<Call>)
    ensures trace == [HandleCall(2, 5, READABLE | HANGUP, 50)]
  {
    var loop := new EventLoop(3);
    var id := loop.AddHandle(5, READABLE, 50);
    var sleep, raised := loop.RunOnce(0, Ready([PollEvent(5, POLLIN | POLLHUP)]), 0);
    trace := loop.trace;
  }

  /**
   * On a clock that starts at 0, a timer of interval 100 added at time 0 makes
   * poll() sleep 100 ms, and fires when the tick ends 20 ms early, but not 21 ms early.
   */
  method TimerSlack() returns (sleep: int, firedEarly: seq<Call>, firedTooEarly: seq<Call>)
    ensures sleep == 100
    ensures firedEarly == [TimerCall(2, 7)]
    ensures firedTooEarly == []
  {
    var loop := new EventLoop(3);
    var id := loop.AddTimer(100, 7);
    assert NextDeadline(loop.timers) == 100 by {
      assert loop.timers[1..] == [];
      assert NextDeadlineFrom(loop.timers, 0) == NextDeadlineFrom([], 100);
    }
    var raised;
    sleep, raised := loop.RunOnce(0, Ready([]), 79);
    firedTooEarly := loop.trace;
    var _, _ := loop.RunOnce(0, Ready([]), 80);
    firedEarly := loop.trace;
  }

  /**
   * A tick that poll() leaves with EINTR invokes nothing and leaves the poll phase,
   * so a handle added afterwards writes no wake byte.
   */
  method NoWakeOutsidePoll() returns (trace: seq<Call>, bytes: nat)
    ensures trace == [] && bytes == 0
  {
    var loop := new EventLoop(3);
    var sleep, raised := loop.RunOnce(0, Interrupted, 0);
    var id := loop.AddHandle(5, READABLE, 50);
    trace, bytes := loop.trace, loop.pendingBytes;
  }

  /**
   * A new timer starts with last_fired 0, so on an epoch clock (`now` at least
   * the interval less the slack) it is overdue and fires at the first tick,
   * whatever its interval.
   */
  method FreshTimerOverdue(interval: int, ctx: Opaque, now: int) returns (fired: seq<Call>)
    requires 0 <= interval <= now + SLACK_MS
    ensures fired == [TimerCall(2, ctx)]
  {
    var loop := new EventLoop(3);
    var id := loop.AddTimer(interval, ctx);
    var sleep, raised := loop.RunOnce(now, Ready([]), now);
    fired := loop.trace;
  }
}
