/**
 * The poll()-based event loop that libvirt drives through its six
 * add/update/remove handle and timer callbacks: class VirEventLoopPoll.
 *
 * The operating system is abstracted away:
 * - the poll object is a map from descriptor to registered poll mask;
 * - the self-pipe is the descriptor of its read end plus a count of bytes
 *   written to it and not yet read;
 * - the clock is a parameter `now` in integer milliseconds;
 * - callbacks are recorded in `trace`, and the opaques handed to libvirt's
 *   free callback are recorded in `freed`;
 * - what poll() returns is a parameter of the second half of a tick.
 */
module Reactor {
  import opened Wrappers
  import opened Seqs
  import opened EventBits

  /** The opaque context libvirt attaches to a handle or timer. */
  type Opaque = int

  /** A monitored file descriptor (VirEventLoopPollHandle). */
  datatype Handle = Handle(id: int, fd: nat, events: bv32, ctx: Opaque)

  /** A periodic timer (VirEventLoopPollTimer); a negative interval means disabled. */
  datatype Timer = Timer(id: int, interval: int, lastFired: int, ctx: Opaque)

  /** One callback invocation: a handle's `cb(id, fd, events, ctx)` or a timer's `cb(id, ctx)`. */
  datatype Call =
    | HandleCall(handle: int, fd: nat, events: bv32, ctx: Opaque)
    | TimerCall(timer: int, ctx: Opaque)

  /** One `(fd, revents)` pair returned by poll(). */
  datatype PollEvent = PollEvent(fd: nat, revents: bv32)

  /** How the poll() call ended: with events, interrupted by a signal (EINTR), or with another OS error. */
  datatype PollAnswer = Ready(events: seq<PollEvent>) | Interrupted | Failed

  /** Whether an update or removal completed or raised KeyError from `poll.unregister(fd)`. */
  datatype Outcome = Done | KeyError(fd: nat)

  function HandleId(h: Handle): int { h.id }
  function HandleFd(h: Handle): nat { h.fd }
  function HandleCtx(h: Handle): Opaque { h.ctx }
  function TimerId(t: Timer): int { t.id }
  function TimerCtx(t: Timer): Opaque { t.ctx }

  /** A timer counts as due this early before its deadline, to absorb scheduler granularity. */
  const SLACK_MS := 20

  predicate Enabled(t: Timer) { t.interval >= 0 }

  function Deadline(t: Timer): int { t.lastFired + t.interval }

  predicate Due(t: Timer, now: int) { Enabled(t) && now >= Deadline(t) - SLACK_MS }

  /**
   * next_timeout as the source computes it: a left-to-right pass that keeps the
   * smallest deadline seen, with 0 standing for "none yet".
   */
  function NextDeadlineFrom(ts: seq<Timer>, acc: int): int {
    if ts == [] then acc
    else
      var t := ts[0];
      var acc' := if !Enabled(t) then acc
                  else if acc == 0 || Deadline(t) < acc then Deadline(t)
                  else acc;
      NextDeadlineFrom(ts[1..], acc')
  }

  function NextDeadline(ts: seq<Timer>): int { NextDeadlineFrom(ts, 0) }

  lemma {:induction false} NextDeadlineFromBounds(ts: seq<Timer>, acc: int)
    requires acc >= 0
    requires forall i :: 0 <= i < |ts| && Enabled(ts[i]) ==> Deadline(ts[i]) > 0
    ensures var r := NextDeadlineFrom(ts, acc);
      && (forall i :: 0 <= i < |ts| && Enabled(ts[i]) ==> r <= Deadline(ts[i]))
      && (acc > 0 ==> 0 < r <= acc)
      && (r == acc || exists i :: 0 <= i < |ts| && Enabled(ts[i]) && r == Deadline(ts[i]))
      && (r == 0 <==> acc == 0 && forall i :: 0 <= i < |ts| ==> !Enabled(ts[i]))
  {
    if ts != [] {
      var t := ts[0];
      var acc' := if !Enabled(t) then acc
                  else if acc == 0 || Deadline(t) < acc then Deadline(t)
                  else acc;
      NextDeadlineFromBounds(ts[1..], acc');
      assert forall i :: 1 <= i < |ts| ==> ts[i] == ts[1..][i - 1];
    }
  }

  /** With no enabled timer there is no deadline: next_timeout returns 0. */
  lemma {:induction false} NextDeadlineNone(ts: seq<Timer>, acc: int)
    requires forall i :: 0 <= i < |ts| ==> !Enabled(ts[i])
    ensures NextDeadlineFrom(ts, acc) == acc
    ensures NextDeadline(ts) == 0
  {
    if ts != [] {
      NextDeadlineNone(ts[1..], acc);
      NextDeadlineNone(ts[1..], 0);
    }
  }

  /**
   * When every enabled timer has a positive deadline, next_timeout is 0 exactly when
   * no timer is enabled, and otherwise the earliest deadline of an enabled timer.
   */
  lemma NextDeadlineIsEarliest(ts: seq<Timer>)
    requires forall i :: 0 <= i < |ts| && Enabled(ts[i]) ==> Deadline(ts[i]) > 0
    ensures var r := NextDeadline(ts);
      && (r == 0 <==> forall i :: 0 <= i < |ts| ==> !Enabled(ts[i]))
      && (r != 0 ==> exists i :: 0 <= i < |ts| && Enabled(ts[i]) && r == Deadline(ts[i]))
      && (forall i :: 0 <= i < |ts| && Enabled(ts[i]) ==> r <= Deadline(ts[i]))
  {
    NextDeadlineFromBounds(ts, 0);
  }

  /**
   * The 0 sentinel hides a deadline of 0: a timer added with interval 0 that has
   * never fired yields no deadline, and the tick then sleeps without a time limit.
   */
  lemma FreshZeroIntervalTimerHidden(id: int, ctx: Opaque, now: int)
    ensures Due(Timer(id, 0, 0, ctx), now) <==> now >= -SLACK_MS
    ensures NextDeadline([Timer(id, 0, 0, ctx)]) == 0
    ensures PollTimeout(NextDeadline([Timer(id, 0, 0, ctx)]), now) == -1
  {
    var t := Timer(id, 0, 0, ctx);
    assert [t][1..] == [];
    assert NextDeadlineFrom([t], 0) == NextDeadlineFrom([], Deadline(t));
  }

  /**
   * The time poll() may sleep, in milliseconds, for the deadline `next`: without a
   * deadline it waits for ever (-1); otherwise it wakes at the deadline, or at
   * once when the deadline has passed.
   */
  function PollTimeout(next: int, now: int): (sleep: int)
    ensures next <= 0 ==> sleep == -1
    ensures next > 0 ==> sleep >= 0 && now + sleep == (if now >= next then now else next)
  {
    if next <= 0 then -1
    else if now >= next then 0
    else next - now
  }

  /**
   * The value run_once passes to poll() as written: the remaining time divided by
   * 1000, that is in seconds, although poll() reads its timeout in milliseconds.
   */
  function PollTimeoutAsWritten(next: int, now: int): real {
    if next <= 0 then -1.0
    else if now >= next then 0.0
    else (next - now) as real / 1000.0
  }

  /**
   * As written, poll() is told to sleep a thousandth of the remaining time: for a
   * deadline 500 ms away it is given 0.5, which it reads as half a millisecond.
   */
  lemma PollTimeoutUnitMismatch(next: int, now: int)
    requires 0 < next && now < next
    ensures PollTimeoutAsWritten(next, now) * 1000.0 == PollTimeout(next, now) as real
    ensures PollTimeoutAsWritten(next, now) < PollTimeout(next, now) as real
    ensures PollTimeoutAsWritten(1500, 1000) == 0.5 && PollTimeout(1500, 1000) == 500
  {
  }

  /** The timer after a tick at `now`: a due timer records `now` as its last firing. */
  function Fire(t: Timer, now: int): Timer {
    if Due(t, now) then t.(lastFired := now) else t
  }

  function FireDue(ts: seq<Timer>, now: int): seq<Timer> {
    seq(|ts|, i requires 0 <= i < |ts| => Fire(ts[i], now))
  }

  /** Firing timers changes no id, so the ids stay issued. */
  lemma FireDueIssued(ts: seq<Timer>, now: int, last: int)
    requires IdsIssued(ts, TimerId, last)
    ensures IdsIssued(FireDue(ts, now), TimerId, last)
  {
    var fs := FireDue(ts, now);
    forall a, b | 0 <= a < b < |fs| ensures TimerId(fs[a]) < TimerId(fs[b]) {
      assert TimerId(fs[a]) == TimerId(ts[a]) && TimerId(fs[b]) == TimerId(ts[b]);
    }
    forall a | 0 <= a < |fs| ensures 2 <= TimerId(fs[a]) <= last {
      assert TimerId(fs[a]) == TimerId(ts[a]);
    }
  }

  /** The timer callbacks a tick at `now` invokes, in list order. */
  function TimerCalls(ts: seq<Timer>, now: int): seq<Call> {
    if ts == [] then []
    else
      var t := ts[|ts| - 1];
      TimerCalls(ts[..|ts| - 1], now) + (if Due(t, now) then [TimerCall(t.id, t.ctx)] else [])
  }

  lemma {:induction false} TimerCallsFromDue(ts: seq<Timer>, now: int, c: Call)
    requires c in TimerCalls(ts, now)
    ensures exists j :: 0 <= j < |ts| && Due(ts[j], now) && c == TimerCall(ts[j].id, ts[j].ctx)
  {
    var init := ts[..|ts| - 1];
    if c in TimerCalls(init, now) {
      TimerCallsFromDue(init, now, c);
      var j :| 0 <= j < |init| && Due(init[j], now) && c == TimerCall(init[j].id, init[j].ctx);
      assert ts[j] == init[j];
    }
  }

  /**
   * In a tick at `now`, a timer fires exactly when it is enabled and
   * `now >= last_fired + interval - 20`; a firing timer gets `last_fired = now`,
   * and any other timer, disabled ones included, keeps its `last_fired`.
   */
  lemma {:induction false} TimerFiresIffDue(ts: seq<Timer>, now: int, i: nat)
    requires Ascending(ts, TimerId) && i < |ts|
    ensures TimerCall(ts[i].id, ts[i].ctx) in TimerCalls(ts, now)
      <==> ts[i].interval >= 0 && now >= ts[i].lastFired + ts[i].interval - 20
    ensures FireDue(ts, now)[i].lastFired
      == if Due(ts[i], now) then now else ts[i].lastFired
    ensures FireDue(ts, now)[i] == ts[i].(lastFired := FireDue(ts, now)[i].lastFired)
  {
    var c := TimerCall(ts[i].id, ts[i].ctx);
    if c in TimerCalls(ts, now) {
      TimerCallsFromDue(ts, now, c);
      var j :| 0 <= j < |ts| && Due(ts[j], now) && c == TimerCall(ts[j].id, ts[j].ctx);
      assert TimerId(ts[j]) == TimerId(ts[i]);
      assert j == i;
    }
    if Due(ts[i], now) && i < |ts| - 1 {
      AscendingPrefix(ts, TimerId, |ts| - 1);
      TimerFiresIffDue(ts[..|ts| - 1], now, i);
    }
  }

  /** Whether poll reported the read end of the self-pipe. */
  predicate Signalled(evs: seq<PollEvent>, pipe: nat) {
    exists j :: 0 <= j < |evs| && evs[j].fd == pipe
  }

  lemma SignalledPrefix(evs: seq<PollEvent>, pipe: nat, i: nat)
    requires i < |evs|
    ensures Signalled(evs[..i + 1], pipe) <==> Signalled(evs[..i], pipe) || evs[i].fd == pipe
  {
    var p, q := evs[..i], evs[..i + 1];
    if Signalled(q, pipe) && evs[i].fd != pipe {
      var j :| 0 <= j < |q| && q[j].fd == pipe;
      assert p[j] == q[j];
    }
    if Signalled(p, pipe) {
      var j :| 0 <= j < |p| && p[j].fd == pipe;
      assert q[j] == p[j];
    }
    if evs[i].fd == pipe {
      assert q[i] == evs[i];
    }
  }

  /** When poll reports each descriptor once, the self-pipe seen at `i` was not seen before. */
  lemma SignalledOnce(evs: seq<PollEvent>, pipe: nat, i: nat)
    requires forall a, b :: 0 <= a < b < |evs| ==> evs[a].fd != evs[b].fd
    requires i < |evs| && evs[i].fd == pipe
    ensures !Signalled(evs[..i], pipe)
  {
    forall j | 0 <= j < i ensures evs[..i][j].fd != pipe {
      assert evs[..i][j] == evs[j];
    }
  }

  /** The handle callback one poll event leads to: none for the self-pipe or an unknown descriptor. */
  function DispatchOne(hs: seq<Handle>, e: PollEvent, pipe: nat): seq<Call> {
    if e.fd == pipe then []
    else match FirstIndex(hs, HandleFd, e.fd)
      case None => []
      case Some(k) => [HandleCall(hs[k].id, hs[k].fd, EventsFromPoll(e.revents), hs[k].ctx)]
  }

  /** The handle callbacks a list of poll events leads to, in order. */
  function DispatchCalls(hs: seq<Handle>, evs: seq<PollEvent>, pipe: nat): seq<Call> {
    if evs == [] then []
    else DispatchCalls(hs, evs[..|evs| - 1], pipe) + DispatchOne(hs, evs[|evs| - 1], pipe)
  }

  lemma DispatchPrefix(hs: seq<Handle>, evs: seq<PollEvent>, pipe: nat, i: nat)
    requires i < |evs|
    ensures DispatchCalls(hs, evs[..i + 1], pipe) == DispatchCalls(hs, evs[..i], pipe) + DispatchOne(hs, evs[i], pipe)
  {
    assert evs[..i + 1][..i] == evs[..i];
  }

  /**
   * Every callback a tick dispatches goes to a registered handle, for an event poll
   * reported on that handle's descriptor, with the event's flags translated to
   * libvirt's; the self-pipe is never dispatched.
   */
  lemma {:induction false} DispatchSound(hs: seq<Handle>, evs: seq<PollEvent>, pipe: nat, c: Call)
    requires c in DispatchCalls(hs, evs, pipe)
    ensures c.HandleCall? && c.fd != pipe
    ensures exists k :: 0 <= k < |hs| && hs[k] == Handle(c.handle, c.fd, hs[k].events, c.ctx)
    ensures exists j :: 0 <= j < |evs| && evs[j].fd == c.fd && c.events == EventsFromPoll(evs[j].revents)
  {
    var init, e := evs[..|evs| - 1], evs[|evs| - 1];
    if c in DispatchCalls(hs, init, pipe) {
      DispatchSound(hs, init, pipe, c);
      var j :| 0 <= j < |init| && init[j].fd == c.fd && c.events == EventsFromPoll(init[j].revents);
      assert evs[j] == init[j];
    } else {
      assert c in DispatchOne(hs, e, pipe);
      var k := FirstIndex(hs, HandleFd, e.fd).value;
      assert HandleFd(hs[k]) == e.fd;
    }
  }

  /**
   * Every event poll reports on a registered descriptor other than the self-pipe is
   * dispatched to the first handle registered on that descriptor.
   */
  lemma {:induction false} DispatchComplete(hs: seq<Handle>, evs: seq<PollEvent>, pipe: nat, j: nat, k: nat)
    requires j < |evs| && evs[j].fd != pipe
    requires k < |hs| && hs[k].fd == evs[j].fd
    requires forall i :: 0 <= i < k ==> hs[i].fd != evs[j].fd
    ensures HandleCall(hs[k].id, hs[k].fd, EventsFromPoll(evs[j].revents), hs[k].ctx)
      in DispatchCalls(hs, evs, pipe)
  {
    var init := evs[..|evs| - 1];
    if j < |evs| - 1 {
      assert init[j] == evs[j];
      DispatchComplete(hs, init, pipe, j, k);
    } else {
      var r := FirstIndex(hs, HandleFd, evs[j].fd);
      assert HandleFd(hs[k]) == evs[j].fd;
      assert r == Some(k);
    }
  }

  /**
   * Ids are issued in ascending order from 2 up to `last`, the last one issued
   * (1 before the first): no id occurs twice.
   */
  ghost predicate IdsIssued<T>(s: seq<T>, key: T -> int, last: int) {
    && 1 <= last
    && Ascending(s, key)
    && (forall i :: 0 <= i < |s| ==> 2 <= key(s[i]) <= last)
  }

  /** Removing records keeps the remaining ids issued. */
  lemma WithoutIssued<T>(s: seq<T>, key: T -> int, id: int, last: int)
    requires IdsIssued(s, key, last)
    ensures IdsIssued(Without(s, key, id), key, last)
  {
    WithoutAscending(s, key, id);
    WithoutBounded(s, key, id, 2, last);
  }

  /** The ctx of the record a removal drops, none for an unknown id. */
  function DroppedCtx<T>(s: seq<T>, key: T -> int, ctx: T -> Opaque, id: int): seq<Opaque> {
    match FirstIndex(s, key, id)
      case None => []
      case Some(k) => [ctx(s[k])]
  }

  /** The descriptor a handle removal unregisters, none for an unknown id. */
  function DroppedFds(hs: seq<Handle>, id: int): set<nat> {
    match FirstIndex(hs, HandleId, id)
      case None => {}
      case Some(k) => {hs[k].fd}
  }

  /**
   * What unregistering the removed handle's descriptor does: raise KeyError when
   * the poll set does not hold it.
   */
  function Unregister(hs: seq<Handle>, id: int, poll: map<nat, bv32>): Outcome {
    match FirstIndex(hs, HandleId, id)
      case None => Done
      case Some(k) => if hs[k].fd in poll then Done else KeyError(hs[k].fd)
  }

  /**
   * Removing the timer just added, whose id exceeds every other, gives back the
   * timer list it was added to and queues exactly its ctx.
   */
  lemma AddRemoveTimerRoundTrip(ts: seq<Timer>, t: Timer)
    requires forall i :: 0 <= i < |ts| ==> ts[i].id < t.id
    ensures Without(ts + [t], TimerId, t.id) == ts
    ensures DroppedCtx(ts + [t], TimerId, TimerCtx, t.id) == [t.ctx]
  {
    var s := ts + [t];
    assert s[..|s| - 1] == ts;
    WithoutAbsent(ts, TimerId, t.id);
    assert FirstIndex(s, TimerId, t.id) == Some(|ts|) by {
      forall j | 0 <= j < |ts| ensures TimerId(s[j]) != t.id {
        assert s[j] == ts[j];
      }
    }
  }

  /**
   * Removing the handle just added, whose id exceeds every other, gives back the
   * handle list it was added to, succeeds whatever else is registered, unregisters
   * its descriptor (even when an older handle shares it) and queues exactly its ctx.
   */
  lemma AddRemoveHandleRoundTrip(hs: seq<Handle>, h: Handle, poll: map<nat, bv32>)
    requires forall i :: 0 <= i < |hs| ==> hs[i].id < h.id
    ensures Without(hs + [h], HandleId, h.id) == hs
    ensures Unregister(hs + [h], h.id, poll[h.fd := EventsToPoll(h.events)]) == Done
    ensures DroppedFds(hs + [h], h.id) == {h.fd}
    ensures DroppedCtx(hs + [h], HandleId, HandleCtx, h.id) == [h.ctx]
  {
    var s := hs + [h];
    assert s[..|s| - 1] == hs;
    WithoutAbsent(hs, HandleId, h.id);
    assert FirstIndex(s, HandleId, h.id) == Some(|hs|) by {
      forall j | 0 <= j < |hs| ensures HandleId(s[j]) != h.id {
        assert s[j] == hs[j];
      }
    }
  }

  /**
   * The list-rebuilding loop of remove_timer: the timers whose id differs from
   * `timerId`, in order, and the ctx of the one dropped, if any.
   */
  method FilterTimers(ts: seq<Timer>, timerId: int) returns (kept: seq<Timer>, dropped: seq<Opaque>)
    requires Ascending(ts, TimerId)
    ensures kept == Without(ts, TimerId, timerId)
    ensures dropped == DroppedCtx(ts, TimerId, TimerCtx, timerId)
  {
    ghost var found := FirstIndex(ts, TimerId, timerId);
    kept, dropped := [], [];
    for i := 0 to |ts|
      invariant kept == Without(ts[..i], TimerId, timerId)
      invariant dropped == if found.Some? && found.value < i then [ts[found.value].ctx] else []
    {
      WithoutSnoc(ts, TimerId, timerId, i);
      var t := ts[i];
      if t.id != timerId {
        kept := kept + [t];
      } else {
        AscendingFirstIndex(ts, TimerId, i);
        dropped := dropped + [t.ctx];
      }
    }
    assert ts[..|ts|] == ts;
  }

  /**
   * The list-rebuilding loop of remove_handle: the handles whose id differs from
   * `handleId`, in order, the poll set without the dropped handle's descriptor, and
   * the dropped handle's ctx. Unregistering a descriptor the poll set does not hold
   * raises KeyError, which abandons the loop.
   */
  method FilterHandles(hs: seq<Handle>, handleId: int, poll: map<nat, bv32>)
    returns (r: Outcome, kept: seq<Handle>, pollOut: map<nat, bv32>, dropped: seq<Opaque>)
    requires Ascending(hs, HandleId)
    ensures r == Unregister(hs, handleId, poll)
    ensures r == Done ==>
      && kept == Without(hs, HandleId, handleId)
      && pollOut == poll - DroppedFds(hs, handleId)
      && dropped == DroppedCtx(hs, HandleId, HandleCtx, handleId)
  {
    ghost var found := FirstIndex(hs, HandleId, handleId);
    r, kept, pollOut, dropped := Done, [], poll, [];
    for i := 0 to |hs|
      invariant kept == Without(hs[..i], HandleId, handleId)
      invariant found.None? || i <= found.value ==> pollOut == poll && dropped == []
      invariant found.Some? && found.value < i ==>
        var h := hs[found.value];
        h.fd in poll && pollOut == poll - {h.fd} && dropped == [h.ctx]
    {
      WithoutSnoc(hs, HandleId, handleId, i);
      var h := hs[i];
      if h.id == handleId {
        AscendingFirstIndex(hs, HandleId, i);
        if h.fd !in pollOut {
          r := KeyError(h.fd);
          return;
        }
        pollOut := pollOut - {h.fd};
        dropped := dropped + [h.ctx];
      } else {
        kept := kept + [h];
      }
    }
    assert hs[..|hs|] == hs;
  }

  /**
   * The effect of interrupt on the wake-up state: a wake byte is written, and a
   * wake-up becomes pending, only if poll is running and none is pending yet.
   */
  predicate Wakes(running: bool, pending: bool, bytes: nat, pending': bool, bytes': nat) {
    && pending' == (pending || running)
    && bytes' == bytes + (if running && !pending then 1 else 0)
  }

  /** The event loop: VirEventLoopPoll. */
  class EventLoop {
    /** The read end of the self-pipe. */
    const pipe: nat
    /** The descriptors registered with poll(), with their poll masks. */
    var pollSet: map<nat, bv32>
    /** Wake bytes written to the self-pipe and not read yet. */
    var pendingBytes: nat
    var pendingWakeup: bool
    var runningPoll: bool
    var nextHandleID: int
    var nextTimerID: int
    var handles: seq<Handle>
    var timers: seq<Timer>
    /** Opaques of removed handles and timers, waiting to be freed by the next tick. */
    var cleanup: seq<Opaque>
    /** Opaques handed to libvirt's free callback, in order. */
    var freed: seq<Opaque>
    /** Callbacks invoked, in order. */
    var trace: seq<Call>

    ghost predicate HandlesValid()
      reads this`handles, this`nextHandleID
    {
      IdsIssued(handles, HandleId, nextHandleID)
    }

    ghost predicate TimersValid()
      reads this`timers, this`nextTimerID
    {
      IdsIssued(timers, TimerId, nextTimerID)
    }

    /** At most one wake byte is ever outstanding, and only while a wake-up is pending. */
    ghost predicate WakeValid()
      reads this`pendingBytes, this`pendingWakeup
    {
      pendingBytes == (if pendingWakeup then 1 else 0)
    }

    ghost predicate Valid()
      reads this
    {
      HandlesValid() && TimersValid() && WakeValid()
    }

    constructor (pipeRead: nat)
      ensures Valid()
      ensures pipe == pipeRead && pollSet == map[pipeRead := POLLIN]
      ensures pendingBytes == 0 && !pendingWakeup && !runningPoll
      ensures nextHandleID == 1 && nextTimerID == 1
      ensures handles == [] && timers == [] && cleanup == []
      ensures freed == [] && trace == []
    {
      pipe := pipeRead;
      pollSet := map[pipeRead := POLLIN];
      pendingBytes := 0;
      pendingWakeup := false;
      runningPoll := false;
      nextHandleID := 1;
      nextTimerID := 1;
      handles := [];
      timers := [];
      cleanup := [];
      freed := [];
      trace := [];
    }

    /** next_timeout: the deadline poll() has to wake up for, 0 if none. */
    method NextTimeout() returns (next: int)
      ensures next == NextDeadline(timers)
    {
      next := 0;
      for i := 0 to |timers|
        invariant NextDeadlineFrom(timers[i..], next) == NextDeadline(timers)
      {
        assert timers[i..][1..] == timers[i + 1..];
        var last := timers[i].lastFired;
        var interval := timers[i].interval;
        if interval < 0 {
          continue;
        }
        if next == 0 || last + interval < next {
          next := last + interval;
        }
      }
    }

    /** get_handle_by_fd: the position of the first handle on `fd`, standing for the record. */
    method GetHandleByFd(fd: nat) returns (k: Option<nat>)
      ensures k == FirstIndex(handles, HandleFd, fd)
    {
      for i := 0 to |handles|
        invariant forall j :: 0 <= j < i ==> HandleFd(handles[j]) != fd
      {
        if handles[i].fd == fd {
          return Some(i);
        }
      }
      return None;
    }

    /** get_handle_by_id: the position of the handle with `handleId`, standing for the record. */
    method GetHandleById(handleId: int) returns (k: Option<nat>)
      ensures k == FirstIndex(handles, HandleId, handleId)
    {
      for i := 0 to |handles|
        invariant forall j :: 0 <= j < i ==> HandleId(handles[j]) != handleId
      {
        if handles[i].id == handleId {
          return Some(i);
        }
      }
      return None;
    }

    /** interrupt: wake a poll() in progress, at most once until the wake byte is read. */
    method Interrupt()
      requires WakeValid()
      modifies this`pendingWakeup, this`pendingBytes
      ensures WakeValid()
      ensures Wakes(old(runningPoll), old(pendingWakeup), old(pendingBytes), pendingWakeup, pendingBytes)
    {
      if runningPoll && !pendingWakeup {
        pendingWakeup := true;
        pendingBytes := pendingBytes + 1;
      }
    }

    /**
     * The first half of run_once, up to the poll() call: free the opaques removed
     * since the last tick, then work out how long poll() may sleep.
     */
    method RunOnceBegin(now: int) returns (sleep: int)
      requires Valid()
      modifies this`runningPoll, this`cleanup, this`freed
      ensures Valid()
      ensures runningPoll
      ensures freed == old(freed) + old(cleanup) && cleanup == []
      ensures sleep == PollTimeout(NextDeadline(timers), now)
    {
      sleep := -1;
      runningPoll := true;
      for i := 0 to |cleanup|
        invariant cleanup == old(cleanup) && runningPoll
        invariant freed == old(freed) + cleanup[..i]
      {
        freed := freed + [cleanup[i]];
      }
      assert cleanup[..|cleanup|] == cleanup;
      cleanup := [];
      var next := NextTimeout();
      if next > 0 {
        if now >= next {
          sleep := 0;
        } else {
          sleep := next - now;
        }
      }
    }

    /**
     * What poll() can answer: each descriptor at most once, and the self-pipe only
     * when a wake byte is waiting in it.
     */
    predicate AnswerConsistent(evs: seq<PollEvent>)
      reads this
    {
      && (forall i, j :: 0 <= i < j < |evs| ==> evs[i].fd != evs[j].fd)
      && (Signalled(evs, pipe) ==> pendingBytes > 0)
    }

    /**
     * The dispatch loop of run_once: an event on the self-pipe clears the pending
     * wake-up and consumes its byte; any other event goes to the first handle
     * registered on its descriptor, with its flags translated to libvirt's.
     */
    method DispatchEvents(evs: seq<PollEvent>)
      requires WakeValid() && AnswerConsistent(evs)
      modifies this`pendingWakeup, this`pendingBytes, this`trace
      ensures WakeValid()
      ensures trace == old(trace) + DispatchCalls(handles, evs, pipe)
      ensures pendingWakeup == (old(pendingWakeup) && !Signalled(evs, pipe))
    {
      var calls := [];
      var wakeup, bytes := pendingWakeup, pendingBytes;
      for i := 0 to |evs|
        invariant trace == old(trace)
        invariant calls == DispatchCalls(handles, evs[..i], pipe)
        invariant wakeup == (old(pendingWakeup) && !Signalled(evs[..i], pipe))
        invariant bytes == (if wakeup then 1 else 0)
      {
        SignalledPrefix(evs, pipe, i);
        DispatchPrefix(handles, evs, pipe, i);
        var e := evs[i];
        if e.fd == pipe {
          // the wake byte: consume it and dispatch nothing
          SignalledOnce(evs, pipe, i);
          wakeup := false;
          bytes := bytes - 1;
          continue;
        }
        var k := GetHandleByFd(e.fd);
        if k.Some? {
          var h := handles[k.value];
          calls := calls + [HandleCall(h.id, h.fd, EventsFromPoll(e.revents), h.ctx)];
        }
      }
      assert evs[..|evs|] == evs;
      trace, pendingWakeup, pendingBytes := trace + calls, wakeup, bytes;
    }

    /**
     * The timer loop of run_once: every enabled timer due at `now`, allowing the
     * slack, records `now` as its last firing and has its callback invoked.
     */
    method FireTimers(now: int)
      requires TimersValid()
      modifies this`timers, this`trace
      ensures TimersValid()
      ensures timers == FireDue(old(timers), now)
      ensures trace == old(trace) + TimerCalls(old(timers), now)
    {
      var ts, fired := timers, [];
      for i := 0 to |ts|
        invariant |ts| == |timers|
        invariant forall j :: 0 <= j < i ==> ts[j] == Fire(timers[j], now)
        invariant forall j :: i <= j < |ts| ==> ts[j] == timers[j]
        invariant fired == TimerCalls(timers[..i], now)
      {
        assert timers[..i + 1][..i] == timers[..i];
        var t := ts[i];
        if t.interval < 0 {
          continue;
        }
        var want := t.lastFired + t.interval;
        // deduct the slack: a scheduler timeslice can wake poll slightly early
        if now >= want - 20 {
          ts := ts[i := t.(lastFired := now)];
          fired := fired + [TimerCall(t.id, t.ctx)];
        }
      }
      assert timers[..|timers|] == timers;
      FireDueIssued(timers, now, nextTimerID);
      timers, trace := ts, trace + fired;
    }

    /**
     * The second half of run_once, given what poll() answered: dispatch the events,
     * fire the due timers at `now`, and leave the poll phase whatever happened. An
     * interrupted poll skips both loops; any other failure is raised.
     */
    method RunOnceEnd(answer: PollAnswer, now: int) returns (raised: bool)
      requires Valid()
      requires answer.Ready? ==> AnswerConsistent(answer.events)
      modifies this`pendingWakeup, this`pendingBytes, this`trace, this`timers, this`runningPoll
      ensures Valid()
      ensures !runningPoll
      ensures raised <==> answer.Failed?
      ensures answer.Ready? ==>
        && trace == old(trace) + DispatchCalls(handles, answer.events, pipe) + TimerCalls(old(timers), now)
        && timers == FireDue(old(timers), now)
        && pendingWakeup == (old(pendingWakeup) && !Signalled(answer.events, pipe))
      ensures !answer.Ready? ==>
        trace == old(trace) && timers == old(timers) && pendingWakeup == old(pendingWakeup)
    {
      if answer.Ready? {
        DispatchEvents(answer.events);
        FireTimers(now);
      }
      runningPoll := false;
      raised := answer.Failed?;
    }

    /** run_once: one tick, with poll()'s answer and the clock read before and after it. */
    method RunOnce(now: int, answer: PollAnswer, later: int) returns (sleep: int, raised: bool)
      requires Valid()
      requires answer.Ready? ==> AnswerConsistent(answer.events)
      modifies this
      ensures Valid()
      ensures !runningPoll
      ensures raised <==> answer.Failed?
      ensures freed == old(freed) + old(cleanup) && cleanup == []
      ensures sleep == PollTimeout(NextDeadline(old(timers)), now)
      ensures answer.Ready? ==>
        && trace == old(trace) + DispatchCalls(handles, answer.events, pipe) + TimerCalls(old(timers), later)
        && timers == FireDue(old(timers), later)
        && pendingWakeup == (old(pendingWakeup) && !Signalled(answer.events, pipe))
      ensures !answer.Ready? ==>
        trace == old(trace) && timers == old(timers) && pendingWakeup == old(pendingWakeup)
      ensures handles == old(handles) && pollSet == old(pollSet)
      ensures nextHandleID == old(nextHandleID) && nextTimerID == old(nextTimerID)
    {
      sleep := RunOnceBegin(now);
      raised := RunOnceEnd(answer, later);
    }

    /** add_handle: register `fd` for `events`; returns the new handle's id. */
    method AddHandle(fd: nat, events: bv32, ctx: Opaque) returns (handleId: int)
      requires Valid()
      modifies this`nextHandleID, this`handles, this`pollSet, this`pendingWakeup, this`pendingBytes
      ensures Valid()
      ensures handleId == old(nextHandleID) + 1 && nextHandleID == handleId
      ensures forall i :: 0 <= i < |old(handles)| ==> old(handles)[i].id < handleId
      ensures handles == old(handles) + [Handle(handleId, fd, events, ctx)]
      ensures pollSet == old(pollSet)[fd := EventsToPoll(events)]
      ensures Wakes(old(runningPoll), old(pendingWakeup), old(pendingBytes), pendingWakeup, pendingBytes)
    {
      handleId := nextHandleID + 1;
      nextHandleID := nextHandleID + 1;
      handles := handles + [Handle(handleId, fd, events, ctx)];
      pollSet := pollSet[fd := EventsToPoll(events)];
      Interrupt();
    }

    /** add_timer: register a timer firing every `interval` ms (disabled if negative); returns its id. */
    method AddTimer(interval: int, ctx: Opaque) returns (timerId: int)
      requires Valid()
      modifies this`nextTimerID, this`timers, this`pendingWakeup, this`pendingBytes
      ensures Valid()
      ensures timerId == old(nextTimerID) + 1 && nextTimerID == timerId
      ensures forall i :: 0 <= i < |old(timers)| ==> old(timers)[i].id < timerId
      ensures timers == old(timers) + [Timer(timerId, interval, 0, ctx)]
      ensures Wakes(old(runningPoll), old(pendingWakeup), old(pendingBytes), pendingWakeup, pendingBytes)
    {
      timerId := nextTimerID + 1;
      nextTimerID := nextTimerID + 1;
      timers := timers + [Timer(timerId, interval, 0, ctx)];
      Interrupt();
    }

    /**
     * update_handle: change the events monitored on a handle's descriptor. An unknown
     * id changes nothing; a descriptor poll no longer knows raises KeyError after the
     * record has been updated.
     */
    method UpdateHandle(handleId: int, events: bv32) returns (r: Outcome)
      requires Valid()
      modifies this`handles, this`pollSet, this`pendingWakeup, this`pendingBytes
      ensures Valid()
      ensures match FirstIndex(old(handles), HandleId, handleId)
        case None =>
          && r == Done && handles == old(handles) && pollSet == old(pollSet)
          && pendingWakeup == old(pendingWakeup) && pendingBytes == old(pendingBytes)
        case Some(k) =>
          var fd := old(handles)[k].fd;
          && handles == old(handles)[k := old(handles)[k].(events := events)]
          && if fd in old(pollSet) then
               r == Done && pollSet == old(pollSet)[fd := EventsToPoll(events)] && Wakes(old(runningPoll), old(pendingWakeup), old(pendingBytes), pendingWakeup, pendingBytes)
             else
               && r == KeyError(fd) && pollSet == old(pollSet)
               && pendingWakeup == old(pendingWakeup) && pendingBytes == old(pendingBytes)
    {
      var k := GetHandleById(handleId);
      if k.None? {
        return Done;
      }
      var h := handles[k.value];
      var updated := h.(events := events);
      assert HandleId(updated) == HandleId(h);
      AscendingUpdate(handles, HandleId, k.value, updated);
      handles := handles[k.value := updated];
      if h.fd !in pollSet {
        return KeyError(h.fd);
      }
      // poll.unregister then poll.register: the descriptor keeps one registration, with the new mask
      pollSet := pollSet - {h.fd};
      pollSet := pollSet[h.fd := EventsToPoll(events)];
      assert pollSet == old(pollSet)[h.fd := EventsToPoll(events)];
      Interrupt();
      r := Done;
    }

    /** update_timer: change a timer's interval; an unknown id changes nothing and wakes nobody. */
    method UpdateTimer(timerId: int, interval: int)
      requires Valid()
      modifies this`timers, this`pendingWakeup, this`pendingBytes
      ensures Valid()
      ensures match FirstIndex(old(timers), TimerId, timerId)
        case None =>
          timers == old(timers) && pendingWakeup == old(pendingWakeup) && pendingBytes == old(pendingBytes)
        case Some(k) =>
          timers == old(timers)[k := old(timers)[k].(interval := interval)] && Wakes(old(runningPoll), old(pendingWakeup), old(pendingBytes), pendingWakeup, pendingBytes)
    {
      for i := 0 to |timers|
        invariant forall j :: 0 <= j < i ==> TimerId(timers[j]) != timerId
      {
        if timers[i].id == timerId {
          timers := timers[i := timers[i].(interval := interval)];
          Interrupt();
          return;
        }
      }
    }

    /**
     * remove_handle: drop the handle with `handleId`, unregister its descriptor and
     * queue its ctx for the next tick to free. An unknown id changes no list but
     * still wakes poll; a descriptor poll no longer knows raises KeyError and changes nothing.
     */
    method RemoveHandle(handleId: int) returns (r: Outcome)
      requires Valid()
      modifies this`handles, this`pollSet, this`cleanup, this`pendingWakeup, this`pendingBytes
      ensures Valid()
      ensures r == Unregister(old(handles), handleId, old(pollSet))
      ensures r.KeyError? ==> unchanged(this)
      ensures r == Done ==>
        && handles == Without(old(handles), HandleId, handleId)
        && pollSet == old(pollSet) - DroppedFds(old(handles), handleId)
        && cleanup == old(cleanup) + DroppedCtx(old(handles), HandleId, HandleCtx, handleId)
        && Wakes(old(runningPoll), old(pendingWakeup), old(pendingBytes), pendingWakeup, pendingBytes)
    {
      var kept, poll, dropped;
      r, kept, poll, dropped := FilterHandles(handles, handleId, pollSet);
      if r == Done {
        WithoutIssued(handles, HandleId, handleId, nextHandleID);
        handles, pollSet, cleanup := kept, poll, cleanup + dropped;
        Interrupt();
      }
    }

    /**
     * remove_timer: drop the timer with `timerId` and queue its ctx for the next
     * tick to free; an unknown id changes no list but still wakes poll.
     */
    method RemoveTimer(timerId: int)
      requires Valid()
      modifies this`timers, this`cleanup, this`pendingWakeup, this`pendingBytes
      ensures Valid()
      ensures timers == Without(old(timers), TimerId, timerId)
      ensures cleanup == old(cleanup) + DroppedCtx(old(timers), TimerId, TimerCtx, timerId)
      ensures Wakes(old(runningPoll), old(pendingWakeup), old(pendingBytes), pendingWakeup, pendingBytes)
    {
      WithoutIssued(timers, TimerId, timerId, nextTimerID);
      var kept, dropped := FilterTimers(timers, timerId);
      timers, cleanup := kept, cleanup + dropped;
      Interrupt();
    }
  }
}
