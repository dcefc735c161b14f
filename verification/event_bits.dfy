/**
 * Translation between libvirt's file-handle event flags (virEventHandleType)
 * and the flags of poll(2): `events_to_poll` and `events_from_poll` of
 * VirEventLoopPoll. Masks are 32-bit words.
 */
module EventBits {

  // libvirt's virEventHandleType flags
  const READABLE: bv32 := 0x1
  const WRITABLE: bv32 := 0x2
  const ERROR: bv32 := 0x4
  const HANGUP: bv32 := 0x8
  /** Every libvirt handle flag. */
  const ALL_EVENTS: bv32 := READABLE | WRITABLE | ERROR | HANGUP

  // poll(2) flags, with the values Linux gives them
  const POLLIN: bv32 := 0x01
  const POLLPRI: bv32 := 0x02
  const POLLOUT: bv32 := 0x04
  const POLLERR: bv32 := 0x08
  const POLLHUP: bv32 := 0x10
  const POLLNVAL: bv32 := 0x20
  /** The poll flags that have a libvirt counterpart in both directions. */
  const MAPPED_POLL: bv32 := POLLIN | POLLOUT | POLLERR | POLLHUP

  /** The libvirt flags of `events`, as the poll flags to register the descriptor with. */
  function EventsToPoll(events: bv32): (r: bv32)
    ensures r & !MAPPED_POLL == 0
  {
    (if events & READABLE != 0 then POLLIN else 0)
    | (if events & WRITABLE != 0 then POLLOUT else 0)
    | (if events & ERROR != 0 then POLLERR else 0)
    | (if events & HANGUP != 0 then POLLHUP else 0)
  }

  /** The poll flags `revents` reported for a descriptor, as libvirt flags. */
  function EventsFromPoll(revents: bv32): (r: bv32)
    ensures r & !ALL_EVENTS == 0
  {
    (if revents & POLLIN != 0 then READABLE else 0)
    | (if revents & POLLOUT != 0 then WRITABLE else 0)
    | (if revents & POLLNVAL != 0 then ERROR else 0)
    | (if revents & POLLERR != 0 then ERROR else 0)
    | (if revents & POLLHUP != 0 then HANGUP else 0)
  }

  /** Translating a mask of libvirt flags to poll and back gives the mask again. */
  lemma EventsRoundTrip(events: bv32)
    requires events & !ALL_EVENTS == 0
    ensures EventsFromPoll(EventsToPoll(events)) == events
  {
  }

  /** Translating a mask of the four mapped poll flags to libvirt and back gives it again. */
  lemma PollRoundTrip(revents: bv32)
    requires revents & !MAPPED_POLL == 0
    ensures EventsToPoll(EventsFromPoll(revents)) == revents
  {
  }

  /**
   * Both error conditions poll can report, POLLERR and POLLNVAL, become libvirt's
   * ERROR; so POLLNVAL alone does not survive a round trip.
   */
  lemma ErrorConditionsMerge(revents: bv32)
    ensures EventsFromPoll(revents) & ERROR != 0 <==> revents & (POLLERR | POLLNVAL) != 0
    ensures EventsFromPoll(POLLNVAL) == EventsFromPoll(POLLERR) == ERROR
    ensures EventsToPoll(EventsFromPoll(POLLNVAL)) == POLLERR
  {
  }

  /** Flags without a counterpart (POLLPRI, unknown bits) are dropped in both directions. */
  lemma UnmappedFlagsIgnored(events: bv32, revents: bv32)
    ensures EventsToPoll(events) == EventsToPoll(events & ALL_EVENTS)
    ensures EventsFromPoll(revents) == EventsFromPoll(revents & (MAPPED_POLL | POLLNVAL))
    ensures EventsFromPoll(POLLPRI) == 0
  {
  }

  /** The translation works flag by flag: it maps a union of masks to the union of their images. */
  lemma EventsToPollUnion(a: bv32, b: bv32)
    ensures EventsToPoll(a | b) == EventsToPoll(a) | EventsToPoll(b)
  {
  }
}
