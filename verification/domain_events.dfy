/**
 * The names of libvirt domain lifecycle events and of their detail codes:
 * `dom_event_to_string` and `dom_detail_to_string`. Both index Python tuples,
 * so a negative code counts from the end of the table and any other code
 * outside it raises IndexError, modelled here as `None`.
 */
module DomainEvents {
  import opened Wrappers
  import opened Seqs

  /** Event names, indexed by virDomainEventType. */
  const EVENT_NAMES: seq<string> := [
    "Defined", "Undefined", "Started", "Suspended", "Resumed",
    "Stopped", "Shutdown", "PMSuspended", "Crashed"]

  /** Detail names, one row per event type, indexed by the event's detail code. */
  const DETAIL_NAMES: seq<seq<string>> := [
    ["Added", "Updated", "Renamed", "Snapshot"],
    ["Removed", "Renamed"],
    ["Booted", "Migrated", "Restored", "Snapshot", "Wakeup"],
    ["Paused", "Migrated", "IOError", "Watchdog", "Restored", "Snapshot", "API error"],
    ["Unpaused", "Migrated", "Snapshot"],
    ["Shutdown", "Destroyed", "Crashed", "Migrated", "Saved", "Failed", "Snapshot"],
    ["Finished", "Guest", "Host"],
    ["Memory", "Disk"],
    ["Panicked"]]

  /** Python's `s[i]` on a tuple: negative positions count from the end; other misses raise. */
  function PyIndex<T>(s: seq<T>, i: int): (r: Option<T>)
    ensures r.Some? <==> -|s| <= i < |s|
    ensures r.Some? ==> r.value == s[if i < 0 then i + |s| else i]
  {
    if 0 <= i < |s| then Some(s[i])
    else if -|s| <= i < 0 then Some(s[|s| + i])
    else None
  }

  /** The name of an event type; `None` where the source raises IndexError. */
  function DomEventToString(event: int): (name: Option<string>)
    ensures name.Some? <==> -|EVENT_NAMES| <= event < |EVENT_NAMES|
    ensures 0 <= event < |EVENT_NAMES| ==> name == Some(EVENT_NAMES[event])
    ensures -|EVENT_NAMES| <= event < 0 ==> name == Some(EVENT_NAMES[event + |EVENT_NAMES|])
  {
    PyIndex(EVENT_NAMES, event)
  }

  /** The name of a detail code of an event type; `None` where the source raises IndexError. */
  function DomDetailToString(event: int, detail: int): (name: Option<string>)
    ensures name.Some? ==> -|EVENT_NAMES| <= event < |EVENT_NAMES|
    ensures -|DETAIL_NAMES| <= event < |DETAIL_NAMES| ==>
      var row := DETAIL_NAMES[if event < 0 then event + |DETAIL_NAMES| else event];
      && (name.Some? <==> -|row| <= detail < |row|)
      && (name.Some? ==> name.value == row[if detail < 0 then detail + |row| else detail])
  {
    match PyIndex(DETAIL_NAMES, event)
    case None => None
    case Some(row) => PyIndex(row, detail)
  }

  /** The event code a name belongs to: the inverse of DomEventToString. */
  function EventCode(name: string): Option<nat> {
    FirstIndex(EVENT_NAMES, n => n, name)
  }

  /** The detail code a name belongs to within an event's row: the inverse of DomDetailToString. */
  function DetailCode(event: nat, name: string): Option<nat>
    requires event < |DETAIL_NAMES|
  {
    FirstIndex(DETAIL_NAMES[event], n => n, name)
  }

  ghost predicate Distinct(names: seq<string>) {
    forall i, j :: 0 <= i < j < |names| ==> names[i] != names[j]
  }

  lemma FirstIndexOfDistinct(names: seq<string>, i: nat)
    requires Distinct(names) && i < |names|
    ensures FirstIndex(names, n => n, names[i]) == Some(i)
  {
  }

  /** Distinct event codes have distinct names, so every name leads back to its code. */
  lemma DomEventRoundTrip(event: int)
    requires 0 <= event < |EVENT_NAMES|
    ensures DomEventToString(event).Some?
    ensures EventCode(DomEventToString(event).value) == Some(event)
  {
    assert Distinct(EVENT_NAMES);
    FirstIndexOfDistinct(EVENT_NAMES, event);
  }

  /** Every event type has a row of details, and within a row every name leads back to its code. */
  lemma DomDetailRoundTrip(event: int, detail: int)
    requires 0 <= event < |EVENT_NAMES| && 0 <= detail < |DETAIL_NAMES[event]|
    ensures |DETAIL_NAMES| == |EVENT_NAMES|
    ensures DomDetailToString(event, detail).Some?
    ensures DetailCode(event, DomDetailToString(event, detail).value) == Some(detail)
  {
    assert Distinct(DETAIL_NAMES[event]);
    FirstIndexOfDistinct(DETAIL_NAMES[event], detail);
  }
}
