/**
 * The verbose listener: it counts every permission or meta check it is
 * handed, records the ones its filter matches into a bounded buffer,
 * optionally notifies a sender of each match, and on upload reports both
 * counters, whether matches were dropped, and the buffered events in
 * order, emptying the buffer but keeping the counters.
 */
module Verbose {
  import opened Wrappers

  /** How many matched events the listener stores before it stops recording them. */
  const DataTruncation: nat := 10000

  /** Where a check came from. Only the two platform `hasPermission` origins are named;
      the enumeration's other constants are carried by their name. */
  datatype CheckOrigin = PlatformApiHasPermissionSet | PlatformApiHasPermission | OtherOrigin(name: string)

  /** The outcome of a permission check. */
  datatype Tristate = True | False | Undefined

  /** A verbose event: a permission check, a meta check, or some other kind of event
      the notification code does not know. */
  datatype VerboseEvent =
    | PermissionCheckEvent(origin: CheckOrigin, checkTarget: string, permission: string, result: Tristate)
    | MetaCheckEvent(origin: CheckOrigin, checkTarget: string, key: string, value: string)
    | UnknownEvent(origin: CheckOrigin)

  /** Whether the event's stack trace is printed with internal frames filtered out. */
  predicate ShouldFilterStackTrace(event: VerboseEvent)
  {
    match event
    case PermissionCheckEvent(origin, _, _, _) =>
      origin == PlatformApiHasPermissionSet || origin == PlatformApiHasPermission
    case _ => false
  }

  /** Exactly the permission checks issued through the platform `hasPermission` calls are filtered. */
  lemma ShouldFilterStackTraceExactly(event: VerboseEvent)
    ensures ShouldFilterStackTrace(event) <==>
      event.PermissionCheckEvent? &&
      (event.origin == PlatformApiHasPermissionSet || event.origin == PlatformApiHasPermission)
    ensures event.MetaCheckEvent? ==> !ShouldFilterStackTrace(event)
  {
  }

  /** The chat message a notification carries: the log template and its arguments. */
  datatype VerboseLog =
    | VerboseLogPermission(checkTarget: string, permission: string, result: Tristate)
    | VerboseLogMeta(checkTarget: string, key: string, value: string)

  /** What `sendNotification` does with an event: sends a message, whose hover trace is
      filtered or not, or fails with "Unknown event type". */
  datatype Notification =
    | Sent(message: VerboseLog, filteredTrace: bool)
    | UnknownEventType(event: VerboseEvent)

  /** The notification for one matched event. */
  function SendNotification(event: VerboseEvent): (n: Notification)
    ensures n.UnknownEventType? <==> !event.PermissionCheckEvent? && !event.MetaCheckEvent?
    ensures n.UnknownEventType? ==> n.event == event
    ensures n.Sent? ==> n.filteredTrace == ShouldFilterStackTrace(event)
    ensures n.Sent? ==> n.message.checkTarget == event.checkTarget
    ensures event.PermissionCheckEvent? ==>
      n.message.VerboseLogPermission? && n.message.permission == event.permission && n.message.result == event.result
    ensures event.MetaCheckEvent? ==>
      n.message.VerboseLogMeta? && n.message.key == event.key && n.message.value == event.value
  {
    match event
    case PermissionCheckEvent(_, target, permission, result) =>
      Sent(VerboseLogPermission(target, permission, result), ShouldFilterStackTrace(event))
    case MetaCheckEvent(_, target, key, value) =>
      Sent(VerboseLogMeta(target, key, value), ShouldFilterStackTrace(event))
    case UnknownEvent(_) => UnknownEventType(event)
  }

  /** The listener's counters and buffer, as a value. */
  datatype Capture = Capture(total: nat, matched: nat, results: seq<VerboseEvent>)
  {
    /** The buffer stays within its bound and never holds more than matched, nor matched more than seen. */
    ghost predicate Valid()
    {
      |results| <= DataTruncation && |results| <= matched <= total
    }
  }

  /** A freshly registered listener. */
  const Empty: Capture := Capture(0, 0, [])

  /** `acceptEvent`'s effect on the counters and the buffer. */
  function Accept(c: Capture, filter: VerboseEvent -> bool, event: VerboseEvent): (d: Capture)
    ensures d.total == c.total + 1
    ensures !filter(event) ==> d.matched == c.matched && d.results == c.results
    ensures filter(event) ==> d.matched == c.matched + 1
    ensures filter(event) && |c.results| < DataTruncation ==> d.results == c.results + [event]
    ensures |c.results| >= DataTruncation ==> d.results == c.results
    ensures c.Valid() ==> d.Valid()
  {
    if !filter(event) then c.(total := c.total + 1)
    else if |c.results| < DataTruncation then Capture(c.total + 1, c.matched + 1, c.results + [event])
    else Capture(c.total + 1, c.matched + 1, c.results)
  }

  /** The effect of accepting `events` one after another. */
  function AcceptAll(c: Capture, filter: VerboseEvent -> bool, events: seq<VerboseEvent>): Capture
  {
    if events == [] then c
    else Accept(AcceptAll(c, filter, events[..|events| - 1]), filter, events[|events| - 1])
  }

  /** The events the filter matches, in order. */
  function Matching(filter: VerboseEvent -> bool, events: seq<VerboseEvent>): (m: seq<VerboseEvent>)
    ensures |m| <= |events|
    ensures forall e :: e in m ==> e in events && filter(e)
  {
    if events == [] then []
    else
      var rest := Matching(filter, events[..|events| - 1]);
      var e := events[|events| - 1];
      if filter(e) then rest + [e] else rest
  }

  /** The first `DataTruncation` elements of `s`, or all of it when it is shorter. */
  function Retained(s: seq<VerboseEvent>): (r: seq<VerboseEvent>)
  {
    if |s| <= DataTruncation then s else s[..DataTruncation]
  }

  /** Accepting keeps the invariant over any run of events. */
  lemma {:induction false} AcceptAllValid(c: Capture, filter: VerboseEvent -> bool, events: seq<VerboseEvent>)
    requires c.Valid()
    ensures AcceptAll(c, filter, events).Valid()
    ensures AcceptAll(c, filter, events).total == c.total + |events|
  {
    if events != [] {
      AcceptAllValid(c, filter, events[..|events| - 1]);
    }
  }

  /** From a fresh listener: the total counts every event, the matched counter every match,
      and the buffer holds the first `DataTruncation` matches in the order they came. */
  lemma {:induction false} AcceptAllFromEmpty(filter: VerboseEvent -> bool, events: seq<VerboseEvent>)
    ensures AcceptAll(Empty, filter, events)
         == Capture(|events|, |Matching(filter, events)|, Retained(Matching(filter, events)))
  {
    if events != [] {
      var prefix := events[..|events| - 1];
      var e := events[|events| - 1];
      AcceptAllFromEmpty(filter, prefix);
      var m := Matching(filter, prefix);
      if filter(e) && |m| >= DataTruncation {
        assert (m + [e])[..DataTruncation] == m[..DataTruncation];
      }
    }
  }

  /** The truncation flag is the condition of the stored data: matches were seen and dropped. */
  predicate Truncated(c: Capture)
  {
    c.matched > |c.results|
  }

  /** From a fresh listener, upload reports truncation exactly when more than
      `DataTruncation` events matched. */
  lemma TruncatedIffOverflow(filter: VerboseEvent -> bool, events: seq<VerboseEvent>)
    ensures Truncated(AcceptAll(Empty, filter, events)) <==> |Matching(filter, events)| > DataTruncation
  {
    AcceptAllFromEmpty(filter, events);
  }

  /** An event in the upload: the event and whether its trace is printed filtered. */
  datatype EventRecord = EventRecord(event: VerboseEvent, filteredTrace: bool)

  /** `event.toJson(printer)`, with the printer chosen by `shouldFilterStackTrace`. */
  function ToJson(event: VerboseEvent): EventRecord
  {
    EventRecord(event, ShouldFilterStackTrace(event))
  }

  /** The `data` array of an upload, one record per event, in order. */
  function RenderAll(events: seq<VerboseEvent>): (data: seq<EventRecord>)
    ensures |data| == |events|
    ensures forall i :: 0 <= i < |events| ==> data[i] == ToJson(events[i])
  {
    if events == [] then [] else RenderAll(events[..|events| - 1]) + [ToJson(events[|events| - 1])]
  }

  /** The parts of the upload the listener decides: counts, truncation and the event data. */
  datatype Snapshot = Snapshot(matched: nat, total: nat, truncated: bool, data: seq<EventRecord>)

  /** The snapshot an upload produces from the current capture. */
  function Export(c: Capture): (s: Snapshot)
    ensures s.matched == c.matched && s.total == c.total
    ensures s.truncated <==> c.matched > |c.results|
    ensures |s.data| == |c.results|
    ensures forall i :: 0 <= i < |c.results| ==> s.data[i].event == c.results[i]
  {
    Snapshot(c.matched, c.total, Truncated(c), RenderAll(c.results))
  }

  /** The capture after an upload: the buffer drained, the counters untouched. */
  function Drained(c: Capture): (d: Capture)
    ensures d.total == c.total && d.matched == c.matched && d.results == []
    ensures c.Valid() ==> d.Valid()
  {
    c.(results := [])
  }

  /** A second upload with no event in between has no data but the same counts,
      and is truncated exactly when anything matched at all. */
  lemma ExportTwice(c: Capture)
    ensures Export(Drained(c)).data == []
    ensures Export(Drained(c)).matched == Export(c).matched
    ensures Export(Drained(c)).total == Export(c).total
    ensures Export(Drained(c)).truncated <==> c.matched > 0
  {
  }

  /** Events matched after an upload are buffered from an empty buffer again. */
  lemma AcceptAfterDrain(c: Capture, filter: VerboseEvent -> bool, event: VerboseEvent)
    requires c.Valid() && filter(event)
    ensures Accept(Drained(c), filter, event).results == [event]
  {
  }

  /** When the filter matches every event, the matches are all of the events. */
  lemma {:induction false} AllMatchingMatches(filter: VerboseEvent -> bool, events: seq<VerboseEvent>)
    requires forall i :: 0 <= i < |events| ==> filter(events[i])
    ensures Matching(filter, events) == events
  {
    if events != [] {
      AllMatchingMatches(filter, events[..|events| - 1]);
      assert events[..|events| - 1] + [events[|events| - 1]] == events;
    }
  }

  /** 10,001 matching events give total and matched 10,001, a full buffer of 10,000,
      and a truncated upload. */
  lemma OverflowExample(filter: VerboseEvent -> bool, events: seq<VerboseEvent>)
    requires |events| == DataTruncation + 1
    requires forall i :: 0 <= i < |events| ==> filter(events[i])
    ensures Export(AcceptAll(Empty, filter, events)).total == 10001
    ensures Export(AcceptAll(Empty, filter, events)).matched == 10001
    ensures |AcceptAll(Empty, filter, events).results| == 10000
    ensures Export(AcceptAll(Empty, filter, events)).truncated
  {
    AllMatchingMatches(filter, events);
    AcceptAllFromEmpty(filter, events);
  }

  class VerboseListener {
    /** The filter the listener was created with; its evaluation is not modelled. */
    const filter: VerboseEvent -> bool
    /** Whether each matched event is also sent to the sender. */
    const notify: bool
    /** The number of events handled. */
    var counter: nat
    /** The number of handled events the filter matched. */
    var matchedCounter: nat
    /** The matched events, up to `DataTruncation` of them. */
    var results: seq<VerboseEvent>

    function State(): Capture
      reads this
    {
      Capture(counter, matchedCounter, results)
    }

    ghost predicate Valid()
      reads this
    {
      State().Valid()
    }

    constructor (filter: VerboseEvent -> bool, notify: bool)
      ensures Valid() && State() == Empty
      ensures this.filter == filter && this.notify == notify
    {
      this.filter := filter;
      this.notify := notify;
      counter := 0;
      matchedCounter := 0;
      results := [];
    }

    /** `acceptEvent`: count, filter, record if there is room, then notify. The
        notification is computed after the counters and buffer changed, so an
        unknown event type fails without undoing them. */
    method AcceptEvent(event: VerboseEvent) returns (notification: Option<Notification>)
      requires Valid()
      modifies this
      ensures Valid()
      ensures State() == Accept(old(State()), filter, event)
      ensures counter == old(counter) + 1
      ensures !filter(event) ==> matchedCounter == old(matchedCounter) && results == old(results)
      ensures filter(event) ==> matchedCounter == old(matchedCounter) + 1
      ensures filter(event) && |old(results)| < DataTruncation ==> results == old(results) + [event]
      ensures |old(results)| >= DataTruncation ==> results == old(results)
      ensures notification == if filter(event) && notify then Some(SendNotification(event)) else None
    {
      counter := counter + 1;
      if !filter(event) {
        return None;
      }
      matchedCounter := matchedCounter + 1;
      if |results| < DataTruncation {
        results := results + [event];
      }
      notification := None;
      if notify {
        notification := Some(SendNotification(event));
      }
    }

    /** The listener-side part of `uploadPasteData`: the truncation flag taken before
        the drain, the counts, the buffered events rendered in order; then the buffer emptied. */
    method UploadPasteData() returns (snapshot: Snapshot)
      requires Valid()
      modifies this
      ensures Valid()
      ensures snapshot == Export(old(State()))
      ensures State() == Drained(old(State()))
      ensures snapshot.truncated <==> old(matchedCounter) > |old(results)|
      ensures snapshot.matched == matchedCounter == old(matchedCounter)
      ensures snapshot.total == counter == old(counter)
      ensures results == []
    {
      var truncated := matchedCounter > |results|;
      var data: seq<EventRecord> := [];
      for i := 0 to |results|
        invariant data == RenderAll(results[..i])
      {
        assert results[..i + 1][..i] == results[..i];
        data := data + [ToJson(results[i])];
      }
      assert results[..|results|] == results;
      results := [];
      snapshot := Snapshot(matchedCounter, counter, truncated, data);
    }
  }
}
