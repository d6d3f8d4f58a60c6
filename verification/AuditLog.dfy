/**
  Audit events: queries and the in-memory store.
 */
module AuditLog {
  import opened Common
  import opened AuditDigits
  import opened AuditTime

  datatype EventKind = ModelCall | MemoryWrite | MemoryRead | ToolExec | ChannelSend {
    function AsStr(): string {
      match this
      case ModelCall => "model-call"
      case MemoryWrite => "memory-write"
      case MemoryRead => "memory-read"
      case ToolExec => "tool-exec"
      case ChannelSend => "channel-send"
    }
  }

  datatype AuditEvent = AuditEvent(
    id: string, timestamp: string, actor: string, kind: EventKind, dataSummary: string, destination: string,
    piiFlag: bool)

  // ---------------------------------------------------------------------------------------------
  // Queries
  // ---------------------------------------------------------------------------------------------

  datatype AuditQuery = AuditQuery(
    since: Option<string>, until: Option<string>, kind: Option<EventKind>, destination: Option<string>,
    actor: Option<string>, piiOnly: Option<bool>)
  {
    predicate Matches(e: AuditEvent) {
      if since.Some? && LexLess(e.timestamp, since.value) then false
      else if until.Some? && LexLess(until.value, e.timestamp) then false
      else if kind.Some? && e.kind != kind.value then false
      else if destination.Some? && e.destination != destination.value then false
      else if actor.Some? && e.actor != actor.value then false
      else if piiOnly.Some? && e.piiFlag != piiOnly.value then false
      else true
    }
  }

  ghost predicate Agrees<T(!new)>(filter: Option<T>, value: T) {
    filter.Some? ==> value == filter.value
  }

  /** A query with bounds, in terms of points in time. */
  datatype Window = Window(from: Option<Stamp>, to: Option<Stamp>) {
    ghost predicate Valid() {
      (from.Some? ==> from.value.Valid()) && (to.Some? ==> to.value.Valid())
    }

    ghost predicate Holds(t: Stamp)
      requires Valid() && t.Valid()
    {
      && (from.Some? ==> InstantOf(from.value) <= InstantOf(t))
      && (to.Some? ==> InstantOf(t) <= InstantOf(to.value))
    }
  }

  function OptText(t: Option<Stamp>): Option<string> {
    if t.Some? then Some(Text(t.value)) else None
  }

  /** An event matches exactly when its time lies in the window, bounds included, and all other filters agree. */
  lemma MatchesWindow(q: AuditQuery, w: Window, e: AuditEvent, t: Stamp)
    requires w.Valid() && q.since == OptText(w.from) && q.until == OptText(w.to)
    requires t.Valid() && e.timestamp == Text(t)
    ensures q.Matches(e)
       <==> w.Holds(t) && Agrees(q.kind, e.kind) && Agrees(q.destination, e.destination)
            && Agrees(q.actor, e.actor) && Agrees(q.piiOnly, e.piiFlag)
  {
    hide Text, LexLess, InstantOf;
    if w.from.Some? {
      TextOrderIsTimeOrder(t, w.from.value);
    }
    if w.to.Some? {
      TextOrderIsTimeOrder(w.to.value, t);
    }
  }

  // ---------------------------------------------------------------------------------------------
  // The in-memory store
  // ---------------------------------------------------------------------------------------------

  /** The events the query matches, in order. */
  function Matching(es: seq<AuditEvent>, q: AuditQuery): seq<AuditEvent> {
    if es == [] then []
    else (if q.Matches(es[0]) then [es[0]] else []) + Matching(es[1..], q)
  }

  /** The events not before the cutoff, in order. */
  function Kept(es: seq<AuditEvent>, cutoff: string): seq<AuditEvent> {
    if es == [] then []
    else (if LexLess(es[0].timestamp, cutoff) then [] else [es[0]]) + Kept(es[1..], cutoff)
  }

  lemma {:induction false} MatchingSnoc(es: seq<AuditEvent>, e: AuditEvent, q: AuditQuery)
    ensures Matching(es + [e], q) == Matching(es, q) + (if q.Matches(e) then [e] else [])
  {
    hide AuditQuery.Matches;
    if es == [] {
      assert [e][1..] == [] && es + [e] == [e];
    } else {
      assert (es + [e])[1..] == es[1..] + [e];
      MatchingSnoc(es[1..], e, q);
    }
  }

  lemma {:induction false} KeptSnoc(es: seq<AuditEvent>, e: AuditEvent, cutoff: string)
    ensures Kept(es + [e], cutoff) == Kept(es, cutoff) + (if LexLess(e.timestamp, cutoff) then [] else [e])
  {
    hide LexLess;
    if es == [] {
      assert [e][1..] == [] && es + [e] == [e];
    } else {
      assert (es + [e])[1..] == es[1..] + [e];
      KeptSnoc(es[1..], e, cutoff);
    }
  }

  class InMemoryAuditStore {
    var events: seq<AuditEvent>

    constructor ()
      ensures events == []
    {
      events := [];
    }

    method Append(e: AuditEvent)
      modifies this
      ensures events == old(events) + [e]
    {
      events := events + [e];
    }

    method Query(q: AuditQuery) returns (r: seq<AuditEvent>)
      ensures r == Matching(events, q)
    {
      r := [];
      for k := 0 to |events|
        invariant r == Matching(events[..k], q)
      {
        assert events[..k + 1] == events[..k] + [events[k]];
        MatchingSnoc(events[..k], events[k], q);
        if q.Matches(events[k]) {
          r := r + [events[k]];
        }
      }
      assert events[..|events|] == events;
    }

    method PurgeBefore(cutoff: string)
      modifies this
      ensures events == Kept(old(events), cutoff)
    {
      var r: seq<AuditEvent> := [];
      for k := 0 to |events|
        invariant events == old(events)
        invariant r == Kept(events[..k], cutoff)
      {
        assert events[..k + 1] == events[..k] + [events[k]];
        KeptSnoc(events[..k], events[k], cutoff);
        if !LexLess(events[k].timestamp, cutoff) {
          r := r + [events[k]];
        }
      }
      assert events[..|events|] == events;
      events := r;
    }
  }

  // ---------------------------------------------------------------------------------------------
  // Selection by time
  // ---------------------------------------------------------------------------------------------

  /** The elements at the positions for which `keep` holds, in order. */
  ghost function Select(es: seq<AuditEvent>, keep: seq<bool>): seq<AuditEvent>
    requires |es| == |keep|
  {
    if es == [] then [] else (if keep[0] then [es[0]] else []) + Select(es[1..], keep[1..])
  }

  ghost predicate StampedWith(es: seq<AuditEvent>, ts: seq<Stamp>) {
    |es| == |ts| && forall i :: 0 <= i < |es| ==> ts[i].Valid() && es[i].timestamp == Text(ts[i])
  }

  /** The events kept are those at the positions that are not before the cutoff. */
  lemma {:induction false} KeptIsSelect(es: seq<AuditEvent>, cutoff: string, keep: seq<bool>)
    requires |keep| == |es| && forall i :: 0 <= i < |es| ==> keep[i] == !LexLess(es[i].timestamp, cutoff)
    ensures Kept(es, cutoff) == Select(es, keep)
  {
    hide LexLess;
    if es != [] {
      KeptIsSelect(es[1..], cutoff, keep[1..]);
    }
  }

  /** A query by time alone returns, in order, exactly the events within the window. */
  lemma {:induction false} QuerySelectsWindow(es: seq<AuditEvent>, ts: seq<Stamp>, w: Window, keep: seq<bool>)
    requires StampedWith(es, ts) && w.Valid() && |keep| == |es|
    requires forall i :: 0 <= i < |es| ==> keep[i] == w.Holds(ts[i])
    ensures Matching(es, AuditQuery(OptText(w.from), OptText(w.to), None, None, None, None)) == Select(es, keep)
  {
    hide AuditQuery.Matches, Text, Window.Holds;
    if es != [] {
      var q := AuditQuery(OptText(w.from), OptText(w.to), None, None, None, None);
      MatchesWindow(q, w, es[0], ts[0]);
      QuerySelectsWindow(es[1..], ts[1..], w, keep[1..]);
    }
  }

  /** Purging keeps, in order, exactly the events at or after the cutoff. */
  lemma PurgeSelectsRecent(es: seq<AuditEvent>, ts: seq<Stamp>, cutoff: Stamp, keep: seq<bool>)
    requires StampedWith(es, ts) && cutoff.Valid() && |keep| == |es|
    requires forall i :: 0 <= i < |es| ==> keep[i] == (InstantOf(cutoff) <= InstantOf(ts[i]))
    ensures Kept(es, Text(cutoff)) == Select(es, keep)
  {
    hide LexLess, Text, InstantOf;
    forall i | 0 <= i < |es|
      ensures keep[i] == !LexLess(es[i].timestamp, Text(cutoff))
    {
      TextOrderIsTimeOrder(ts[i], cutoff);
    }
    KeptIsSelect(es, Text(cutoff), keep);
  }

  // ---------------------------------------------------------------------------------------------
  // Order
  // ---------------------------------------------------------------------------------------------

  /** No event is before an event that stands in front of it. */
  ghost predicate InOrder(es: seq<AuditEvent>) {
    forall i, j :: 0 <= i < j < |es| ==> !LexLess(es[j].timestamp, es[i].timestamp)
  }

  /** Order by text is order by time. */
  lemma InOrderIsChronological(es: seq<AuditEvent>, ts: seq<Stamp>)
    requires StampedWith(es, ts)
    ensures InOrder(es) <==> forall i, j :: 0 <= i < j < |ts| ==> InstantOf(ts[i]) <= InstantOf(ts[j])
  {
    hide LexLess, Text, InstantOf;
    forall i, j | 0 <= i < j < |ts|
      ensures !LexLess(es[j].timestamp, es[i].timestamp) <==> InstantOf(ts[i]) <= InstantOf(ts[j])
    {
      TextOrderIsTimeOrder(ts[j], ts[i]);
    }
  }

  const MATCH_ALL := AuditQuery(None, None, None, None, None, None)

  lemma {:induction false} MatchingAll(es: seq<AuditEvent>)
    ensures Matching(es, MATCH_ALL) == es
  {
    if es != [] {
      MatchingAll(es[1..]);
    }
  }

  lemma {:induction false} MatchingMembers(es: seq<AuditEvent>, q: AuditQuery)
    ensures forall e :: e in Matching(es, q) <==> e in es && q.Matches(e)
  {
    hide AuditQuery.Matches;
    if es != [] {
      MatchingMembers(es[1..], q);
      assert es == [es[0]] + es[1..];
    }
  }

  /** Nothing in the list is earlier. */
  ghost predicate NoneBefore(e: AuditEvent, es: seq<AuditEvent>) {
    forall x :: x in es ==> !LexLess(x.timestamp, e.timestamp)
  }

  lemma InOrderCons(e: AuditEvent, es: seq<AuditEvent>)
    ensures InOrder([e] + es) <==> InOrder(es) && NoneBefore(e, es)
  {
    hide LexLess;
    var l := [e] + es;
    if InOrder(l) {
      forall x | x in es
        ensures !LexLess(x.timestamp, e.timestamp)
      {
        var j :| 0 <= j < |es| && es[j] == x;
        assert l[j + 1] == x && l[0] == e;
      }
      assert forall i :: 0 <= i < |es| ==> es[i] == l[i + 1];
    }
  }

  lemma {:induction false} MatchingKeepsOrder(es: seq<AuditEvent>, q: AuditQuery)
    requires InOrder(es)
    ensures InOrder(Matching(es, q))
  {
    hide LexLess, AuditQuery.Matches, InOrder;
    if es == [] {
      NothingInOrder();
    } else {
      assert es == [es[0]] + es[1..];
      InOrderCons(es[0], es[1..]);
      MatchingKeepsOrder(es[1..], q);
      MatchingMembers(es[1..], q);
      InOrderCons(es[0], Matching(es[1..], q));
      assert [] + Matching(es[1..], q) == Matching(es[1..], q);
    }
  }

  lemma NothingInOrder()
    ensures InOrder([])
  {
  }

  /** Queries give chronological results, all of them, if and only if the list they go through is chronological. */
  lemma QueryInOrderIff(es: seq<AuditEvent>)
    ensures (forall q :: InOrder(Matching(es, q))) <==> InOrder(es)
  {
    hide InOrder;
    if InOrder(es) {
      forall q
        ensures InOrder(Matching(es, q))
      {
        MatchingKeepsOrder(es, q);
      }
    }
    MatchingAll(es);
  }
}
