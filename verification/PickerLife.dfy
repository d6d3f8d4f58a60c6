/**
  The life of a picker session: opened, browsed, expired, and what its owner sees.
 */
module PickerLife {
  import opened Common
  import opened Strings
  import opened ModelPicker
  import opened PickerSessions

  // ---------------------------------------------------------------------------------------------
  // One session, event by event
  // ---------------------------------------------------------------------------------------------

  /** Not more than 300 seconds since the last activity. */
  predicate IsRecent(s: Session, now: int) {
    now - s.lastActiveAt <= 300_000_000_000
  }

  lemma SweepKeepsRecent(m: Sessions, now: int, id: string)
    ensures id in Sweep(m, now) <==> id in m && now - m[id].lastActiveAt <= 300_000_000_000
    ensures id in Sweep(m, now) ==> Sweep(m, now)[id] == m[id]
  {
  }

  /** The callback comes from the owner of the session, out of its own message. */
  predicate IsOwn(s: Session, e: Event)
    requires e.HandleEvent?
  {
    e.location == Some(s.location) && e.caller == s.owner
  }

  /** The last page, counted from 0: the one that the last entry is on. */
  ghost predicate IsLastPage(s: Session, last: nat) {
    if s.entries == [] then last == 0 else last * s.pageSize < |s.entries| <= (last + 1) * s.pageSize
  }

  lemma LastPageIs(s: Session, last: nat)
    requires s.pageSize > 0 && IsLastPage(s, last)
    ensures s.TotalPages() == last + 1
  {
    hide DivCeil;
    if s.entries == [] {
      OnePage(s);
    } else {
      PageCount(s);
      var n := s.TotalPages();
      if n < last + 1 {
        MulMono(n, last, s.pageSize);
      } else if n > last + 1 {
        MulMono(last + 1, n - 1, s.pageSize);
      }
    }
  }

  /** What becomes of a session whose id is not opened anew, under every other event. */
  lemma SessionStep(m: Sessions, e: Event, sid: string)
    requires AllLive(m) && sid in m && !Opens(e, sid)
    ensures var (s, r) := (m[sid], Next(m, e).0);
            match e
            case MoveEvent(id, at) => sid in r && r[sid] == if id == sid then s.(location := at) else s
            case HandleEvent(action, _, _, _, now) =>
              if !IsRecent(s, now) then sid !in r
              else if action.sessionId != sid || !IsOwn(s, e) then sid in r && r[sid] == s
              else if action.Cancel? || (action.Select? && action.idx < |s.entries|) then sid !in r
              else if action.Select? then sid in r && r[sid] == s
              else sid in r && r[sid] == s.(page := r[sid].page, lastActiveAt := now)
            case _ => (sid in r <==> IsRecent(s, e.now)) && (sid in r ==> r[sid] == s)
  {
    hide Rendered, NavRow, HeaderText, Session.TotalPages;
  }

  /** What the caller of a callback is told. */
  lemma CallbackOutcome(m: Sessions, e: Event, last: nat)
    requires AllLive(m) && e.HandleEvent?
    requires e.action.sessionId in m ==> IsLastPage(m[e.action.sessionId], last)
    ensures var (sid, r, outcome) := (e.action.sessionId, Next(m, e).0, Next(m, e).1);
            if sid !in m || !IsRecent(m[sid], e.now) then outcome.None?
            else if !IsOwn(m[sid], e) then outcome == Some(Ignored)
            else match e.action
              case Cancel(_) => outcome == Some(Cancelled)
              case Select(_, idx) =>
                outcome == Some(if idx < |m[sid].entries| then Selected(m[sid].entries[idx]) else Ignored)
              case Page(_, page) =>
                && sid in r && r[sid].page == (if page < last then page else last)
                && outcome == Some(ShowPage(Rendered(r[sid], sid, e.currentKey)))
  {
    hide Rendered, NavRow, HeaderText, Session.TotalPages;
    if e.action.sessionId in m {
      LastPageIs(m[e.action.sessionId], last);
    }
  }

  // ---------------------------------------------------------------------------------------------
  // Expiry
  // ---------------------------------------------------------------------------------------------

  /** The time at which the event happens, as far as the registry looks at it. */
  function ClockOf(e: Event): Option<int> {
    if e.MoveEvent? then None else Some(e.now)
  }

  /**
    The first event that looks at the clock more than 300 seconds after the last activity of a session ends it: in no
    later state is it there, and every callback for it, that event included, is answered with nothing.
   */
  lemma ExpiredForGood(m: Sessions, es: seq<Event>, sid: string, i: nat, j: nat)
    requires AllLive(m) && i <= j < |es| && sid in After(m, es, i)
    requires ClockOf(es[i]).Some? && ClockOf(es[i]).value - After(m, es, i)[sid].lastActiveAt > 300_000_000_000
    requires forall k :: i <= k <= j ==> !Opens(es[k], sid)
    ensures sid !in After(m, es, j + 1)
    ensures Concerns(es[j], sid) ==> OutcomeOf(m, es, j).None?
  {
    hide Next, Session.Live;
    var (before, e) := (After(m, es, i), es[i]);
    SessionStep(before, e, sid);
    GoneStaysGone(m, es, sid, i + 1, j + 1);
    if Concerns(es[j], sid) {
      if j == i {
        StaleOutcome(before, e);
      } else {
        GoneStaysGone(m, es, sid, i + 1, j);
        OneEvent(After(m, es, j), es[j], sid);
      }
    }
  }

  lemma StaleOutcome(m: Sessions, e: Event)
    requires AllLive(m) && e.HandleEvent? && e.action.sessionId in m && !IsRecent(m[e.action.sessionId], e.now)
    ensures Next(m, e).1.None?
  {
    hide Rendered, NavRow, HeaderText, Session.TotalPages;
  }

  // ---------------------------------------------------------------------------------------------
  // Opening
  // ---------------------------------------------------------------------------------------------

  /** A new session, with at least one entry to a page. */
  lemma OpenedSession(m: Sessions, e: Event)
    requires AllLive(m) && e.OpenEvent?
    ensures e.id in Next(m, e).0
    ensures var s := Next(m, e).0[e.id];
            && s.owner == e.owner && s.location == e.at && s.entries == e.entries
            && s.pageSize == (if e.pageSize == 0 then 1 else e.pageSize)
            && s.page == 0 && s.lastActiveAt == e.now && !s.consumed
    ensures forall id :: id != e.id ==>
              (id in Next(m, e).0 <==> id in m && IsRecent(m[id], e.now))
              && (id in Next(m, e).0 ==> Next(m, e).0[id] == m[id])
  {
  }

  /** Within 300 seconds of opening, the owner selects any entry of the list by its number. */
  lemma OpenThenSelect(m: Sessions, e: Event, k: nat, currentKey: Option<string>, later: int)
    requires AllLive(m) && e.OpenEvent? && k < |e.entries| && later - e.now <= 300_000_000_000
    ensures AllLive(Next(m, e).0)
    ensures var press := HandleEvent(Select(e.id, k), e.owner, Some(e.at), currentKey, later);
            var (r, outcome) := Next(Next(m, e).0, press);
            e.id !in r && outcome == Some(Selected(e.entries[k]))
  {
    hide Next;
    NextIsLive(m, e);
    OpenedSession(m, e);
    var u := Next(m, e).0;
    var press := HandleEvent(Select(e.id, k), e.owner, Some(e.at), currentKey, later);
    SessionStep(u, press, e.id);
    var last := LastPage(u[e.id]);
    CallbackOutcome(u, press, last);
  }

  lemma LastPage(s: Session) returns (last: nat)
    requires s.pageSize > 0
    ensures IsLastPage(s, last)
  {
    hide DivCeil;
    last := s.TotalPages() - 1;
    if s.entries == [] {
      OnePage(s);
    } else {
      PageCount(s);
    }
  }

  // ---------------------------------------------------------------------------------------------
  // The header
  // ---------------------------------------------------------------------------------------------

  /** The text above the buttons: the page and the number of pages, both counted from 1, and the number of models. */
  lemma HeaderShows(s: Session, sid: string, currentKey: Option<string>, last: nat)
    requires s.Live() && IsLastPage(s, last)
    ensures s.page <= last
    ensures Rendered(s, sid, currentKey).text
         == "\U{1F9E0} <b>Select a model</b> (page " + Decimal(s.page + 1) + "/" + Decimal(last + 1) + ", "
            + Decimal(|s.entries|) + " total)"
            + (if s.entries == [] then "\n\nNo models discovered. Try /model refresh." else "")
  {
    hide Decimal, NavRow, SelectCallbackData, Session.TotalPages;
    LastPageIs(s, last);
  }
}
