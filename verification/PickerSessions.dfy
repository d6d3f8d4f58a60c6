/**
  Rendering picker sessions, and the registry of live sessions.
 */
module PickerSessions {
  import opened Common
  import opened Strings
  import opened ModelPicker

  // ---------------------------------------------------------------------------------------------
  // Rendering
  // ---------------------------------------------------------------------------------------------

  datatype Button = Button(caption: string, data: string)

  datatype RenderedPage = RenderedPage(text: string, rows: seq<seq<Button>>)

  const PREV_LABEL := "\U{2B05}\U{FE0F} Prev"
  const NEXT_LABEL := "\U{27A1}\U{FE0F} Next"
  const CANCEL_LABEL := "\U{2716}\U{FE0F} Cancel"

  function FormatEntryLabel(entry: Entry, isCurrent: bool): string {
    (if isCurrent then "\U{2705} " else "") + entry.provider + "/" + entry.modelId
    + (if entry.preview then " \U{1F9EA}" else "")
  }

  function HeaderText(s: Session): string
    requires s.pageSize > 0
  {
    "\U{1F9E0} <b>Select a model</b> (page " + Decimal(s.page + 1) + "/" + Decimal(s.TotalPages()) + ", "
    + Decimal(|s.entries|) + " total)"
    + (if s.entries == [] then "\n\nNo models discovered. Try /model refresh." else "")
  }

  /** The row of the `offset`-th entry on the page. */
  function EntryRow(s: Session, sid: string, currentKey: Option<string>, offset: nat): seq<Button>
    requires offset < |s.PageSlice()|
  {
    var entry := s.PageSlice()[offset];
    [Button(FormatEntryLabel(entry, currentKey == Some(entry.key)),
            SelectCallbackData(sid, s.page * s.pageSize + offset))]
  }

  function NavRow(s: Session, sid: string): seq<Button>
    requires s.pageSize > 0
  {
    (if s.page > 0 then [Button(PREV_LABEL, PageCallbackData(sid, s.page - 1))] else [])
    + (if s.page + 1 < s.TotalPages() then [Button(NEXT_LABEL, PageCallbackData(sid, s.page + 1))] else [])
    + [Button(CANCEL_LABEL, CancelCallbackData(sid))]
  }

  function Rendered(s: Session, sid: string, currentKey: Option<string>): RenderedPage
    requires s.pageSize > 0
  {
    RenderedPage(
      HeaderText(s),
      seq(|s.PageSlice()|, k requires 0 <= k < |s.PageSlice()| => EntryRow(s, sid, currentKey, k)) + [NavRow(s, sid)])
  }

  method RenderSession(s: Session, sid: string, currentKey: Option<string>) returns (r: RenderedPage)
    requires s.pageSize > 0
    ensures r == Rendered(s, sid, currentKey)
  {
    hide SelectCallbackData, FormatEntryLabel, NavRow, DivCeil;
    var total := |s.entries|;
    var totalPages := s.TotalPages();
    var text := "\U{1F9E0} <b>Select a model</b> (page " + Decimal(s.page + 1) + "/" + Decimal(totalPages) + ", "
      + Decimal(total) + " total)";
    if total == 0 {
      text := text + "\n\nNo models discovered. Try /model refresh.";
    }
    assert text == HeaderText(s);
    var rows: seq<seq<Button>> := [];
    var slice := s.PageSlice();
    for offset := 0 to |slice|
      invariant |rows| == offset
      invariant forall k :: 0 <= k < offset ==> rows[k] == EntryRow(s, sid, currentKey, k)
    {
      var entry := slice[offset];
      var idx := s.page * s.pageSize + offset;
      var isCurrent := currentKey.Some? && currentKey.value == entry.key;
      rows := rows + [[Button(FormatEntryLabel(entry, isCurrent), SelectCallbackData(sid, idx))]];
    }
    var navRow := RenderNav(s, sid, totalPages);
    rows := rows + [navRow];
    r := RenderedPage(text, rows);
    assert rows == Rendered(s, sid, currentKey).rows;
  }

  method RenderNav(s: Session, sid: string, totalPages: nat) returns (navRow: seq<Button>)
    requires s.pageSize > 0 && totalPages == s.TotalPages()
    ensures navRow == NavRow(s, sid)
  {
    hide PageCallbackData, CancelCallbackData;
    navRow := [];
    if s.page > 0 {
      navRow := navRow + [Button(PREV_LABEL, PageCallbackData(sid, s.page - 1))];
    }
    if s.page + 1 < totalPages {
      navRow := navRow + [Button(NEXT_LABEL, PageCallbackData(sid, s.page + 1))];
    }
    navRow := navRow + [Button(CANCEL_LABEL, CancelCallbackData(sid))];
  }

  // ---------------------------------------------------------------------------------------------
  // The registry
  // ---------------------------------------------------------------------------------------------

  datatype Outcome = ShowPage(page: RenderedPage) | Selected(entry: Entry) | Cancelled | Ignored

  type Sessions = map<string, Session>

  function Sweep(m: Sessions, now: int): Sessions {
    map id | id in m && !m[id].IsExpired(now, SESSION_TTL) :: m[id]
  }

  /** Sessions that are neither expired nor consumed. */
  function Retained(m: Sessions, now: int): Sessions {
    map id | id in m && !m[id].IsExpired(now, SESSION_TTL) && !m[id].consumed :: m[id]
  }

  function NewSession(owner: int, location: Location, entries: seq<Entry>, pageSize: nat, now: int): Session {
    Session(owner, location, entries, if pageSize > 1 then pageSize else 1, 0, now, false)
  }

  /** The session after moving to a page, clamped to the last one. */
  function Turned(s: Session, page: nat, now: int): Session
    requires s.pageSize > 0
  {
    s.(page := Min(page, s.TotalPages() - 1), lastActiveAt := now)
  }

  /** What a callback does to the sessions and what the caller is told. */
  function Handled(m: Sessions, action: Action, caller: int, location: Option<Location>, currentKey: Option<string>,
                   now: int): (Sessions, Option<Outcome>)
    requires forall id :: id in m ==> m[id].pageSize > 0
  {
    var kept := Retained(m, now);
    var sid := action.sessionId;
    if sid !in kept then (kept, None)
    else
      var s := kept[sid];
      if location.None? || s.owner != caller || s.location != location.value then (kept, Some(Ignored))
      else match action
        case Page(_, page) =>
          var t := Turned(s, page, now);
          (kept[sid := t], Some(ShowPage(Rendered(t, sid, currentKey))))
        case Select(_, idx) =>
          if idx < |s.entries| then (kept - {sid}, Some(Selected(s.entries[idx]))) else (kept, Some(Ignored))
        case Cancel(_) => (kept - {sid}, Some(Cancelled))
  }

  function Moved(m: Sessions, sid: string, location: Location): Sessions {
    if sid in m then m[sid := m[sid].(location := location)] else m
  }

  class ModelPickerStore {
    var sessions: Sessions

    constructor ()
      ensures sessions == map[]
    {
      sessions := map[];
    }

    ghost predicate Valid()
      reads this
    {
      forall id :: id in sessions ==> sessions[id].Live()
    }

    method SweepExpired(now: int)
      modifies this
      ensures sessions == Sweep(old(sessions), now)
      ensures old(Valid()) ==> Valid()
    {
      sessions := map id | id in sessions && !sessions[id].IsExpired(now, SESSION_TTL) :: sessions[id];
    }

    /** Opens a session under the given fresh id. */
    method Open(freshId: string, owner: int, location: Location, entries: seq<Entry>, currentKey: Option<string>,
                pageSize: nat, now: int) returns (sid: string, page: RenderedPage)
      modifies this
      ensures sid == freshId
      ensures sessions == Sweep(old(sessions), now)[sid := NewSession(owner, location, entries, pageSize, now)]
      ensures page == Rendered(NewSession(owner, location, entries, pageSize, now), sid, currentKey)
      ensures old(Valid()) ==> Valid()
    {
      SweepExpired(now);
      sid := freshId;
      var size := if pageSize > 1 then pageSize else 1;
      var session := Session(owner, location, entries, size, 0, now, false);
      page := RenderSession(session, sid, currentKey);
      sessions := sessions[sid := session];
    }

    method Handle(action: Action, caller: int, location: Option<Location>, currentKey: Option<string>, now: int)
      returns (outcome: Option<Outcome>)
      requires Valid()
      modifies this
      ensures (sessions, outcome) == Handled(old(sessions), action, caller, location, currentKey, now)
      ensures Valid()
    {
      hide Rendered, Session.IsExpired, DivCeil;
      sessions := map id | id in sessions && !sessions[id].IsExpired(now, SESSION_TTL) && !sessions[id].consumed
                      :: sessions[id];
      ghost var kept := Retained(old(sessions), now);
      var sid := action.sessionId;
      if sid !in sessions {
        return None;
      }
      var session := sessions[sid];
      if location.None? {
        return Some(Ignored);
      }
      if session.owner != caller || session.location != location.value {
        return Some(Ignored);
      }
      var removeSession := false;
      match action {
        case Page(_, page) =>
          var last := session.TotalPages() - 1;
          session := session.(page := Min(page, last), lastActiveAt := now);
          sessions := sessions[sid := session];
          var rendered := RenderSession(session, sid, currentKey);
          outcome := Some(ShowPage(rendered));
        case Select(_, idx) =>
          if idx < |session.entries| {
            sessions := sessions[sid := session.(consumed := true)];
            assert sessions - {sid} == kept - {sid};
            outcome := Some(Selected(session.entries[idx]));
            removeSession := true;
          } else {
            outcome := Some(Ignored);
          }
        case Cancel(_) =>
          sessions := sessions[sid := session.(consumed := true)];
          assert sessions - {sid} == kept - {sid};
          outcome := Some(Cancelled);
          removeSession := true;
      }
      if removeSession {
        sessions := sessions - {sid};
      }
    }

    method SetLocation(sid: string, location: Location)
      modifies this
      ensures sessions == Moved(old(sessions), sid, location)
      ensures old(Valid()) ==> Valid()
    {
      if sid in sessions {
        sessions := sessions[sid := sessions[sid].(location := location)];
      }
    }
  }

  // ---------------------------------------------------------------------------------------------
  // Buttons do what they show
  // ---------------------------------------------------------------------------------------------

  lemma MulMono(a: nat, b: nat, c: nat)
    requires a <= b
    ensures a * c <= b * c
  {
  }

  lemma PageCount(s: Session)
    requires s.pageSize > 0 && s.entries != []
    ensures (s.TotalPages() - 1) * s.pageSize < |s.entries| <= s.TotalPages() * s.pageSize
  {
    hide DivCeil;
  }

  /** The start of a page lies within the list, and no index computation leaves 64 bits. */
  lemma PageBounds(s: Session)
    requires s.Live()
    ensures s.page * s.pageSize <= |s.entries| && s.PageStart() == s.page * s.pageSize
    ensures s.pageSize <= U64_MAX && |s.entries| < 0x8000_0000_0000_0000 ==> s.PageStart() + s.pageSize <= U64_MAX
  {
    hide Session.TotalPages;
    var n := s.TotalPages();
    if s.entries == [] {
      OnePage(s);
      assert s.page == 0;
    } else {
      PageCount(s);
      MulMono(s.page, n - 1, s.pageSize);
      if s.page > 0 {
        MulMono(1, s.page, s.pageSize);
      }
    }
  }

  lemma OnePage(s: Session)
    requires s.pageSize > 0 && s.entries == []
    ensures s.TotalPages() == 1
  {
  }

  /** Pressing the button of the entry on row `k`, as the owner, in place and in time, selects exactly that entry. */
  lemma EntryButtonSelects(m: Sessions, sid: string, currentKey: Option<string>, k: nat, now: int)
    requires (forall id :: id in m ==> m[id].pageSize > 0) && sid in m && m[sid].Live() && Lacks(sid, ':')
    requires !m[sid].IsExpired(now, SESSION_TTL) && |m[sid].entries| <= U64_MAX
    requires k < |m[sid].PageSlice()|
    ensures var s := m[sid];
            var row := Rendered(s, sid, currentKey).rows[k];
            && |row| == 1
            && ParseCallback(row[0].data).Some?
            && Handled(m, ParseCallback(row[0].data).value, s.owner, Some(s.location), currentKey, now)
               == (Retained(m, now) - {sid}, Some(Selected(s.PageSlice()[k])))
  {
    hide ParseCallback, SelectCallbackData, HeaderText, NavRow, FormatEntryLabel;
    var s := m[sid];
    PageBounds(s);
    var idx := s.page * s.pageSize + k;
    assert idx < |s.entries| && s.entries[idx] == s.PageSlice()[k];
    CallbackRoundTrip(sid, idx);
    assert Rendered(s, sid, currentKey).rows[k] == EntryRow(s, sid, currentKey, k);
  }

  /** The pages the navigation buttons lead to. */
  function NavTargets(s: Session): seq<nat>
    requires s.pageSize > 0
  {
    (if s.page > 0 then [s.page - 1] else []) + (if s.page + 1 < s.TotalPages() then [s.page + 1] else [])
  }

  lemma PagesFit(s: Session)
    requires s.Live() && |s.entries| <= U64_MAX
    ensures s.TotalPages() <= U64_MAX
  {
    hide Session.TotalPages;
    var n := s.TotalPages();
    if s.entries == [] {
      OnePage(s);
    } else {
      PageCount(s);
      MulMono(1, s.pageSize, n - 1);
    }
  }

  /** The last row has a button for each neighbouring page, which turns to that page, and a cancel button. */
  lemma NavButtonsTurn(m: Sessions, sid: string, currentKey: Option<string>, k: nat, now: int)
    requires (forall id :: id in m ==> m[id].pageSize > 0) && sid in m && m[sid].Live() && Lacks(sid, ':')
    requires !m[sid].IsExpired(now, SESSION_TTL) && |m[sid].entries| <= U64_MAX
    requires k < |NavTargets(m[sid])|
    ensures var s := m[sid];
            var nav := NavRow(s, sid);
            var t := s.(page := NavTargets(s)[k], lastActiveAt := now);
            && |nav| == |NavTargets(s)| + 1
            && ParseCallback(nav[k].data).Some?
            && Handled(m, ParseCallback(nav[k].data).value, s.owner, Some(s.location), currentKey, now)
               == (Retained(m, now)[sid := t], Some(ShowPage(Rendered(t, sid, currentKey))))
  {
    hide ParseCallback, PageCallbackData, CancelCallbackData, Rendered;
    var s := m[sid];
    PagesFit(s);
    var target := NavTargets(s)[k];
    assert target < s.TotalPages();
    CallbackRoundTrip(sid, target);
    assert NavRow(s, sid)[k].data == PageCallbackData(sid, target);
    assert Turned(s, target, now) == s.(page := target, lastActiveAt := now);
  }

  lemma CancelButtonCancels(m: Sessions, sid: string, currentKey: Option<string>, now: int)
    requires (forall id :: id in m ==> m[id].pageSize > 0) && sid in m && m[sid].Live() && Lacks(sid, ':')
    requires !m[sid].IsExpired(now, SESSION_TTL)
    ensures var s := m[sid];
            var nav := NavRow(s, sid);
            && ParseCallback(nav[|nav| - 1].data) == Some(Cancel(sid))
            && Handled(m, Cancel(sid), s.owner, Some(s.location), currentKey, now)
               == (Retained(m, now) - {sid}, Some(Cancelled))
  {
    hide ParseCallback, PageCallbackData, CancelCallbackData;
    CallbackRoundTrip(sid, 0);
  }

  // ---------------------------------------------------------------------------------------------
  // Following Next
  // ---------------------------------------------------------------------------------------------

  /** The entries shown on the pages from `p` on. */
  function ShownFrom(s: Session, p: nat): seq<Entry>
    requires s.pageSize > 0 && p <= s.TotalPages()
    decreases s.TotalPages() - p
  {
    if p == s.TotalPages() then [] else s.(page := p).PageSlice() + ShownFrom(s, p + 1)
  }

  lemma NextStart(p: nat, size: nat)
    ensures (p + 1) * size == p * size + size
  {
  }

  lemma {:induction false} ShownFromIsRest(s: Session, p: nat)
    requires s.Live() && p <= s.TotalPages()
    ensures ShownFrom(s, p) == s.entries[Min(p * s.pageSize, |s.entries|)..]
    decreases s.TotalPages() - p
  {
    hide DivCeil, Session.PageSlice, Session.PageEnd;
    var n := s.TotalPages();
    if p == n {
      if s.entries != [] {
        PageCount(s);
      }
    } else {
      ShownFromIsRest(s, p + 1);
      var t := s.(page := p);
      SamePages(s, t);
      PageBounds(t);
      PageEndIs(t);
      PageAndRest(t);
    }
  }

  lemma PageEndIs(s: Session)
    requires s.PageStart() == s.page * s.pageSize
    ensures s.PageEnd() == Min((s.page + 1) * s.pageSize, |s.entries|)
  {
    NextStart(s.page, s.pageSize);
  }

  lemma PageAndRest(s: Session)
    ensures s.PageStart() <= s.PageEnd() && s.PageSlice() + s.entries[s.PageEnd()..] == s.entries[s.PageStart()..]
  {
    hide Session.PageEnd, Session.PageStart;
    PageEndAfterStart(s);
  }

  /** The pages one after the other show the whole list, each entry once and in order. */
  lemma PagesShowEverything(s: Session)
    requires s.Live()
    ensures ShownFrom(s, 0) == s.entries
  {
    ShownFromIsRest(s, 0);
  }

  // ---------------------------------------------------------------------------------------------
  // Whole runs
  // ---------------------------------------------------------------------------------------------

  datatype Event =
    | OpenEvent(id: string, owner: int, at: Location, entries: seq<Entry>, pageSize: nat, now: int)
    | HandleEvent(action: Action, caller: int, location: Option<Location>, currentKey: Option<string>, now: int)
    | MoveEvent(id: string, at: Location)
    | SweepEvent(now: int)

  ghost predicate AllLive(m: Sessions) {
    forall id :: id in m ==> m[id].Live()
  }

  /** The sessions after an event, and the outcome if it was a callback. */
  function Next(m: Sessions, e: Event): (Sessions, Option<Outcome>)
    requires AllLive(m)
  {
    match e
    case OpenEvent(id, owner, at, entries, pageSize, now) =>
      (Sweep(m, now)[id := NewSession(owner, at, entries, pageSize, now)], None)
    case HandleEvent(action, caller, location, currentKey, now) => Handled(m, action, caller, location, currentKey, now)
    case MoveEvent(id, at) => (Moved(m, id, at), None)
    case SweepEvent(now) => (Sweep(m, now), None)
  }

  lemma NextIsLive(m: Sessions, e: Event)
    requires AllLive(m)
    ensures AllLive(Next(m, e).0)
  {
    hide Rendered, NavRow, HeaderText, Session.IsExpired;
  }

  /** The sessions after the first `i` events. */
  function After(m: Sessions, es: seq<Event>, i: nat): (r: Sessions)
    requires AllLive(m) && i <= |es|
    ensures AllLive(r)
  {
    if i == 0 then m
    else
      NextIsLive(After(m, es, i - 1), es[i - 1]);
      Next(After(m, es, i - 1), es[i - 1]).0
  }

  function OutcomeOf(m: Sessions, es: seq<Event>, i: nat): Option<Outcome>
    requires AllLive(m) && i < |es|
  {
    Next(After(m, es, i), es[i]).1
  }

  predicate IsFinal(o: Option<Outcome>) {
    o.Some? && (o.value.Selected? || o.value.Cancelled?)
  }

  /** Event `i` is a callback for the session. */
  predicate Concerns(e: Event, sid: string) {
    e.HandleEvent? && e.action.sessionId == sid
  }

  predicate Opens(e: Event, sid: string) {
    e.OpenEvent? && e.id == sid
  }

  ghost predicate SameSnapshot(s: Session, t: Session) {
    s.entries == t.entries && s.owner == t.owner && s.pageSize == t.pageSize
  }

  /** One event: a session that is gone stays gone, and a final outcome removes the session. */
  lemma OneEvent(m: Sessions, e: Event, sid: string)
    requires AllLive(m) && !Opens(e, sid)
    ensures sid !in m ==> sid !in Next(m, e).0 && (Concerns(e, sid) ==> Next(m, e).1.None?)
    ensures Concerns(e, sid) && IsFinal(Next(m, e).1) ==> sid in m && sid !in Next(m, e).0
    ensures sid in Next(m, e).0 ==> sid in m && SameSnapshot(Next(m, e).0[sid], m[sid])
  {
    hide Rendered, NavRow, HeaderText, Session.IsExpired;
  }

  lemma {:induction false} GoneStaysGone(m: Sessions, es: seq<Event>, sid: string, i: nat, j: nat)
    requires AllLive(m) && i <= j <= |es| && sid !in After(m, es, i)
    requires forall k :: i <= k < j ==> !Opens(es[k], sid)
    ensures sid !in After(m, es, j)
    decreases j - i
  {
    hide Next;
    if i < j {
      GoneStaysGone(m, es, sid, i, j - 1);
      OneEvent(After(m, es, j - 1), es[j - 1], sid);
    }
  }

  /**
    A session whose id is not used again yields at most one selection or cancellation: every later callback for
    it is answered with nothing.
   */
  lemma FinalOutcomeIsLast(m: Sessions, es: seq<Event>, sid: string, i: nat, j: nat)
    requires AllLive(m) && i < j < |es| && Concerns(es[i], sid) && Concerns(es[j], sid)
    requires forall k :: i <= k < j ==> !Opens(es[k], sid)
    requires IsFinal(OutcomeOf(m, es, i))
    ensures OutcomeOf(m, es, j).None?
  {
    hide Next;
    OneEvent(After(m, es, i), es[i], sid);
    GoneStaysGone(m, es, sid, i + 1, j);
    OneEvent(After(m, es, j), es[j], sid);
  }

  /** As long as a session lives, its list, owner and page size are those it had before. */
  lemma {:induction false} SnapshotIsFixed(m: Sessions, es: seq<Event>, sid: string, i: nat, j: nat)
    requires AllLive(m) && i <= j <= |es| && sid in After(m, es, j)
    requires forall k :: i <= k < j ==> !Opens(es[k], sid)
    ensures sid in After(m, es, i)
    ensures var (s, t) := (After(m, es, i)[sid], After(m, es, j)[sid]);
            SameSnapshot(s, t)
    decreases j - i
  {
    hide Next;
    if i < j {
      OneEvent(After(m, es, j - 1), es[j - 1], sid);
      SnapshotIsFixed(m, es, sid, i, j - 1);
    }
  }

  /** A callback from another user, another message or no message changes nothing but drops expired sessions. */
  lemma ForeignCallbackIsInert(m: Sessions, e: Event)
    requires AllLive(m) && e.HandleEvent?
    requires e.action.sessionId in m ==>
               e.location.None? || e.caller != m[e.action.sessionId].owner
               || e.location.value != m[e.action.sessionId].location
    ensures Next(m, e).0 == Sweep(m, e.now)
    ensures Next(m, e).1 == if e.action.sessionId in Sweep(m, e.now) then Some(Ignored) else None
  {
    assert Retained(m, e.now) == Sweep(m, e.now);
  }

  // ---------------------------------------------------------------------------------------------
  // Browsing from the first page to the last
  // ---------------------------------------------------------------------------------------------

  /** Each press comes while the session is alive. */
  ghost predicate InTime(last: int, times: seq<int>) {
    && (times != [] ==> times[0] - last <= SESSION_TTL)
    && (forall i, j :: 0 <= i < j < |times| && j == i + 1 ==> times[j] - times[i] <= SESSION_TTL)
  }

  /** The owner presses Next once at each of the times. */
  function NextPresses(s: Session, sid: string, currentKey: Option<string>, times: seq<int>): (es: seq<Event>)
    ensures |es| == |times|
    ensures forall i :: 0 <= i < |times| ==>
              es[i] == HandleEvent(Page(sid, s.page + 1 + i), s.owner, Some(s.location), currentKey, times[i])
  {
    seq(|times|, i requires 0 <= i < |times| =>
      HandleEvent(Page(sid, s.page + 1 + i), s.owner, Some(s.location), currentKey, times[i]))
  }

  /** The session after `i` presses. */
  function Browsed(s: Session, times: seq<int>, i: nat): Session
    requires i <= |times|
  {
    if i == 0 then s else s.(page := s.page + i, lastActiveAt := times[i - 1])
  }

  lemma SamePages(s: Session, t: Session)
    requires s.pageSize > 0 && t.pageSize == s.pageSize && t.entries == s.entries
    ensures s.TotalPages() == t.TotalPages()
  {
  }

  lemma BrowsedIsLive(s: Session, times: seq<int>, i: nat)
    requires s.Live() && i <= |times| && s.page + |times| < s.TotalPages()
    ensures Browsed(s, times, i).Live() && Browsed(s, times, i).TotalPages() == s.TotalPages()
  {
    SamePages(s, Browsed(s, times, i));
  }

  /** The last button but one is labelled Next and sends this action. */
  ghost predicate NextSends(s: Session, sid: string, action: Action)
    requires s.pageSize > 0
  {
    var nav := NavRow(s, sid);
    && |nav| >= 2 && nav[|nav| - 2].caption == NEXT_LABEL
    && ParseCallback(nav[|nav| - 2].data) == Some(action)
  }

  lemma NextButton(s: Session, sid: string)
    requires s.Live() && Lacks(sid, ':') && |s.entries| <= U64_MAX && s.page + 1 < s.TotalPages()
    ensures NextSends(s, sid, Page(sid, s.page + 1))
  {
    hide ParseCallback, PageCallbackData, CancelCallbackData, Session.TotalPages;
    PagesFit(s);
    CallbackRoundTrip(sid, s.page + 1);
    var nav := NavRow(s, sid);
    assert nav[|nav| - 2] == Button(NEXT_LABEL, PageCallbackData(sid, s.page + 1));
  }

  lemma OnePress(m: Sessions, e: Event, sid: string)
    requires AllLive(m) && sid in m && e.HandleEvent? && e.action == Page(sid, m[sid].page + 1)
    requires e.caller == m[sid].owner && e.location == Some(m[sid].location)
    requires !m[sid].IsExpired(e.now, SESSION_TTL) && m[sid].page + 1 < m[sid].TotalPages()
    ensures var t := m[sid].(page := m[sid].page + 1, lastActiveAt := e.now);
            && sid in Next(m, e).0 && Next(m, e).0[sid] == t
            && Next(m, e).1 == Some(ShowPage(Rendered(t, sid, e.currentKey)))
  {
    hide Rendered, Session.TotalPages;
  }

  lemma {:induction false} AfterPresses(m: Sessions, sid: string, currentKey: Option<string>, times: seq<int>, i: nat)
    requires AllLive(m) && sid in m && i <= |times|
    requires InTime(m[sid].lastActiveAt, times) && m[sid].page + |times| < m[sid].TotalPages()
    ensures var es := NextPresses(m[sid], sid, currentKey, times);
            && sid in After(m, es, i) && After(m, es, i)[sid] == Browsed(m[sid], times, i)
            && (i > 0 ==>
                  OutcomeOf(m, es, i - 1) == Some(ShowPage(Rendered(Browsed(m[sid], times, i), sid, currentKey))))
  {
    hide Rendered, Session.TotalPages, Next;
    if i > 0 {
      var es := NextPresses(m[sid], sid, currentKey, times);
      AfterPresses(m, sid, currentKey, times, i - 1);
      BrowsedIsLive(m[sid], times, i - 1);
      var t := Browsed(m[sid], times, i - 1);
      assert times[i - 1] - t.lastActiveAt <= SESSION_TTL;
      assert t.page + 1 < t.TotalPages();
      OnePress(After(m, es, i - 1), es[i - 1], sid);
    }
  }

  lemma PressIsNext(s: Session, sid: string, currentKey: Option<string>, times: seq<int>, i: nat)
    requires s.Live() && Lacks(sid, ':') && |s.entries| <= U64_MAX
    requires i < |times| && s.page + |times| < s.TotalPages()
    ensures NextSends(Browsed(s, times, i), sid, NextPresses(s, sid, currentKey, times)[i].action)
  {
    hide NextSends, Session.TotalPages;
    BrowsedIsLive(s, times, i);
    NextButton(Browsed(s, times, i), sid);
  }

  /** Pressing Next moves one page on each time, and each press is what the Next button of the page then shown sends. */
  lemma NextLeadsOn(m: Sessions, sid: string, currentKey: Option<string>, times: seq<int>, i: nat)
    requires AllLive(m) && sid in m && Lacks(sid, ':') && |m[sid].entries| <= U64_MAX && i <= |times|
    requires InTime(m[sid].lastActiveAt, times) && m[sid].page + |times| < m[sid].TotalPages()
    ensures var es := NextPresses(m[sid], sid, currentKey, times);
            && sid in After(m, es, i) && After(m, es, i)[sid] == Browsed(m[sid], times, i)
            && (i < |times| ==> NextSends(Browsed(m[sid], times, i), sid, es[i].action))
  {
    hide NextSends, After, OutcomeOf, InTime, Rendered;
    AfterPresses(m, sid, currentKey, times, i);
    if i < |times| {
      PressIsNext(m[sid], sid, currentKey, times, i);
    }
  }

  /** The rows above the navigation row. */
  function EntryRows(page: RenderedPage): seq<seq<Button>> {
    if page.rows == [] then [] else page.rows[..|page.rows| - 1]
  }

  /** The entry rows shown in answer to the first `i` events, one page after the other. */
  function RowsShown(m: Sessions, es: seq<Event>, i: nat): seq<seq<Button>>
    requires AllLive(m) && i <= |es|
  {
    if i == 0 then []
    else RowsShown(m, es, i - 1)
         + match OutcomeOf(m, es, i - 1)
           case Some(ShowPage(page)) => EntryRows(page)
           case _ => []
  }

  /** One row for each entry of the list, showing the model, marked if it is the current one, selecting the entry. */
  function AllRows(s: Session, sid: string, currentKey: Option<string>): seq<seq<Button>> {
    seq(|s.entries|, k requires 0 <= k < |s.entries| =>
      var e := s.entries[k];
      var caption := e.provider + "/" + e.modelId + (if e.preview then " \U{1F9EA}" else "");
      [Button(if currentKey == Some(e.key) then "\U{2705} " + caption else caption, SelectCallbackData(sid, k))])
  }

  lemma RowsOfPage(s: Session, sid: string, currentKey: Option<string>)
    requires s.Live()
    ensures EntryRows(Rendered(s, sid, currentKey)) == AllRows(s, sid, currentKey)[s.PageStart()..s.PageEnd()]
  {
    hide SelectCallbackData, NavRow, HeaderText;
    PageBounds(s);
    var rows := AllRows(s, sid, currentKey)[s.PageStart()..s.PageEnd()];
    assert |rows| == |s.PageSlice()|;
    forall k | 0 <= k < |rows|
      ensures rows[k] == EntryRow(s, sid, currentKey, k)
    {
      var e := s.entries[s.PageStart() + k];
      assert s.PageSlice()[k] == e;
      LabelText(e, currentKey == Some(e.key));
    }
  }

  lemma LabelText(e: Entry, isCurrent: bool)
    ensures var caption := e.provider + "/" + e.modelId + (if e.preview then " \U{1F9EA}" else "");
            FormatEntryLabel(e, isCurrent) == if isCurrent then "\U{2705} " + caption else caption
  {
    if isCurrent {
      assert "\U{2705} " + e.provider + "/" + e.modelId == "\U{2705} " + (e.provider + "/" + e.modelId);
    } else {
      assert "" + e.provider == e.provider;
    }
  }

  /** A page begins where the page before it ends. */
  lemma NextPageFollows(s: Session, t: Session)
    requires s.Live() && t.Live() && t.entries == s.entries && t.pageSize == s.pageSize && t.page == s.page + 1
    ensures t.PageStart() == s.PageEnd()
  {
    hide Session.TotalPages;
    PageBounds(s);
    PageBounds(t);
    NextStart(s.page, s.pageSize);
  }

  lemma LastPageEnds(s: Session)
    requires s.Live() && s.page + 1 == s.TotalPages()
    ensures s.PageEnd() == |s.entries|
  {
    hide Session.TotalPages;
    PageBounds(s);
    if s.entries != [] {
      PageCount(s);
      NextStart(s.page, s.pageSize);
    }
  }

  lemma {:induction false} BrowsedSoFar(m: Sessions, sid: string, currentKey: Option<string>, times: seq<int>, i: nat)
    requires AllLive(m) && sid in m && m[sid].page == 0 && i <= |times|
    requires InTime(m[sid].lastActiveAt, times) && |times| < m[sid].TotalPages()
    ensures var (s, es) := (m[sid], NextPresses(m[sid], sid, currentKey, times));
            && Browsed(s, times, i).Live()
            && EntryRows(Rendered(s, sid, currentKey)) + RowsShown(m, es, i)
               == AllRows(s, sid, currentKey)[..Browsed(s, times, i).PageEnd()]
  {
    hide Rendered, EntryRows, AllRows, Session.TotalPages, OutcomeOf, After, Session.PageStart, Session.PageEnd;
    var s, es := m[sid], NextPresses(m[sid], sid, currentKey, times);
    var t := Browsed(s, times, i);
    BrowsedIsLive(s, times, i);
    RowsOfPage(t, sid, currentKey);
    SameRows(s, t, sid, currentKey);
    PageEndAfterStart(t);
    RowCount(s, sid, currentKey);
    var rows := AllRows(s, sid, currentKey);
    if i == 0 {
      FirstPageStarts(s);
      assert rows[..t.PageEnd()] == rows[0..t.PageEnd()] + [];
    } else {
      var before := Browsed(s, times, i - 1);
      BrowsedSoFar(m, sid, currentKey, times, i - 1);
      AfterPresses(m, sid, currentKey, times, i);
      NextPageFollows(before, t);
      BrowsedIsLive(s, times, i - 1);
      OneMorePage(m, NextPresses(s, sid, currentKey, times), i, Rendered(t, sid, currentKey));
      assert rows[..t.PageStart()] + rows[t.PageStart()..t.PageEnd()] == rows[..t.PageEnd()];
    }
  }

  lemma PageEndAfterStart(s: Session)
    ensures s.PageStart() <= s.PageEnd() <= |s.entries|
  {
  }

  lemma OneMorePage(m: Sessions, es: seq<Event>, i: nat, page: RenderedPage)
    requires AllLive(m) && 0 < i <= |es| && OutcomeOf(m, es, i - 1) == Some(ShowPage(page))
    ensures RowsShown(m, es, i) == RowsShown(m, es, i - 1) + EntryRows(page)
  {
    hide OutcomeOf, EntryRows;
  }

  lemma FirstPageStarts(s: Session)
    requires s.page == 0
    ensures s.PageStart() == 0
  {
  }

  lemma SameRows(s: Session, t: Session, sid: string, currentKey: Option<string>)
    requires t.entries == s.entries
    ensures AllRows(t, sid, currentKey) == AllRows(s, sid, currentKey)
  {
  }

  /**
    An owner who presses Next from the first page to the last is shown one row for each entry of the list, in order,
    each with the button that selects it.
   */
  lemma BrowsingShowsEveryEntry(m: Sessions, sid: string, currentKey: Option<string>, times: seq<int>)
    requires AllLive(m) && sid in m && m[sid].page == 0
    requires InTime(m[sid].lastActiveAt, times) && |times| + 1 == m[sid].TotalPages()
    ensures var (s, es) := (m[sid], NextPresses(m[sid], sid, currentKey, times));
            EntryRows(Rendered(s, sid, currentKey)) + RowsShown(m, es, |es|) == AllRows(s, sid, currentKey)
  {
    hide Rendered, EntryRows, AllRows, Session.TotalPages, RowsShown, Session.PageEnd;
    var s := m[sid];
    var t := Browsed(s, times, |times|);
    BrowsedSoFar(m, sid, currentKey, times, |times|);
    SamePages(s, t);
    LastPageEnds(t);
    RowCount(s, sid, currentKey);
  }

  lemma RowCount(s: Session, sid: string, currentKey: Option<string>)
    ensures |AllRows(s, sid, currentKey)| == |s.entries|
  {
  }
}
