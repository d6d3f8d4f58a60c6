/**
  The heartbeat: proactive check-ins within a daily budget.
 */
module Heartbeat {
  import opened Common

  datatype Config = Config(
    enabled: bool, quietHoursEnabled: bool, quietHoursStart: U8, quietHoursEnd: U8, maxProactivePerDay: U8)
  {
    /** The hours within the quiet time, which may span midnight. */
    predicate IsQuietHour(hour: nat) {
      quietHoursEnabled
      && if quietHoursStart <= quietHoursEnd then quietHoursStart <= hour < quietHoursEnd
         else hour >= quietHoursStart || hour < quietHoursEnd
    }
  }

  /** The hour is reached from the start by going forward fewer steps than lead to the end, on a circle of hours. */
  predicate OnArc(start: nat, end: nat, hour: nat, circle: nat)
    requires start < circle && end < circle && hour < circle
  {
    (hour + circle - start) % circle < (end + circle - start) % circle
  }

  lemma OnceAround(x: nat, circle: nat)
    requires circle > 0 && x < 2 * circle
    ensures x % circle == if x < circle then x else x - circle
  {
    if x >= circle {
      assert x % circle == (x - circle) % circle;
    }
  }

  lemma ArcIff(start: nat, end: nat, hour: nat, circle: nat)
    requires start < circle && end < circle && hour < circle
    ensures OnArc(start, end, hour, circle)
       <==> if start <= end then start <= hour < end else hour >= start || hour < end
  {
    OnceAround(hour + circle - start, circle);
    OnceAround(end + circle - start, circle);
  }

  /**
    The quiet hours are an arc on the circle of 24 hours, and for configured hours beyond 23, which are possible though
    not meant, on a circle of 256.
   */
  lemma QuietHoursAreAnArc(c: Config, hour: nat)
    requires c.quietHoursEnabled && hour < 24
    ensures c.IsQuietHour(hour) <==> OnArc(c.quietHoursStart, c.quietHoursEnd, hour, 256)
    ensures c.quietHoursStart < 24 && c.quietHoursEnd < 24 ==>
              (c.IsQuietHour(hour) <==> OnArc(c.quietHoursStart, c.quietHoursEnd, hour, 24))
  {
    hide OnArc;
    ArcIff(c.quietHoursStart, c.quietHoursEnd, hour, 256);
    if c.quietHoursStart < 24 && c.quietHoursEnd < 24 {
      ArcIff(c.quietHoursStart, c.quietHoursEnd, hour, 24);
    }
  }

  datatype ChecklistItem = ChecklistItem(command: string, enabled: bool)

  datatype Promise = Promise(what: Option<string>, completed: bool)

  /** What the task manager answers in one tick: it is asked twice whether it has work. */
  datatype TaskCheck = TaskCheck(hasWork: bool, evaluable: nat, stillHasWork: bool)

  /** What a tick finds: the clock, read once for the hour and once for the date, and the work lists. */
  datatype Input = Input(
    hour: nat,
    today: string,
    pendingTasks: seq<Option<string>>,
    checklist: seq<ChecklistItem>,
    promises: seq<Promise>,
    taskManager: Option<TaskCheck>)

  function PendingItemOf(t: Option<string>): seq<string> {
    if t.Some? then ["pending task: " + t.value] else []
  }

  function ChecklistItemOf(c: ChecklistItem): seq<string> {
    if c.enabled then ["checklist: " + c.command] else []
  }

  function PromiseItemOf(p: Promise): seq<string> {
    if p.what.Some? && !p.completed then ["unfulfilled promise: " + p.what.value] else []
  }

  function PendingItems(ts: seq<Option<string>>): seq<string> {
    if ts == [] then [] else PendingItemOf(ts[0]) + PendingItems(ts[1..])
  }

  function ChecklistItems(cs: seq<ChecklistItem>): seq<string> {
    if cs == [] then [] else ChecklistItemOf(cs[0]) + ChecklistItems(cs[1..])
  }

  function PromiseItems(ps: seq<Promise>): seq<string> {
    if ps == [] then [] else PromiseItemOf(ps[0]) + PromiseItems(ps[1..])
  }

  function TasksItem(evaluable: nat): string {
    "tasks: " + Decimal(evaluable) + " evaluable task(s) pending execution"
  }

  function WorkItems(inp: Input): seq<string> {
    PendingItems(inp.pendingTasks) + ChecklistItems(inp.checklist) + PromiseItems(inp.promises)
    + (if inp.taskManager.Some? && inp.taskManager.value.hasWork
       then [TasksItem(inp.taskManager.value.evaluable)] else [])
  }

  /** There is something to do. */
  predicate HasWork(inp: Input) {
    || (exists i :: 0 <= i < |inp.pendingTasks| && inp.pendingTasks[i].Some?)
    || (exists i :: 0 <= i < |inp.checklist| && inp.checklist[i].enabled)
    || (exists i :: 0 <= i < |inp.promises| && inp.promises[i].what.Some? && !inp.promises[i].completed)
    || (inp.taskManager.Some? && inp.taskManager.value.hasWork)
  }

  lemma {:induction false} PendingFound(ts: seq<Option<string>>)
    ensures PendingItems(ts) != [] <==> exists i :: 0 <= i < |ts| && ts[i].Some?
  {
    if ts != [] {
      PendingFound(ts[1..]);
      assert forall i :: 0 < i < |ts| ==> ts[i] == ts[1..][i - 1];
    }
  }

  lemma {:induction false} ChecklistFound(cs: seq<ChecklistItem>)
    ensures ChecklistItems(cs) != [] <==> exists i :: 0 <= i < |cs| && cs[i].enabled
  {
    if cs != [] {
      ChecklistFound(cs[1..]);
      assert forall i :: 0 < i < |cs| ==> cs[i] == cs[1..][i - 1];
    }
  }

  lemma {:induction false} PromiseFound(ps: seq<Promise>)
    ensures PromiseItems(ps) != [] <==> exists i :: 0 <= i < |ps| && ps[i].what.Some? && !ps[i].completed
  {
    if ps != [] {
      PromiseFound(ps[1..]);
      assert forall i :: 0 < i < |ps| ==> ps[i] == ps[1..][i - 1];
    }
  }

  lemma WorkItemsIffWork(inp: Input)
    ensures WorkItems(inp) != [] <==> HasWork(inp)
  {
    PendingFound(inp.pendingTasks);
    ChecklistFound(inp.checklist);
    PromiseFound(inp.promises);
  }

  /** Each item names a pending task, an enabled checklist item, an unfulfilled promise, or the evaluable tasks. */
  ghost predicate IsItem(inp: Input, x: string) {
    || (exists i :: 0 <= i < |inp.pendingTasks| && inp.pendingTasks[i].Some?
                    && x == "pending task: " + inp.pendingTasks[i].value)
    || (exists i :: 0 <= i < |inp.checklist| && inp.checklist[i].enabled
                    && x == "checklist: " + inp.checklist[i].command)
    || (exists i :: 0 <= i < |inp.promises| && inp.promises[i].what.Some? && !inp.promises[i].completed
                    && x == "unfulfilled promise: " + inp.promises[i].what.value)
    || (inp.taskManager.Some? && inp.taskManager.value.hasWork
        && x == "tasks: " + Decimal(inp.taskManager.value.evaluable) + " evaluable task(s) pending execution")
  }

  lemma {:induction false} PendingItem(ts: seq<Option<string>>, x: string)
    ensures x in PendingItems(ts) <==> exists i :: 0 <= i < |ts| && ts[i].Some? && x == "pending task: " + ts[i].value
  {
    if ts != [] {
      PendingItem(ts[1..], x);
      assert forall i :: 0 < i < |ts| ==> ts[i] == ts[1..][i - 1];
    }
  }

  lemma {:induction false} ChecklistItemIn(cs: seq<ChecklistItem>, x: string)
    ensures x in ChecklistItems(cs)
       <==> exists i :: 0 <= i < |cs| && cs[i].enabled && x == "checklist: " + cs[i].command
  {
    if cs != [] {
      ChecklistItemIn(cs[1..], x);
      assert forall i :: 0 < i < |cs| ==> cs[i] == cs[1..][i - 1];
    }
  }

  lemma {:induction false} PromiseItem(ps: seq<Promise>, x: string)
    ensures x in PromiseItems(ps) <==>
            exists i :: 0 <= i < |ps| && ps[i].what.Some? && !ps[i].completed
                        && x == "unfulfilled promise: " + ps[i].what.value
  {
    if ps != [] {
      PromiseItem(ps[1..], x);
      assert forall i :: 0 < i < |ps| ==> ps[i] == ps[1..][i - 1];
    }
  }

  lemma ItemsListed(inp: Input, x: string)
    ensures x in WorkItems(inp) <==> IsItem(inp, x)
  {
    hide PendingItems, ChecklistItems, PromiseItems, Decimal;
    PendingItem(inp.pendingTasks, x);
    ChecklistItemIn(inp.checklist, x);
    PromiseItem(inp.promises, x);
  }

  // ---------------------------------------------------------------------------------------------
  // One tick
  // ---------------------------------------------------------------------------------------------

  /** `fetch_add(1)` on a signed 64-bit counter. */
  function Successor(n: int): int {
    if n + 1 == I64_LIMIT then -I64_LIMIT else n + 1
  }

  /** The stored counter; a missing or malformed entry is `None`. */
  datatype State = State(dailyCount: Option<nat>, dailyDate: Option<string>, tickCounter: int)

  datatype Emission = Nothing | HeartbeatTick(tick: int) | InboundMessage(items: seq<string>)

  /** Emissions used up on the given day; the stored number is cut to 32 bits. */
  function UsedToday(s: State, today: string): nat {
    var date := if s.dailyDate.Some? then s.dailyDate.value else "";
    if date == today && s.dailyCount.Some? then s.dailyCount.value % 0x1_0000_0000 else 0
  }

  predicate Escalates(c: Config, s: State, inp: Input) {
    c.enabled && !c.IsQuietHour(inp.hour) && HasWork(inp) && UsedToday(s, inp.today) < c.maxProactivePerDay
  }

  /** The configuration, and whether a pipeline emitter and an event spine are connected. */
  datatype Setup = Setup(config: Config, hasEmitter: bool, hasSpine: bool)

  predicate UsesPipeline(r: Setup, inp: Input) {
    r.hasEmitter && inp.taskManager.Some? && inp.taskManager.value.stillHasWork
  }

  function Ticked(r: Setup, s: State, inp: Input): State {
    if !Escalates(r.config, s, inp) then s
    else State(Some(UsedToday(s, inp.today) + 1), Some(inp.today),
               if UsesPipeline(r, inp) then Successor(s.tickCounter) else s.tickCounter)
  }

  function Emitted(r: Setup, s: State, inp: Input): Emission {
    if !Escalates(r.config, s, inp) then Nothing
    else if UsesPipeline(r, inp) then HeartbeatTick(s.tickCounter)
    else if r.hasSpine then InboundMessage(WorkItems(inp))
    else Nothing
  }

  class HeartbeatRunner {
    const config: Config
    const hasEmitter: bool
    const hasSpine: bool
    var dailyCount: Option<nat>
    var dailyDate: Option<string>
    var tickCounter: int

    constructor (config: Config, hasEmitter: bool, hasSpine: bool, dailyCount: Option<nat>, dailyDate: Option<string>)
      ensures this.config == config && this.hasEmitter == hasEmitter && this.hasSpine == hasSpine
      ensures Current() == State(dailyCount, dailyDate, 0)
    {
      this.config, this.hasEmitter, this.hasSpine := config, hasEmitter, hasSpine;
      this.dailyCount, this.dailyDate, this.tickCounter := dailyCount, dailyDate, 0;
    }

    function Current(): State
      reads this
    {
      State(dailyCount, dailyDate, tickCounter)
    }

    method NextTick() returns (n: int)
      modifies this
      ensures n == old(tickCounter) && Current() == old(Current()).(tickCounter := Successor(n))
    {
      n := tickCounter;
      tickCounter := Successor(tickCounter);
    }

    method LoadDailyCount() returns (count: nat, date: string)
      ensures count == if dailyCount.Some? then dailyCount.value % 0x1_0000_0000 else 0
      ensures date == if dailyDate.Some? then dailyDate.value else ""
    {
      count := if dailyCount.Some? then dailyCount.value % 0x1_0000_0000 else 0;
      date := if dailyDate.Some? then dailyDate.value else "";
    }

    method SaveDailyCount(count: nat, date: string)
      modifies this
      ensures Current() == old(Current()).(dailyCount := Some(count), dailyDate := Some(date))
    {
      dailyCount := Some(count);
      dailyDate := Some(date);
    }

    method GatherWork(inp: Input) returns (items: seq<string>)
      ensures items == WorkItems(inp)
    {
      items := GatherPending(inp.pendingTasks);
      var listed := GatherChecklist(inp.checklist);
      var promised := GatherPromises(inp.promises);
      items := items + listed + promised;
      if inp.taskManager.Some? && inp.taskManager.value.hasWork {
        items := items + [TasksItem(inp.taskManager.value.evaluable)];
      }
    }

    method GatherPending(ts: seq<Option<string>>) returns (items: seq<string>)
      ensures items == PendingItems(ts)
    {
      items := [];
      for k := 0 to |ts|
        invariant items + PendingItems(ts[k..]) == PendingItems(ts)
      {
        assert ts[k..][1..] == ts[k + 1..];
        if ts[k].Some? {
          items := items + ["pending task: " + ts[k].value];
        }
      }
    }

    method GatherChecklist(cs: seq<ChecklistItem>) returns (items: seq<string>)
      ensures items == ChecklistItems(cs)
    {
      items := [];
      for k := 0 to |cs|
        invariant items + ChecklistItems(cs[k..]) == ChecklistItems(cs)
      {
        assert cs[k..][1..] == cs[k + 1..];
        if cs[k].enabled {
          items := items + ["checklist: " + cs[k].command];
        }
      }
    }

    method GatherPromises(ps: seq<Promise>) returns (items: seq<string>)
      ensures items == PromiseItems(ps)
    {
      items := [];
      for k := 0 to |ps|
        invariant items + PromiseItems(ps[k..]) == PromiseItems(ps)
      {
        assert ps[k..][1..] == ps[k + 1..];
        if ps[k].what.Some? && !ps[k].completed {
          items := items + ["unfulfilled promise: " + ps[k].what.value];
        }
      }
    }

    method Tick(inp: Input) returns (emitted: Emission)
      modifies this
      ensures var r := Setup(config, hasEmitter, hasSpine);
              Current() == Ticked(r, old(Current()), inp) && emitted == Emitted(r, old(Current()), inp)
    {
      hide WorkItems, HasWork;
      if !config.enabled {
        return Nothing;
      }
      if config.IsQuietHour(inp.hour) {
        return Nothing;
      }
      var workItems := GatherWork(inp);
      WorkItemsIffWork(inp);
      if workItems == [] {
        return Nothing;
      }
      var count, date := LoadDailyCount();
      count := if date == inp.today then count else 0;
      if count >= config.maxProactivePerDay {
        return Nothing;
      }
      if inp.taskManager.Some? && hasEmitter {
        if inp.taskManager.value.stillHasWork {
          var tick := NextTick();
          SaveDailyCount(count + 1, inp.today);
          return HeartbeatTick(tick);
        }
      }
      emitted := Nothing;
      if hasSpine {
        emitted := InboundMessage(workItems);
      }
      SaveDailyCount(count + 1, inp.today);
    }
  }

  // ---------------------------------------------------------------------------------------------
  // Runs
  // ---------------------------------------------------------------------------------------------

  function After(r: Setup, s: State, inps: seq<Input>, i: nat): State
    requires i <= |inps|
  {
    if i == 0 then s else Ticked(r, After(r, s, inps, i - 1), inps[i - 1])
  }

  /** Tick `i` of the run spends one unit of the budget. */
  predicate Spends(r: Setup, s: State, inps: seq<Input>, i: nat)
    requires i < |inps|
  {
    Escalates(r.config, After(r, s, inps, i), inps[i])
  }

  /** What was spent on day `d` in the first `i` ticks. */
  function SpentOn(r: Setup, s: State, inps: seq<Input>, d: string, i: nat): nat
    requires i <= |inps|
  {
    if i == 0 then 0
    else SpentOn(r, s, inps, d, i - 1) + (if inps[i - 1].today == d && Spends(r, s, inps, i - 1) then 1 else 0)
  }

  /** Emissions on day `d` in the first `i` ticks. */
  function EmittedOn(r: Setup, s: State, inps: seq<Input>, d: string, i: nat): nat
    requires i <= |inps|
  {
    if i == 0 then 0
    else EmittedOn(r, s, inps, d, i - 1)
         + (if inps[i - 1].today == d && Emitted(r, After(r, s, inps, i - 1), inps[i - 1]) != Nothing then 1 else 0)
  }

  lemma {:induction false} EmittingSpends(r: Setup, s: State, inps: seq<Input>, d: string, i: nat)
    requires i <= |inps|
    ensures EmittedOn(r, s, inps, d, i) <= SpentOn(r, s, inps, d, i)
  {
    hide Escalates, WorkItems;
    if i > 0 {
      EmittingSpends(r, s, inps, d, i - 1);
    }
  }

  function Dates(inps: seq<Input>): (ds: seq<string>)
    ensures |ds| == |inps| && forall i :: 0 <= i < |inps| ==> ds[i] == inps[i].today
  {
    seq(|inps|, i requires 0 <= i < |inps| => inps[i].today)
  }

  /** No date comes back after another one. */
  ghost predicate DatesMoveOn(ds: seq<string>) {
    forall i, j, k :: 0 <= i < j < k < |ds| && ds[i] == ds[k] ==> ds[j] == ds[i]
  }

  /**
    Once something was spent on a day, either the store still counts that day, and counts all of it, or another
    day has come since.
   */
  lemma {:induction false} BudgetInvariant(r: Setup, s: State, inps: seq<Input>, d: string, i: nat)
    requires DatesMoveOn(Dates(inps)) && i <= |inps|
    ensures var spent := SpentOn(r, s, inps, d, i);
            var t := After(r, s, inps, i);
            spent <= r.config.maxProactivePerDay
            && (spent > 0 ==>
                  || (t.dailyDate == Some(d) && t.dailyCount.Some?
                      && spent <= t.dailyCount.value <= r.config.maxProactivePerDay)
                  || exists j, k :: 0 <= j < k < i && inps[j].today == d && inps[k].today != d)
  {
    hide Escalates;
    if i > 0 {
      BudgetInvariant(r, s, inps, d, i - 1);
      var before := After(r, s, inps, i - 1);
      var spent := SpentOn(r, s, inps, d, i - 1);
      var today := inps[i - 1].today;
      if Spends(r, s, inps, i - 1) {
        EscalationHasRoom(r.config, before, inps[i - 1]);
        if today == d {
          assert Dates(inps)[i - 1] == d;
          assert spent <= UsedToday(before, d);
        } else if spent > 0 {
          var j := SpendingTick(r, s, inps, d, i - 1);
          assert inps[j].today == d && inps[i - 1].today != d;
        }
      }
    }
  }

  lemma EscalationHasRoom(c: Config, s: State, inp: Input)
    requires Escalates(c, s, inp)
    ensures UsedToday(s, inp.today) < c.maxProactivePerDay
  {
  }

  /** What was spent was spent in some tick. */
  lemma {:induction false} SpendingTick(r: Setup, s: State, inps: seq<Input>, d: string, i: nat) returns (j: nat)
    requires i <= |inps| && SpentOn(r, s, inps, d, i) > 0
    ensures j < i && inps[j].today == d && Spends(r, s, inps, j)
  {
    hide Spends;
    if inps[i - 1].today == d && Spends(r, s, inps, i - 1) {
      return i - 1;
    }
    j := SpendingTick(r, s, inps, d, i - 1);
  }

  /** However many ticks there are, no day sees more emissions than the budget, as long as no date comes back. */
  lemma DailyBudgetHolds(r: Setup, s: State, inps: seq<Input>, d: string)
    requires DatesMoveOn(Dates(inps))
    ensures EmittedOn(r, s, inps, d, |inps|) <= SpentOn(r, s, inps, d, |inps|) <= r.config.maxProactivePerDay
  {
    BudgetInvariant(r, s, inps, d, |inps|);
    EmittingSpends(r, s, inps, d, |inps|);
  }

  // ---------------------------------------------------------------------------------------------
  // When a tick does something
  // ---------------------------------------------------------------------------------------------

  function StoredDate(s: State): string {
    if s.dailyDate.Some? then s.dailyDate.value else ""
  }

  /** What the store already counts for day `d`. */
  function StoredCount(s: State, d: string): nat {
    if StoredDate(s) == d && s.dailyCount.Some? then s.dailyCount.value % 0x1_0000_0000 else 0
  }

  lemma {:induction false} NothingSpent(r: Setup, s: State, inps: seq<Input>, d: string, i: nat)
    requires i <= |inps| && forall k :: 0 <= k < i ==> inps[k].today != d
    ensures SpentOn(r, s, inps, d, i) == 0
  {
    if i > 0 {
      NothingSpent(r, s, inps, d, i - 1);
    }
  }

  /** As long as no other date has followed, the store counts what it counted at first and all that was spent since. */
  lemma {:induction false} CountIsSpending(r: Setup, s: State, inps: seq<Input>, d: string, i: nat)
    requires i <= |inps| && (StoredDate(s) == d ==> forall k :: 0 <= k < i ==> inps[k].today == d)
    requires forall j, k :: 0 <= j < k < i && inps[j].today == d ==> inps[k].today == d
    ensures UsedToday(After(r, s, inps, i), d) == StoredCount(s, d) + SpentOn(r, s, inps, d, i)
  {
    hide HasWork;
    if i > 0 {
      CountIsSpending(r, s, inps, d, i - 1);
      if Spends(r, s, inps, i - 1) && inps[i - 1].today != d {
        NothingSpent(r, s, inps, d, i);
      }
    }
  }

  /** Heartbeats are enabled, the hour is not quiet, and some list holds work. */
  ghost predicate HasOccasion(c: Config, inp: Input)
    requires inp.hour < 24
  {
    && c.enabled && (exists x :: IsItem(inp, x))
    && !(c.quietHoursEnabled && OnArc(c.quietHoursStart, c.quietHoursEnd, inp.hour, 256))
  }

  /**
    In every state, a tick changes what is stored exactly when there is an occasion and the count stored for its day is
    below the budget. Then it emits its number into the pipeline if tasks can be dispatched, else a message if an event
    spine is connected; otherwise it emits nothing.
   */
  lemma TickSpelledOut(r: Setup, s: State, inp: Input)
    requires inp.hour < 24
    ensures Ticked(r, s, inp) != s
       <==> HasOccasion(r.config, inp) && StoredCount(s, inp.today) < r.config.maxProactivePerDay
    ensures Emitted(r, s, inp)
         == if Ticked(r, s, inp) == s then Nothing
            else if r.hasEmitter && inp.taskManager.Some? && inp.taskManager.value.stillHasWork
            then HeartbeatTick(s.tickCounter)
            else if r.hasSpine then InboundMessage(WorkItems(inp))
            else Nothing
  {
    if r.config.quietHoursEnabled {
      QuietHoursAreAnArc(r.config, inp.hour);
    }
    WorkIffItem(inp);
    SpendingChanges(r, s, inp);
    hide OnArc, HasWork, WorkItems;
  }

  /** In every run of consecutive dates, the count that decides is what was spent on the day. */
  lemma TickInRun(r: Setup, s: State, inps: seq<Input>, i: nat)
    requires i < |inps| && inps[i].hour < 24 && DatesMoveOn([StoredDate(s)] + Dates(inps))
    ensures var (before, after, today) := (After(r, s, inps, i), After(r, s, inps, i + 1), inps[i].today);
            && (after != before
                <==> && HasOccasion(r.config, inps[i])
                     && StoredCount(s, today) + SpentOn(r, s, inps, today, i) < r.config.maxProactivePerDay)
            && (Emitted(r, before, inps[i]) != Nothing ==> after != before)
  {
    hide HasOccasion, Emitted, Ticked, SpentOn;
    OnlySameDate(s, inps, i);
    CountIsSpending(r, s, inps, inps[i].today, i);
    TickSpelledOut(r, After(r, s, inps, i), inps[i]);
  }

  lemma OnlySameDate(s: State, inps: seq<Input>, i: nat)
    requires i < |inps| && DatesMoveOn([StoredDate(s)] + Dates(inps))
    ensures StoredDate(s) == inps[i].today ==> forall k :: 0 <= k < i ==> inps[k].today == inps[i].today
    ensures forall j, k :: 0 <= j < k < i && inps[j].today == inps[i].today ==> inps[k].today == inps[i].today
  {
    var ds := [StoredDate(s)] + Dates(inps);
    var today := inps[i].today;
    assert ds[0] == StoredDate(s) && ds[i + 1] == today;
    forall k | 0 <= k < i && StoredDate(s) == today
      ensures inps[k].today == today
    {
      assert ds[k + 1] == inps[k].today;
    }
    forall j, k | 0 <= j < k < i && inps[j].today == today
      ensures inps[k].today == today
    {
      assert ds[j + 1] == inps[j].today && ds[k + 1] == inps[k].today;
    }
  }

  lemma WorkIffItem(inp: Input)
    ensures HasWork(inp) <==> exists x :: IsItem(inp, x)
  {
    hide IsItem, HasWork;
    WorkItemsIffWork(inp);
    if HasWork(inp) {
      ItemsListed(inp, WorkItems(inp)[0]);
    }
    if x :| IsItem(inp, x) {
      ItemsListed(inp, x);
    }
  }

  /** Spending always changes what is stored. */
  lemma SpendingChanges(r: Setup, s: State, inp: Input)
    ensures Ticked(r, s, inp) != s <==> Escalates(r.config, s, inp)
  {
    hide HasWork;
  }

  // ---------------------------------------------------------------------------------------------
  // Dates that come back
  // ---------------------------------------------------------------------------------------------

  /** Ticks without work change nothing. */
  lemma {:induction false} IdleStretch(r: Setup, s: State, inps: seq<Input>, d: string, a: nat, b: nat)
    requires a <= b <= |inps| && forall p :: a <= p < b ==> !HasWork(inps[p])
    ensures After(r, s, inps, b) == After(r, s, inps, a) && EmittedOn(r, s, inps, d, b) == EmittedOn(r, s, inps, d, a)
    decreases b
  {
    hide HasWork, WorkItems;
    if a < b {
      IdleStretch(r, s, inps, d, a, b - 1);
    }
  }

  /** One message a day, at any hour. */
  const ONE_A_DAY := Setup(Config(true, false, 0, 0, 1), false, true)

  function Busy(d: string): Input {
    Input(12, d, [Some("work")], [], [], None)
  }

  function Quiet(d: string): Input {
    Input(12, d, [], [], [], None)
  }

  /** With work to do, a date other than the stored one gets its message. */
  lemma BusyTick(s: State, d: string)
    requires s.dailyCount.None? || s.dailyDate != Some(d)
    requires s.dailyCount.Some? ==> s.dailyDate.Some?
    ensures Emitted(ONE_A_DAY, s, Busy(d)) != Nothing
    ensures Ticked(ONE_A_DAY, s, Busy(d)) == State(Some(1), Some(d), s.tickCounter)
  {
    assert Busy(d).pendingTasks[0].Some?;
  }

  /** Work at three ticks: a date, another date, and the first date again. */
  function ReturningRun(ds: seq<string>, i: nat, j: nat, k: nat): (inps: seq<Input>)
    ensures |inps| == |ds|
    ensures forall p :: 0 <= p < |ds| ==> inps[p] == if p in {i, j, k} then Busy(ds[p]) else Quiet(ds[p])
    ensures Dates(inps) == ds
  {
    seq(|ds|, p requires 0 <= p < |ds| => if p in {i, j, k} then Busy(ds[p]) else Quiet(ds[p]))
  }

  const FRESH := State(None, None, 0)

  /** After idle ticks, one with work adds an emission when the date is not the stored one. */
  lemma BusyAfterIdle(inps: seq<Input>, d: string, a: nat, p: nat)
    requires a <= p < |inps| && inps[p] == Busy(inps[p].today) && forall q :: a <= q < p ==> !HasWork(inps[q])
    requires var t := After(ONE_A_DAY, FRESH, inps, a);
             t.dailyCount.None? || (t.dailyDate.Some? && t.dailyDate.value != inps[p].today)
    ensures After(ONE_A_DAY, FRESH, inps, p + 1).dailyDate == Some(inps[p].today)
    ensures EmittedOn(ONE_A_DAY, FRESH, inps, d, p + 1)
         == EmittedOn(ONE_A_DAY, FRESH, inps, d, a) + (if inps[p].today == d then 1 else 0)
  {
    hide Emitted, Ticked, HasWork;
    IdleStretch(ONE_A_DAY, FRESH, inps, d, a, p);
    BusyTick(After(ONE_A_DAY, FRESH, inps, p), inps[p].today);
  }

  lemma QuietElsewhere(ds: seq<string>, i: nat, j: nat, k: nat)
    ensures forall p :: 0 <= p < |ds| && p !in {i, j, k} ==> !HasWork(ReturningRun(ds, i, j, k)[p])
  {
    hide HasWork;
    forall p | 0 <= p < |ds| && p !in {i, j, k}
      ensures !HasWork(ReturningRun(ds, i, j, k)[p])
    {
      QuietHasNoWork(ds[p]);
    }
  }

  lemma TwoMessages(inps: seq<Input>, d: string, i: nat, j: nat, k: nat)
    requires i < j < k < |inps| && inps[j].today != d
    requires inps[i] == inps[k] == Busy(d) && inps[j] == Busy(inps[j].today)
    requires forall p :: 0 <= p < |inps| && p !in {i, j, k} ==> !HasWork(inps[p])
    ensures EmittedOn(ONE_A_DAY, FRESH, inps, d, |inps|) == 2
  {
    NothingAtFirst(inps, d);
    hide After, EmittedOn, HasWork;
    BusyAfterIdle(inps, d, 0, i);
    BusyAfterIdle(inps, d, i + 1, j);
    BusyAfterIdle(inps, d, j + 1, k);
    IdleStretch(ONE_A_DAY, FRESH, inps, d, k + 1, |inps|);
  }

  /** A date that comes back after another one gets a second budget. */
  lemma ReturningDateResetsBudget(ds: seq<string>, i: nat, j: nat, k: nat)
    requires i < j < k < |ds| && ds[i] == ds[k] != ds[j]
    ensures EmittedOn(ONE_A_DAY, FRESH, ReturningRun(ds, i, j, k), ds[i], |ds|) == 2
  {
    hide EmittedOn, HasWork, ReturningRun;
    QuietElsewhere(ds, i, j, k);
    TwoMessages(ReturningRun(ds, i, j, k), ds[i], i, j, k);
  }

  lemma NothingAtFirst(inps: seq<Input>, d: string)
    ensures After(ONE_A_DAY, FRESH, inps, 0) == FRESH && EmittedOn(ONE_A_DAY, FRESH, inps, d, 0) == 0
  {
  }

  lemma QuietHasNoWork(d: string)
    ensures !HasWork(Quiet(d))
  {
  }

  ghost predicate WithinBudget(r: Setup, s: State, inps: seq<Input>) {
    forall d :: EmittedOn(r, s, inps, d, |inps|) <= r.config.maxProactivePerDay
  }

  /** All runs over a sequence of dates keep every day within the budget, if and only if no date comes back in it. */
  lemma BudgetHoldsIff(ds: seq<string>)
    ensures (forall r, s, inps :: Dates(inps) == ds ==> WithinBudget(r, s, inps)) <==> DatesMoveOn(ds)
  {
    hide EmittedOn, SpentOn, ReturningRun;
    if DatesMoveOn(ds) {
      forall r, s, inps | Dates(inps) == ds
        ensures WithinBudget(r, s, inps)
      {
        forall d
          ensures EmittedOn(r, s, inps, d, |inps|) <= r.config.maxProactivePerDay
        {
          DailyBudgetHolds(r, s, inps, d);
        }
      }
    } else {
      var i, j, k :| 0 <= i < j < k < |ds| && ds[i] == ds[k] && ds[j] != ds[i];
      ReturningDateResetsBudget(ds, i, j, k);
      assert !WithinBudget(ONE_A_DAY, FRESH, ReturningRun(ds, i, j, k));
    }
  }

  // ---------------------------------------------------------------------------------------------
  // Tick numbers
  // ---------------------------------------------------------------------------------------------

  /** The numbers of the tick events emitted in the first `i` ticks. */
  function TicksEmitted(r: Setup, s: State, inps: seq<Input>, i: nat): seq<int>
    requires i <= |inps|
  {
    if i == 0 then []
    else TicksEmitted(r, s, inps, i - 1)
         + match Emitted(r, After(r, s, inps, i - 1), inps[i - 1])
           case HeartbeatTick(tick) => [tick]
           case _ => []
  }

  /** The counter after it has given out the numbers. */
  function CounterAfter(first: int, ticks: seq<int>): int {
    if ticks == [] then first else Successor(ticks[|ticks| - 1])
  }

  /** The numbers start with `first` and count up without gaps, wrapping at 64 bits. */
  ghost predicate CountsUp(first: int, ticks: seq<int>) {
    forall k :: 0 <= k < |ticks| ==> ticks[k] == CounterAfter(first, ticks[..k])
  }

  lemma CountsOn(first: int, ticks: seq<int>)
    requires CountsUp(first, ticks)
    ensures CountsUp(first, ticks + [CounterAfter(first, ticks)])
  {
    hide CounterAfter;
    var more := ticks + [CounterAfter(first, ticks)];
    forall k | 0 <= k < |more|
      ensures more[k] == CounterAfter(first, more[..k])
    {
      assert more[..k] == ticks[..k];
      assert k == |ticks| ==> ticks[..k] == ticks;
    }
  }

  lemma OneTick(r: Setup, s: State, inps: seq<Input>, i: nat)
    requires 0 < i <= |inps|
    ensures var (before, t) := (TicksEmitted(r, s, inps, i - 1), After(r, s, inps, i - 1).tickCounter);
            || (TicksEmitted(r, s, inps, i) == before && After(r, s, inps, i).tickCounter == t)
            || (TicksEmitted(r, s, inps, i) == before + [t] && After(r, s, inps, i).tickCounter == Successor(t))
  {
    hide Escalates, WorkItems;
  }

  /** The numbers of emitted tick events count up from the stored counter. */
  lemma {:induction false} TickNumbersConsecutive(r: Setup, s: State, inps: seq<Input>, i: nat)
    requires i <= |inps|
    ensures CountsUp(s.tickCounter, TicksEmitted(r, s, inps, i))
    ensures After(r, s, inps, i).tickCounter == CounterAfter(s.tickCounter, TicksEmitted(r, s, inps, i))
  {
    hide Ticked, Emitted, CountsUp;
    if i == 0 {
      assert CountsUp(s.tickCounter, []) by {
        NoNumbers(s.tickCounter);
      }
    } else {
      TickNumbersConsecutive(r, s, inps, i - 1);
      CountsOn(s.tickCounter, TicksEmitted(r, s, inps, i - 1));
      hide After, TicksEmitted;
      OneTick(r, s, inps, i);
    }
  }

  lemma NoNumbers(first: int)
    ensures CountsUp(first, [])
  {
  }

  /** After the greatest 64-bit number comes the least one, and after any other its successor. */
  lemma CounterWraps(n: int)
    requires -0x8000_0000_0000_0000 <= n < 0x8000_0000_0000_0000
    ensures Successor(n) == if n == 0x7FFF_FFFF_FFFF_FFFF then -0x8000_0000_0000_0000 else n + 1
  {
  }

  /** Until the counter wraps, the numbers are those following the first. */
  lemma {:induction false} NumbersFollow(first: int, ticks: seq<int>, k: nat)
    requires CountsUp(first, ticks) && k < |ticks| && first + k < I64_LIMIT
    ensures ticks[k] == first + k
  {
    if k > 0 {
      NumbersFollow(first, ticks, k - 1);
      assert ticks[..k][k - 1] == ticks[k - 1];
    }
  }

  // ---------------------------------------------------------------------------------------------
  // The order of work items
  // ---------------------------------------------------------------------------------------------

  lemma {:induction false} PendingSnoc(ts: seq<Option<string>>, t: Option<string>)
    ensures PendingItems(ts + [t]) == PendingItems(ts) + PendingItemOf(t)
  {
    hide PendingItemOf;
    if ts == [] {
      assert ts + [t] == [t];
    } else {
      PendingSnoc(ts[1..], t);
      assert (ts + [t])[1..] == ts[1..] + [t];
    }
  }

  lemma {:induction false} ChecklistSnoc(cs: seq<ChecklistItem>, c: ChecklistItem)
    ensures ChecklistItems(cs + [c]) == ChecklistItems(cs) + ChecklistItemOf(c)
  {
    hide ChecklistItemOf;
    if cs == [] {
      assert cs + [c] == [c];
    } else {
      ChecklistSnoc(cs[1..], c);
      assert (cs + [c])[1..] == cs[1..] + [c];
    }
  }

  lemma {:induction false} PromiseSnoc(ps: seq<Promise>, p: Promise)
    ensures PromiseItems(ps + [p]) == PromiseItems(ps) + PromiseItemOf(p)
  {
    hide PromiseItemOf;
    if ps == [] {
      assert ps + [p] == [p];
    } else {
      PromiseSnoc(ps[1..], p);
      assert (ps + [p])[1..] == ps[1..] + [p];
    }
  }

  /** An entry at the end of a list adds its item at the end of the items of its kind, and the kinds have an order. */
  lemma ItemsInOrder(inp: Input, t: string, c: string, p: string, n: nat, more: bool)
    ensures var longer := inp.(pendingTasks := inp.pendingTasks + [Some(t)],
                               checklist := inp.checklist + [ChecklistItem(c, true)],
                               promises := inp.promises + [Promise(Some(p), false)],
                               taskManager := Some(TaskCheck(true, n, more)));
            WorkItems(longer)
            == (PendingItems(inp.pendingTasks) + ["pending task: " + t])
               + (ChecklistItems(inp.checklist) + ["checklist: " + c])
               + (PromiseItems(inp.promises) + ["unfulfilled promise: " + p])
               + ["tasks: " + Decimal(n) + " evaluable task(s) pending execution"]
  {
    hide Decimal;
    hide PendingItems;
    hide ChecklistItems;
    hide PromiseItems;
    PendingSnoc(inp.pendingTasks, Some(t));
    ChecklistSnoc(inp.checklist, ChecklistItem(c, true));
    PromiseSnoc(inp.promises, Promise(Some(p), false));
  }
}
