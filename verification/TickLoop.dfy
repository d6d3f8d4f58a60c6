/**
  The scheduler loop as a state machine: ticks, dispatches, and completions and API calls at any point between.
 */
module TickLoop {
  import opened Common
  import opened Tasks
  import opened FailureAlerts
  import CronCommand
  import Strings

  /**
    Where the loop is: between ticks; after reading the clock and before the due check; or with a list of due tasks,
    where `spawned` means that the head of the list is dispatched but not yet marked. A panic ends the loop for good.
   */
  datatype Phase = Idle | Checking(now: Moment) | Dispatching(now: Moment, due: seq<Task>, spawned: bool) | Dead

  datatype Dispatch = Dispatch(task: Task, at: Instant)

  /**
    `cal` gives the calendar fields of every point in time, as the clock library computes them. `log` records the
    dispatches; the program does not keep it. Without an executor nothing is dispatched.
   */
  datatype State = State(
    cal: Instant -> Moment, hasExecutor: bool, tasks: map<string, Task>, clock: Instant, phase: Phase,
    log: seq<Dispatch>)

  datatype Event =
    | ReadClock(now: Moment)
    | Check(due: seq<Task>)
    | CheckPanics
    | Spawn
    | Mark
    | EndTick
    | CompleteOk(id: string, at: Instant, result: string)
    | CompleteErr(id: string, at: Instant, alertAt: Instant, errText: string)
    | Add(task: Task)
    | Remove(id: string)
    | SetEnabled(id: string, enabled: bool)

  /** The due check gets past every enabled task; disabled ones it skips. */
  ghost predicate Checkable(tasks: map<string, Task>) {
    forall k :: k in tasks && tasks[k].enabled ==> !Panics(tasks[k])
  }

  /** `due` lists, in some order, clones of the enabled tasks that are due. */
  ghost predicate IsDueList(tasks: map<string, Task>, now: Moment, due: seq<Task>) {
    && (forall i :: 0 <= i < |due| ==>
          due[i].id in tasks && due[i] == tasks[due[i].id] && due[i].enabled && IsDue(due[i], now))
    && (forall i, j :: 0 <= i < j < |due| ==> due[i].id != due[j].id)
    && (forall k :: k in tasks && tasks[k].enabled && IsDue(tasks[k], now) ==> tasks[k] in due)
  }

  /**
    The event can happen now; clock readings never go back. A failed completion reads the clock twice, and the loop may
    read it in between, so that only the first of the two readings counts for the order.
   */
  ghost predicate Enabled(s: State, e: Event) {
    match e
    case ReadClock(now) => s.phase.Idle? && now == s.cal(now.at) && now.at >= s.clock
    case Check(due) => s.phase.Checking? && Checkable(s.tasks) && IsDueList(s.tasks, s.phase.now, due)
    case CheckPanics => s.phase.Checking? && !Checkable(s.tasks)
    case Spawn => s.phase.Dispatching? && s.phase.due != [] && !s.phase.spawned
    case Mark => s.phase.Dispatching? && s.phase.due != [] && s.phase.spawned
    case EndTick => s.phase.Dispatching? && s.phase.due == []
    case CompleteOk(_, at, _) => at >= s.clock
    case CompleteErr(_, at, alertAt, _) => alertAt >= at >= s.clock
    case _ => true
  }

  function Apply(s: State, e: Event): State
    requires Enabled(s, e)
  {
    match e
    case ReadClock(now) => s.(clock := now.at, phase := Checking(now))
    case Check(due) => s.(phase := Dispatching(s.phase.now, due, false))
    case CheckPanics => s.(phase := Dead)
    case Spawn =>
      var log := if s.hasExecutor then s.log + [Dispatch(s.phase.due[0], s.phase.now.at)] else s.log;
      s.(phase := s.phase.(spawned := true), log := log)
    case Mark =>
      var id := s.phase.due[0].id;
      var tasks := if id in s.tasks then s.tasks[id := s.tasks[id].(lastRun := Some(s.phase.now.at))] else s.tasks;
      s.(tasks := tasks, phase := Dispatching(s.phase.now, s.phase.due[1..], false))
    case EndTick => s.(phase := Idle)
    case CompleteOk(id, at, result) =>
      if id !in s.tasks then s.(clock := at)
      else
        var t := s.tasks[id].(lastRun := Some(at), lastResult := Some(result), consecutiveFailures := 0);
        s.(clock := at, tasks := s.tasks[id := t])
    case CompleteErr(id, at, alertAt, errText) =>
      if id !in s.tasks then s.(clock := at)
      else
        var t := AfterFailure(s.tasks[id].(lastRun := Some(at)), errText, alertAt);
        s.(clock := at, tasks := s.tasks[id := t])
    case Add(task) => s.(tasks := s.tasks[task.id := task])
    case Remove(id) => s.(tasks := s.tasks - {id})
    case SetEnabled(id, enabled) =>
      if id in s.tasks then s.(tasks := s.tasks[id := s.tasks[id].(enabled := enabled)]) else s
  }

  /** The events can happen one after the other. */
  ghost predicate IsRun(s: State, es: seq<Event>)
    decreases |es|
  {
    es == [] || (Enabled(s, es[0]) && IsRun(Apply(s, es[0]), es[1..]))
  }

  ghost function After(s: State, es: seq<Event>): State
    requires IsRun(s, es)
    decreases |es|
  {
    if es == [] then s else After(Apply(s, es[0]), es[1..])
  }

  // ---------------------------------------------------------------------------------------------
  // Spacing of dispatches
  // ---------------------------------------------------------------------------------------------

  function LastDispatch(log: seq<Dispatch>, id: string): Option<Instant> {
    if log == [] then None
    else if log[|log| - 1].task.id == id then Some(log[|log| - 1].at)
    else LastDispatch(log[..|log| - 1], id)
  }

  /** The time that a repeating schedule leaves between dispatches; none when the interval wraps around. */
  function Gap(schedule: Schedule): nat
    requires !schedule.Once?
  {
    match schedule
    case Interval(everySecs) => if WrapsAround(everySecs) then 0 else everySecs * NANOS_PER_SEC
    case Cron(_) => 60 * NANOS_PER_SEC
  }

  /** The schedule permits a dispatch at `now` when the one before was at `prev`. */
  predicate Permits(schedule: Schedule, prev: Option<Instant>, now: Instant) {
    if schedule.Once? then prev.None? && now >= schedule.at
    else prev.None? || now - prev.value >= Gap(schedule)
  }

  /** Every dispatch of the task was permitted, by the schedule it was dispatched under, after the one before it. */
  ghost predicate Spaced(log: seq<Dispatch>, id: string) {
    log == []
    || (var (init, last) := (log[..|log| - 1], log[|log| - 1]);
        Spaced(init, id)
        && (last.task.id == id ==> Permits(last.task.schedule, LastDispatch(init, id), last.at)))
  }

  /** `a` is no later than `b`; nothing is no later than anything. */
  predicate NotAfter(a: Option<Instant>, b: Option<Instant>) {
    a.None? || (b.Some? && a.value <= b.value)
  }

  ghost predicate Calendar(cal: Instant -> Moment) {
    forall at: Instant :: cal(at).at == at && cal(at).Valid()
  }

  predicate MatchesAt(expr: string, cal: Instant -> Moment, at: Instant) {
    CronTextMatches(expr, cal(at))
  }

  /**
    What makes a task safe that was last dispatched at `prev` and is checked at no time before `from`: its last run is
    no earlier than that dispatch; or its schedule asks for no more distance than there will be; or, for a cron task,
    none of the times that are too early matches; or it will not be dispatched at all.
   */
  ghost predicate SafeFrom(t: Task, prev: Option<Instant>, cal: Instant -> Moment, from: Instant) {
    || NotAfter(prev, t.lastRun)
    || Panics(t)
    || match t.schedule
       case Once(_) => t.lastRun.Some?
       case Interval(_) => from - prev.value >= Gap(t.schedule)
       case Cron(expr) =>
         forall at: Instant | from <= at < prev.value + Gap(t.schedule) ::
           t.lastRun.None? || at - t.lastRun.value >= Gap(t.schedule) ==> !MatchesAt(expr, cal, at)
  }

  /** A due check permits a dispatch of a safe task. */
  lemma DuePermits(t: Task, prev: Option<Instant>, cal: Instant -> Moment, from: Instant, now: Moment)
    requires IsDue(t, now) && now == cal(now.at)
    requires SafeFrom(t, prev, cal, from) && from <= now.at && NotAfter(prev, Some(now.at))
    ensures Permits(t.schedule, prev, now.at)
  {
    hide CronTextMatches;
    if t.schedule.Cron? {
      assert MatchesAt(t.schedule.expr, cal, now.at);
      if t.lastRun.Some? {
        NumSecondsAtLeast(now.at - t.lastRun.value, 60);
      }
    }
  }

  /** No due check to come reads the clock before this. */
  function NextCheck(s: State): Instant {
    if s.phase.Checking? then s.phase.now.at else s.clock
  }

  /** The due check to come, if its clock reading is known, and all later ones permit the dispatches they cause. */
  ghost predicate Safe(t: Task, s: State) {
    var prev := LastDispatch(s.log, t.id);
    || s.phase.Dead?
    || (&& SafeFrom(t, prev, s.cal, s.clock)
        && (s.phase.Checking? && IsDue(t, s.phase.now) ==> Permits(t.schedule, prev, s.phase.now.at)))
  }

  /** The head of the due list is the task, dispatched but not marked. */
  ghost predicate Unmarked(s: State, id: string) {
    s.hasExecutor && s.phase.Dispatching? && s.phase.due != [] && s.phase.spawned && s.phase.due[0].id == id
  }

  /** The task still waits in the due list. */
  ghost predicate Waiting(s: State, id: string, k: nat) {
    s.phase.Dispatching? && k < |s.phase.due| && s.phase.due[k].id == id && !(k == 0 && s.phase.spawned)
  }

  /** The task is in the due list, so that it is marked before the next due check. */
  ghost predicate ToBeMarked(s: State, id: string) {
    s.phase.Dispatching? && exists k :: 0 <= k < |s.phase.due| && s.phase.due[k].id == id
  }

  /** With `strict`, the last run itself has to be no earlier than the latest dispatch. */
  ghost predicate Guarded(t: Task, s: State, strict: bool) {
    if strict then NotAfter(LastDispatch(s.log, t.id), t.lastRun) else Safe(t, s)
  }

  /** What holds throughout for the tasks with this id. */
  ghost predicate Inv(s: State, id: string, strict: bool) {
    && Calendar(s.cal)
    && (forall k :: k in s.tasks ==> s.tasks[k].id == k)
    && Spaced(s.log, id)
    && (!s.hasExecutor ==> LastDispatch(s.log, id).None?)
    && NotAfter(LastDispatch(s.log, id), Some(NextCheck(s)))
    && (s.phase.Checking? || s.phase.Dispatching? ==> s.phase.now.at <= s.clock)
    && (s.phase.Checking? ==> s.phase.now == s.cal(s.phase.now.at))
    && (s.phase.Dispatching? ==> forall i, j :: 0 <= i < j < |s.phase.due| ==> s.phase.due[i].id != s.phase.due[j].id)
    && (id in s.tasks && !ToBeMarked(s, id) ==> Guarded(s.tasks[id], s, strict))
    && (Unmarked(s, id) ==> LastDispatch(s.log, id) == Some(s.phase.now.at))
    && (forall k: nat :: Waiting(s, id, k) ==>
          Permits(s.phase.due[k].schedule, LastDispatch(s.log, id), s.phase.now.at))
  }

  predicate Adds(e: Event, id: string) {
    e.Add? && e.task.id == id
  }

  /** An event that adds the task, again or for the first time, adds a guarded one, or one about to be marked. */
  ghost predicate Careful(s: State, e: Event, id: string, strict: bool) {
    Adds(e, id) ==> ToBeMarked(s, id) || Guarded(e.task, s, strict)
  }

  /** What guards a task goes on guarding it as time passes, except that a clock reading adds a due check. */
  lemma StaysGuarded(t: Task, s: State, u: State, strict: bool)
    requires Guarded(t, s, strict) && u.log == s.log && u.cal == s.cal && s.clock <= u.clock
    requires u.phase == s.phase || (!u.phase.Checking? && !s.phase.Dead?)
    ensures Guarded(t, u, strict)
  {
    hide LastDispatch, Permits, IsDue;
  }

  lemma ClockReadingGuards(t: Task, s: State, now: Moment, strict: bool)
    requires Guarded(t, s, strict) && Enabled(s, ReadClock(now))
    requires NotAfter(LastDispatch(s.log, t.id), Some(s.clock))
    ensures Guarded(t, Apply(s, ReadClock(now)), strict)
  {
    hide LastDispatch, Permits, DueCheck;
    if !strict && IsDue(t, now) {
      DuePermits(t, LastDispatch(s.log, t.id), s.cal, s.clock, now);
    }
  }

  lemma RunIsSafe(t: Task, s: State, strict: bool)
    requires NotAfter(LastDispatch(s.log, t.id), t.lastRun)
    requires s.phase.Checking? ==>
               s.phase.now == s.cal(s.phase.now.at) && NotAfter(LastDispatch(s.log, t.id), Some(s.phase.now.at))
    ensures Guarded(t, s, strict)
  {
    hide LastDispatch, Permits, DueCheck;
    if s.phase.Checking? && IsDue(t, s.phase.now) {
      DuePermits(t, LastDispatch(s.log, t.id), s.cal, s.phase.now.at, s.phase.now);
    }
  }

  lemma CheckKeepsInv(s: State, due: seq<Task>, id: string, strict: bool)
    requires Inv(s, id, strict) && Enabled(s, Check(due))
    ensures Inv(Apply(s, Check(due)), id, strict)
  {
    hide DueCheck, Spaced, LastDispatch, Permits, SafeFrom;
    var u := Apply(s, Check(due));
    forall k: nat | Waiting(u, id, k)
      ensures Permits(due[k].schedule, LastDispatch(u.log, id), u.phase.now.at)
    {
      assert due[k] == s.tasks[id];
      if strict {
        RunIsSafe(due[k], s, false);
      }
    }
    if id in s.tasks {
      StaysGuarded(s.tasks[id], s, u, strict);
    }
  }

  lemma SpawnKeepsInv(s: State, id: string, strict: bool)
    requires Inv(s, id, strict) && Enabled(s, Spawn)
    ensures Inv(Apply(s, Spawn), id, strict)
  {
    hide Permits, SafeFrom;
    var u := Apply(s, Spawn);
    assert s.hasExecutor ==> u.log[..|u.log| - 1] == s.log;
    assert s.phase.due[0].id == id ==> Waiting(s, id, 0);
    forall k: nat | Waiting(u, id, k)
      ensures Permits(u.phase.due[k].schedule, LastDispatch(u.log, id), u.phase.now.at)
    {
      assert Waiting(s, id, k);
    }
    assert ToBeMarked(u, id) <==> ToBeMarked(s, id);
    assert !ToBeMarked(s, id) ==> LastDispatch(u.log, id) == LastDispatch(s.log, id);
  }

  lemma MarkKeepsInv(s: State, id: string, strict: bool)
    requires Inv(s, id, strict) && Enabled(s, Mark)
    ensures Inv(Apply(s, Mark), id, strict)
  {
    hide Permits, Spaced, LastDispatch, SafeFrom, Guarded;
    var u := Apply(s, Mark);
    forall k: nat | Waiting(u, id, k)
      ensures Permits(u.phase.due[k].schedule, LastDispatch(u.log, id), u.phase.now.at)
    {
      assert Waiting(s, id, k + 1);
    }
    if id in u.tasks && !ToBeMarked(u, id) {
      if s.phase.due[0].id == id {
        RunIsSafe(u.tasks[id], u, strict);
      } else {
        assert !ToBeMarked(s, id) by {
          assert forall k :: 0 < k < |s.phase.due| ==> s.phase.due[k] == u.phase.due[k - 1];
        }
        StaysGuarded(s.tasks[id], s, u, strict);
      }
    }
  }

  /** Events that leave the log and the due list alone keep what waits waiting. */
  lemma SamePhase(s: State, u: State, id: string, strict: bool)
    requires Inv(s, id, strict)
    requires u.cal == s.cal && u.hasExecutor == s.hasExecutor && u.log == s.log && u.clock >= s.clock
    requires u.phase == s.phase || !u.phase.Dispatching?
    requires u.phase.Checking? ==> u.phase.now == u.cal(u.phase.now.at) && u.phase.now.at <= u.clock
    requires NextCheck(s) <= NextCheck(u)
    requires forall k :: k in u.tasks ==> u.tasks[k].id == k
    requires id in u.tasks && !ToBeMarked(u, id) ==> Guarded(u.tasks[id], u, strict)
    ensures Inv(u, id, strict)
  {
    hide Permits, Spaced, LastDispatch, Guarded, Calendar;
    forall k: nat | Waiting(u, id, k)
      ensures Permits(u.phase.due[k].schedule, LastDispatch(u.log, id), u.phase.now.at)
    {
      assert Waiting(s, id, k);
    }
  }

  /** A completion leaves the task with a last run that is no earlier than any dispatch. */
  lemma CompletionKeepsInv(s: State, e: Event, id: string, strict: bool)
    requires Inv(s, id, strict) && Enabled(s, e) && (e.CompleteOk? || e.CompleteErr?)
    ensures Inv(Apply(s, e), id, strict)
  {
    hide Permits, Spaced, LastDispatch, Alerts, Guarded, Calendar;
    var u := Apply(s, e);
    if id in s.tasks && !ToBeMarked(u, id) {
      if e.id == id {
        RunIsSafe(u.tasks[id], u, strict);
      } else {
        StaysGuarded(s.tasks[id], s, u, strict);
      }
    }
    SamePhase(s, u, id, strict);
  }

  lemma ApiKeepsInv(s: State, e: Event, id: string, strict: bool)
    requires Inv(s, id, strict) && Enabled(s, e) && Careful(s, e, id, strict)
    requires e.Add? || e.Remove? || e.SetEnabled?
    ensures Inv(Apply(s, e), id, strict)
  {
    hide Permits, Spaced, LastDispatch, Guarded, Calendar;
    var u := Apply(s, e);
    if id in u.tasks && !ToBeMarked(u, id) {
      if Adds(e, id) {
        StaysGuarded(e.task, s, u, strict);
      } else {
        StaysGuarded(s.tasks[id], s, u, strict);
        EnablingGuards(s.tasks[id], u.tasks[id], u, strict);
      }
    }
    SamePhase(s, u, id, strict);
  }

  lemma EnablingGuards(t: Task, t': Task, s: State, strict: bool)
    requires Guarded(t, s, strict) && t' == t.(enabled := t'.enabled)
    ensures Guarded(t', s, strict)
  {
    hide Permits, LastDispatch;
    assert s.phase.Checking? ==> DueCheck(t', s.phase.now) == DueCheck(t, s.phase.now);
  }

  lemma LoopKeepsInv(s: State, e: Event, id: string, strict: bool)
    requires Inv(s, id, strict) && Enabled(s, e)
    requires e.ReadClock? || e.CheckPanics? || e.EndTick?
    ensures Inv(Apply(s, e), id, strict)
  {
    hide Permits, Spaced, LastDispatch, Guarded, Calendar, Checkable;
    var u := Apply(s, e);
    if id in s.tasks && !ToBeMarked(s, id) {
      if e.ReadClock? {
        ClockReadingGuards(s.tasks[id], s, e.now, strict);
      } else {
        StaysGuarded(s.tasks[id], s, u, strict);
      }
    }
    SamePhase(s, u, id, strict);
  }

  lemma StepKeepsInv(s: State, e: Event, id: string, strict: bool)
    requires Inv(s, id, strict) && Enabled(s, e) && Careful(s, e, id, strict)
    ensures Inv(Apply(s, e), id, strict)
  {
    hide Inv, Careful;
    match e
    case Check(due) => CheckKeepsInv(s, due, id, strict);
    case Spawn => SpawnKeepsInv(s, id, strict);
    case Mark => MarkKeepsInv(s, id, strict);
    case CompleteOk(_, _, _) => CompletionKeepsInv(s, e, id, strict);
    case CompleteErr(_, _, _, _) => CompletionKeepsInv(s, e, id, strict);
    case Add(_) => ApiKeepsInv(s, e, id, strict);
    case Remove(_) => ApiKeepsInv(s, e, id, strict);
    case SetEnabled(_, _) => ApiKeepsInv(s, e, id, strict);
    case _ => LoopKeepsInv(s, e, id, strict);
  }

  // ---------------------------------------------------------------------------------------------
  // Safety of whole runs
  // ---------------------------------------------------------------------------------------------

  /** Where a run may begin: no tick under way and nothing dispatched. */
  ghost predicate Initial(s: State) {
    Calendar(s.cal) && s.phase.Idle? && s.log == [] && forall k :: k in s.tasks ==> s.tasks[k].id == k
  }

  /** Whenever the task is added, it is added carefully. */
  ghost predicate CarefulRun(s: State, es: seq<Event>, id: string, strict: bool)
    requires IsRun(s, es)
    decreases |es|
  {
    es == [] || (Careful(s, es[0], id, strict) && CarefulRun(Apply(s, es[0]), es[1..], id, strict))
  }

  lemma {:induction false} RunKeepsInv(s: State, es: seq<Event>, id: string, strict: bool)
    requires Inv(s, id, strict) && IsRun(s, es) && CarefulRun(s, es, id, strict)
    ensures Inv(After(s, es), id, strict)
    decreases |es|
  {
    hide Inv, Enabled, Apply, Careful;
    if es != [] {
      StepKeepsInv(s, es[0], id, strict);
      RunKeepsInv(Apply(s, es[0]), es[1..], id, strict);
    }
  }

  lemma ReachableInv(s: State, es: seq<Event>, id: string, strict: bool)
    requires Initial(s) && IsRun(s, es) && CarefulRun(s, es, id, strict)
    ensures Inv(After(s, es), id, strict)
  {
    hide IsRun, CarefulRun, After;
    RunKeepsInv(s, es, id, strict);
  }

  lemma {:induction false} LastIsLatest(log: seq<Dispatch>, id: string, i: nat)
    requires Spaced(log, id) && i < |log| && log[i].task.id == id
    ensures LastDispatch(log, id).Some? && log[i].at <= LastDispatch(log, id).value
    decreases |log|
  {
    var prefix := log[..|log| - 1];
    if i < |log| - 1 {
      assert prefix[i] == log[i];
      LastIsLatest(prefix, id, i);
    }
  }

  /** Any two dispatches of a task keep the distance that the schedule of the later one asks for. */
  lemma {:induction false} SpacedPairs(log: seq<Dispatch>, id: string, i: nat, j: nat)
    requires Spaced(log, id) && i < j < |log| && log[i].task.id == id && log[j].task.id == id
    ensures Permits(log[j].task.schedule, Some(log[i].at), log[j].at)
    decreases |log|
  {
    var prefix := log[..|log| - 1];
    assert prefix[i] == log[i];
    if j < |log| - 1 {
      assert prefix[j] == log[j];
      SpacedPairs(prefix, id, i, j);
    } else {
      LastIsLatest(prefix, id, i);
    }
  }

  /**
    At a due check the last run of a task is never before its latest dispatch, in every run in which whoever adds the
    task again passes on such a last run.
   */
  lemma LastRunCoversDispatches(s: State, es: seq<Event>, id: string)
    requires Initial(s) && IsRun(s, es) && CarefulRun(s, es, id, true)
    ensures var t := After(s, es);
            (t.phase.Idle? || t.phase.Checking?) && id in t.tasks ==>
              NotAfter(LastDispatch(t.log, id), t.tasks[id].lastRun)
  {
    hide IsRun, After, CarefulRun;
    ReachableInv(s, es, id, true);
  }

  /**
    In every run in which whoever adds the task again is careful, its dispatches are at least the interval apart, or
    at least 60 seconds for a cron task, whatever completions and API calls come between; a one-time task is
    dispatched at most once. The schedule may change in between: the one of the later dispatch counts.
   */
  lemma DispatchesAreSpaced(s: State, es: seq<Event>, id: string, i: nat, j: nat)
    requires Initial(s) && IsRun(s, es) && CarefulRun(s, es, id, false)
    requires var log := After(s, es).log; i < j < |log| && log[i].task.id == id && log[j].task.id == id
    ensures var log := After(s, es).log;
            match log[j].task.schedule
            case Interval(everySecs) => WrapsAround(everySecs) || log[j].at - log[i].at >= everySecs * NANOS_PER_SEC
            case Cron(_) => log[j].at - log[i].at >= 60 * NANOS_PER_SEC
            case Once(_) => false
  {
    hide IsRun, After, CarefulRun, Spaced;
    ReachableInv(s, es, id, false);
    SpacedPairs(After(s, es).log, id, i, j);
  }

  function ClockMinute(at: Instant): int {
    at / (60 * NANOS_PER_SEC)
  }

  /** A cron task is dispatched at most once per clock minute. */
  lemma CronOncePerMinute(s: State, es: seq<Event>, id: string, i: nat, j: nat)
    requires Initial(s) && IsRun(s, es) && CarefulRun(s, es, id, false)
    requires var log := After(s, es).log; i < j < |log| && log[i].task.id == id && log[j].task.id == id
    requires After(s, es).log[j].task.schedule.Cron?
    ensures ClockMinute(After(s, es).log[i].at) < ClockMinute(After(s, es).log[j].at)
  {
    hide IsRun, After, CarefulRun;
    DispatchesAreSpaced(s, es, id, i, j);
  }

  lemma {:induction false} SpacedAt(log: seq<Dispatch>, id: string, i: nat)
    requires Spaced(log, id) && i < |log| && log[i].task.id == id
    ensures exists prev :: Permits(log[i].task.schedule, prev, log[i].at)
    decreases |log|
  {
    if i < |log| - 1 {
      assert log[..|log| - 1][i] == log[i];
      SpacedAt(log[..|log| - 1], id, i);
    }
  }

  /** A one-time task is not dispatched before its time. */
  lemma OnceNotEarly(s: State, es: seq<Event>, i: nat)
    requires Initial(s) && IsRun(s, es) && i < |After(s, es).log| && After(s, es).log[i].task.schedule.Once?
    requires CarefulRun(s, es, After(s, es).log[i].task.id, false)
    ensures After(s, es).log[i].at >= After(s, es).log[i].task.schedule.at
  {
    hide IsRun, After, CarefulRun, Spaced;
    var id := After(s, es).log[i].task.id;
    ReachableInv(s, es, id, false);
    SpacedAt(After(s, es).log, id, i);
  }

  // ---------------------------------------------------------------------------------------------
  // Adding a task
  // ---------------------------------------------------------------------------------------------

  ghost predicate NeverAdds(es: seq<Event>, id: string) {
    forall k :: 0 <= k < |es| ==> !Adds(es[k], id)
  }

  lemma {:induction false} NeverAddingIsCareful(s: State, es: seq<Event>, id: string, strict: bool)
    requires IsRun(s, es) && NeverAdds(es, id)
    ensures CarefulRun(s, es, id, strict)
    decreases |es|
  {
    hide Enabled, Apply;
    if es != [] {
      NeverAddingIsCareful(Apply(s, es[0]), es[1..], id, strict);
    }
  }

  /** Nothing is known of the task. */
  ghost predicate Unknown(s: State, id: string) {
    && id !in s.tasks && LastDispatch(s.log, id).None?
    && (forall k :: k in s.tasks ==> s.tasks[k].id == k)
    && (s.phase.Dispatching? ==> forall k :: 0 <= k < |s.phase.due| ==> s.phase.due[k].id != id)
  }

  lemma StaysUnknown(s: State, e: Event, id: string)
    requires Unknown(s, id) && Enabled(s, e) && !Adds(e, id)
    ensures Unknown(Apply(s, e), id)
  {
    hide Alerts, Checkable, Permits;
    if e.Spawn? && s.hasExecutor {
      assert Apply(s, e).log[..|s.log|] == s.log;
    }
  }

  /**
    A task that is added for the first time, between ticks or in the middle of one, is added carefully whatever its
    last run, so that all of the above holds in every run that adds it once.
   */
  lemma {:induction false} AddingOnceIsCareful(s: State, before: seq<Event>, t: Task, rest: seq<Event>, strict: bool)
    requires Unknown(s, t.id) && IsRun(s, before + [Add(t)] + rest)
    requires NeverAdds(before, t.id) && NeverAdds(rest, t.id)
    ensures CarefulRun(s, before + [Add(t)] + rest, t.id, strict)
    decreases |before|
  {
    hide Enabled, Apply;
    var es := before + [Add(t)] + rest;
    if before == [] {
      assert es[1..] == rest;
      NeverAddingIsCareful(Apply(s, es[0]), rest, t.id, strict);
    } else {
      assert es[1..] == before[1..] + [Add(t)] + rest;
      StaysUnknown(s, es[0], t.id);
      AddingOnceIsCareful(Apply(s, es[0]), before[1..], t, rest, strict);
    }
  }

  /** The due tasks among those with the given keys. */
  lemma {:induction false} ListDue(tasks: map<string, Task>, keys: set<string>, now: Moment) returns (due: seq<Task>)
    requires keys <= tasks.Keys && forall k :: k in tasks ==> tasks[k].id == k
    ensures forall i :: 0 <= i < |due| ==>
              due[i].id in keys && due[i] == tasks[due[i].id] && due[i].enabled && IsDue(due[i], now)
    ensures forall i, j :: 0 <= i < j < |due| ==> due[i].id != due[j].id
    ensures forall k :: k in keys && tasks[k].enabled && IsDue(tasks[k], now) ==> tasks[k] in due
    decreases |keys|
  {
    hide IsDue;
    if keys == {} {
      due := [];
    } else {
      var k :| k in keys;
      due := ListDue(tasks, keys - {k}, now);
      if tasks[k].enabled && IsDue(tasks[k], now) {
        due := due + [tasks[k]];
      }
    }
  }

  /** A time at which a task that is not safe is due too early. */
  lemma UnsafeTime(t: Task, prev: Option<Instant>, cal: Instant -> Moment, from: Instant) returns (at: Instant)
    requires Calendar(cal) && !SafeFrom(t, prev, cal, from) && NotAfter(prev, Some(from))
    ensures at >= from && IsDue(t, cal(at)) && !Permits(t.schedule, prev, at)
  {
    hide CronTextMatches;
    match t.schedule
    case Once(time) => at := if time > from then time else from;
    case Interval(everySecs) =>
      var due := if t.lastRun.Some? then t.lastRun.value + everySecs * NANOS_PER_SEC else from;
      at := if due > from then due else from;
    case Cron(expr) =>
      at :| from <= at < prev.value + Gap(t.schedule)
            && (t.lastRun.None? || at - t.lastRun.value >= Gap(t.schedule)) && MatchesAt(expr, cal, at);
      if t.lastRun.Some? {
        NumSecondsAtLeast(at - t.lastRun.value, 60);
      }
  }

  /** A task that is not safe, between ticks: the next tick can dispatch it too early. */
  lemma UnsafeFires(u: State, id: string) returns (now: Moment, due: seq<Task>)
    requires Calendar(u.cal) && u.phase.Idle? && u.hasExecutor && Checkable(u.tasks)
    requires forall k :: k in u.tasks ==> u.tasks[k].id == k
    requires id in u.tasks && u.tasks[id].enabled && NotAfter(LastDispatch(u.log, id), Some(u.clock))
    requires !Safe(u.tasks[id], u)
    ensures var es := [ReadClock(now), Check(due), Spawn];
            IsRun(u, es) && After(u, es).log == u.log + [Dispatch(u.tasks[id], now.at)]
    ensures !Permits(u.tasks[id].schedule, LastDispatch(u.log, id), now.at)
  {
    hide LastDispatch, Permits, DueCheck;
    var t := u.tasks[id];
    var at := UnsafeTime(t, LastDispatch(u.log, id), u.cal, u.clock);
    now := u.cal(at);
    hide SafeFrom, Calendar;
    var others := ListDue(u.tasks, u.tasks.Keys - {id}, now);
    due := [t] + others;
    assert IsDueList(u.tasks, now, due) by {
      assert forall k :: k in others ==> k in due;
    }
    hide IsDueList, Checkable;
    ThreeSteps(u, now, due);
  }

  lemma ThreeSteps(u: State, now: Moment, due: seq<Task>)
    requires u.hasExecutor && Enabled(u, ReadClock(now)) && Checkable(u.tasks) && IsDueList(u.tasks, now, due)
    requires due != []
    ensures var es := [ReadClock(now), Check(due), Spawn];
            IsRun(u, es) && After(u, es).log == u.log + [Dispatch(due[0], now.at)]
  {
    hide IsDueList, Checkable;
    var es := [ReadClock(now), Check(due), Spawn];
    var u1 := Apply(u, es[0]);
    assert es[1..] == [Check(due), Spawn];
    TwoSteps(u1, due);
  }

  lemma TwoSteps(u: State, due: seq<Task>)
    requires u.hasExecutor && Enabled(u, Check(due)) && due != []
    ensures var es := [Check(due), Spawn];
            IsRun(u, es) && After(u, es).log == u.log + [Dispatch(due[0], u.phase.now.at)]
  {
    hide IsDueList, Checkable;
    var es := [Check(due), Spawn];
    var u1 := Apply(u, es[0]);
    var u2 := Apply(u1, es[1]);
    assert es[1..] == [Spawn] && es[1..][1..] == [];
    assert IsRun(u2, []) && After(u2, []) == u2;
    assert IsRun(u1, [Spawn]) && After(u1, [Spawn]) == u2;
  }

  /** Adding a task that is not safe, between ticks: the next tick can dispatch it too early, whatever else is due. */
  lemma ReaddingFiresAgain(s: State, t: Task) returns (now: Moment, due: seq<Task>)
    requires Inv(s, t.id, false) && s.phase.Idle? && Checkable(s.tasks) && t.enabled && !Safe(t, s)
    ensures var es := [ReadClock(now), Check(due), Spawn];
            IsRun(Apply(s, Add(t)), es) && After(Apply(s, Add(t)), es).log == s.log + [Dispatch(t, now.at)]
    ensures !Permits(t.schedule, LastDispatch(s.log, t.id), now.at)
  {
    hide LastDispatch, Spaced, Permits, DueCheck, Calendar, IsRun, After;
    now, due := UnsafeFires(Apply(s, Add(t)), t.id);
  }

  // ---------------------------------------------------------------------------------------------
  // Adding a task at any point
  // ---------------------------------------------------------------------------------------------

  lemma {:induction false} RunConcat(s: State, a: seq<Event>, b: seq<Event>, id: string)
    requires IsRun(s, a) && IsRun(After(s, a), b) && NeverAdds(a, id) && NeverAdds(b, id)
    ensures IsRun(s, a + b) && After(s, a + b) == After(After(s, a), b) && NeverAdds(a + b, id)
    decreases |a|
  {
    hide Enabled, Apply;
    if a == [] {
      assert a + b == b;
    } else {
      assert (a + b)[1..] == a[1..] + b;
      RunConcat(Apply(s, a[0]), a[1..], b, id);
    }
  }

  lemma OneEvent(s: State, e: Event, id: string)
    requires Enabled(s, e) && !Adds(e, id)
    ensures IsRun(s, [e]) && After(s, [e]) == Apply(s, e) && NeverAdds([e], id)
  {
    hide Enabled, Apply;
    assert [e][1..] == [];
    assert IsRun(Apply(s, e), []) && After(Apply(s, e), []) == Apply(s, e);
  }

  /** The only enabled task. */
  ghost predicate Alone(tasks: map<string, Task>, t: Task) {
    && t.id in tasks && tasks[t.id] == t && t.enabled
    && (forall k :: k in tasks ==> tasks[k].id == k)
    && (forall k :: k in tasks && k != t.id ==> !tasks[k].enabled)
  }

  /** Nothing that matters for the task has changed, but that it is the only enabled one now. */
  ghost predicate SameFor(u: State, s: State, t: Task) {
    && u.cal == s.cal && u.hasExecutor == s.hasExecutor && u.clock == s.clock
    && LastDispatch(u.log, t.id) == LastDispatch(s.log, t.id) && Alone(u.tasks, t)
  }

  /** API calls that disable other tasks. */
  lemma {:induction false} DisableAll(s: State, id: string, todo: set<string>) returns (es: seq<Event>)
    requires todo <= s.tasks.Keys
    ensures IsRun(s, es) && NeverAdds(es, id)
    ensures var u := After(s, es);
            && u == s.(tasks := u.tasks) && u.tasks.Keys == s.tasks.Keys
            && (forall k :: k in s.tasks ==>
                  u.tasks[k] == if k in todo then s.tasks[k].(enabled := false) else s.tasks[k])
    decreases |todo|
  {
    if todo == {} {
      es := [];
    } else {
      var k :| k in todo;
      var e := SetEnabled(k, false);
      OneEvent(s, e, id);
      var u := Apply(s, e);
      var rest := DisableAll(u, id, todo - {k});
      hide IsRun, After, NeverAdds;
      RunConcat(s, [e], rest, id);
      es := [e] + rest;
    }
  }

  /** API calls after which the task is the only enabled one. */
  lemma Isolate(s: State, id: string) returns (es: seq<Event>)
    requires id in s.tasks && forall k :: k in s.tasks ==> s.tasks[k].id == k
    ensures IsRun(s, es) && NeverAdds(es, id)
    ensures SameFor(After(s, es), s, s.tasks[id].(enabled := true))
    ensures After(s, es).phase == s.phase && After(s, es).log == s.log
  {
    hide IsRun, After, NeverAdds, LastDispatch;
    var first := DisableAll(s, id, s.tasks.Keys - {id});
    var u := After(s, first);
    var e := SetEnabled(id, true);
    OneEvent(u, e, id);
    RunConcat(s, first, [e], id);
    es := first + [e];
  }

  /** The rest of a tick that will not mark the task. */
  lemma {:induction false} FinishTick(s: State, t: Task) returns (es: seq<Event>)
    requires s.phase.Dispatching? && !ToBeMarked(s, t.id) && Alone(s.tasks, t)
    ensures IsRun(s, es) && NeverAdds(es, t.id)
    ensures After(s, es).phase.Idle? && SameFor(After(s, es), s, t)
    decreases |s.phase.due|, !s.phase.spawned
  {
    hide LastDispatch;
    var e := if s.phase.due == [] then EndTick else if s.phase.spawned then Mark else Spawn;
    OneEvent(s, e, t.id);
    var u := Apply(s, e);
    if e.EndTick? {
      es := [e];
    } else {
      RestOfTick(s, e, t);
      var rest := FinishTick(u, t);
      hide IsRun, After, NeverAdds;
      RunConcat(s, [e], rest, t.id);
      es := [e] + rest;
    }
  }

  lemma RestOfTick(s: State, e: Event, t: Task)
    requires s.phase.Dispatching? && !ToBeMarked(s, t.id) && Alone(s.tasks, t)
    requires Enabled(s, e) && (e.Spawn? || e.Mark?)
    ensures var u := Apply(s, e); u.phase.Dispatching? && !ToBeMarked(u, t.id) && SameFor(u, s, t)
  {
    var u := Apply(s, e);
    assert s.phase.due[0].id != t.id;
    if e.Spawn? && s.hasExecutor {
      assert u.log[..|u.log| - 1] == s.log;
    }
  }

  /** With the task as the only enabled one, a due check finds it or nothing. */
  lemma AloneCheck(s: State, t: Task)
    requires s.phase.Checking? && Alone(s.tasks, t) && !Panics(t)
    ensures Enabled(s, Check(if IsDue(t, s.phase.now) then [t] else []))
  {
    hide IsDue;
  }

  /** From any point of a tick to the time after it, when the due check under way does not find the task. */
  lemma ToIdle(s: State, t: Task) returns (es: seq<Event>)
    requires Alone(s.tasks, t) && !Panics(t) && !s.phase.Dead? && !ToBeMarked(s, t.id)
    requires s.phase.Checking? ==> !IsDue(t, s.phase.now)
    ensures IsRun(s, es) && NeverAdds(es, t.id)
    ensures After(s, es).phase.Idle? && SameFor(After(s, es), s, t)
  {
    hide LastDispatch, DueCheck, Panics;
    if s.phase.Idle? {
      es := [];
    } else if s.phase.Checking? {
      AloneCheck(s, t);
      OneEvent(s, Check([]), t.id);
      var u := Apply(s, Check([]));
      hide IsRun, After, NeverAdds;
      var rest := FinishTick(u, t);
      RunConcat(s, [Check([])], rest, t.id);
      es := [Check([])] + rest;
    } else {
      es := FinishTick(s, t);
    }
  }

  lemma TooEarly(log: seq<Dispatch>, d: Dispatch)
    requires !Permits(d.task.schedule, LastDispatch(log, d.task.id), d.at)
    ensures !Spaced(log + [d], d.task.id)
  {
    hide Permits, LastDispatch;
    assert (log + [d])[..|log|] == log;
  }

  /** The only enabled task, not safe: some run dispatches it too early. */
  lemma AloneFires(s: State, t: Task) returns (es: seq<Event>)
    requires Calendar(s.cal) && s.hasExecutor && Alone(s.tasks, t) && !ToBeMarked(s, t.id) && !Safe(t, s)
    requires NotAfter(LastDispatch(s.log, t.id), Some(NextCheck(s))) && NextCheck(s) <= s.clock
    ensures IsRun(s, es) && NeverAdds(es, t.id) && !Spaced(After(s, es).log, t.id)
  {
    hide LastDispatch, Spaced, Permits, DueCheck, Calendar;
    var prev := LastDispatch(s.log, t.id);
    UnsafeIsUrgent(s, t);
    if s.phase.Checking? && IsDue(t, s.phase.now) {
      AloneCheck(s, t);
      hide IsRun, After, SafeFrom, Safe;
      TwoSteps(s, [t]);
      es := [Check([t]), Spawn];
      TooEarly(s.log, Dispatch(t, s.phase.now.at));
    } else {
      var first := ToIdle(s, t);
      var u := After(s, first);
      assert Checkable(u.tasks);
      hide IsRun, After, SafeFrom, NeverAdds;
      var now, due := UnsafeFires(u, t.id);
      var rest := [ReadClock(now), Check(due), Spawn];
      NoneAdded(now, due, t.id);
      RunConcat(s, first, rest, t.id);
      es := first + rest;
      TooEarly(u.log, Dispatch(t, now.at));
    }
  }

  /** A task that is not safe can be dispatched too early by the due check under way, if that finds it due. */
  lemma UnsafeIsUrgent(s: State, t: Task)
    requires !Safe(t, s) && NextCheck(s) <= s.clock
    ensures !Panics(t) && !s.phase.Dead?
    ensures s.phase.Checking? && IsDue(t, s.phase.now) ==>
              !Permits(t.schedule, LastDispatch(s.log, t.id), s.phase.now.at)
    ensures !(s.phase.Checking? && IsDue(t, s.phase.now)) ==>
              !SafeFrom(t, LastDispatch(s.log, t.id), s.cal, s.clock)
  {
    hide LastDispatch, CronTextMatches;
  }

  lemma SafeAddingKeepsSpaced(s: State, t: Task, es: seq<Event>)
    requires Inv(s, t.id, false) && (ToBeMarked(s, t.id) || Safe(t, s))
    requires IsRun(Apply(s, Add(t)), es) && NeverAdds(es, t.id)
    ensures Spaced(After(Apply(s, Add(t)), es).log, t.id)
  {
    var u := Apply(s, Add(t));
    StepKeepsInv(s, Add(t), t.id, false);
    hide Apply, Safe, IsRun, After, CarefulRun, NeverAdds;
    NeverAddingIsCareful(u, es, t.id, false);
    RunKeepsInv(u, es, t.id, false);
  }

  lemma UnsafeAddingBreaks(s: State, t: Task) returns (es: seq<Event>)
    requires Inv(s, t.id, false) && !ToBeMarked(s, t.id) && !Safe(t, s)
    ensures IsRun(Apply(s, Add(t)), es) && NeverAdds(es, t.id)
    ensures !Spaced(After(Apply(s, Add(t)), es).log, t.id)
  {
    hide LastDispatch, Spaced, Permits, Calendar, Safe;
    var u := Apply(s, Add(t));
    UnsafeWasDispatched(s, t);
    var first := Isolate(u, t.id);
    var v := After(u, first);
    SameIsUnsafe(s, v, t);
    hide IsRun, After, NeverAdds;
    var rest := AloneFires(v, t.(enabled := true));
    RunConcat(u, first, rest, t.id);
    es := first + rest;
  }

  lemma UnsafeWasDispatched(s: State, t: Task)
    requires !Safe(t, s)
    ensures LastDispatch(s.log, t.id).Some?
  {
    hide LastDispatch;
  }

  lemma SameIsUnsafe(s: State, u: State, t: Task)
    requires !Safe(t, s) && u.phase == s.phase && u.log == s.log && u.cal == s.cal && u.clock == s.clock
    ensures !Safe(t.(enabled := true), u)
  {
    hide LastDispatch, Permits;
    assert s.phase.Checking? ==> DueCheck(t.(enabled := true), s.phase.now) == DueCheck(t, s.phase.now);
  }

  /**
    Adding a task, at any point of a tick or between ticks, keeps its dispatches apart in every run that follows, if and
    only if the task is safe or about to be marked: a caller that updates a task has to pass on its last run, or wait as
    long as its schedule asks for.
   */
  lemma UpdateIsSafeIff(s: State, t: Task)
    requires Inv(s, t.id, false)
    ensures (forall es :: IsRun(Apply(s, Add(t)), es) && NeverAdds(es, t.id) ==>
               Spaced(After(Apply(s, Add(t)), es).log, t.id))
       <==> ToBeMarked(s, t.id) || Safe(t, s)
  {
    hide Inv, IsRun, After, Apply, NeverAdds, Safe, Spaced, ToBeMarked;
    if ToBeMarked(s, t.id) || Safe(t, s) {
      forall es | IsRun(Apply(s, Add(t)), es) && NeverAdds(es, t.id)
        ensures Spaced(After(Apply(s, Add(t)), es).log, t.id)
      {
        SafeAddingKeepsSpaced(s, t, es);
      }
    } else {
      var es := UnsafeAddingBreaks(s, t);
    }
  }

  lemma NoneAdded(now: Moment, due: seq<Task>, id: string)
    ensures NeverAdds([ReadClock(now), Check(due), Spawn], id)
  {
  }

  // ---------------------------------------------------------------------------------------------
  // Every due task is dispatched
  // ---------------------------------------------------------------------------------------------

  function DispatchAll(due: seq<Task>, at: Instant): seq<Dispatch> {
    if due == [] then [] else [Dispatch(due[0], at)] + DispatchAll(due[1..], at)
  }

  /** What is still to be dispatched in the current tick. */
  function Outstanding(s: State): seq<Dispatch> {
    if !s.phase.Dispatching? then []
    else if s.phase.spawned && s.phase.due != [] then DispatchAll(s.phase.due[1..], s.phase.now.at)
    else DispatchAll(s.phase.due, s.phase.now.at)
  }

  lemma StepDispatches(s: State, e: Event)
    requires s.hasExecutor && Enabled(s, e) && !e.Check?
    ensures Apply(s, e).hasExecutor && Apply(s, e).log + Outstanding(Apply(s, e)) == s.log + Outstanding(s)
  {
    hide Alerts, Checkable;
    if e.Spawn? {
      var due := s.phase.due;
      var at := s.phase.now.at;
      assert DispatchAll(due, at) == [Dispatch(due[0], at)] + DispatchAll(due[1..], at);
    }
  }

  lemma {:induction false} TickDispatches(s: State, es: seq<Event>)
    requires s.hasExecutor && IsRun(s, es) && forall k :: 0 <= k < |es| ==> !es[k].Check?
    ensures After(s, es).log + Outstanding(After(s, es)) == s.log + Outstanding(s)
    decreases |es|
  {
    hide Enabled, Apply, Outstanding;
    if es != [] {
      StepDispatches(s, es[0]);
      TickDispatches(Apply(s, es[0]), es[1..]);
    }
  }

  /**
    From a due check to the end of its tick, exactly the tasks found due are dispatched, each once and in their order,
    at the time read for the check, whatever completions and API calls come between.
   */
  lemma TickDispatchesExactlyDue(s: State, due: seq<Task>, es: seq<Event>)
    requires s.hasExecutor && Enabled(s, Check(due)) && IsRun(Apply(s, Check(due)), es)
    requires forall k :: 0 <= k < |es| ==> !es[k].Check?
    requires After(Apply(s, Check(due)), es).phase.Idle?
    ensures After(Apply(s, Check(due)), es).log == s.log + DispatchAll(due, s.phase.now.at)
  {
    hide IsRun, After, Enabled;
    var u := Apply(s, Check(due));
    TickDispatches(u, es);
    assert After(u, es).log + [] == After(u, es).log;
  }

  // ---------------------------------------------------------------------------------------------
  // An interval that is out of range
  // ---------------------------------------------------------------------------------------------

  predicate Touches(e: Event, id: string) {
    Adds(e, id) || (e.Remove? && e.id == id) || (e.SetEnabled? && e.id == id)
  }

  /** The due check panics on this task. */
  ghost predicate Poisoned(s: State, id: string) {
    id in s.tasks && s.tasks[id].enabled && Panics(s.tasks[id])
  }

  lemma StaysPoisoned(s: State, e: Event, id: string)
    requires Poisoned(s, id) && Enabled(s, e) && !Touches(e, id)
    ensures !e.Check? && Poisoned(Apply(s, e), id)
    ensures !s.phase.Dispatching? ==> !Apply(s, e).phase.Dispatching?
  {
    hide Alerts;
  }

  /** Once the due check has panicked, nothing is checked any more, whatever happens to the tasks. */
  lemma {:induction false} DeadForGood(s: State, es: seq<Event>)
    requires s.phase.Dead? && IsRun(s, es)
    ensures (forall k :: 0 <= k < |es| ==> !es[k].Check?) && After(s, es).phase.Dead? && After(s, es).log == s.log
    decreases |es|
  {
    hide Alerts;
    if es != [] {
      DeadForGood(Apply(s, es[0]), es[1..]);
      assert forall k :: 0 < k < |es| ==> es[k] == es[1..][k - 1];
    }
  }

  /** Nobody touches the task before the due check panics on it, if it is made at all; then anything may happen. */
  ghost predicate TooLate(es: seq<Event>, id: string, n: nat) {
    n <= |es| && (forall k :: 0 <= k < n ==> !Touches(es[k], id)) && (n < |es| ==> es[n].CheckPanics?)
  }

  lemma {:induction false} NoMoreChecks(s: State, es: seq<Event>, id: string, n: nat)
    requires Poisoned(s, id) && IsRun(s, es) && TooLate(es, id, n)
    ensures forall k :: 0 <= k < |es| ==> !es[k].Check?
    ensures !s.phase.Dispatching? ==> !After(s, es).phase.Dispatching?
    decreases |es|
  {
    hide Apply, Poisoned, Touches;
    if es != [] {
      if n == 0 {
        assert Apply(s, es[0]).phase.Dead? by {
          PanicKills(s);
        }
        DeadForGood(Apply(s, es[0]), es[1..]);
      } else {
        StaysPoisoned(s, es[0], id);
        NoMoreChecks(Apply(s, es[0]), es[1..], id, n - 1);
      }
      assert forall k :: 0 < k < |es| ==> es[k] == es[1..][k - 1];
    }
  }

  lemma PanicKills(s: State)
    requires Enabled(s, CheckPanics)
    ensures Apply(s, CheckPanics).phase.Dead?
  {
  }

  /**
    With an enabled task in the map whose interval is out of range, no task is dispatched any more, but for those of a
    tick that is already under way, unless somebody removes, disables or replaces it before the next due check.
   */
  lemma OversizedIntervalStopsAll(s: State, es: seq<Event>, id: string, n: nat)
    requires s.hasExecutor && Poisoned(s, id) && IsRun(s, es) && TooLate(es, id, n)
    ensures After(s, es).log + Outstanding(After(s, es)) == s.log + Outstanding(s)
  {
    hide IsRun, After, Poisoned, TooLate;
    NoMoreChecks(s, es, id, n);
    TickDispatches(s, es);
  }

  /**
    One command is enough: `every N` with an interval out of range is accepted. Unless its task is touched before the
    next due check, nothing is dispatched any more, even when it is removed afterwards.
   */
  lemma OversizedCommandStopsAll(s: State, es: seq<Event>, n: nat, unit: char, command: string, id: string, k: nat)
    returns (t: Task)
    requires unit in {'s', 'm', 'h'} && 0 < n * CronCommand.UnitSecs(unit) <= U64_MAX
    requires Oversized(n * CronCommand.UnitSecs(unit)) && Strings.Trim(command) != ""
    requires s.hasExecutor && !s.phase.Dispatching?
    ensures CronCommand.ParseCronAdd(
              CronCommand.CronAddText(CronCommand.EVERY + Decimal(n) + [unit], command), id) == Strings.Ok(t)
    ensures IsRun(Apply(s, Add(t)), es) && TooLate(es, t.id, k) ==> After(Apply(s, Add(t)), es).log == s.log
  {
    hide IsRun, After, TooLate, CronCommand.ParseCronAdd, CronCommand.CronAddText;
    var now := Moment(0, 0, 0, 1, 1, 0);
    t := CronCommand.AddedIntervalTask(n, unit, command, id, now);
    var u := Apply(s, Add(t));
    if IsRun(u, es) && TooLate(es, t.id, k) {
      NoMoreChecks(u, es, t.id, k);
      OversizedIntervalStopsAll(u, es, t.id, k);
      assert s.log + [] == s.log && After(u, es).log + [] == After(u, es).log;
    }
  }
}
