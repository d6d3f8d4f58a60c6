/**
  What whole runs of the scheduler loop do to one task, and what a tick dispatches.
 */
module TaskHistory {
  import opened Common
  import opened Tasks
  import opened FailureAlerts
  import opened TickLoop

  // ---------------------------------------------------------------------------------------------
  // Completions
  // ---------------------------------------------------------------------------------------------

  /** What a completion of the task adds to its history. */
  function OutcomeOf(e: Event, id: string): seq<Outcome> {
    match e
    case CompleteOk(id', at, result) => if id' == id then [Succeeded(at, result)] else []
    case CompleteErr(id', _, alertAt, errText) => if id' == id then [Failed(alertAt, errText)] else []
    case _ => []
  }

  /** The outcomes of the task, in the order of its completions. */
  function Outcomes(es: seq<Event>, id: string): seq<Outcome>
    decreases |es|
  {
    if es == [] then [] else OutcomeOf(es[0], id) + Outcomes(es[1..], id)
  }

  /** Equal but for the last run and whether it is enabled. */
  ghost predicate SameRecord(a: Task, b: Task) {
    a == b.(lastRun := a.lastRun, enabled := a.enabled)
  }

  lemma {:induction false} SameAfter(a: Task, b: Task, os: seq<Outcome>, i: nat)
    requires SameRecord(a, b) && i <= |os|
    ensures SameRecord(TaskAfter(a, os, i), TaskAfter(b, os, i))
  {
    if i > 0 {
      SameAfter(a, b, os, i - 1);
    }
  }

  lemma {:induction false} AfterCons(t: Task, o: Outcome, os: seq<Outcome>, i: nat)
    requires i <= |os|
    ensures TaskAfter(t, [o] + os, i + 1) == TaskAfter(TaskAfter(t, [o], 1), os, i)
  {
    if i > 0 {
      AfterCons(t, o, os, i - 1);
    }
  }

  predicate AddsOrRemoves(e: Event, id: string) {
    Adds(e, id) || (e.Remove? && e.id == id)
  }

  /** One event does to the record what the outcome it stands for does, and nothing without one. */
  lemma RecordStep(s: State, e: Event, id: string)
    requires id in s.tasks && Enabled(s, e) && !AddsOrRemoves(e, id)
    ensures id in Apply(s, e).tasks
    ensures SameRecord(Apply(s, e).tasks[id], TaskAfter(s.tasks[id], OutcomeOf(e, id), |OutcomeOf(e, id)|))
  {
    hide Alerts, Checkable, IsDueList;
    AlertsIgnoresRun(s.tasks[id], e);
    assert TaskAfter(s.tasks[id], OutcomeOf(e, id), 0) == s.tasks[id];
  }

  lemma AlertsIgnoresRun(t: Task, e: Event)
    ensures e.CompleteErr? ==> Alerts(t.(lastRun := Some(e.at)), e.alertAt) == Alerts(t, e.alertAt)
  {
  }

  /**
    In every run that neither adds nor removes the task, its failure streak, last alert, last result and all fields that
    never change are after the run what its completions make of them, one after the other; whatever else happens.
   */
  lemma {:induction false} RecordIsHistory(s: State, es: seq<Event>, id: string)
    requires id in s.tasks && IsRun(s, es) && forall k :: 0 <= k < |es| ==> !AddsOrRemoves(es[k], id)
    ensures id in After(s, es).tasks
    ensures SameRecord(After(s, es).tasks[id], TaskAfter(s.tasks[id], Outcomes(es, id), |Outcomes(es, id)|))
    decreases |es|
  {
    hide Enabled, Apply, AfterFailure, OutcomeOf;
    if es == [] {
      assert TaskAfter(s.tasks[id], [], 0) == s.tasks[id];
    } else {
      var (u, rest) := (Apply(s, es[0]), Outcomes(es[1..], id));
      RecordStep(s, es[0], id);
      RecordIsHistory(u, es[1..], id);
      hide TaskAfter, After;
      JoinHistory(s.tasks[id], u.tasks[id], es[0], id, rest);
    }
  }

  lemma JoinHistory(t: Task, u: Task, e: Event, id: string, rest: seq<Outcome>)
    requires SameRecord(u, TaskAfter(t, OutcomeOf(e, id), |OutcomeOf(e, id)|))
    ensures var os := OutcomeOf(e, id) + rest;
            SameRecord(TaskAfter(u, rest, |rest|), TaskAfter(t, os, |os|))
  {
    var first := OutcomeOf(e, id);
    SameAfter(u, TaskAfter(t, first, |first|), rest, |rest|);
    if first == [] {
      assert first + rest == rest;
      assert TaskAfter(t, first, 0) == t;
    } else {
      assert first == [first[0]];
      AfterCons(t, first[0], rest, |rest|);
    }
  }

  // ---------------------------------------------------------------------------------------------
  // Last runs and the enabled flag
  // ---------------------------------------------------------------------------------------------

  /** What the event writes as the last run of the task, or `last` if nothing. */
  function RunAfter(s: State, e: Event, id: string, last: Option<Instant>): Option<Instant>
    requires Enabled(s, e)
  {
    match e
    case CompleteOk(id', at, _) => if id' == id then Some(at) else last
    case CompleteErr(id', at, _, _) => if id' == id then Some(at) else last
    case Mark => if s.phase.due[0].id == id then Some(s.phase.now.at) else last
    case _ => last
  }

  /** The time written last by a completion or a mark of the task, or `last`. */
  ghost function RunWritten(s: State, es: seq<Event>, id: string, last: Option<Instant>): Option<Instant>
    requires IsRun(s, es)
    decreases |es|
  {
    if es == [] then last else RunWritten(Apply(s, es[0]), es[1..], id, RunAfter(s, es[0], id, last))
  }

  function FlagAfter(e: Event, id: string, flag: bool): bool {
    if e.SetEnabled? && e.id == id then e.enabled else flag
  }

  /** The flag set last for the task, or `flag`. */
  function FlagWritten(es: seq<Event>, id: string, flag: bool): bool
    decreases |es|
  {
    if es == [] then flag else FlagWritten(es[1..], id, FlagAfter(es[0], id, flag))
  }

  lemma WriteStep(s: State, e: Event, id: string)
    requires id in s.tasks && Enabled(s, e) && !AddsOrRemoves(e, id)
    ensures id in Apply(s, e).tasks
    ensures Apply(s, e).tasks[id].lastRun == RunAfter(s, e, id, s.tasks[id].lastRun)
    ensures Apply(s, e).tasks[id].enabled == FlagAfter(e, id, s.tasks[id].enabled)
  {
    hide Alerts, Checkable, IsDueList;
  }

  lemma {:induction false} LastWriteWins(s: State, es: seq<Event>, id: string)
    requires id in s.tasks && IsRun(s, es) && forall k :: 0 <= k < |es| ==> !AddsOrRemoves(es[k], id)
    ensures id in After(s, es).tasks
    ensures After(s, es).tasks[id].lastRun == RunWritten(s, es, id, s.tasks[id].lastRun)
    ensures After(s, es).tasks[id].enabled == FlagWritten(es, id, s.tasks[id].enabled)
    decreases |es|
  {
    hide Enabled, Apply, RunAfter, FlagAfter;
    if es != [] {
      WriteStep(s, es[0], id);
      LastWriteWins(Apply(s, es[0]), es[1..], id);
    }
  }

  /** A removed task is gone until it is added again. */
  lemma {:induction false} GoneUntilAdded(s: State, es: seq<Event>, id: string)
    requires id !in s.tasks && IsRun(s, es) && NeverAdds(es, id)
    ensures id !in After(s, es).tasks
    decreases |es|
  {
    hide Alerts, Checkable, IsDueList;
    if es != [] {
      GoneUntilAdded(Apply(s, es[0]), es[1..], id);
    }
  }

  lemma RemovedIsGone(s: State, es: seq<Event>, id: string)
    requires IsRun(Apply(s, Remove(id)), es) && NeverAdds(es, id)
    ensures id !in After(Apply(s, Remove(id)), es).tasks
  {
    GoneUntilAdded(Apply(s, Remove(id)), es, id);
  }

  // ---------------------------------------------------------------------------------------------
  // What is dispatched
  // ---------------------------------------------------------------------------------------------

  /** Due as the schedules say: a one-time task not run before, from its time on; a repeating one after its distance. */
  predicate IsTime(t: Task, now: Moment) {
    match t.schedule
    case Once(at) => t.lastRun.None? && now.at >= at
    case Interval(everySecs) =>
      var secs := if WrapsAround(everySecs) then everySecs - 0x1_0000_0000_0000_0000 else everySecs;
      t.lastRun.None? || now.at - t.lastRun.value >= secs * NANOS_PER_SEC
    case Cron(expr) =>
      CronTextMatches(expr, now) && (t.lastRun.None? || now.at - t.lastRun.value >= 60 * NANOS_PER_SEC)
  }

  lemma DueIffTime(t: Task, now: Moment)
    requires !Panics(t)
    ensures IsDue(t, now) <==> IsTime(t, now)
  {
    hide CronTextMatches;
    if t.schedule.Cron? && t.lastRun.Some? {
      NumSecondsAtLeast(now.at - t.lastRun.value, 60);
    }
  }

  lemma {:induction false} DispatchedIffListed(due: seq<Task>, at: Instant, t: Task)
    ensures Dispatch(t, at) in DispatchAll(due, at) <==> t in due
  {
    if due != [] {
      DispatchedIffListed(due[1..], at, t);
      assert due == [due[0]] + due[1..];
    }
  }

  /** A tick dispatches a task exactly when it is enabled and its time has come, as it was at the due check. */
  lemma DispatchedIffTime(s: State, due: seq<Task>, es: seq<Event>, k: string)
    requires s.hasExecutor && Enabled(s, Check(due)) && IsRun(Apply(s, Check(due)), es)
    requires forall j :: 0 <= j < |es| ==> !es[j].Check?
    requires After(Apply(s, Check(due)), es).phase.Idle?
    requires k in s.tasks && s.tasks[k].id == k
    ensures var log := After(Apply(s, Check(due)), es).log;
            s.log <= log
            && (Dispatch(s.tasks[k], s.phase.now.at) in log[|s.log|..]
                <==> s.tasks[k].enabled && IsTime(s.tasks[k], s.phase.now))
  {
    hide IsRun, After, IsDue, IsTime;
    TickDispatchesExactlyDue(s, due, es);
    var (t, at) := (s.tasks[k], s.phase.now.at);
    var log := After(Apply(s, Check(due)), es).log;
    assert log[|s.log|..] == DispatchAll(due, at);
    DispatchedIffListed(due, at, t);
    if t.enabled {
      DueIffTime(t, s.phase.now);
    }
    if t in due {
      var i :| 0 <= i < |due| && due[i] == t;
    }
  }

  /** What waits and what was dispatched was enabled and due. */
  ghost predicate OnlyDue(s: State) {
    && (s.phase.Checking? || s.phase.Dispatching? ==> s.phase.now == s.cal(s.phase.now.at))
    && (s.phase.Dispatching? ==>
          forall k :: 0 <= k < |s.phase.due| ==> s.phase.due[k].enabled && IsDue(s.phase.due[k], s.phase.now))
    && (forall i :: 0 <= i < |s.log| ==> s.log[i].task.enabled && IsDue(s.log[i].task, s.cal(s.log[i].at)))
  }

  lemma OnlyDueStep(s: State, e: Event)
    requires OnlyDue(s) && Enabled(s, e)
    ensures OnlyDue(Apply(s, e)) && Apply(s, e).cal == s.cal
  {
    hide IsDue, Alerts, Checkable;
  }

  lemma {:induction false} OnlyDueRun(s: State, es: seq<Event>)
    requires OnlyDue(s) && IsRun(s, es)
    ensures OnlyDue(After(s, es)) && After(s, es).cal == s.cal
    decreases |es|
  {
    hide Enabled, Apply, OnlyDue;
    if es != [] {
      OnlyDueStep(s, es[0]);
      OnlyDueRun(Apply(s, es[0]), es[1..]);
    }
  }

  /** In every run, whatever is dispatched was enabled and due at the time of the check. */
  lemma DispatchedWasDue(s: State, es: seq<Event>, i: nat)
    requires Initial(s) && IsRun(s, es) && i < |After(s, es).log|
    ensures var d := After(s, es).log[i];
            d.task.enabled && !Panics(d.task) && IsTime(d.task, s.cal(d.at))
  {
    hide IsRun, After, IsTime;
    OnlyDueRun(s, es);
    var d := After(s, es).log[i];
    CheckPanicsIff(d.task, s.cal(d.at));
    DueIffTime(d.task, s.cal(d.at));
  }
}
