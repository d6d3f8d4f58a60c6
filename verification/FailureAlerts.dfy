/**
  Failure streaks and alerts with a threshold and a cooldown.
 */
module FailureAlerts {
  import opened Common
  import opened Tasks

  // ---------------------------------------------------------------------------------------------
  // One run of a task
  // ---------------------------------------------------------------------------------------------

  function SaturatingAdd(a: U32, b: U32): U32 {
    if a + b <= U32_MAX then a + b else U32_MAX
  }

  /** Whether the failure at `now` raises an alert. */
  predicate Alerts(t: Task, now: Instant) {
    && t.failureAlert.Some?
    && var policy := t.failureAlert.value;
       && policy.after != 0 && SaturatingAdd(t.consecutiveFailures, 1) >= policy.after
       && (t.lastAlertAt.None? || NumSeconds(now - t.lastAlertAt.value) >= AsI64(policy.cooldownSecs))
  }

  function AfterFailure(t: Task, errText: string, now: Instant): Task {
    t.(lastResult := Some(errText),
       consecutiveFailures := SaturatingAdd(t.consecutiveFailures, 1),
       lastAlertAt := if Alerts(t, now) then Some(now) else t.lastAlertAt)
  }

  /** A task that is updated in place. */
  class TaskCell {
    var task: Task

    constructor (task: Task)
      ensures this.task == task
    {
      this.task := task;
    }

    method RecordFailure(errText: string, now: Instant) returns (ev: Option<FailureAlertEvent>)
      modifies this
      ensures task == AfterFailure(old(task), errText, now)
      ensures ev == if Alerts(old(task), now)
                    then Some(FailureAlertEvent(task.id, task.name, task.consecutiveFailures, errText))
                    else None
    {
      task := task.(lastResult := Some(errText));
      task := task.(consecutiveFailures := SaturatingAdd(task.consecutiveFailures, 1));
      if task.failureAlert.None? {
        return None;
      }
      var policy := task.failureAlert.value;
      if policy.after == 0 || task.consecutiveFailures < policy.after {
        return None;
      }
      var cooled := match task.lastAlertAt
        case None => true
        case Some(prev) => NumSeconds(now - prev) >= AsI64(policy.cooldownSecs);
      if !cooled {
        return None;
      }
      task := task.(lastAlertAt := Some(now));
      return Some(FailureAlertEvent(task.id, task.name, task.consecutiveFailures, errText));
    }

    method RecordSuccess()
      modifies this
      ensures task == old(task).(consecutiveFailures := 0)
    {
      task := task.(consecutiveFailures := 0);
    }
  }

  // ---------------------------------------------------------------------------------------------
  // Histories
  // ---------------------------------------------------------------------------------------------

  datatype Outcome = Failed(at: Instant, errText: string) | Succeeded(at: Instant, result: string)

  /** No outcome is earlier than one before it, or than the alert time the task came with. */
  ghost predicate Monotone(t: Task, os: seq<Outcome>) {
    && (forall i, j :: 0 <= i <= j < |os| ==> os[i].at <= os[j].at)
    && (t.lastAlertAt.Some? ==> forall i :: 0 <= i < |os| ==> t.lastAlertAt.value <= os[i].at)
  }

  /** The task after the first `i` outcomes. */
  function TaskAfter(t: Task, os: seq<Outcome>, i: nat): (r: Task)
    requires i <= |os|
    ensures r.failureAlert == t.failureAlert && r.id == t.id && r.name == t.name
  {
    if i == 0 then t
    else
      var before := TaskAfter(t, os, i - 1);
      match os[i - 1]
      case Failed(at, errText) => AfterFailure(before, errText, at)
      case Succeeded(_, result) => before.(lastResult := Some(result), consecutiveFailures := 0)
  }

  /** The stored result is the text of the latest outcome. */
  lemma ResultIsLatest(t: Task, os: seq<Outcome>, i: nat)
    requires i <= |os|
    ensures TaskAfter(t, os, i).lastResult
         == if i == 0 then t.lastResult
            else Some(if os[i - 1].Failed? then os[i - 1].errText else os[i - 1].result)
  {
    hide Alerts;
  }

  /** Outcome `i` raises an alert. */
  predicate AlertAt(t: Task, os: seq<Outcome>, i: nat)
    requires i < |os|
  {
    os[i].Failed? && Alerts(TaskAfter(t, os, i), os[i].at)
  }

  /** How many of the first `i` outcomes, counted back from the last one, are failures without a success between. */
  function TrailingFailures(os: seq<Outcome>, i: nat): (n: nat)
    requires i <= |os|
    ensures n <= i
    ensures forall k :: i - n <= k < i ==> os[k].Failed?
    ensures n < i ==> os[i - n - 1].Succeeded?
  {
    if i > 0 && os[i - 1].Failed? then 1 + TrailingFailures(os, i - 1) else 0
  }

  /** The trailing failures, including those the task came with when no success has followed them, saturated. */
  function Streak(t: Task, os: seq<Outcome>, i: nat): U32
    requires i <= |os|
  {
    var n := TrailingFailures(os, i) + (if TrailingFailures(os, i) == i then t.consecutiveFailures else 0);
    if n <= U32_MAX then n else U32_MAX
  }

  /** The streak is the number of trailing failures, saturated. */
  lemma {:induction false} StreakIsTrailing(t: Task, os: seq<Outcome>, i: nat)
    requires i <= |os|
    ensures TaskAfter(t, os, i).consecutiveFailures == Streak(t, os, i)
  {
    hide Alerts;
    if i > 0 {
      StreakIsTrailing(t, os, i - 1);
    }
  }

  /** There was an alert at this time before outcome `i`, or the task came with it. */
  ghost predicate AlertedAt(t: Task, os: seq<Outcome>, i: nat, at: Instant)
    requires i <= |os|
  {
    t.lastAlertAt == Some(at) || exists j :: 0 <= j < i && AlertAt(t, os, j) && os[j].at == at
  }

  lemma NoAlertYet(t: Task, os: seq<Outcome>)
    ensures TaskAfter(t, os, 0).lastAlertAt == t.lastAlertAt
    ensures forall at :: AlertedAt(t, os, 0, at) <==> t.lastAlertAt == Some(at)
  {
  }

  lemma AlertedStep(t: Task, os: seq<Outcome>, i: nat)
    requires 0 < i <= |os|
    ensures forall at ::
              AlertedAt(t, os, i, at) <==>
              AlertedAt(t, os, i - 1, at) || (AlertAt(t, os, i - 1) && os[i - 1].at == at)
    ensures TaskAfter(t, os, i).lastAlertAt
         == if AlertAt(t, os, i - 1) then Some(os[i - 1].at) else TaskAfter(t, os, i - 1).lastAlertAt
  {
    hide Alerts;
  }

  lemma AlertsArePast(t: Task, os: seq<Outcome>, i: nat)
    requires i < |os| && Monotone(t, os)
    ensures forall at :: AlertedAt(t, os, i, at) ==> at <= os[i].at
  {
    hide AlertAt;
  }

  /** `lastAlertAt` is the time of the latest alert so far. */
  lemma {:induction false} LastAlertIsLatest(t: Task, os: seq<Outcome>, i: nat)
    requires i <= |os| && Monotone(t, os)
    ensures var last := TaskAfter(t, os, i).lastAlertAt;
            && (last.None? ==> forall at :: !AlertedAt(t, os, i, at))
            && (last.Some? ==> AlertedAt(t, os, i, last.value))
            && (last.Some? ==> forall at :: AlertedAt(t, os, i, at) ==> at <= last.value)
  {
    hide TaskAfter, AlertAt, AlertedAt, Monotone;
    if i == 0 {
      NoAlertYet(t, os);
    } else {
      LastAlertIsLatest(t, os, i - 1);
      AlertedStep(t, os, i);
      AlertsArePast(t, os, i - 1);
    }
  }

  /** Every alert before outcome `i` is at least `secs` seconds old by then. */
  ghost predicate CooledSinceAll(t: Task, os: seq<Outcome>, i: nat, secs: nat)
    requires i < |os|
  {
    forall at :: AlertedAt(t, os, i, at) ==> os[i].at - at >= secs * NANOS_PER_SEC
  }

  /** The cooldown check looks at the latest alert only, which stands for all of them. */
  lemma CooledIff(t: Task, os: seq<Outcome>, i: nat, secs: nat)
    requires i < |os| && Monotone(t, os)
    ensures var last := TaskAfter(t, os, i).lastAlertAt;
            last.None? || NumSeconds(os[i].at - last.value) >= secs <==> CooledSinceAll(t, os, i, secs)
  {
    hide TaskAfter, AlertedAt;
    LastAlertIsLatest(t, os, i);
    var last := TaskAfter(t, os, i).lastAlertAt;
    if last.Some? {
      AlertsArePast(t, os, i);
      NumSecondsAtLeast(os[i].at - last.value, secs);
    }
  }

  /**
    An alert is raised exactly by a failure whose streak has reached a positive threshold, when every earlier
    alert is at least the cooldown old. Successes in between do not shorten the cooldown.
   */
  lemma AlertIff(t: Task, os: seq<Outcome>, i: nat, policy: FailureAlert)
    requires t.failureAlert == Some(policy) && policy.cooldownSecs < I64_LIMIT
    requires i < |os| && Monotone(t, os)
    ensures AlertAt(t, os, i)
       <==> && os[i].Failed?
            && 0 < policy.after <= Streak(t, os, i + 1)
            && CooledSinceAll(t, os, i, policy.cooldownSecs)
  {
    hide TaskAfter, CooledSinceAll;
    StreakIsTrailing(t, os, i);
    CooledIff(t, os, i, policy.cooldownSecs);
    if os[i].Failed? {
      StreakAfterFailure(t, os, i);
    }
  }

  lemma StreakAfterFailure(t: Task, os: seq<Outcome>, i: nat)
    requires i < |os| && os[i].Failed?
    ensures SaturatingAdd(Streak(t, os, i), 1) == Streak(t, os, i + 1)
  {
  }

  /** Two alerts are never closer together than the cooldown. */
  lemma AlertsAreSpaced(t: Task, os: seq<Outcome>, i: nat, j: nat, policy: FailureAlert)
    requires t.failureAlert == Some(policy) && policy.cooldownSecs < I64_LIMIT
    requires i < j < |os| && Monotone(t, os)
    requires AlertAt(t, os, i) && AlertAt(t, os, j)
    ensures os[j].at - os[i].at >= policy.cooldownSecs * NANOS_PER_SEC
  {
    hide AlertAt;
    AlertIff(t, os, j, policy);
    assert AlertedAt(t, os, j, os[i].at);
  }

  /**
    A task at its threshold keeps to the cooldown exactly when the cooldown survives the cast to a signed
    number: from 2^63 seconds on there is no cooldown at all.
   */
  lemma CooldownIsKeptIff(t: Task, policy: FailureAlert)
    requires t.failureAlert == Some(policy) && t.lastAlertAt.Some?
    requires 0 < policy.after <= t.consecutiveFailures
    ensures (forall now: Instant :: now >= t.lastAlertAt.value && Alerts(t, now) ==>
               now - t.lastAlertAt.value >= policy.cooldownSecs * NANOS_PER_SEC)
       <==> policy.cooldownSecs < I64_LIMIT
  {
    var prev := t.lastAlertAt.value;
    if policy.cooldownSecs < I64_LIMIT {
      forall now: Instant | now >= prev && Alerts(t, now)
        ensures now - prev >= policy.cooldownSecs * NANOS_PER_SEC
      {
        NumSecondsAtLeast(now - prev, policy.cooldownSecs);
      }
    } else {
      assert Alerts(t, prev);
      assert prev - prev < policy.cooldownSecs * NANOS_PER_SEC;
    }
  }
}
