/**
  Scheduled tasks, when they are due, and their failure alerts.
 */
module Tasks {
  import opened Common
  import opened Strings
  import opened Cron

  const NANOS_PER_SEC: int := 1_000_000_000

  /** A point in time, in nanoseconds. */
  type Instant = int

  /** A point in time with its calendar fields, which the program takes from its clock library. */
  datatype Moment = Moment(at: Instant, minute: nat, hour: nat, day: nat, month: nat, weekday: nat) {
    predicate Valid() {
      minute <= 59 && hour <= 23 && 1 <= day <= 31 && 1 <= month <= 12 && weekday <= 6
    }
  }

  datatype Schedule =
    | Interval(everySecs: U64)
    | Cron(expr: string)
    | Once(at: Instant)

  datatype FailureAlert = FailureAlert(after: U32, cooldownSecs: U64)

  datatype Task = Task(
    id: string,
    name: string,
    schedule: Schedule,
    command: string,
    enabled: bool,
    lastRun: Option<Instant>,
    lastResult: Option<string>,
    failureAlert: Option<FailureAlert>,
    consecutiveFailures: U32,
    lastAlertAt: Option<Instant>)

  datatype FailureAlertEvent = FailureAlertEvent(
    taskId: string, taskName: string, consecutiveFailures: U32, lastError: string)

  /** Rust's `as i64` on an unsigned 64-bit number. */
  function AsI64(n: U64): int {
    if n < I64_LIMIT then n else n - 2 * I64_LIMIT
  }

  /** `TimeDelta::num_seconds`: whole seconds, rounded toward zero. */
  function NumSeconds(nanos: int): int {
    if nanos >= 0 then nanos / NANOS_PER_SEC else -((-nanos) / NANOS_PER_SEC)
  }

  lemma NumSecondsAtLeast(nanos: int, secs: nat)
    ensures NumSeconds(nanos) >= secs <==> nanos >= secs * NANOS_PER_SEC || (secs == 0 && nanos > -NANOS_PER_SEC)
  {
  }

  // ---------------------------------------------------------------------------------------------
  // Due
  // ---------------------------------------------------------------------------------------------

  /** The longest span of time the clock library can hold, in whole seconds: `i64::MAX` milliseconds. */
  const MAX_DURATION_SECS: int := (I64_LIMIT - 1) / 1000

  /** `Duration::seconds`, in nanoseconds; `None` when it panics. */
  function DurationSeconds(secs: int): Option<int> {
    if -MAX_DURATION_SECS <= secs <= MAX_DURATION_SECS then Some(secs * NANOS_PER_SEC) else None
  }

  /** Intervals of this many seconds are out of range as a span of time. */
  predicate Oversized(everySecs: U64) {
    MAX_DURATION_SECS < everySecs < 2 * I64_LIMIT - MAX_DURATION_SECS
  }

  /** Intervals of this many seconds become a negative span of time that is in range. */
  predicate WrapsAround(everySecs: U64) {
    everySecs >= 2 * I64_LIMIT - MAX_DURATION_SECS
  }

  /** The due check of the task panics. */
  predicate Panics(task: Task) {
    task.schedule.Interval? && Oversized(task.schedule.everySecs)
  }

  predicate CronTextMatches(expr: string, now: Moment) {
    var parts := SplitWhitespace(expr);
    && |parts| == 5
    && MatchesCronField(parts[0], now.minute, 0, 59)
    && MatchesCronField(parts[1], now.hour, 0, 23)
    && MatchesCronField(parts[2], now.day, 1, 31)
    && MatchesCronField(parts[3], now.month, 1, 12)
    && MatchesCronField(parts[4], now.weekday, 0, 6)
  }

  /** The due check; `None` when it panics. */
  function DueCheck(task: Task, now: Moment): Option<bool> {
    match task.schedule
    case Interval(everySecs) =>
      (match DurationSeconds(AsI64(everySecs))
       case None => None
       case Some(interval) => Some(task.lastRun.None? || now.at - task.lastRun.value >= interval))
    case Once(at) => Some(task.lastRun.None? && now.at >= at)
    case Cron(expr) =>
      Some(CronTextMatches(expr, now) && (task.lastRun.None? || NumSeconds(now.at - task.lastRun.value) >= 60))
  }

  predicate IsDue(task: Task, now: Moment) {
    DueCheck(task, now) == Some(true)
  }

  datatype CronSpec = CronSpec(
    minute: seq<Item>, hour: seq<Item>, day: seq<Item>, month: seq<Item>, weekday: seq<Item>)
  {
    predicate NonEmpty() {
      minute != [] && hour != [] && day != [] && month != [] && weekday != []
    }

    function Fields(): seq<string> {
      [FieldText(minute), FieldText(hour), FieldText(day), FieldText(month), FieldText(weekday)]
    }

    function Text(): string {
      Join(Fields(), ' ')
    }

    /** Every field contains its value: day of month and weekday both have to match. */
    ghost predicate Contains(now: Moment) {
      && (exists i :: 0 <= i < |minute| && Denotes(minute[i], now.minute, 0, 59))
      && (exists i :: 0 <= i < |hour| && Denotes(hour[i], now.hour, 0, 23))
      && (exists i :: 0 <= i < |day| && Denotes(day[i], now.day, 1, 31))
      && (exists i :: 0 <= i < |month| && Denotes(month[i], now.month, 1, 12))
      && (exists i :: 0 <= i < |weekday| && Denotes(weekday[i], now.weekday, 0, 6))
    }
  }

  /** A cron task is due exactly when all five sets contain the moment and a minute has passed since its last run. */
  lemma CronDue(task: Task, spec: CronSpec, now: Moment)
    requires spec.NonEmpty() && now.Valid() && task.schedule == Cron(spec.Text())
    ensures DueCheck(task, now).Some?
    ensures IsDue(task, now)
       <==> spec.Contains(now)
            && (task.lastRun.None? || now.at - task.lastRun.value >= 60 * NANOS_PER_SEC)
  {
    hide MatchesCronField, Denotes, FieldText;
    var parts := spec.Fields();
    FieldTextShape(spec.minute);
    FieldTextShape(spec.hour);
    FieldTextShape(spec.day);
    FieldTextShape(spec.month);
    FieldTextShape(spec.weekday);
    SplitWhitespaceJoin(parts);
    FieldDenotesSet(spec.minute, now.minute, 0, 59);
    FieldDenotesSet(spec.hour, now.hour, 0, 23);
    FieldDenotesSet(spec.day, now.day, 1, 31);
    FieldDenotesSet(spec.month, now.month, 1, 12);
    FieldDenotesSet(spec.weekday, now.weekday, 0, 6);
    if task.lastRun.Some? {
      NumSecondsAtLeast(now.at - task.lastRun.value, 60);
    }
  }

  /** The due check panics for an interval that is out of range, and for no other task, whenever it is made. */
  lemma CheckPanicsIff(task: Task, now: Moment)
    ensures DueCheck(task, now).None? <==> Panics(task)
  {
    hide CronTextMatches;
  }

  /**
    A task that ran before is due exactly when its interval has passed, if and only if the interval can be held as a
    span of time. Longer ones make the check panic, and the longest of all make the task due again at once.
   */
  lemma IntervalDue(task: Task)
    requires task.schedule.Interval? && task.lastRun.Some?
    ensures var (every, last) := (task.schedule.everySecs, task.lastRun.value);
            && ((forall now: Moment :: DueCheck(task, now) == Some(now.at - last >= every * NANOS_PER_SEC))
                <==> every <= MAX_DURATION_SECS)
            && ((forall now: Moment :: DueCheck(task, now).None?) <==> Oversized(every))
            && ((forall now: Moment :: now.at >= last ==> IsDue(task, now)) <==> every == 0 || WrapsAround(every))
  {
    var every, last := task.schedule.everySecs, task.lastRun.value;
    var now := Moment(last, 0, 0, 1, 1, 0);
    assert every > 0 ==> DueCheck(task, now) != Some(now.at - last >= every * NANOS_PER_SEC)
                         || every <= MAX_DURATION_SECS;
    assert IsDue(task, now) <==> every == 0 || WrapsAround(every);
    assert DueCheck(task, now).None? <==> Oversized(every);
  }

  /** A cron expression of any other number of fields is never due. */
  lemma FiveFieldsOnly(task: Task, parts: seq<string>, now: Moment)
    requires forall i :: 0 <= i < |parts| ==> parts[i] != [] && NoSpace(parts[i])
    requires |parts| != 5 && task.schedule == Cron(Join(parts, ' '))
    ensures DueCheck(task, now) == Some(false)
  {
    hide MatchesCronField;
    SplitWhitespaceJoin(parts);
  }
}
