/**
  Retention: removing audit events that are older than a number of days.
 */
module AuditRetention {
  import opened Common
  import opened AuditDigits
  import opened AuditTime
  import opened AuditLog
  import opened AuditDatabase

  /** The clock library's result for a time some days ago; a year before 0 is written with a minus sign. */
  datatype Cutoff = At(stamp: Stamp) | BeforeYearZero(text: string) {
    function AsText(): string {
      match this
      case At(stamp) => Text(stamp)
      case BeforeYearZero(text) => text
    }

    ghost predicate IsDaysBefore(now: Stamp, days: U32) {
      && now.Valid()
      && var instant := InstantOf(now) - days * NANOS_PER_DAY;
         match this
         case At(stamp) => stamp.Valid() && InstantOf(stamp) == instant
         case BeforeYearZero(text) => instant < 0 && "-" <= text
    }
  }

  /** The first day that the clock library can hold, 1 January of the year -262143, as a day number. */
  const FIRST_DAY: int := -(655 * 146_097 + 52_229)

  /** The time is before the first day of the clock library, whose subtraction then panics. */
  ghost predicate OutOfRange(now: Stamp, days: U32)
    requires now.Valid()
  {
    InstantOf(now) - days * NANOS_PER_DAY < FIRST_DAY * NANOS_PER_DAY
  }

  /** Retention panics for more days than there are since the first day, at whatever time of day. */
  lemma RetentionPanicsIff(now: Stamp, days: U32)
    requires now.Valid()
    ensures OutOfRange(now, days) <==> days > DayNumber(now) - FIRST_DAY
  {
    hide DayNumber;
    DayHasAllNanos(now);
  }

  /** What the clock library computes; `None` when it panics. */
  ghost predicate IsCutoff(cutoff: Option<Cutoff>, now: Stamp, days: U32) {
    now.Valid()
    && if OutOfRange(now, days) then cutoff.None? else cutoff.Some? && cutoff.value.IsDaysBefore(now, days)
  }

  datatype AuditStore = InMemory(memory: InMemoryAuditStore) | PluresDb(db: PluresDbAuditStore) {
    ghost function Repr(): set<object> {
      match this
      case InMemory(memory) => {memory}
      case PluresDb(db) => {db}
    }
  }

  /**
    Purges before the cutoff, the time `retainDays` before `now`, or does nothing without one. When the clock library
    panics, nothing is purged either.
   */
  method ApplyRetention(store: AuditStore, retainDays: Option<U32>, ghost now: Stamp, cutoff: Option<Cutoff>)
    returns (panicked: bool)
    requires retainDays.Some? ==> IsCutoff(cutoff, now, retainDays.value)
    modifies store.Repr()
    ensures panicked <==> retainDays.Some? && OutOfRange(now, retainDays.value)
    ensures match store
            case InMemory(memory) =>
              memory.events == (if retainDays.None? || panicked then old(memory.events)
                                else Kept(old(memory.events), cutoff.value.AsText()))
            case PluresDb(db) =>
              && db.records == (if retainDays.None? || panicked then old(db.records)
                                else old(db.records) - Outdated(old(db.records), cutoff.value.AsText()))
              && (old(db.Valid()) ==> db.Valid())
  {
    if retainDays.None? {
      return false;
    }
    if cutoff.None? {
      return true;
    }
    match store {
      case InMemory(memory) => memory.PurgeBefore(cutoff.value.AsText());
      case PluresDb(db) => db.PurgeBefore(cutoff.value.AsText());
    }
    return false;
  }

  lemma NotBeforeYearZero(t: Stamp)
    requires t.Valid()
    ensures InstantOf(t) >= 0 && Text(t) != [] && IsDigitChar(Text(t)[0])
  {
    assert IsDigitChar(Pad(t.year, 4)[0]);
  }

  /** The texts before the cutoff are those of the times more than the given days ago. */
  lemma CutoffOrder(cutoff: Cutoff, now: Stamp, days: U32, t: Stamp)
    requires cutoff.IsDaysBefore(now, days) && t.Valid()
    ensures LexLess(Text(t), cutoff.AsText()) <==> InstantOf(now) - InstantOf(t) > days * NANOS_PER_DAY
  {
    hide Text, InstantOf;
    match cutoff
    case At(stamp) => TextOrderIsTimeOrder(t, stamp);
    case BeforeYearZero(text) => NotBeforeYearZero(t);
  }

  /** In memory, retention removes exactly the events older than the given number of days. */
  lemma RetentionKeepsWindow(es: seq<AuditEvent>, ts: seq<Stamp>, now: Stamp, cutoff: Cutoff, days: U32,
                             keep: seq<bool>)
    requires StampedWith(es, ts) && cutoff.IsDaysBefore(now, days) && |keep| == |es|
    requires forall i :: 0 <= i < |es| ==> keep[i] == (InstantOf(now) - InstantOf(ts[i]) <= days * NANOS_PER_DAY)
    ensures Kept(es, cutoff.AsText()) == Select(es, keep)
  {
    hide InstantOf, Text, LexLess, Cutoff.AsText, Cutoff.IsDaysBefore;
    forall i | 0 <= i < |es|
      ensures keep[i] == !LexLess(es[i].timestamp, cutoff.AsText())
    {
      CutoffOrder(cutoff, now, days, ts[i]);
    }
    KeptIsSelect(es, cutoff.AsText(), keep);
  }

  /** In the database, retention deletes exactly the events older than the given number of days, and no other record. */
  lemma DurableRetentionKeepsWindow(records: Records, now: Stamp, cutoff: Cutoff, days: U32, k: string, t: Stamp)
    requires OwnKeys(records) && cutoff.IsDaysBefore(now, days) && k in records
    requires records[k].EventRecord? ==> t.Valid() && records[k].event.timestamp == Text(t)
    ensures k in records - Outdated(records, cutoff.AsText())
       <==> records[k].EventRecord? ==> InstantOf(now) - InstantOf(t) <= days * NANOS_PER_DAY
  {
    hide InstantOf, Text, LexLess, Cutoff.AsText, Cutoff.IsDaysBefore, Outdated;
    PurgeDeletesOutdated(records, cutoff.AsText(), k);
    if records[k].EventRecord? {
      CutoffOrder(cutoff, now, days, t);
    }
  }
}
