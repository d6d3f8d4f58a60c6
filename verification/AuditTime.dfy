/**
  Timestamps as text, compared as text.
 */
module AuditTime {
  import opened Common
  import opened Strings
  import opened AuditDigits

  // ---------------------------------------------------------------------------------------------
  // Timestamps
  // ---------------------------------------------------------------------------------------------

  datatype Stamp = Stamp(year: nat, month: nat, day: nat, hour: nat, minute: nat, second: nat, nanos: nat) {
    predicate Valid() {
      && year <= 9999 && 1 <= month <= 12 && 1 <= day <= DaysInMonth(year, month)
      && hour <= 23 && minute <= 59 && second <= 59 && nanos < 1_000_000_000
    }
  }

  predicate IsLeap(y: nat) {
    y % 4 == 0 && (y % 100 != 0 || y % 400 == 0)
  }

  function DaysInMonth(y: nat, m: nat): nat
    requires 1 <= m <= 12
  {
    if m == 2 then (if IsLeap(y) then 29 else 28)
    else if m in {4, 6, 9, 11} then 30
    else 31
  }

  const OFFSET := "+00:00"

  /** The digits of a fraction: 0, 3, 6 or 9 of them, as few as show the value exactly. */
  function FractionDigits(nanos: nat): (s: string)
    ensures AllDigits(s) && |s| <= 9
  {
    if nanos == 0 then ""
    else if nanos % 1_000_000 == 0 then Pad(nanos / 1_000_000, 3)
    else if nanos % 1_000 == 0 then Pad(nanos / 1_000, 6)
    else Pad(nanos, 9)
  }

  function FractionText(nanos: nat): string {
    Fraction(FractionDigits(nanos))
  }

  /** Date and time up to the second, and what follows. */
  function SecondsText(t: Stamp, tail: string): string {
    Pad(t.year, 4) + ("-" + (Pad(t.month, 2) + ("-" + (Pad(t.day, 2) + ("T" + TimeText(t, tail))))))
  }

  function TimeText(t: Stamp, tail: string): string {
    Pad(t.hour, 2) + (":" + (Pad(t.minute, 2) + (":" + (Pad(t.second, 2) + tail))))
  }

  /** `2024-01-31T23:59:59.123+00:00` */
  function Text(t: Stamp): string {
    SecondsText(t, FractionText(t.nanos) + OFFSET)
  }

  // ---------------------------------------------------------------------------------------------
  // Fractions
  // ---------------------------------------------------------------------------------------------

  const NANOS_PER_SECOND := 1_000_000_000

  /** The digits are those of a number of nanoseconds. */
  lemma FractionValue(nanos: nat)
    requires nanos < NANOS_PER_SECOND
    ensures var s := FractionDigits(nanos);
            Value(s) * Pow10(9 - |s|) == nanos && Pow10(|s|) * Pow10(9 - |s|) == NANOS_PER_SECOND
  {
    assert Pow10(3) == 1_000;
    assert Pow10(6) == 1_000_000;
    assert Pow10(9) == 1_000_000_000;
    assert Pow10(0) == 1;
    if nanos == 0 {
      assert Value("") == 0;
    } else if nanos % 1_000_000 == 0 {
      ValueOfPad(nanos / 1_000_000, 3);
    } else if nanos % 1_000 == 0 {
      ValueOfPad(nanos / 1_000, 6);
    } else {
      ValueOfPad(nanos, 9);
    }
  }

  lemma ScaleUp(p: nat, q: nat, k: nat)
    requires k > 0
    ensures (p < q <==> p * k < q * k) && (p == q <==> p * k == q * k)
  {
    if p < q {
      assert (p + 1) * k <= q * k;
    } else if q < p {
      assert (q + 1) * k <= p * k;
    }
  }

  lemma Shuffle(a: nat, b: nat, c: nat)
    ensures (a * b) * c == (a * c) * b == a * (b * c)
  {
  }

  /** Comparing `x / pm` with `v / pn` is comparing `e / g` with `v / pn`. */
  lemma Rescaled(x: nat, pm: nat, k: nat, e: nat, g: nat, pn: nat, v: nat)
    requires k > 0 && x * k == e && pm * k == g
    ensures (x * pn < v * pm <==> e * pn < v * g) && (x * pn == v * pm <==> e * pn == v * g)
  {
    ScaleUp(x * pn, v * pm, k);
    Shuffle(x, pn, k);
    Shuffle(v, pm, k);
  }

  /** Nanoseconds compare with a fraction of `n` digits and value `v` as numbers. */
  lemma NanosAgainst(nanos: nat, v: nat, n: nat)
    requires nanos < NANOS_PER_SECOND
    ensures var s := FractionDigits(nanos);
            && (Weight(s, n) < v * Pow10(|s|) <==> nanos * Pow10(n) < v * NANOS_PER_SECOND)
            && (Weight(s, n) == v * Pow10(|s|) <==> nanos * Pow10(n) == v * NANOS_PER_SECOND)
  {
    hide Value, Pow10, FractionDigits;
    var s := FractionDigits(nanos);
    FractionValue(nanos);
    Rescaled(Value(s), Pow10(|s|), Pow10(9 - |s|), nanos, NANOS_PER_SECOND, Pow10(n), v);
  }

  lemma NanosAgainstNanos(a: nat, b: nat)
    requires a < NANOS_PER_SECOND && b < NANOS_PER_SECOND
    ensures var (x, y) := (FractionDigits(a), FractionDigits(b));
            && (Weight(x, |y|) < Weight(y, |x|) <==> a < b) && (Weight(x, |y|) == Weight(y, |x|) <==> a == b)
  {
    hide Value, Pow10, FractionDigits;
    var (x, y) := (FractionDigits(a), FractionDigits(b));
    NanosAgainst(a, Value(y), |y|);
    FractionValue(b);
    var (w, pn, k) := (Value(y), Pow10(|y|), Pow10(9 - |y|));
    ScaleUp(a * pn, w * NANOS_PER_SECOND, k);
    Shuffle(a, pn, k);
    Shuffle(w, NANOS_PER_SECOND, k);
  }

  /**
    Fractions before offsets compare as the numbers they show, whatever their lengths: this rests on plus and minus
    coming before the dot, and the dot before the digits.
   */
  lemma FractionOrder(a: nat, b: nat, u: string, v: string)
    requires a < NANOS_PER_SECOND && b < NANOS_PER_SECOND && IsLow(u) && IsLow(v)
    ensures LexLess(FractionText(a) + u, FractionText(b) + v) <==> a < b || (a == b && LexLess(u, v))
  {
    hide LexLess, Fraction, FractionDigits, Weight;
    FractionBeforeSign(FractionDigits(a), FractionDigits(b), u, v);
    NanosAgainstNanos(a, b);
  }

  // ---------------------------------------------------------------------------------------------
  // Text order is field order
  // ---------------------------------------------------------------------------------------------

  predicate TimeBefore(a: Stamp, b: Stamp) {
    a.hour < b.hour
    || (a.hour == b.hour
        && (a.minute < b.minute
            || (a.minute == b.minute
                && (a.second < b.second || (a.second == b.second && a.nanos < b.nanos)))))
  }

  predicate FieldsBefore(a: Stamp, b: Stamp) {
    a.year < b.year
    || (a.year == b.year
        && (a.month < b.month
            || (a.month == b.month && (a.day < b.day || (a.day == b.day && TimeBefore(a, b))))))
  }

  /** The start of the second. */
  function Second(t: Stamp): Stamp {
    t.(nanos := 0)
  }

  predicate SecondsBefore(a: Stamp, b: Stamp) {
    FieldsBefore(Second(a), Second(b))
  }

  lemma TimeTextOrder(a: Stamp, b: Stamp, x: string, y: string)
    requires a.Valid() && b.Valid()
    ensures LexLess(TimeText(a, x), TimeText(b, y))
       <==> TimeBefore(Second(a), Second(b))
            || (a.hour == b.hour && a.minute == b.minute && a.second == b.second && LexLess(x, y))
  {
    hide LexLess, Pad;
    assert Pow10(2) == 100;
    PadStep(a.second, b.second, 2, x, y);
    var (xs, ys) := (Pad(a.second, 2) + x, Pad(b.second, 2) + y);
    LexSame(':', xs, ys);
    PadStep(a.minute, b.minute, 2, ":" + xs, ":" + ys);
    var (xm, ym) := (Pad(a.minute, 2) + (":" + xs), Pad(b.minute, 2) + (":" + ys));
    LexSame(':', xm, ym);
    PadStep(a.hour, b.hour, 2, ":" + xm, ":" + ym);
  }

  /** The seconds decide, or what follows them. */
  lemma SecondsOrder(a: Stamp, b: Stamp, x: string, y: string)
    requires a.Valid() && b.Valid()
    ensures LexLess(SecondsText(a, x), SecondsText(b, y))
       <==> SecondsBefore(a, b) || (Second(a) == Second(b) && LexLess(x, y))
  {
    hide LexLess, TimeText, Pad;
    assert Pow10(2) == 100 && Pow10(4) == 10_000;
    TimeTextOrder(a, b, x, y);
    var (xt, yt) := (TimeText(a, x), TimeText(b, y));
    LexSame('T', xt, yt);
    PadStep(a.day, b.day, 2, "T" + xt, "T" + yt);
    var (xd, yd) := (Pad(a.day, 2) + ("T" + xt), Pad(b.day, 2) + ("T" + yt));
    LexSame('-', xd, yd);
    PadStep(a.month, b.month, 2, "-" + xd, "-" + yd);
    var (xm, ym) := (Pad(a.month, 2) + ("-" + xd), Pad(b.month, 2) + ("-" + yd));
    LexSame('-', xm, ym);
    PadStep(a.year, b.year, 4, "-" + xm, "-" + ym);
  }

  lemma TextOrder(a: Stamp, b: Stamp)
    requires a.Valid() && b.Valid()
    ensures LexLess(Text(a), Text(b)) <==> FieldsBefore(a, b)
  {
    hide FractionText, SecondsText, LexLess;
    SecondsOrder(a, b, FractionText(a.nanos) + OFFSET, FractionText(b.nanos) + OFFSET);
    FractionOrder(a.nanos, b.nanos, OFFSET, OFFSET);
    LexTotal(OFFSET, OFFSET);
  }

  // ---------------------------------------------------------------------------------------------
  // Field order is time order
  // ---------------------------------------------------------------------------------------------

  const NANOS_PER_DAY: int := 86_400_000_000_000

  function YearLen(y: nat): nat {
    if IsLeap(y) then 366 else 365
  }

  function DaysBeforeYear(y: nat): nat {
    if y == 0 then 0 else DaysBeforeYear(y - 1) + YearLen(y - 1)
  }

  function DaysBeforeMonth(y: nat, m: nat): nat
    requires 1 <= m <= 13
  {
    if m == 1 then 0 else DaysBeforeMonth(y, m - 1) + DaysInMonth(y, m - 1)
  }

  /** Days since the first of January of the year 0 of the Gregorian calendar. */
  function DayNumber(t: Stamp): int
    requires t.Valid()
  {
    DaysBeforeYear(t.year) + DaysBeforeMonth(t.year, t.month) + t.day - 1
  }

  function NanosOfDay(t: Stamp): nat {
    ((t.hour * 60 + t.minute) * 60 + t.second) * 1_000_000_000 + t.nanos
  }

  /** The point in time a timestamp denotes, in nanoseconds. */
  function InstantOf(t: Stamp): int
    requires t.Valid()
  {
    DayNumber(t) * NANOS_PER_DAY + NanosOfDay(t)
  }

  lemma {:induction false} MonthsMonotone(y: nat, m: nat, n: nat)
    requires 1 <= m < n <= 13
    ensures DaysBeforeMonth(y, m) + DaysInMonth(y, m) <= DaysBeforeMonth(y, n)
    decreases n
  {
    if m < n - 1 {
      MonthsMonotone(y, m, n - 1);
    }
  }

  lemma {:induction false} YearsMonotone(y: nat, z: nat)
    requires y < z
    ensures DaysBeforeYear(y) + YearLen(y) <= DaysBeforeYear(z)
    decreases z
  {
    if y < z - 1 {
      YearsMonotone(y, z - 1);
    }
  }

  lemma YearHasAllMonths(y: nat)
    ensures DaysBeforeMonth(y, 13) == YearLen(y)
  {
    assert DaysBeforeMonth(y, 2) == 31;
    assert DaysBeforeMonth(y, 3) == 31 + DaysInMonth(y, 2);
    assert DaysBeforeMonth(y, 4) == DaysBeforeMonth(y, 3) + 31;
    assert DaysBeforeMonth(y, 5) == DaysBeforeMonth(y, 4) + 30;
    assert DaysBeforeMonth(y, 6) == DaysBeforeMonth(y, 5) + 31;
    assert DaysBeforeMonth(y, 7) == DaysBeforeMonth(y, 6) + 30;
    assert DaysBeforeMonth(y, 8) == DaysBeforeMonth(y, 7) + 31;
    assert DaysBeforeMonth(y, 9) == DaysBeforeMonth(y, 8) + 31;
    assert DaysBeforeMonth(y, 10) == DaysBeforeMonth(y, 9) + 30;
    assert DaysBeforeMonth(y, 11) == DaysBeforeMonth(y, 10) + 31;
    assert DaysBeforeMonth(y, 12) == DaysBeforeMonth(y, 11) + 30;
  }

  predicate DateBefore(a: Stamp, b: Stamp) {
    a.year < b.year || (a.year == b.year && (a.month < b.month || (a.month == b.month && a.day < b.day)))
  }

  lemma DaysMonotone(a: Stamp, b: Stamp)
    requires a.Valid() && b.Valid() && DateBefore(a, b)
    ensures DayNumber(a) < DayNumber(b)
  {
    hide IsLeap;
    if a.year < b.year {
      MonthsMonotone(a.year, a.month, 13);
      YearHasAllMonths(a.year);
      YearsMonotone(a.year, b.year);
    } else if a.month < b.month {
      MonthsMonotone(a.year, a.month, b.month);
    }
  }

  lemma DayHasAllNanos(t: Stamp)
    requires t.Valid()
    ensures NanosOfDay(t) < NANOS_PER_DAY
  {
  }

  lemma InstantsMonotone(a: Stamp, b: Stamp)
    requires a.Valid() && b.Valid() && FieldsBefore(a, b)
    ensures InstantOf(a) < InstantOf(b)
  {
    hide DayNumber, DaysInMonth;
    DayHasAllNanos(a);
    DayHasAllNanos(b);
    if DateBefore(a, b) {
      DaysMonotone(a, b);
    } else {
      SameDay(a, b);
    }
  }

  lemma SameDay(a: Stamp, b: Stamp)
    requires a.Valid() && b.Valid() && a.year == b.year && a.month == b.month && a.day == b.day
    ensures DayNumber(a) == DayNumber(b)
  {
  }

  /** Comparing timestamps as text compares the points in time they denote. */
  lemma TextOrderIsTimeOrder(a: Stamp, b: Stamp)
    requires a.Valid() && b.Valid()
    ensures LexLess(Text(a), Text(b)) <==> InstantOf(a) < InstantOf(b)
  {
    hide Text, InstantOf, LexLess;
    TextOrder(a, b);
    if FieldsBefore(a, b) {
      InstantsMonotone(a, b);
    } else if FieldsBefore(b, a) {
      InstantsMonotone(b, a);
    } else {
      assert a == b;
    }
  }
}
