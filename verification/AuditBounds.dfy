/**
  Query bounds that are written otherwise than timestamps: with `Z`, with any offset, with any number of digits.
 */
module AuditBounds {
  import opened Common
  import opened Strings
  import opened AuditDigits
  import opened AuditTime
  import opened AuditLog

  // ---------------------------------------------------------------------------------------------
  // Bounds
  // ---------------------------------------------------------------------------------------------

  datatype Zone = Zulu | Shift(negative: bool, hours: nat, minutes: nat) {
    predicate Valid() {
      Shift? ==> hours <= 23 && minutes <= 59
    }

    function AsText(): string {
      match this
      case Zulu => "Z"
      case Shift(negative, hours, minutes) =>
        (if negative then "-" else "+") + (Pad(hours, 2) + (":" + Pad(minutes, 2)))
    }

    /** By how many nanoseconds local time is ahead of UTC. */
    function Ahead(): int {
      match this
      case Zulu => 0
      case Shift(negative, hours, minutes) =>
        (if negative then -1 else 1) * ((hours * 60 + minutes) * 60 * NANOS_PER_SECOND)
    }
  }

  const PLAIN_UTC := Shift(false, 0, 0)

  /** A local date and time to the second, the digits of a fraction, and a zone (section 5.6 of RFC 3339). */
  datatype Bound = Bound(local: Stamp, digits: string, zone: Zone) {
    predicate Valid() {
      local.Valid() && local.nanos == 0 && AllDigits(digits) && zone.Valid()
    }

    function AsText(): string {
      SecondsText(local, Fraction(digits) + zone.AsText())
    }

    /** Times are compared as multiples of this fraction of a nanosecond, so that any number of digits is exact. */
    function Scale(): nat {
      Pow10(|digits|)
    }

    function Scaled(t: Stamp): int
      requires t.Valid()
    {
      InstantOf(t) * Scale()
    }

    /** The time as it is written, read as if it were UTC. */
    function Written(): int
      requires Valid()
    {
      InstantOf(local) * Scale() + Value(digits) * NANOS_PER_SECOND
    }

    /** The time it denotes. */
    function Denoted(): int
      requires Valid()
    {
      Written() - zone.Ahead() * Scale()
    }
  }

  lemma OffsetLeast(z: Zone)
    requires z.Shift? && z.Valid()
    ensures IsLow(z.AsText()) && !LexLess(z.AsText(), OFFSET)
    ensures (LexLess(OFFSET, z.AsText()) <==> z != PLAIN_UTC) && (z.AsText() == OFFSET <==> z == PLAIN_UTC)
  {
    assert Pow10(2) == 100;
    var (h, m) := (Pad(z.hours, 2), Pad(z.minutes, 2));
    var rest := h + (":" + m);
    assert Pad(0, 1) == "0" && Pad(0, 2) == "00" && "00" + (":" + "00") == "00:00";
    assert OFFSET == "+" + (Pad(0, 2) + (":" + Pad(0, 2)));
    if !z.negative {
      hide LexLess, Pad;
      LexSame('+', rest, Pad(0, 2) + (":" + Pad(0, 2)));
      LexSame('+', Pad(0, 2) + (":" + Pad(0, 2)), rest);
      LexSame(':', m, Pad(0, 2));
      LexSame(':', Pad(0, 2), m);
      PadStep(z.hours, 0, 2, ":" + m, ":" + Pad(0, 2));
      PadStep(0, z.hours, 2, ":" + Pad(0, 2), ":" + m);
      PadOrder(z.minutes, 0, 2);
      PadOrder(0, z.minutes, 2);
      LexTotal(OFFSET, z.AsText());
    }
  }

  // ---------------------------------------------------------------------------------------------
  // Times within a second
  // ---------------------------------------------------------------------------------------------

  lemma StartOfSecond(t: Stamp)
    requires t.Valid()
    ensures Second(t).Valid() && InstantOf(t) == InstantOf(Second(t)) + t.nanos
  {
    SameDay(t, Second(t));
  }

  lemma SecondsApart(a: Stamp, b: Stamp)
    requires a.Valid() && b.Valid() && SecondsBefore(a, b)
    ensures InstantOf(Second(a)) + NANOS_PER_SECOND <= InstantOf(Second(b))
  {
    var last := a.(nanos := NANOS_PER_SECOND - 1);
    hide InstantOf;
    StartOfSecond(a);
    StartOfSecond(b);
    StartOfSecond(last);
    assert Second(last) == Second(a);
    InstantsMonotone(last, Second(b));
  }

  lemma MulMonotone(a: int, b: int, k: nat)
    requires a <= b
    ensures a * k <= b * k
  {
  }

  lemma Expand(a: int, b: int, k: nat)
    ensures (a + b) * k == a * k + b * k
  {
  }

  lemma ApartWhenScaled(s: int, l: int, e: nat, v: nat, k: nat, unit: nat)
    requires e < unit && v < k
    ensures s + unit <= l ==> (s + e) * k < l * k + v * unit
    ensures l + unit <= s ==> l * k + v * unit + unit <= (s + e) * k
    ensures s == l ==> (s + e) * k - (l * k + v * unit) == e * k - v * unit
  {
    Expand(s, e, k);
    if s + unit <= l {
      MulMonotone(s + e + 1, l, k);
      Expand(s + e, 1, k);
    } else if l + unit <= s {
      MulMonotone(l + unit, s, k);
      Expand(l, unit, k);
      MulMonotone(v + 1, k, unit);
      Expand(v, 1, unit);
    }
  }

  /** Where a time lies with respect to the written bound and the unit of its last digit. */
  lemma ScaledOrder(t: Stamp, b: Bound)
    requires t.Valid() && b.Valid()
    ensures SecondsBefore(t, b.local) ==> b.Scaled(t) < b.Written()
    ensures SecondsBefore(b.local, t) ==> b.Written() + NANOS_PER_SECOND <= b.Scaled(t)
    ensures Second(t) == b.local ==>
              b.Scaled(t) - b.Written() == t.nanos * b.Scale() - Value(b.digits) * NANOS_PER_SECOND
  {
    hide InstantOf, Pow10, Value, FieldsBefore;
    ValueFits(b.digits);
    StartOfSecond(t);
    assert Second(b.local) == b.local;
    if SecondsBefore(t, b.local) {
      SecondsApart(t, b.local);
    } else if SecondsBefore(b.local, t) {
      SecondsApart(b.local, t);
    }
    SecondsTotal(t, b.local);
    ApartWhenScaled(
      InstantOf(Second(t)), InstantOf(b.local), t.nanos, Value(b.digits), b.Scale(), NANOS_PER_SECOND);
  }

  lemma SecondsTotal(a: Stamp, b: Stamp)
    requires a.Valid() && b.Valid()
    ensures SecondsBefore(a, b) || Second(a) == Second(b) || SecondsBefore(b, a)
    ensures !(SecondsBefore(a, b) && SecondsBefore(b, a)) && (Second(a) == Second(b) ==> !SecondsBefore(a, b))
  {
  }

  lemma TailsDiffer(p: string, q: string)
    ensures p + OFFSET != q + "Z"
  {
    assert (p + OFFSET)[|p + OFFSET| - 1] == OFFSET[5];
    assert (q + "Z")[|q|] == 'Z';
  }

  /** A timestamp comes before a bound with `Z` exactly when it is before the end of the unit of its last digit. */
  lemma ZuluOrder(t: Stamp, b: Bound)
    requires t.Valid() && b.Valid() && b.zone.Zulu?
    ensures LexLess(Text(t), b.AsText()) <==> b.Scaled(t) < b.Written() + NANOS_PER_SECOND
    ensures LexLess(b.AsText(), Text(t)) <==> b.Written() + NANOS_PER_SECOND <= b.Scaled(t)
  {
    hide InstantOf, Pow10, Value, FieldsBefore, LexLess, SecondsText, Weight, Fraction, FractionDigits;
    var (x, y) := (FractionDigits(t.nanos), b.digits);
    SecondsOrder(t, b.local, Fraction(x) + OFFSET, Fraction(y) + "Z");
    SecondsOrder(b.local, t, Fraction(y) + "Z", Fraction(x) + OFFSET);
    TailsDiffer(Fraction(x), Fraction(y));
    LexTotal(Fraction(x) + OFFSET, Fraction(y) + "Z");
    SecondsTotal(t, b.local);
    ScaledOrder(t, b);
    FractionBeforeZ(x, y, OFFSET);
    NanosAgainst(t.nanos, Value(y) + 1, |y|);
    assert NextWeight(y, |x|) == (Value(y) + 1) * Pow10(|x|);
  }

  /** The number of digits that the timestamp shows. */
  function Shown(t: Stamp): nat {
    |FractionDigits(t.nanos)|
  }

  /** A timestamp and a bound with an offset compare by the time written; at the same time, by digits and offset. */
  lemma ShiftOrder(t: Stamp, b: Bound)
    requires t.Valid() && b.Valid() && b.zone.Shift?
    ensures LexLess(Text(t), b.AsText())
       <==> b.Scaled(t) < b.Written()
            || (b.Scaled(t) == b.Written()
                && (Shown(t) < |b.digits| || (Shown(t) == |b.digits| && b.zone != PLAIN_UTC)))
    ensures LexLess(b.AsText(), Text(t))
       <==> b.Written() < b.Scaled(t) || (b.Scaled(t) == b.Written() && |b.digits| < Shown(t))
  {
    hide InstantOf, Pow10, Value, FieldsBefore, LexLess, SecondsText, Fraction, FractionDigits;
    var (x, y, z) := (FractionDigits(t.nanos), b.digits, b.zone.AsText());
    SecondsOrder(t, b.local, Fraction(x) + OFFSET, Fraction(y) + z);
    SecondsOrder(b.local, t, Fraction(y) + z, Fraction(x) + OFFSET);
    SecondsTotal(t, b.local);
    ScaledOrder(t, b);
    OffsetLeast(b.zone);
    FractionBeforeSign(x, y, OFFSET, z);
    FractionBeforeSign(y, x, z, OFFSET);
    NanosAgainst(t.nanos, Value(y), |y|);
  }

  // ---------------------------------------------------------------------------------------------
  // Queries
  // ---------------------------------------------------------------------------------------------

  function Since(b: Bound): AuditQuery {
    AuditQuery(Some(b.AsText()), None, None, None, None, None)
  }

  function Until(b: Bound): AuditQuery {
    AuditQuery(None, Some(b.AsText()), None, None, None, None)
  }

  /** A query since a bound with `Z` loses exactly the events within the unit of the bound's last digit. */
  lemma SinceZulu(e: AuditEvent, t: Stamp, b: Bound)
    requires t.Valid() && e.timestamp == Text(t) && b.Valid() && b.zone.Zulu?
    ensures Since(b).Matches(e) <==> b.Written() + NANOS_PER_SECOND <= b.Scaled(t)
    ensures (Since(b).Matches(e) <==> b.Denoted() <= b.Scaled(t))
       <==> !(b.Written() <= b.Scaled(t) < b.Written() + NANOS_PER_SECOND)
  {
    hide Bound.AsText, Text, LexLess, Bound.Written, Bound.Scaled;
    ZuluOrder(t, b);
  }

  /** A query until a bound with `Z` keeps, beyond the bound, exactly the later events within the same unit. */
  lemma UntilZulu(e: AuditEvent, t: Stamp, b: Bound)
    requires t.Valid() && e.timestamp == Text(t) && b.Valid() && b.zone.Zulu?
    ensures Until(b).Matches(e) <==> b.Scaled(t) < b.Written() + NANOS_PER_SECOND
    ensures (Until(b).Matches(e) <==> b.Scaled(t) <= b.Denoted())
       <==> !(b.Written() < b.Scaled(t) < b.Written() + NANOS_PER_SECOND)
  {
    hide Bound.AsText, Text, LexLess, Bound.Written, Bound.Scaled;
    ZuluOrder(t, b);
  }

  /**
    A query since a bound with an offset ignores the offset: it goes wrong exactly for events between the time written
    and the time denoted, and for some at the time written.
   */
  lemma SinceShifted(e: AuditEvent, t: Stamp, b: Bound)
    requires t.Valid() && e.timestamp == Text(t) && b.Valid() && b.zone.Shift?
    ensures var (at, written, denoted) := (b.Scaled(t), b.Written(), b.Denoted());
            var kept := Shown(t) > |b.digits| || (Shown(t) == |b.digits| && b.zone == PLAIN_UTC);
            && (Since(b).Matches(e) <==> written < at || (at == written && kept))
            && ((Since(b).Matches(e) <==> denoted <= at)
                <==> !(denoted <= at < written) && !(written < at < denoted)
                     && (at == written ==> (kept <==> b.zone.Ahead() >= 0)))
  {
    hide Bound.AsText, Text, LexLess, Bound.Written, Bound.Scaled, FractionDigits, Zone.Ahead, Bound.Scale;
    ShiftOrder(t, b);
    AheadAndDenoted(b);
  }

  lemma AheadAndDenoted(b: Bound)
    requires b.Valid()
    ensures b.Denoted() <= b.Written() <==> b.zone.Ahead() >= 0
    ensures b.Denoted() >= b.Written() <==> b.zone.Ahead() <= 0
  {
    hide Bound.Written, Zone.Ahead;
  }

  /** The same for a query until such a bound. */
  lemma UntilShifted(e: AuditEvent, t: Stamp, b: Bound)
    requires t.Valid() && e.timestamp == Text(t) && b.Valid() && b.zone.Shift?
    ensures var (at, written, denoted) := (b.Scaled(t), b.Written(), b.Denoted());
            var kept := Shown(t) <= |b.digits|;
            && (Until(b).Matches(e) <==> at < written || (at == written && kept))
            && ((Until(b).Matches(e) <==> at <= denoted)
                <==> !(denoted < at < written) && !(written < at <= denoted)
                     && (at == written ==> (kept <==> b.zone.Ahead() <= 0)))
  {
    hide Bound.AsText, Text, LexLess, Bound.Written, Bound.Scaled, FractionDigits, Zone.Ahead, Bound.Scale;
    ShiftOrder(t, b);
    AheadAndDenoted(b);
  }
}
