/**
  The fields of a log line as texts: what each placeholder stands for, independently of how it is scanned.
 */
module LogFields {
  import opened Common
  import opened Utf8
  import opened LogScanners
  import opened LogTemplates
  import opened LogShapes

  // ---------------------------------------------------------------------------------------------
  // Field texts
  // ---------------------------------------------------------------------------------------------

  /** The kinds of fields, in the order in which they are looked for. */
  datatype Field = Timestamp | Uuid | Ip | Duration | Hex | Int {
    function Rank(): nat {
      match this
      case Timestamp => 0
      case Uuid => 1
      case Ip => 2
      case Duration => 3
      case Hex => 4
      case Int => 5
    }

    function Placeholder(): bytes {
      match this
      case Timestamp => "<TS>"
      case Uuid => "<UUID>"
      case Ip => "<IP>"
      case Duration => "<DUR>"
      case Hex => "<HEX>"
      case Int => "<INT>"
    }
  }

  ghost predicate AllHex(t: bytes) {
    forall k :: 0 <= k < |t| ==> IsHexDigit(t[k])
  }

  ghost predicate AllDigits(t: bytes) {
    forall k :: 0 <= k < |t| ==> IsDigitChar(t[k])
  }

  datatype UuidParts = UuidParts(a: bytes, b: bytes, c: bytes, d: bytes, e: bytes) {
    ghost predicate WellFormed() {
      && |a| == 8 && |b| == 4 && |c| == 4 && |d| == 4 && |e| == 12
      && AllHex(a) && AllHex(b) && AllHex(c) && AllHex(d) && AllHex(e)
    }

    function Text(): bytes {
      a + "-" + b + "-" + c + "-" + d + "-" + e
    }
  }

  ghost predicate IsOctet(t: bytes) {
    1 <= |t| <= 3 && AllDigits(t)
  }

  datatype IpParts = IpParts(a: bytes, b: bytes, c: bytes, d: bytes, port: bytes) {
    ghost predicate WellFormed() {
      && IsOctet(a) && IsOctet(b) && IsOctet(c) && IsOctet(d)
      && (port == [] || (2 <= |port| <= 6 && port[0] == ':' && AllDigits(port[1..])))
    }

    function Text(): bytes {
      a + "." + b + "." + c + "." + d + port
    }
  }

  datatype DurationParts = DurationParts(whole: bytes, fraction: bytes, unit: bytes) {
    ghost predicate WellFormed() {
      && whole != [] && AllDigits(whole) && (fraction == [] || IsFraction(fraction))
      && (|| unit == "ns" || unit == "us" || unit == "ms" || unit == "s" || unit == "m" || unit == "h"
          || unit == "kb" || unit == "mb" || unit == "gb" || unit == "KB" || unit == "MB" || unit == "GB"
          || unit == "B")
    }

    function Text(): bytes {
      whole + fraction + unit
    }
  }

  /** `0x` and hexadecimal digits, or four or more hexadecimal digits with a letter among them. */
  ghost predicate IsHexText(t: bytes) {
    || (|t| >= 3 && t[0] == '0' && (t[1] == 'x' || t[1] == 'X') && AllHex(t[2..]))
    || (|t| >= 4 && AllHex(t) && !AllDigits(t))
  }

  ghost predicate IsText(f: Field, t: bytes) {
    match f
    case Timestamp => exists p: Stamp :: p.WellFormed() && p.Text() == t
    case Uuid => exists p: UuidParts :: p.WellFormed() && p.Text() == t
    case Ip => exists p: IpParts :: p.WellFormed() && p.Text() == t
    case Duration => exists p: DurationParts :: p.WellFormed() && p.Text() == t
    case Hex => IsHexText(t)
    case Int => t != [] && AllDigits(t)
  }

  ghost predicate HasPort(t: bytes) {
    exists k :: 0 <= k < |t| && t[k] == ':'
  }

  /** What may stand before and after a field. */
  ghost predicate Bounded(f: Field, left: Option<byte>, t: bytes, tail: bytes) {
    match f
    case Timestamp => forall m :: |t| < m <= |t + tail| ==> !IsText(Timestamp, (t + tail)[..m])
    case Uuid => !LeftWord(left) && !WordAt(tail, 0) && !At(tail, 0, '-')
    case Ip =>
      && !LeftWordOrDot(left) && !WordAt(tail, 0)
      && (HasPort(t) || !((At(tail, 0, '.') || At(tail, 0, ':')) && DigitAt(tail, 1)))
    case Duration => !LeftWordOrDot(left) && !WordAt(tail, 0)
    case Hex => !LeftWord(left) && !WordAt(tail, 0)
    case Int => !LeftWordOrDot(left) && !WordAt(tail, 0) && !At(tail, 0, '.')
  }

  /** The first `n` bytes are a field of this kind. */
  ghost predicate FieldAt(f: Field, left: Option<byte>, s: bytes, n: nat) {
    n <= |s| && IsText(f, s[..n]) && Bounded(f, left, s[..n], s[n..])
  }

  /** What the scanner of the kind finds. */
  function LenOf(f: Field, left: Option<byte>, s: bytes): Option<nat> {
    match f
    case Timestamp => TimestampLen(s)
    case Uuid => UuidLen(left, s)
    case Ip => Ipv4Len(left, s)
    case Duration => DurationLen(left, s)
    case Hex => HexLen(left, s)
    case Int => IntLen(left, s)
  }

  // ---------------------------------------------------------------------------------------------
  // Numbers and hexadecimal ids
  // ---------------------------------------------------------------------------------------------

  lemma IntIff(left: Option<byte>, s: bytes, n: nat)
    ensures IntLen(left, s) == Some(n) <==> FieldAt(Int, left, s, n)
  {
    RunEndSpec(Digit, s, 0);
    if n <= |s| {
      assert WordAt(s[n..], 0) <==> WordAt(s, n);
      assert At(s[n..], 0, '.') <==> At(s, n, '.');
      if FieldAt(Int, left, s, n) {
        assert forall k :: 0 <= k < n ==> s[k] == s[..n][k];
        RunEndUnique(Digit, s, 0, n);
      }
    }
  }

  lemma HexFound(left: Option<byte>, s: bytes, n: nat)
    requires n <= |s| && IsHexText(s[..n]) && !LeftWord(left) && !WordAt(s, n)
    ensures HexLen(left, s) == Some(n)
  {
    var t := s[..n];
    assert forall k :: 0 <= k < n ==> s[k] == t[k];
    if HasHexPrefix(s) {
      assert forall k :: 2 <= k < n ==> t[k] == t[2..][k - 2];
      RunEndUnique(HexDigit, s, 2, n);
    } else {
      RunEndUnique(HexDigit, s, 0, n);
      RunEndSpec(Digit, s, 0);
      var k :| 0 <= k < n && !IsDigitChar(t[k]);
      assert RunEnd(Digit, s, 0) <= k;
    }
  }

  lemma HexSound(left: Option<byte>, s: bytes, n: nat)
    requires HexLen(left, s) == Some(n)
    ensures n <= |s| && IsHexText(s[..n]) && !LeftWord(left) && !WordAt(s, n)
  {
    if HasHexPrefix(s) {
      RunEndSpec(HexDigit, s, 2);
    } else {
      RunEndSpec(HexDigit, s, 0);
      RunEndSpec(Digit, s, 0);
      assert !IsDigitChar(s[..n][RunEnd(Digit, s, 0)]);
    }
  }

  lemma HexIff(left: Option<byte>, s: bytes, n: nat)
    ensures HexLen(left, s) == Some(n) <==> FieldAt(Hex, left, s, n)
  {
    hide IsHexText, HexLen;
    if n <= |s| {
      assert WordAt(s[n..], 0) <==> WordAt(s, n);
      if FieldAt(Hex, left, s, n) {
        HexFound(left, s, n);
      }
    }
    if HexLen(left, s) == Some(n) {
      HexSound(left, s, n);
    }
  }

  // ---------------------------------------------------------------------------------------------
  // UUIDs
  // ---------------------------------------------------------------------------------------------

  lemma UuidIff(left: Option<byte>, s: bytes, n: nat)
    ensures UuidLen(left, s) == Some(n) <==> FieldAt(Uuid, left, s, n)
  {
    if n <= |s| {
      var t := s[..n];
      assert WordAt(s[n..], 0) <==> WordAt(s, n);
      assert At(s[n..], 0, '-') <==> At(s, n, '-');
      if FieldAt(Uuid, left, s, n) {
        var p: UuidParts :| p.WellFormed() && p.Text() == t;
        UuidAt(p);
        assert forall k :: 0 <= k < 36 ==> s[k] == t[k];
      }
      if UuidLen(left, s) == Some(n) {
        assert forall k :: 0 <= k < 36 ==> s[k] == t[k];
        UuidCut(t);
      }
    }
  }

  /** One more piece of a text. */
  lemma Glue(t: bytes, i: nat, j: nat)
    requires i <= j <= |t|
    ensures t[..i] + t[i..j] == t[..j]
  {
  }

  lemma GlueByte(t: bytes, i: nat)
    requires i < |t|
    ensures t[..i] + [t[i]] == t[..i + 1]
  {
  }

  lemma UuidCut(t: bytes)
    requires |t| == 36 && IsUuid(t)
    ensures IsText(Uuid, t)
  {
    var p := UuidParts(t[..8], t[9..13], t[14..18], t[19..23], t[24..36]);
    assert p.WellFormed();
    GlueByte(t, 8);
    Glue(t, 9, 13);
    GlueByte(t, 13);
    Glue(t, 14, 18);
    GlueByte(t, 18);
    Glue(t, 19, 23);
    GlueByte(t, 23);
    Glue(t, 24, 36);
    assert t[..36] == t;
    assert p.Text() == t;
  }

  lemma UuidAt(p: UuidParts)
    requires p.WellFormed()
    ensures IsUuid(p.Text()) && |p.Text()| == 36
  {
    var t := p.Text();
    assert t[..8] == p.a && t[9..13] == p.b && t[14..18] == p.c && t[19..23] == p.d && t[24..] == p.e;
    assert t[8] == '-' && t[13] == '-' && t[18] == '-' && t[23] == '-';
    forall k | 0 <= k < 36
      ensures if k in {8, 13, 18, 23} then t[k] == '-' else IsHexDigit(t[k])
    {
      if k < 8 {
        assert t[k] == p.a[k];
      } else if 8 < k < 13 {
        assert t[k] == p.b[k - 9];
      } else if 13 < k < 18 {
        assert t[k] == p.c[k - 14];
      } else if 18 < k < 23 {
        assert t[k] == p.d[k - 19];
      } else if 23 < k {
        assert t[k] == p.e[k - 24];
      }
    }
  }

  // ---------------------------------------------------------------------------------------------
  // Durations and sizes
  // ---------------------------------------------------------------------------------------------

  ghost predicate IsUnit(u: bytes) {
    DurationParts("0", [], u).WellFormed()
  }

  lemma UnitIff(s: bytes, n: nat)
    requires 0 < n <= |s| && !WordAt(s, n)
    ensures UnitLen(s) == n <==> IsUnit(s[..n])
  {
    assert AllDigits("0");
    if n == 1 {
      assert s[..1] == [s[0]];
      if |s| >= 2 {
        assert s[..2] == [s[0], s[1]];
      }
    } else if n == 2 {
      assert s[..2] == [s[0], s[1]];
    } else {
      assert |s[..n]| == n;
    }
  }

  lemma DurationIff(left: Option<byte>, s: bytes, n: nat)
    ensures DurationLen(left, s) == Some(n) <==> FieldAt(Duration, left, s, n)
  {
    if n <= |s| {
      assert WordAt(s[n..], 0) <==> WordAt(s, n);
      if FieldAt(Duration, left, s, n) {
        var p: DurationParts :| p.WellFormed() && p.Text() == s[..n];
        DurationFound(p, left, s);
      }
      if DurationLen(left, s) == Some(n) {
        DurationSound(left, s, n);
      }
    }
  }

  /** Where the number of a duration ends. */
  lemma NumberFound(p: DurationParts, s: bytes)
    requires p.WellFormed() && p.Text() <= s
    ensures RunEnd(Digit, s, 0) == |p.whole| && FractionEnd(s, |p.whole|) == |p.whole| + |p.fraction|
  {
    hide UnitLen;
    var (w, f) := (|p.whole|, |p.fraction|);
    assert forall k :: 0 <= k < |p.Text()| ==> s[k] == p.Text()[k];
    assert forall k :: 0 <= k < w ==> s[k] == p.whole[k];
    assert forall k :: 0 <= k < f ==> s[w + k] == p.fraction[k];
    assert s[w + f] == p.unit[0];
    RunEndUnique(Digit, s, 0, w);
    if f > 0 {
      RunEndUnique(Digit, s, w + 1, w + f);
    }
  }

  lemma DurationFound(p: DurationParts, left: Option<byte>, s: bytes)
    requires p.WellFormed() && p.Text() <= s && !LeftWordOrDot(left) && !WordAt(s, |p.Text()|)
    ensures DurationLen(left, s) == Some(|p.Text()|)
  {
    hide UnitLen;
    hide RunEnd;
    hide FractionEnd;
    var (j, u) := (|p.whole| + |p.fraction|, |p.unit|);
    NumberFound(p, s);
    assert s[j..][..u] == p.unit by {
      assert p.Text()[j..][..u] == p.unit;
    }
    assert !WordAt(s[j..], u);
    assert IsUnit(p.unit) by {
      assert AllDigits("0");
    }
    UnitIff(s[j..], u);
  }

  lemma DurationSound(left: Option<byte>, s: bytes, n: nat)
    requires DurationLen(left, s) == Some(n)
    ensures FieldAt(Duration, left, s, n)
  {
    hide UnitLen;
    RunEndSpec(Digit, s, 0);
    var d := RunEnd(Digit, s, 0);
    var j := FractionEnd(s, d);
    FractionSound(s, d);
    UnitIff(s[j..], n - j);
    assert s[j..][..n - j] == s[j..n];
    DurationCut(s, d, j, n);
  }

  lemma FractionSound(s: bytes, d: nat)
    requires d <= |s|
    ensures FractionEnd(s, d) > d ==> IsFraction(s[d..FractionEnd(s, d)])
  {
    if FractionEnd(s, d) > d {
      RunEndSpec(Digit, s, d + 1);
    }
  }

  lemma DurationCut(s: bytes, d: nat, j: nat, n: nat)
    requires 0 < d <= j <= n <= |s| && AllDigits(s[..d]) && (j > d ==> IsFraction(s[d..j])) && IsUnit(s[j..n])
    ensures IsText(Duration, s[..n])
  {
    var p := DurationParts(s[..d], s[d..j], s[j..n]);
    assert p.WellFormed();
    Glue(s, d, j);
    Glue(s, j, n);
    assert p.Text() == s[..n];
  }

  // ---------------------------------------------------------------------------------------------
  // IP addresses
  // ---------------------------------------------------------------------------------------------

  lemma DottedGroup(s: bytes, k: nat, e: nat, n: nat)
    requires n > 0 && k < e <= |s| && e <= k + 3 && forall m :: k <= m < e ==> IsDigitChar(s[m])
    requires e < |s| ==> !IsDigitChar(s[e])
    requires n > 1 ==> At(s, e, '.')
    ensures DottedEnd(s, k, n) == if n == 1 then Some(e) else DottedEnd(s, e + 1, n - 1)
  {
    RunEndUnique(Digit, s, k, e);
  }

  lemma IpFound(p: IpParts, left: Option<byte>, s: bytes)
    requires p.WellFormed() && p.Text() <= s && Bounded(Ip, left, p.Text(), s[|p.Text()|..])
    ensures Ipv4Len(left, s) == Some(|p.Text()|)
  {
    IpAt(p);
    hide IpParts.Text, IpParts.WellFormed, PortEnd, DottedEnd, RunEnd, HasPort;
    var t := p.Text();
    var (a, b) := (|p.a|, |p.a| + 1 + |p.b|);
    var (c, d) := (b + 1 + |p.c|, b + 1 + |p.c| + 1 + |p.d|);
    var n := |t|;
    assert forall k :: 0 <= k < n ==> s[k] == t[k];
    assert forall k :: 0 <= k < |s| - n ==> s[n..][k] == s[n + k];
    assert d < n ==> s[d] == ':';
    IpGroups(s, a, b, c, d);
    PortFound(s, d, n);
  }

  lemma IpGroups(s: bytes, a: nat, b: nat, c: nat, d: nat)
    requires 0 < a <= 3 && 1 < b - a <= 4 && 1 < c - b <= 4 && 1 < d - c <= 4 && d <= |s|
    requires s[a] == '.' && s[b] == '.' && s[c] == '.' && (d < |s| ==> !IsDigitChar(s[d]))
    requires forall k :: 0 <= k < d && k != a && k != b && k != c ==> IsDigitChar(s[k])
    ensures DottedEnd(s, 0, 4) == Some(d)
  {
    hide RunEnd, DottedEnd;
    DottedGroup(s, 0, a, 4);
    DottedGroup(s, a + 1, b, 3);
    DottedGroup(s, b + 1, c, 2);
    DottedGroup(s, c + 1, d, 1);
  }

  lemma PortFound(s: bytes, d: nat, n: nat)
    requires d <= n <= |s| && !WordAt(s, n)
    requires if n == d then !(At(s, d, ':') && DigitAt(s, d + 1))
             else d + 2 <= n <= d + 6 && s[d] == ':' && forall k :: d < k < n ==> IsDigitChar(s[k])
    ensures PortEnd(s, d) == n
  {
    if n > d {
      RunEndUnique(Digit, s, d + 1, n);
    }
  }

  /** Where the parts of an address stand. */
  lemma IpAt(p: IpParts)
    requires p.WellFormed()
    ensures var t := p.Text();
            var (a, b) := (|p.a|, |p.a| + 1 + |p.b|);
            var (c, d) := (b + 1 + |p.c|, b + 1 + |p.c| + 1 + |p.d|);
            && 0 < a <= 3 && 1 < b - a <= 4 && 1 < c - b <= 4 && 1 < d - c <= 4
            && (p.port != [] ==> 2 <= |p.port| <= 6)
            && |t| == d + |p.port| && t[a] == '.' && t[b] == '.' && t[c] == '.'
            && (forall k :: 0 <= k < d && k != a && k != b && k != c ==> IsDigitChar(t[k]))
            && (p.port != [] ==> t[d] == ':' && forall k :: d < k < |t| ==> IsDigitChar(t[k]))
            && (HasPort(t) <==> p.port != [])
  {
    var t := p.Text();
    var (a, b) := (|p.a|, |p.a| + 1 + |p.b|);
    var (c, d) := (b + 1 + |p.c|, b + 1 + |p.c| + 1 + |p.d|);
    forall k | 0 <= k < d && k != a && k != b && k != c
      ensures IsDigitChar(t[k])
    {
      if k < a {
        assert t[k] == p.a[k];
      } else if k < b {
        assert t[k] == p.b[k - a - 1];
      } else if k < c {
        assert t[k] == p.c[k - b - 1];
      } else {
        assert t[k] == p.d[k - c - 1];
      }
    }
    if p.port != [] {
      assert t[d] == p.port[0];
      forall k | d < k < |t|
        ensures IsDigitChar(t[k])
      {
        assert t[k] == p.port[k - d] == p.port[1..][k - d - 1];
      }
    }
  }

  lemma DottedParts(s: bytes, k: nat, n: nat) returns (e: nat)
    requires k <= |s| && n > 0 && DottedEnd(s, k, n).Some?
    ensures k < e <= |s| && e <= k + 3 && forall m :: k <= m < e ==> IsDigitChar(s[m])
    ensures if n == 1 then DottedEnd(s, k, n) == Some(e)
            else At(s, e, '.') && DottedEnd(s, k, n) == DottedEnd(s, e + 1, n - 1)
  {
    RunEndSpec(Digit, s, k);
    e := Min(RunEnd(Digit, s, k), k + 3);
  }

  /** Where the octets end, and what follows them. */
  lemma IpPositions(left: Option<byte>, s: bytes, n: nat) returns (a: nat, b: nat, c: nat, d: nat)
    requires Ipv4Len(left, s) == Some(n)
    ensures 0 < a <= 3 && 1 < b - a <= 4 && 1 < c - b <= 4 && 1 < d - c <= 4 && d <= n <= |s|
    ensures s[a] == '.' && s[b] == '.' && s[c] == '.'
    ensures forall k :: 0 <= k < d && k != a && k != b && k != c ==> IsDigitChar(s[k])
    ensures n == PortEnd(s, d) && !LeftWordOrDot(left) && !WordAt(s, n) && !(At(s, d, '.') && DigitAt(s, d + 1))
  {
    hide DottedEnd, RunEnd, PortEnd;
    a := DottedParts(s, 0, 4);
    b := DottedParts(s, a + 1, 3);
    c := DottedParts(s, b + 1, 2);
    d := DottedParts(s, c + 1, 1);
  }

  lemma IpSound(left: Option<byte>, s: bytes, n: nat)
    requires Ipv4Len(left, s) == Some(n)
    ensures FieldAt(Ip, left, s, n)
  {
    hide Ipv4Len, IsText, PortEnd, HasPort;
    var a, b, c, d := IpPositions(left, s, n);
    PortSound(s, d);
    IpCut(s, a, b, c, d, n);
    var tail := s[n..];
    assert forall k :: 0 <= k < |tail| ==> tail[k] == s[n + k];
  }

  lemma PortSound(s: bytes, d: nat)
    requires d <= |s|
    ensures var e := PortEnd(s, d);
            if At(s, d, ':') && DigitAt(s, d + 1)
            then d + 2 <= e <= d + 6 && s[d] == ':' && forall k :: d < k < e ==> IsDigitChar(s[k])
            else e == d
  {
    if At(s, d, ':') && DigitAt(s, d + 1) {
      RunEndSpec(Digit, s, d + 1);
    }
  }

  lemma IpCut(s: bytes, a: nat, b: nat, c: nat, d: nat, n: nat)
    requires 0 < a <= 3 && 1 < b - a <= 4 && 1 < c - b <= 4 && 1 < d - c <= 4 && d <= n <= |s|
    requires s[a] == '.' && s[b] == '.' && s[c] == '.'
    requires forall k :: 0 <= k < d && k != a && k != b && k != c ==> IsDigitChar(s[k])
    requires n == d || (d + 2 <= n <= d + 6 && s[d] == ':' && forall k :: d < k < n ==> IsDigitChar(s[k]))
    ensures IsText(Ip, s[..n]) && (HasPort(s[..n]) <==> n > d)
  {
    var p := IpParts(s[..a], s[a + 1..b], s[b + 1..c], s[c + 1..d], s[d..n]);
    PortIff(s, a, b, c, d, n);
    PortPart(s, d, n);
    assert IsOctet(s[..a]) && IsOctet(s[a + 1..b]) && IsOctet(s[b + 1..c]) && IsOctet(s[c + 1..d]);
    hide IsOctet, AllDigits, HasPort;
    assert p.WellFormed();
    IpText(s, a, b, c, d, n);
  }

  lemma PortIff(s: bytes, a: nat, b: nat, c: nat, d: nat, n: nat)
    requires a < b < c < d <= n <= |s| && s[a] == '.' && s[b] == '.' && s[c] == '.' && (n > d ==> s[d] == ':')
    requires forall k :: 0 <= k < d && k != a && k != b && k != c ==> IsDigitChar(s[k])
    ensures HasPort(s[..n]) <==> n > d
  {
    if n > d {
      assert s[..n][d] == ':';
    }
  }

  lemma PortPart(s: bytes, d: nat, n: nat)
    requires d <= n <= |s|
    requires n == d || (d + 2 <= n <= d + 6 && s[d] == ':' && forall k :: d < k < n ==> IsDigitChar(s[k]))
    ensures var port := s[d..n]; port == [] || (2 <= |port| <= 6 && port[0] == ':' && AllDigits(port[1..]))
  {
    if n > d {
      assert s[d..n][1..] == s[d + 1..n];
    }
  }

  lemma IpText(s: bytes, a: nat, b: nat, c: nat, d: nat, n: nat)
    requires a < b < c < d <= n <= |s| && s[a] == '.' && s[b] == '.' && s[c] == '.'
    ensures IpParts(s[..a], s[a + 1..b], s[b + 1..c], s[c + 1..d], s[d..n]).Text() == s[..n]
  {
    GlueByte(s, a);
    Glue(s, a + 1, b);
    GlueByte(s, b);
    Glue(s, b + 1, c);
    GlueByte(s, c);
    Glue(s, c + 1, d);
    Glue(s, d, n);
  }

  lemma IpIff(left: Option<byte>, s: bytes, n: nat)
    ensures Ipv4Len(left, s) == Some(n) <==> FieldAt(Ip, left, s, n)
  {
    if FieldAt(Ip, left, s, n) {
      var p: IpParts :| p.WellFormed() && p.Text() == s[..n];
      IpFound(p, left, s);
    }
    if Ipv4Len(left, s) == Some(n) {
      IpSound(left, s, n);
    }
  }

  // ---------------------------------------------------------------------------------------------
  // Timestamps
  // ---------------------------------------------------------------------------------------------

  lemma StampSound(s: bytes)
    requires TimestampLen(s).Some?
    ensures 19 <= TimestampLen(s).value <= |s| && IsText(Timestamp, s[..TimestampLen(s).value])
  {
    hide FractionEnd, ZoneEnd, IsFraction, IsOffset;
    var f := FractionEnd(s, 19);
    var n := ZoneEnd(s, f);
    FractionSound(s, 19);
    ZoneSound(s, f);
    var p := Stamp(s[..19], s[19..f], s[f..n]);
    assert p.WellFormed();
    Glue(s, 19, f);
    Glue(s, f, n);
    assert p.Text() == s[..n];
  }

  lemma ZoneSound(s: bytes, f: nat)
    requires f <= |s|
    ensures var z := s[f..ZoneEnd(s, f)]; z == [] || z == "Z" || IsOffset(z)
  {
    var z := s[f..ZoneEnd(s, f)];
    assert forall k :: 0 <= k < |z| ==> z[k] == s[f + k];
  }

  /** A timestamp text at the start is part of what the scanner takes. */
  lemma StampWithin(p: Stamp, s: bytes)
    requires p.WellFormed() && p.Text() <= s
    ensures TimestampLen(s).Some? && |p.Text()| <= TimestampLen(s).value
  {
    var t := p.Text();
    var f := 19 + |p.fraction|;
    assert forall k :: 0 <= k < |t| ==> s[k] == t[k];
    assert forall k :: 0 <= k < 19 ==> t[k] == p.dateTime[k];
    assert forall k :: 0 <= k < |p.fraction| ==> t[19 + k] == p.fraction[k];
    assert forall k :: 0 <= k < |p.zone| ==> t[f + k] == p.zone[k];
    assert IsDateTime(s);
    if p.fraction != [] {
      RunEndAtLeast(Digit, s, 20, f);
      if p.zone != [] {
        RunEndUnique(Digit, s, 20, f);
      }
    }
    assert p.zone != [] ==> FractionEnd(s, 19) == f;
  }

  lemma TimestampIff(left: Option<byte>, s: bytes, n: nat)
    ensures TimestampLen(s) == Some(n) <==> FieldAt(Timestamp, left, s, n)
  {
    hide TimestampLen, Stamp.WellFormed, Stamp.Text;
    if n <= |s| {
      assert s[..n] + s[n..] == s;
    }
    if TimestampLen(s) == Some(n) {
      StampSound(s);
      forall m | n < m <= |s|
        ensures !IsText(Timestamp, s[..m])
      {
        if IsText(Timestamp, s[..m]) {
          var p: Stamp :| p.WellFormed() && p.Text() == s[..m];
          StampWithin(p, s);
        }
      }
    }
    if FieldAt(Timestamp, left, s, n) {
      var p: Stamp :| p.WellFormed() && p.Text() == s[..n];
      StampWithin(p, s);
      StampSound(s);
    }
  }

  // ---------------------------------------------------------------------------------------------
  // The masker
  // ---------------------------------------------------------------------------------------------

  /** Each scanner finds exactly the fields of its kind. */
  lemma FoundIff(f: Field, left: Option<byte>, s: bytes, n: nat)
    ensures LenOf(f, left, s) == Some(n) <==> FieldAt(f, left, s, n)
  {
    hide FieldAt, TimestampLen, UuidLen, Ipv4Len, DurationLen, HexLen, IntLen;
    match f
    case Timestamp => TimestampIff(left, s, n);
    case Uuid => UuidIff(left, s, n);
    case Ip => IpIff(left, s, n);
    case Duration => DurationIff(left, s, n);
    case Hex => HexIff(left, s, n);
    case Int => IntIff(left, s, n);
  }

  /** No field of the kind begins here. */
  ghost predicate NoField(f: Field, left: Option<byte>, s: bytes) {
    forall n: nat :: !FieldAt(f, left, s, n)
  }

  lemma NothingFoundIff(f: Field, left: Option<byte>, s: bytes)
    ensures LenOf(f, left, s).None? <==> NoField(f, left, s)
  {
    hide FieldAt, LenOf;
    if LenOf(f, left, s).Some? {
      FoundIff(f, left, s, LenOf(f, left, s).value);
    } else {
      forall n: nat
        ensures !FieldAt(f, left, s, n)
      {
        FoundIff(f, left, s, n);
      }
    }
  }

  /** A field becomes its placeholder, unless a field of a kind that is looked for earlier begins at the same place. */
  lemma FieldIsMasked(f: Field, left: Option<byte>, s: bytes, n: nat)
    requires FieldAt(f, left, s, n) && (forall g: Field :: g.Rank() < f.Rank() ==> NoField(g, left, s))
    ensures 0 < n <= |s| && NextPiece(left, s) == Piece(f.Placeholder(), n)
  {
    hide FieldAt, NoField, TimestampLen, UuidLen, Ipv4Len, DurationLen, HexLen, IntLen, ValueLen;
    FoundIff(f, left, s, n);
    MaskedIsWhole(left, s);
    EarlierFields(f, left, s);
    if f.Int? {
      IntStart(left, s);
    }
  }

  lemma EarlierFields(f: Field, left: Option<byte>, s: bytes)
    requires forall g: Field :: g.Rank() < f.Rank() ==> NoField(g, left, s)
    ensures f != Timestamp ==> TimestampLen(s).None?
    ensures f !in {Timestamp, Uuid} ==> UuidLen(left, s).None?
    ensures f !in {Timestamp, Uuid, Ip} ==> Ipv4Len(left, s).None?
    ensures f in {Hex, Int} ==> DurationLen(left, s).None?
    ensures f == Int ==> HexLen(left, s).None?
  {
    hide NoField, TimestampLen, UuidLen, Ipv4Len, DurationLen, HexLen, IntLen;
    assert forall g: Field :: g.Rank() < f.Rank() ==> LenOf(g, left, s).None? by {
      forall g: Field | g.Rank() < f.Rank()
        ensures LenOf(g, left, s).None?
      {
        NothingFoundIff(g, left, s);
      }
    }
    assert f != Timestamp ==> LenOf(Timestamp, left, s).None?;
    assert f !in {Timestamp, Uuid} ==> LenOf(Uuid, left, s).None?;
    assert f !in {Timestamp, Uuid, Ip} ==> LenOf(Ip, left, s).None?;
    assert f in {Hex, Int} ==> LenOf(Duration, left, s).None?;
    assert f == Int ==> LenOf(Hex, left, s).None?;
  }

  lemma IntStart(left: Option<byte>, s: bytes)
    requires IntLen(left, s).Some?
    ensures s != [] && IsDigitChar(s[0]) && s[0] != '='
  {
  }

  /**
    The first `n` bytes are a value: from a quote to the next one, or to the end if there is none; or up to a separator.
   */
  ghost predicate ValueAt(s: bytes, n: nat) {
    0 < n <= |s|
    && if s[0] == '"'
       then && (forall k :: 0 < k < n - 1 ==> s[k] != '"')
            && ((n >= 2 && s[n - 1] == '"') || (n == |s| && (n >= 2 ==> s[n - 1] != '"')))
       else (forall k :: 0 <= k < n ==> s[k] !in {' ', '\t', ','}) && (n < |s| ==> s[n] in {' ', '\t', ','})
  }

  lemma ValueIff(s: bytes, n: nat)
    ensures ValueLen(s) == Some(n) <==> ValueAt(s, n)
  {
    if s != [] && s[0] == '"' {
      RunEndSpec(Unquoted, s, 1);
    } else {
      RunEndSpec(Unseparated, s, 0);
    }
    if ValueAt(s, n) {
      if s[0] == '"' {
        RunEndUnique(Unquoted, s, 1, if n >= 2 && s[n - 1] == '"' then n - 1 else n);
      } else {
        RunEndUnique(Unseparated, s, 0, n);
      }
    }
  }

  /** Where no field begins, an equals sign masks its value, and any other character is copied. */
  lemma OtherwiseCopied(left: Option<byte>, s: bytes)
    requires s != [] && (forall g: Field :: NoField(g, left, s))
    ensures s[0] != '=' ==> NextPiece(left, s) == Piece(s[..Min(LeadLen(s[0]), |s|)], Min(LeadLen(s[0]), |s|))
    ensures s[0] == '=' && (forall n: nat :: !ValueAt(s[1..], n)) ==> NextPiece(left, s) == Piece("=", 1)
    ensures forall n: nat :: s[0] == '=' && ValueAt(s[1..], n) ==> NextPiece(left, s) == Piece("=<KV>", 1 + n)
  {
    hide NoField, TimestampLen, UuidLen, Ipv4Len, DurationLen, HexLen, IntLen, ValueLen, ValueAt;
    forall n: nat
      ensures ValueLen(s[1..]) == Some(n) <==> ValueAt(s[1..], n)
    {
      ValueIff(s[1..], n);
    }
    NothingFoundIff(Timestamp, left, s);
    NothingFoundIff(Uuid, left, s);
    NothingFoundIff(Ip, left, s);
    NothingFoundIff(Duration, left, s);
    NothingFoundIff(Hex, left, s);
    NothingFoundIff(Int, left, s);
  }
}
