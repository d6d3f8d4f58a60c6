/**
  The variable fields of a log line.

  Each function looks at a suffix `s` of the line, and where the program guards the left side also at the
  byte before it (`left`, `None` at the start of the line), and returns the length of the field `s` starts with.
  The methods walk the whole line by index, as the program does, and are proved to find exactly these fields.
 */
module LogScanners {
  import opened Common
  import opened Utf8

  // ---------------------------------------------------------------------------------------------
  // Byte classes and runs
  // ---------------------------------------------------------------------------------------------

  predicate IsHexDigit(c: byte) {
    IsDigitChar(c) || 'a' <= c <= 'f' || 'A' <= c <= 'F'
  }

  predicate IsWordByte(c: byte) {
    IsDigitChar(c) || 'a' <= c <= 'z' || 'A' <= c <= 'Z' || c == '_'
  }

  /** Ends an unquoted value. */
  predicate IsSeparator(c: byte) {
    c == ' ' || c == '\t' || c == ','
  }

  datatype Class = Digit | HexDigit | Unseparated | Unquoted | NotNewline

  predicate In(c: byte, cls: Class) {
    match cls
    case Digit => IsDigitChar(c)
    case HexDigit => IsHexDigit(c)
    case Unseparated => !IsSeparator(c)
    case Unquoted => c != '"'
    case NotNewline => c != '\n'
  }

  /** End of the longest run of bytes of the class from position `k` of `s`. */
  function RunEnd(cls: Class, s: bytes, k: nat): (e: nat)
    requires k <= |s|
    ensures k <= e <= |s|
    decreases |s| - k
  {
    if k < |s| && In(s[k], cls) then RunEnd(cls, s, k + 1) else k
  }

  /** The run consists of class bytes and the byte after it is not one. */
  lemma {:induction false} RunEndSpec(cls: Class, s: bytes, k: nat)
    requires k <= |s|
    ensures forall m :: k <= m < RunEnd(cls, s, k) ==> In(s[m], cls)
    ensures RunEnd(cls, s, k) < |s| ==> !In(s[RunEnd(cls, s, k)], cls)
    decreases |s| - k
  {
    if k < |s| && In(s[k], cls) {
      RunEndSpec(cls, s, k + 1);
    }
  }

  /** `e` is the end of the run when the bytes up to `e` are class bytes and the byte at `e` is not. */
  lemma {:induction false} RunEndUnique(cls: Class, s: bytes, k: nat, e: nat)
    requires k <= e <= |s|
    requires forall m :: k <= m < e ==> In(s[m], cls)
    requires e < |s| ==> !In(s[e], cls)
    ensures RunEnd(cls, s, k) == e
    decreases e - k
  {
    if k < e {
      RunEndUnique(cls, s, k + 1, e);
    }
  }

  lemma {:induction false} RunEndAtLeast(cls: Class, s: bytes, k: nat, e: nat)
    requires k <= e <= |s|
    requires forall m :: k <= m < e ==> In(s[m], cls)
    ensures RunEnd(cls, s, k) >= e
    decreases e - k
  {
    if k < e {
      RunEndAtLeast(cls, s, k + 1, e);
    }
  }

  predicate At(s: bytes, k: nat, c: byte) {
    k < |s| && s[k] == c
  }

  predicate DigitAt(s: bytes, k: nat) {
    k < |s| && IsDigitChar(s[k])
  }

  predicate HexAt(s: bytes, k: nat) {
    k < |s| && IsHexDigit(s[k])
  }

  predicate WordAt(s: bytes, k: nat) {
    k < |s| && IsWordByte(s[k])
  }

  predicate LeftWord(left: Option<byte>) {
    left.Some? && IsWordByte(left.value)
  }

  predicate LeftWordOrDot(left: Option<byte>) {
    left.Some? && (IsWordByte(left.value) || left.value == '.')
  }

  // ---------------------------------------------------------------------------------------------
  // Fields
  // ---------------------------------------------------------------------------------------------

  /** `YYYY-MM-DD[T ]hh:mm:ss` */
  predicate IsDateTime(s: bytes) {
    && |s| >= 19
    && IsDigitChar(s[0]) && IsDigitChar(s[1]) && IsDigitChar(s[2]) && IsDigitChar(s[3]) && s[4] == '-'
    && IsDigitChar(s[5]) && IsDigitChar(s[6]) && s[7] == '-' && IsDigitChar(s[8]) && IsDigitChar(s[9])
    && (s[10] == 'T' || s[10] == ' ')
    && IsDigitChar(s[11]) && IsDigitChar(s[12]) && s[13] == ':'
    && IsDigitChar(s[14]) && IsDigitChar(s[15]) && s[16] == ':'
    && IsDigitChar(s[17]) && IsDigitChar(s[18])
  }

  /** Past `.` and at least one digit at `k`, else `k`. */
  function FractionEnd(s: bytes, k: nat): (e: nat)
    requires k <= |s|
    ensures k <= e <= |s|
  {
    if At(s, k, '.') && DigitAt(s, k + 1) then RunEnd(Digit, s, k + 1) else k
  }

  /** Past `Z`, `+hh`, `+hhmm` or `+hh:mm`, or the same with `-`, at `k`, else `k`. */
  function ZoneEnd(s: bytes, k: nat): (e: nat)
    requires k <= |s|
    ensures k <= e <= |s|
  {
    if At(s, k, 'Z') then k + 1
    else if (At(s, k, '+') || At(s, k, '-')) && DigitAt(s, k + 1) && DigitAt(s, k + 2) then
      if At(s, k + 3, ':') && DigitAt(s, k + 4) && DigitAt(s, k + 5) then k + 6
      else if DigitAt(s, k + 3) && DigitAt(s, k + 4) then k + 5
      else k + 3
    else k
  }

  function TimestampLen(s: bytes): Option<nat> {
    if IsDateTime(s) then Some(ZoneEnd(s, FractionEnd(s, 19))) else None
  }

  /** 8-4-4-4-12 hexadecimal digits with hyphens between. */
  predicate IsUuid(s: bytes) {
    |s| >= 36
    && forall k :: 0 <= k < 36 ==> if k in {8, 13, 18, 23} then s[k] == '-' else IsHexDigit(s[k])
  }

  function UuidLen(left: Option<byte>, s: bytes): Option<nat> {
    if LeftWord(left) || !IsUuid(s) || WordAt(s, 36) || At(s, 36, '-') then None else Some(36)
  }

  /** End of `n` dot-separated groups of one to three digits each at `k`. */
  function DottedEnd(s: bytes, k: nat, n: nat): (r: Option<nat>)
    requires k <= |s| && n > 0
    ensures r.Some? ==> k < r.value <= |s|
    decreases n
  {
    var e := Min(RunEnd(Digit, s, k), k + 3);
    if e == k then None
    else if n == 1 then Some(e)
    else if !At(s, e, '.') then None
    else DottedEnd(s, e + 1, n - 1)
  }

  /** Past `:` and one to five digits at `k`, else `k`. */
  function PortEnd(s: bytes, k: nat): (e: nat)
    requires k <= |s|
    ensures k <= e <= |s|
  {
    if At(s, k, ':') && DigitAt(s, k + 1) then Min(RunEnd(Digit, s, k + 1), k + 6) else k
  }

  function Ipv4Len(left: Option<byte>, s: bytes): Option<nat> {
    if LeftWordOrDot(left) then None
    else match DottedEnd(s, 0, 4)
      case None => None
      case Some(q) =>
        if At(s, q, '.') && DigitAt(s, q + 1) then None
        else
          var e := PortEnd(s, q);
          if WordAt(s, e) then None else Some(e)
  }

  const TWO_LETTER_UNITS: set<bytes> := {"ns", "us", "ms", "kb", "mb", "gb", "KB", "MB", "GB"}

  /** Length of the unit `s` starts with: two letters before one. */
  function UnitLen(s: bytes): (n: nat)
    ensures n <= |s| && n <= 2
  {
    if |s| >= 2 && s[..2] in TWO_LETTER_UNITS then 2
    else if |s| >= 1 && s[0] in {'s', 'm', 'h', 'B'} then 1
    else 0
  }

  function DurationLen(left: Option<byte>, s: bytes): Option<nat> {
    var d := RunEnd(Digit, s, 0);
    if LeftWordOrDot(left) || d == 0 then None
    else
      var j := FractionEnd(s, d);
      var e := j + UnitLen(s[j..]);
      if e == j || WordAt(s, e) then None else Some(e)
  }

  predicate HasHexPrefix(s: bytes) {
    At(s, 0, '0') && (At(s, 1, 'x') || At(s, 1, 'X'))
  }

  function HexLen(left: Option<byte>, s: bytes): Option<nat> {
    if LeftWord(left) then None
    else if HasHexPrefix(s) then
      var e := RunEnd(HexDigit, s, 2);
      if e == 2 || WordAt(s, e) then None else Some(e)
    else
      var e := RunEnd(HexDigit, s, 0);
      if e >= 4 && RunEnd(Digit, s, 0) < e && !WordAt(s, e) then Some(e) else None
  }

  function IntLen(left: Option<byte>, s: bytes): Option<nat> {
    var e := RunEnd(Digit, s, 0);
    if e == 0 || LeftWordOrDot(left) || WordAt(s, e) || At(s, e, '.') then None else Some(e)
  }

  /** The value after `key=`: quoted up to the closing quote (or the end), else up to a separator. */
  function ValueLen(s: bytes): (r: Option<nat>)
    ensures r.Some? ==> 0 < r.value <= |s|
  {
    if s == [] then None
    else if s[0] == '"' then
      var q := RunEnd(Unquoted, s, 1);
      Some(if q < |s| then q + 1 else q)
    else
      var n := RunEnd(Unseparated, s, 0);
      if n == 0 then None else Some(n)
  }

  // ---------------------------------------------------------------------------------------------
  // The scanners
  // ---------------------------------------------------------------------------------------------

  /** The byte before position `i`. */
  function LeftOf(b: bytes, i: nat): Option<byte>
    requires i <= |b|
  {
    if i == 0 then None else Some(b[i - 1])
  }

  /** A field of the given length found at position `i` ends at position `i + length`. */
  function EndAt(i: nat, len: Option<nat>): Option<nat> {
    if len.None? then None else Some(i + len.value)
  }

  method TakeTimestamp(b: bytes, i: nat) returns (r: Option<nat>)
    requires i <= |b|
    ensures r == EndAt(i, TimestampLen(b[i..]))
  {
    if !(DigitAt(b, i) && DigitAt(b, i + 1) && DigitAt(b, i + 2) && DigitAt(b, i + 3)) {
      return None;
    }
    if !At(b, i + 4, '-') || !At(b, i + 7, '-') {
      return None;
    }
    if !(DigitAt(b, i + 5) && DigitAt(b, i + 6) && DigitAt(b, i + 8) && DigitAt(b, i + 9)) {
      return None;
    }
    if !At(b, i + 10, 'T') && !At(b, i + 10, ' ') {
      return None;
    }
    if !(DigitAt(b, i + 11) && DigitAt(b, i + 12)) || !At(b, i + 13, ':') {
      return None;
    }
    if !(DigitAt(b, i + 14) && DigitAt(b, i + 15)) || !At(b, i + 16, ':') {
      return None;
    }
    if !(DigitAt(b, i + 17) && DigitAt(b, i + 18)) {
      return None;
    }
    var j := TakeFraction(b, i, i + 19);
    if At(b, j, 'Z') {
      j := j + 1;
    } else if (At(b, j, '+') || At(b, j, '-')) && DigitAt(b, j + 1) && DigitAt(b, j + 2) {
      var k := j + 3;
      if At(b, k, ':') && DigitAt(b, k + 1) && DigitAt(b, k + 2) {
        k := k + 3;
      } else if DigitAt(b, k) && DigitAt(b, k + 1) {
        k := k + 2;
      }
      j := k;
    }
    return Some(j);
  }

  /** The optional `.digits` part, at `j`, of a timestamp or duration that starts at `i`. */
  method TakeFraction(b: bytes, ghost i: nat, j: nat) returns (r: nat)
    requires i <= j <= |b|
    ensures r == i + FractionEnd(b[i..], j - i)
  {
    r := j;
    if At(b, j, '.') {
      var k := j + 1;
      while DigitAt(b, k)
        invariant j + 1 <= k <= |b|
        invariant forall m :: j + 1 - i <= m < k - i ==> IsDigitChar(b[i..][m])
        decreases |b| - k
      {
        k := k + 1;
      }
      RunEndUnique(Digit, b[i..], j + 1 - i, k - i);
      if k > j + 1 {
        r := k;
      }
    }
  }

  const UUID_GROUPS: seq<nat> := [8, 4, 4, 4, 12]

  /** Start of the `idx`-th group of a UUID. */
  function GroupStart(idx: nat): nat {
    if idx == 0 then 0 else if idx == 5 then 36 else 4 + 5 * idx
  }

  method TakeUuid(b: bytes, i: nat) returns (r: Option<nat>)
    requires i <= |b|
    ensures r == EndAt(i, UuidLen(LeftOf(b, i), b[i..]))
  {
    ghost var s := b[i..];
    if i > 0 && IsWordByte(b[i - 1]) {
      return None;
    }
    var j := i;
    for idx := 0 to 5
      invariant j == i + GroupStart(idx) <= |b|
      invariant forall k :: 0 <= k < j - i ==> if k in {8, 13, 18, 23} then s[k] == '-' else IsHexDigit(s[k])
    {
      var n := UUID_GROUPS[idx];
      for o := 0 to n
        invariant j + o <= |b|
        invariant forall k :: j - i <= k < j - i + o ==> IsHexDigit(s[k])
      {
        if !HexAt(b, j + o) {
          assert j + o < |b| ==> !IsHexDigit(s[j + o - i]);
          return None;
        }
      }
      j := j + n;
      if idx < 4 {
        if !At(b, j, '-') {
          assert j < |b| ==> s[j - i] != '-';
          return None;
        }
        j := j + 1;
      }
    }
    assert IsUuid(s);
    if WordAt(b, j) || At(b, j, '-') {
      return None;
    }
    return Some(j);
  }

  /** At most `max` digits from position `start`, within a field that starts at `i`. */
  method TakeDigits(b: bytes, ghost i: nat, start: nat, max: nat) returns (k: nat)
    requires i <= start <= |b|
    ensures k == i + Min(RunEnd(Digit, b[i..], start - i), start - i + max)
  {
    k := start;
    while DigitAt(b, k) && k - start < max
      invariant start <= k <= |b| && k - start <= max
      invariant forall m :: start - i <= m < k - i ==> IsDigitChar(b[i..][m])
    {
      k := k + 1;
    }
    if k - start < max {
      RunEndUnique(Digit, b[i..], start - i, k - i);
    } else {
      RunEndAtLeast(Digit, b[i..], start - i, k - i);
    }
  }

  /** Four dot-separated octets of one to three digits. */
  method TakeOctets(b: bytes, i: nat) returns (r: Option<nat>)
    requires i <= |b|
    ensures r == EndAt(i, DottedEnd(b[i..], 0, 4))
  {
    hide RunEnd;
    ghost var s := b[i..];
    var j := i;
    for octet := 0 to 4
      invariant i <= j <= |b|
      invariant DottedEnd(s, 0, 4) == if octet < 4 then DottedEnd(s, j - i, 4 - octet) else Some(j - i)
    {
      var start := j;
      j := TakeDigits(b, i, j, 3);
      if j == start {
        return None;
      }
      if octet < 3 {
        if !At(b, j, '.') {
          return None;
        }
        j := j + 1;
      }
    }
    return Some(j);
  }

  method TakeIpv4(b: bytes, i: nat) returns (r: Option<nat>)
    requires i <= |b|
    ensures r == EndAt(i, Ipv4Len(LeftOf(b, i), b[i..]))
  {
    hide RunEnd, DottedEnd;
    if i > 0 && (IsWordByte(b[i - 1]) || b[i - 1] == '.') {
      return None;
    }
    var quad := TakeOctets(b, i);
    if quad.None? {
      return None;
    }
    var j := quad.value;
    if At(b, j, '.') && DigitAt(b, j + 1) {
      return None;
    }
    if At(b, j, ':') && DigitAt(b, j + 1) {
      j := TakeDigits(b, i, j + 1, 5);
    }
    if WordAt(b, j) {
      return None;
    }
    return Some(j);
  }

  const UNITS: seq<bytes> := ["ns", "us", "ms", "kb", "mb", "gb", "KB", "MB", "GB", "s", "m", "h"]

  /** The longest unit of the list that `rest` starts with, else the single byte `B`. */
  method LongestUnit(rest: bytes) returns (unitLen: nat)
    ensures unitLen == UnitLen(rest)
  {
    unitLen := 0;
    for k := 0 to |UNITS|
      invariant forall m :: 0 <= m < k && UNITS[m] <= rest ==> |UNITS[m]| <= unitLen
      invariant unitLen > 0 ==> exists m :: 0 <= m < k && UNITS[m] <= rest && |UNITS[m]| == unitLen
    {
      var u := UNITS[k];
      if u <= rest && |u| > unitLen {
        unitLen := |u|;
      }
    }
    UnitsCovered(rest);
    if unitLen == 0 && rest != [] && rest[0] == 'B' {
      unitLen := 1;
    }
  }

  /** The units of the list are the two-letter units and `s`, `m`, `h`. */
  lemma UnitsCovered(rest: bytes)
    ensures forall m :: 0 <= m < 12 && UNITS[m] <= rest ==> 0 < |UNITS[m]| <= UnitLen(rest)
    ensures UnitLen(rest) > 0 && (|rest| > 0 && UnitLen(rest) == 1 ==> rest[0] != 'B')
      ==> exists m :: 0 <= m < 12 && UNITS[m] <= rest && |UNITS[m]| == UnitLen(rest)
  {
    assert UNITS[0] == "ns" && UNITS[1] == "us" && UNITS[2] == "ms" && UNITS[3] == "kb" && UNITS[4] == "mb"
        && UNITS[5] == "gb" && UNITS[6] == "KB" && UNITS[7] == "MB" && UNITS[8] == "GB"
        && UNITS[9] == "s" && UNITS[10] == "m" && UNITS[11] == "h";
    if |rest| >= 2 {
      assert rest[..2] == [rest[0], rest[1]];
    }
  }

  method TakeDuration(b: bytes, i: nat) returns (r: Option<nat>)
    requires i <= |b|
    ensures r == EndAt(i, DurationLen(LeftOf(b, i), b[i..]))
  {
    hide RunEnd, FractionEnd, UnitLen;
    ghost var s := b[i..];
    if i > 0 && (IsWordByte(b[i - 1]) || b[i - 1] == '.') {
      return None;
    }
    var j := i;
    while DigitAt(b, j)
      invariant i <= j <= |b|
      invariant forall m :: 0 <= m < j - i ==> IsDigitChar(s[m])
      decreases |b| - j
    {
      j := j + 1;
    }
    RunEndUnique(Digit, s, 0, j - i);
    if j == i {
      return None;
    }
    j := TakeFraction(b, i, j);
    DropDrop(b, i, j - i);
    var unitLen := LongestUnit(b[j..]);
    if unitLen == 0 {
      return None;
    }
    var end := j + unitLen;
    if WordAt(b, end) {
      return None;
    }
    return Some(end);
  }

  method TakeHex(b: bytes, i: nat) returns (r: Option<nat>)
    requires i <= |b|
    ensures r == EndAt(i, HexLen(LeftOf(b, i), b[i..]))
  {
    ghost var s := b[i..];
    if i > 0 && IsWordByte(b[i - 1]) {
      return None;
    }
    if At(b, i, '0') && (At(b, i + 1, 'x') || At(b, i + 1, 'X')) {
      var k := i + 2;
      while HexAt(b, k)
        invariant i + 2 <= k <= |b|
        invariant forall m :: 2 <= m < k - i ==> IsHexDigit(s[m])
        decreases |b| - k
      {
        k := k + 1;
      }
      RunEndUnique(HexDigit, s, 2, k - i);
      if k > i + 2 {
        if WordAt(b, k) {
          return None;
        }
        return Some(k);
      }
      return None;
    }
    var j := i;
    var hasAlpha := false;
    while j < |b|
      invariant i <= j <= |b|
      invariant forall m :: 0 <= m < j - i ==> IsHexDigit(s[m])
      invariant hasAlpha <==> exists m :: 0 <= m < j - i && !IsDigitChar(s[m])
    {
      var c := b[j];
      assert c == s[j - i];
      if IsDigitChar(c) {
        j := j + 1;
      } else if IsHexDigit(c) {
        hasAlpha := true;
        j := j + 1;
      } else {
        break;
      }
    }
    RunEndUnique(HexDigit, s, 0, j - i);
    AlphaInRun(s);
    if j - i >= 4 && hasAlpha && !WordAt(b, j) {
      return Some(j);
    }
    return None;
  }

  /** A hexadecimal run contains a letter exactly when it goes on past its leading digits. */
  lemma AlphaInRun(s: bytes)
    ensures (exists m :: 0 <= m < RunEnd(HexDigit, s, 0) && !IsDigitChar(s[m]))
       <==> RunEnd(Digit, s, 0) < RunEnd(HexDigit, s, 0)
  {
    var d, h := RunEnd(Digit, s, 0), RunEnd(HexDigit, s, 0);
    RunEndSpec(Digit, s, 0);
    RunEndSpec(HexDigit, s, 0);
    if d < h {
      assert !IsDigitChar(s[d]);
    }
  }

  method TakeInt(b: bytes, i: nat) returns (r: Option<nat>)
    requires i <= |b|
    ensures r == EndAt(i, IntLen(LeftOf(b, i), b[i..]))
  {
    ghost var s := b[i..];
    if !DigitAt(b, i) {
      return None;
    }
    if i > 0 && (IsWordByte(b[i - 1]) || b[i - 1] == '.') {
      return None;
    }
    var j := i;
    while DigitAt(b, j)
      invariant i <= j <= |b|
      invariant forall m :: 0 <= m < j - i ==> IsDigitChar(s[m])
      decreases |b| - j
    {
      j := j + 1;
    }
    RunEndUnique(Digit, s, 0, j - i);
    if WordAt(b, j) || At(b, j, '.') {
      return None;
    }
    return Some(j);
  }

  method TakeKvValue(b: bytes, i: nat) returns (r: Option<nat>)
    requires i <= |b|
    ensures r == EndAt(i, ValueLen(b[i..]))
  {
    ghost var s := b[i..];
    if i == |b| {
      return None;
    }
    if b[i] == '"' {
      var j := i + 1;
      while j < |b|
        invariant i + 1 <= j <= |b|
        invariant forall m :: 1 <= m < j - i ==> s[m] != '"'
      {
        j := j + 1;
        if b[j - 1] == '"' {
          RunEndUnique(Unquoted, s, 1, j - 1 - i);
          return Some(j);
        }
      }
      RunEndUnique(Unquoted, s, 1, j - i);
      return Some(j);
    }
    if IsSeparator(b[i]) {
      return None;
    }
    var j := i;
    while j < |b| && !IsSeparator(b[j])
      invariant i <= j <= |b|
      invariant forall m :: 0 <= m < j - i ==> !IsSeparator(s[m])
    {
      j := j + 1;
    }
    RunEndUnique(Unseparated, s, 0, j - i);
    return Some(j);
  }
}
