/**
  The template of a log line: the line with its variable fields replaced by placeholders.
 */
module LogTemplates {
  import opened Common
  import opened Utf8
  import opened LogScanners

  // ---------------------------------------------------------------------------------------------
  // The template of a line
  // ---------------------------------------------------------------------------------------------

  /** What the next `len` bytes of the line become in the template. */
  datatype Piece = Piece(text: bytes, len: nat)

  /** The placeholder at the start of `s`: the most specific field first, so that a broad one cannot take part of it. */
  function MaskedPiece(left: Option<byte>, s: bytes): Option<Piece> {
    if TimestampLen(s).Some? then Some(Piece("<TS>", TimestampLen(s).value))
    else if UuidLen(left, s).Some? then Some(Piece("<UUID>", UuidLen(left, s).value))
    else if Ipv4Len(left, s).Some? then Some(Piece("<IP>", Ipv4Len(left, s).value))
    else if DurationLen(left, s).Some? then Some(Piece("<DUR>", DurationLen(left, s).value))
    else if HexLen(left, s).Some? then Some(Piece("<HEX>", HexLen(left, s).value))
    else None
  }

  /** Length announced by the first byte of a UTF-8 character; 1 for a stray tail byte. */
  function LeadLen(c: byte): (n: nat)
    ensures 1 <= n <= 4
  {
    if c < '\U{80}' then 1
    else if '\U{C0}' <= c < '\U{E0}' then 2
    else if '\U{E0}' <= c < '\U{F0}' then 3
    else if '\U{F0}' <= c < '\U{F8}' then 4
    else 1
  }

  function NextPiece(left: Option<byte>, s: bytes): (p: Piece)
    requires s != []
    ensures 0 < p.len <= |s|
  {
    MaskedIsWhole(left, s);
    var masked := MaskedPiece(left, s);
    if masked.Some? then masked.value
    else if s[0] == '=' then
      match ValueLen(s[1..])
      case Some(n) => Piece("=<KV>", 1 + n)
      case None => Piece("=", 1)
    else if IntLen(left, s).Some? then Piece("<INT>", IntLen(left, s).value)
    else
      var n := Min(LeadLen(s[0]), |s|);
      Piece(s[..n], n)
  }

  /** The template of the suffix `s` of a line whose byte before `s` is `left`. */
  function TemplateFrom(left: Option<byte>, s: bytes): bytes
    decreases |s|
  {
    if s == [] then []
    else
      var p := NextPiece(left, s);
      p.text + TemplateFrom(Some(s[p.len - 1]), s[p.len..])
  }

  lemma TemplateOfNothing(left: Option<byte>, s: bytes)
    requires s == []
    ensures TemplateFrom(left, s) == []
  {
  }

  function Template(line: bytes): bytes {
    TemplateFrom(None, line)
  }

  // ---------------------------------------------------------------------------------------------
  // Masked fields are whole words
  // ---------------------------------------------------------------------------------------------

  /** A field of `n` bytes at the start of `s` that is not a fragment of a longer word. */
  ghost predicate WholeWord(left: Option<byte>, s: bytes, n: nat) {
    0 < n <= |s| && !LeftWord(left) && IsWordByte(s[0]) && IsWordByte(s[n - 1]) && !WordAt(s, n)
  }

  lemma {:induction false} DottedEndsInDigits(s: bytes, k: nat, n: nat)
    requires k <= |s| && n > 0
    requires DottedEnd(s, k, n).Some?
    ensures IsDigitChar(s[k]) && IsDigitChar(s[DottedEnd(s, k, n).value - 1])
    decreases n
  {
    RunEndSpec(Digit, s, k);
    var e := Min(RunEnd(Digit, s, k), k + 3);
    if n > 1 {
      DottedEndsInDigits(s, e + 1, n - 1);
    }
  }

  lemma Ipv4IsWhole(left: Option<byte>, s: bytes)
    requires Ipv4Len(left, s).Some?
    ensures WholeWord(left, s, Ipv4Len(left, s).value)
  {
    DottedEndsInDigits(s, 0, 4);
    var q := DottedEnd(s, 0, 4).value;
    if At(s, q, ':') && DigitAt(s, q + 1) {
      RunEndSpec(Digit, s, q + 1);
    }
  }

  lemma DurationIsWhole(left: Option<byte>, s: bytes)
    requires DurationLen(left, s).Some?
    ensures WholeWord(left, s, DurationLen(left, s).value)
  {
    RunEndSpec(Digit, s, 0);
    var j := FractionEnd(s, RunEnd(Digit, s, 0));
    assert s[j..][0] == s[j];
    if UnitLen(s[j..]) == 2 {
      assert s[j..][..2] == [s[j], s[j + 1]];
    }
  }

  lemma HexIsWhole(left: Option<byte>, s: bytes)
    requires HexLen(left, s).Some?
    ensures WholeWord(left, s, HexLen(left, s).value)
  {
    if HasHexPrefix(s) {
      RunEndSpec(HexDigit, s, 2);
    } else {
      RunEndSpec(HexDigit, s, 0);
    }
  }

  lemma IntIsWhole(left: Option<byte>, s: bytes)
    requires IntLen(left, s).Some?
    ensures WholeWord(left, s, IntLen(left, s).value)
  {
    RunEndSpec(Digit, s, 0);
  }

  lemma TimestampEndsInAscii(s: bytes)
    requires TimestampLen(s).Some?
    ensures 19 <= TimestampLen(s).value <= |s| && IsAscii(s[TimestampLen(s).value - 1])
  {
    if At(s, 19, '.') && DigitAt(s, 20) {
      RunEndSpec(Digit, s, 20);
    }
  }

  /**
    Apart from timestamps, whose start is fixed by their shape alone, a placeholder replaces a run that neither
    begins nor ends inside a word.
   */
  lemma MaskedIsWhole(left: Option<byte>, s: bytes)
    ensures MaskedPiece(left, s).Some? ==>
              var p := MaskedPiece(left, s).value;
              && 0 < p.len <= |s| && IsAscii(s[p.len - 1])
              && (TimestampLen(s).None? ==> WholeWord(left, s, p.len))
    ensures IntLen(left, s).Some? ==> WholeWord(left, s, IntLen(left, s).value)
  {
    if TimestampLen(s).Some? {
      TimestampEndsInAscii(s);
    } else if UuidLen(left, s).Some? {
    } else if Ipv4Len(left, s).Some? {
      Ipv4IsWhole(left, s);
    } else if DurationLen(left, s).Some? {
      DurationIsWhole(left, s);
    } else if HexLen(left, s).Some? {
      HexIsWhole(left, s);
    }
    if IntLen(left, s).Some? {
      IntIsWhole(left, s);
    }
  }

  // ---------------------------------------------------------------------------------------------
  // Templates of valid UTF-8 are valid UTF-8
  // ---------------------------------------------------------------------------------------------

  /** A value ends before a separator, after a closing quote or at the end: always at a character boundary. */
  lemma ValueEndsAtBoundary(s: bytes)
    requires Valid(s) && ValueLen(s).Some?
    ensures IsCharBoundary(s, ValueLen(s).value)
  {
    var n := ValueLen(s).value;
    if s[0] == '"' {
      RunEndSpec(Unquoted, s, 1);
      if n < |s| {
        BoundaryAfterAscii(s, n);
      }
    } else {
      RunEndSpec(Unseparated, s, 0);
    }
  }

  /** Cutting a valid string after a piece leaves a valid string, and what the piece became is valid too. */
  lemma PieceIsValid(left: Option<byte>, s: bytes)
    requires Valid(s) && s != []
    ensures Valid(NextPiece(left, s).text) && IsCharBoundary(s, NextPiece(left, s).len)
  {
    hide TimestampLen, UuidLen, Ipv4Len, DurationLen, HexLen, IntLen, ValueLen, Width, Valid, IsTail;
    MaskedIsWhole(left, s);
    var p := NextPiece(left, s);
    if MaskedPiece(left, s).Some? || (s[0] != '=' && IntLen(left, s).Some?) {
      AsciiIsValid(p.text);
      BoundaryAfterAscii(s, p.len);
    } else if s[0] == '=' {
      AsciiIsValid(p.text);
      BoundaryAfterAscii(s, 1);
      if ValueLen(s[1..]).Some? {
        ValidSplit(s, 1);
        ValueEndsAtBoundary(s[1..]);
        assert p.len < |s| ==> s[p.len] == s[1..][p.len - 1];
      }
    } else {
      CharIsBoundary(s);
      ValidSplit(s, p.len);
    }
  }

  lemma CharIsBoundary(s: bytes)
    requires Valid(s) && s != []
    ensures Width(s) == LeadLen(s[0]) <= |s| && IsCharBoundary(s, Width(s))
  {
    var w := Width(s);
    assert Valid(s[w..]);
    if w < |s| {
      assert s[w..][0] == s[w];
    }
  }

  lemma {:induction false} TemplateFromIsValid(left: Option<byte>, s: bytes)
    requires Valid(s)
    ensures Valid(TemplateFrom(left, s))
    decreases |s|
  {
    if s != [] {
      var p := NextPiece(left, s);
      PieceIsValid(left, s);
      ValidSplit(s, p.len);
      TemplateFromIsValid(Some(s[p.len - 1]), s[p.len..]);
      ValidConcat(p.text, TemplateFrom(Some(s[p.len - 1]), s[p.len..]));
    }
  }

  // ---------------------------------------------------------------------------------------------
  // The loop over the line
  // ---------------------------------------------------------------------------------------------

  /** A growable string, as the program reuses them between lines. */
  class StringBuf {
    var text: bytes

    constructor ()
      ensures text == []
    {
      text := [];
    }

    method PushStr(s: bytes)
      modifies this
      ensures text == old(text) + s
    {
      text := text + s;
    }

    method Clear()
      modifies this
      ensures text == []
    {
      text := [];
    }
  }

  /** `&s[a..z]`: panics unless both ends are character boundaries. */
  function Slice(s: bytes, a: nat, z: nat): (r: bytes)
    requires a <= z <= |s| && IsCharBoundary(s, a) && IsCharBoundary(s, z)
  {
    s[a..z]
  }

  /** Appends the character at the boundary `i` to `buf` and returns the next boundary. */
  method CopyNextUtf8Char(line: bytes, i: nat, buf: StringBuf) returns (end: nat)
    requires Valid(line) && i < |line| && IsCharBoundary(line, i)
    modifies buf
    ensures i < end <= |line| && IsCharBoundary(line, end)
    ensures end == i + Min(LeadLen(line[i]), |line| - i)
    ensures buf.text == old(buf.text) + line[i..end]
  {
    var len := LeadLen(line[i]);
    end := Min(i + len, |line|);
    ValidSplit(line, i);
    CharIsBoundary(line[i..]);
    assert end < |line| ==> line[i..][end - i] == line[end];
    buf.PushStr(Slice(line, i, end));
  }

  /** The first piece, then the template of the rest. */
  lemma FirstPiece(left: Option<byte>, s: bytes, p: Piece)
    requires s != [] && NextPiece(left, s) == p
    ensures TemplateFrom(left, s) == p.text + TemplateFrom(Some(s[p.len - 1]), s[p.len..])
  {
    hide NextPiece;
  }

  /** One piece of the line, written down: the template of the rest still has to follow. */
  lemma PieceAt(line: bytes, i: nat)
    requires Valid(line) && i < |line| && IsCharBoundary(line, i)
    ensures var p := NextPiece(LeftOf(line, i), line[i..]);
            && i + p.len <= |line| && IsCharBoundary(line, i + p.len)
            && TemplateFrom(LeftOf(line, i), line[i..])
               == p.text + TemplateFrom(LeftOf(line, i + p.len), line[i + p.len..])
  {
    hide NextPiece, Valid, TemplateFrom, IsCharBoundary, LeftOf;
    ValidSplit(line, i);
    var left, s := LeftOf(line, i), line[i..];
    var p := NextPiece(left, s);
    PieceIsValid(left, s);
    FirstPiece(left, s, p);
    Shift(line, i, p.len);
  }

  /** Positions in a suffix and positions in the line. */
  lemma Shift(line: bytes, i: nat, n: nat)
    requires 0 < n && i + n <= |line|
    ensures line[i..][n..] == line[i + n..] && LeftOf(line, i + n) == Some(line[i..][n - 1])
    ensures IsCharBoundary(line[i..], n) ==> IsCharBoundary(line, i + n)
  {
  }

  lemma Assoc(a: bytes, b: bytes, c: bytes)
    ensures a + (b + c) == a + b + c
  {
  }

  /** At a `=`: keeps it and masks the value after it, if there is one. */
  method MaskValue(line: bytes, i: nat, buf: StringBuf) returns (end: nat)
    requires i < |line| && line[i] == '='
    modifies buf
    ensures var v := ValueLen(line[i..][1..]);
            && end == i + 1 + (if v.Some? then v.value else 0)
            && buf.text == old(buf.text) + (if v.Some? then "=<KV>" else "=")
  {
    buf.PushStr("=");
    DropDrop(line, i, 1);
    var j := TakeKvValue(line, i + 1);
    if j.Some? {
      buf.PushStr("<KV>");
      return j.value;
    }
    return i + 1;
  }

  /** Appends the template of `line` to `buf`; the index stays on character boundaries, so no slice can panic. */
  method LogTemplate(line: bytes, buf: StringBuf)
    requires Valid(line)
    modifies buf
    ensures buf.text == old(buf.text) + Template(line)
  {
    hide TimestampLen, UuidLen, Ipv4Len, DurationLen, HexLen, IntLen, ValueLen, Valid, TemplateFrom;
    var i := 0;
    assert line[0..] == line;
    while i < |line|
      invariant i <= |line| && IsCharBoundary(line, i)
      invariant buf.text + TemplateFrom(LeftOf(line, i), line[i..]) == old(buf.text) + Template(line)
      decreases |line| - i
    {
      PieceAt(line, i);
      ghost var p := NextPiece(LeftOf(line, i), line[i..]);
      Assoc(buf.text, p.text, TemplateFrom(LeftOf(line, i + p.len), line[i + p.len..]));
      var j := TakeTimestamp(line, i);
      if j.Some? {
        buf.PushStr("<TS>");
        i := j.value;
        continue;
      }
      j := TakeUuid(line, i);
      if j.Some? {
        buf.PushStr("<UUID>");
        i := j.value;
        continue;
      }
      j := TakeIpv4(line, i);
      if j.Some? {
        buf.PushStr("<IP>");
        i := j.value;
        continue;
      }
      j := TakeDuration(line, i);
      if j.Some? {
        buf.PushStr("<DUR>");
        i := j.value;
        continue;
      }
      j := TakeHex(line, i);
      if j.Some? {
        buf.PushStr("<HEX>");
        i := j.value;
        continue;
      }
      if line[i] == '=' {
        i := MaskValue(line, i, buf);
        continue;
      }
      j := TakeInt(line, i);
      if j.Some? {
        buf.PushStr("<INT>");
        i := j.value;
        continue;
      }
      i := CopyNextUtf8Char(line, i, buf);
    }
    TemplateOfNothing(LeftOf(line, i), line[i..]);
  }
}
