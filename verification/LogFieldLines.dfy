/**
  Lines that begin with a field: the field becomes its placeholder, and the rest is masked as a line of its own.
 */
module LogFieldLines {
  import opened Common
  import opened Utf8
  import opened LogScanners
  import opened LogTemplates
  import opened LogShapes
  import opened LogFields

  // ---------------------------------------------------------------------------------------------
  // Fields of one kind do not read as fields of an earlier one
  // ---------------------------------------------------------------------------------------------

  /** Nothing, or something after a space. */
  ghost predicate IsTail(tail: bytes) {
    tail == [] || tail[0] == ' '
  }

  lemma NoStamp(t: bytes, tail: bytes)
    requires IsTail(tail) && forall k :: 0 <= k < 5 && k < |t| ==> t[k] != '-'
    ensures TimestampLen(t + tail).None?
  {
    var s := t + tail;
    if |t| >= 5 {
      assert s[4] == t[4];
    } else if tail != [] {
      assert s[|t|] == ' ';
    }
  }

  lemma NoUuid(t: bytes, tail: bytes)
    requires IsTail(tail) && forall k :: 0 <= k < 9 && k < |t| ==> t[k] != '-'
    ensures UuidLen(None, t + tail).None?
  {
    var s := t + tail;
    if |t| >= 9 {
      assert s[8] == t[8];
    } else if tail != [] {
      assert s[|t|] == ' ';
    }
  }

  /** Without two dots before anything that is neither digit nor dot, there is no address. */
  lemma NoIp(t: bytes, tail: bytes, q: nat)
    requires IsTail(tail) && q <= |t| && (q < |t| ==> !IsDigitChar(t[q]) && t[q] != '.')
    requires forall i, j :: 0 <= i < j < q ==> !(t[i] == '.' && t[j] == '.')
    ensures Ipv4Len(None, t + tail).None?
  {
    hide Ipv4Len;
    var s := t + tail;
    assert forall k :: 0 <= k < |t| ==> s[k] == t[k];
    assert q < |s| ==> !IsDigitChar(s[q]) && s[q] != '.';
    if Ipv4Len(None, s).Some? {
      var a, b, c, d := IpPositions(None, s, Ipv4Len(None, s).value);
    }
  }

  lemma NoDurationInDigits(t: bytes, tail: bytes)
    requires IsTail(tail) && AllDigits(t)
    ensures DurationLen(None, t + tail).None?
  {
    var s := t + tail;
    assert forall k :: 0 <= k < |t| ==> s[k] == t[k];
    assert |t| < |s| ==> s[|t|] == ' ';
    RunEndUnique(Digit, s, 0, |t|);
    assert s[|t|..] == tail;
    assert |tail| >= 2 ==> tail[..2][0] == ' ';
  }

  /** A field without spaces that ends at a word boundary covers exactly a text of word bytes. */
  lemma SameEnd(t: bytes, tail: bytes, n: nat)
    requires IsTail(tail) && (forall k :: 0 <= k < |t| ==> IsWordByte(t[k]))
    requires n <= |t + tail| && !WordAt(t + tail, n) && forall k :: 0 <= k < n ==> (t + tail)[k] != ' '
    ensures (t + tail)[..n] == t
  {
    var s := t + tail;
    assert forall k :: 0 <= k < |t| ==> s[k] == t[k];
    assert |t| < |s| ==> s[|t|] == ' ';
  }

  /** Digits with at most one dot among them, then letters. */
  lemma DurationChars(p: DurationParts)
    requires p.WellFormed()
    ensures var (t, w, j) := (p.Text(), |p.whole|, |p.whole| + |p.fraction|);
            && j <= |t| && (j < |t| ==> !IsDigitChar(t[j]) && t[j] != '.')
            && (forall k :: 0 <= k < |t| ==> t[k] != ' ' && t[k] != '-')
            && (forall k :: 0 <= k < j && k != w ==> IsDigitChar(t[k]))
  {
    var (t, w, j) := (p.Text(), |p.whole|, |p.whole| + |p.fraction|);
    assert forall k :: 0 <= k < w ==> t[k] == p.whole[k];
    assert forall k :: 0 <= k < |p.fraction| ==> t[w + k] == p.fraction[k];
    assert forall k :: 0 <= k < |p.unit| ==> t[j + k] == p.unit[k];
    UnitChars(p);
    forall k | 0 <= k < |t|
      ensures t[k] != ' ' && t[k] != '-' && (k < j && k != w ==> IsDigitChar(t[k]))
    {
      if k < w {
        assert t[k] == p.whole[k];
      } else if k < j {
        assert t[k] == p.fraction[k - w];
      } else {
        assert t[k] == p.unit[k - j];
      }
    }
  }

  lemma UnitChars(p: DurationParts)
    requires p.WellFormed()
    ensures p.unit != [] && forall k :: 0 <= k < |p.unit| ==> 'A' <= p.unit[k] <= 'z'
  {
  }

  lemma DurationHasNoSpace(t: bytes)
    requires IsText(Duration, t)
    ensures forall k :: 0 <= k < |t| ==> t[k] != ' '
  {
    hide DurationParts.WellFormed, DurationParts.Text;
    var p: DurationParts :| p.WellFormed() && p.Text() == t;
    DurationChars(p);
  }

  lemma NoDurationInHex(t: bytes, tail: bytes)
    requires IsTail(tail) && IsHexText(t) && !IsText(Duration, t)
    ensures DurationLen(None, t + tail).None?
  {
    var s := t + tail;
    HexIsWord(t);
    hide DurationLen, IsHexText, IsText;
    if DurationLen(None, s).Some? {
      var n := DurationLen(None, s).value;
      DurationIff(None, s, n);
      DurationHasNoSpace(s[..n]);
      assert forall k :: 0 <= k < n ==> s[k] == s[..n][k];
      assert WordAt(s[n..], 0) <==> WordAt(s, n);
      SameEnd(t, tail, n);
    }
  }

  lemma HexIsWord(t: bytes)
    requires IsHexText(t)
    ensures forall k :: 0 <= k < |t| ==> IsWordByte(t[k])
  {
    if t[1] == 'x' || t[1] == 'X' {
      assert forall k :: 2 <= k < |t| ==> t[k] == t[2..][k - 2];
    }
  }

  lemma NoHexInDigits(t: bytes, tail: bytes)
    requires IsTail(tail) && AllDigits(t) && t != []
    ensures HexLen(None, t + tail).None?
  {
    var s := t + tail;
    hide HexLen;
    if HexLen(None, s).Some? {
      var n := HexLen(None, s).value;
      HexSound(None, s, n);
      HexIsWord(s[..n]);
      assert forall k :: 0 <= k < n ==> s[k] == s[..n][k];
      SameEnd(t, tail, n);
    }
  }

  // ---------------------------------------------------------------------------------------------
  // What each kind of text looks like to the scanners
  // ---------------------------------------------------------------------------------------------

  lemma UuidStart(t: bytes, tail: bytes)
    requires IsText(Uuid, t) && IsTail(tail)
    ensures TimestampLen(t + tail).None?
  {
    var p: UuidParts :| p.WellFormed() && p.Text() == t;
    UuidAt(p);
    NoStamp(t, tail);
  }

  lemma IpStart(t: bytes, tail: bytes)
    requires IsText(Ip, t) && IsTail(tail)
    ensures TimestampLen(t + tail).None? && UuidLen(None, t + tail).None?
  {
    var p: IpParts :| p.WellFormed() && p.Text() == t;
    IpAt(p);
    var d := |p.a| + 1 + |p.b| + 1 + |p.c| + 1 + |p.d|;
    assert forall k :: 0 <= k < |t| ==> t[k] != '-';
    NoStamp(t, tail);
    NoUuid(t, tail);
  }

  lemma DurationStart(t: bytes, tail: bytes)
    requires IsText(Duration, t) && IsTail(tail)
    ensures TimestampLen(t + tail).None? && UuidLen(None, t + tail).None? && Ipv4Len(None, t + tail).None?
  {
    hide DurationParts.WellFormed, DurationParts.Text, TimestampLen, UuidLen, Ipv4Len;
    var p: DurationParts :| p.WellFormed() && p.Text() == t;
    DurationChars(p);
    NoStamp(t, tail);
    NoUuid(t, tail);
    NoIp(t, tail, |p.whole| + |p.fraction|);
  }

  lemma HexStart(t: bytes, tail: bytes)
    requires IsHexText(t) && !IsText(Duration, t) && IsTail(tail)
    ensures TimestampLen(t + tail).None? && UuidLen(None, t + tail).None?
    ensures Ipv4Len(None, t + tail).None? && DurationLen(None, t + tail).None?
  {
    HexIsWord(t);
    NoDurationInHex(t, tail);
    hide IsHexText, DurationLen, Ipv4Len, TimestampLen, UuidLen, IsText;
    NoStamp(t, tail);
    NoUuid(t, tail);
    NoIp(t, tail, FirstOther(t, 0));
  }

  /** The first position that holds no digit, or the end. */
  function FirstOther(t: bytes, k: nat): (q: nat)
    requires k <= |t|
    ensures k <= q <= |t| && (q < |t| ==> !IsDigitChar(t[q])) && forall m :: k <= m < q ==> IsDigitChar(t[m])
    decreases |t| - k
  {
    if k < |t| && IsDigitChar(t[k]) then FirstOther(t, k + 1) else k
  }

  lemma IntStarts(t: bytes, tail: bytes)
    requires t != [] && AllDigits(t) && IsTail(tail)
    ensures TimestampLen(t + tail).None? && UuidLen(None, t + tail).None? && Ipv4Len(None, t + tail).None?
    ensures DurationLen(None, t + tail).None? && HexLen(None, t + tail).None?
  {
    hide DurationLen, Ipv4Len, TimestampLen, UuidLen, HexLen;
    NoStamp(t, tail);
    NoUuid(t, tail);
    NoIp(t, tail, |t|);
    NoDurationInDigits(t, tail);
    NoHexInDigits(t, tail);
  }

  lemma StartOf(f: Field, t: bytes, tail: bytes)
    requires IsText(f, t) && (f == Hex ==> !IsText(Duration, t)) && IsTail(tail)
    ensures f != Timestamp ==> TimestampLen(t + tail).None?
    ensures f !in {Timestamp, Uuid} ==> UuidLen(None, t + tail).None?
    ensures f !in {Timestamp, Uuid, Ip} ==> Ipv4Len(None, t + tail).None?
    ensures f in {Hex, Int} ==> DurationLen(None, t + tail).None?
    ensures f == Int ==> HexLen(None, t + tail).None?
  {
    hide TimestampLen, UuidLen, Ipv4Len, DurationLen, HexLen;
    match f
    case Timestamp =>
    case Uuid => UuidStart(t, tail);
    case Ip => IpStart(t, tail);
    case Duration => DurationStart(t, tail);
    case Hex => HexStart(t, tail);
    case Int => IntStarts(t, tail);
  }

  lemma BoundedAtSpace(f: Field, t: bytes, tail: bytes)
    requires IsText(f, t) && f != Timestamp && IsTail(tail)
    ensures FieldAt(f, None, t + tail, |t|)
  {
    hide IsText;
    assert (t + tail)[..|t|] == t && (t + tail)[|t|..] == tail;
  }

  lemma StampFound(t: bytes, tail: bytes)
    requires IsText(Timestamp, t) && IsTail(tail)
    ensures TimestampLen(t + tail) == Some(|t|)
  {
    hide TimestampLen;
    var p: Stamp :| p.WellFormed() && p.Text() == t;
    StampIsScanned(p, tail);
  }

  lemma FieldNotEmpty(f: Field, t: bytes)
    requires IsText(f, t)
    ensures t != []
  {
  }

  /** A field text at the start of a line, up to a space or the end, is masked whole. */
  lemma FieldFirst(f: Field, t: bytes, tail: bytes)
    requires IsText(f, t) && (f == Hex ==> !IsText(Duration, t)) && IsTail(tail)
    ensures t != [] && NextPiece(None, t + tail) == Piece(f.Placeholder(), |t|)
  {
    hide IsText, FieldAt, TimestampLen, UuidLen, Ipv4Len, DurationLen, HexLen, IntLen, ValueLen;
    FieldNotEmpty(f, t);
    StartOf(f, t, tail);
    if f == Timestamp {
      StampFound(t, tail);
    } else {
      BoundedAtSpace(f, t, tail);
      FoundIff(f, None, t + tail, |t|);
      if f == Int {
        IntStart(None, t + tail);
      }
    }
  }

  /**
    A line that is a timestamp, a UUID, an address with or without port, a number with a unit, a hexadecimal id or a
    number, alone or before a space: the placeholder of its kind stands for it. A hexadecimal id that reads as a number
    of bytes counts as that.
   */
  lemma FieldLine(f: Field, t: bytes, rest: bytes)
    requires IsText(f, t) && (f == Hex ==> !IsText(Duration, t))
    ensures Template(t) == f.Placeholder()
    ensures Template(t + " " + rest) == f.Placeholder() + " " + Template(rest)
  {
    hide NextPiece, TemplateFrom, IsText, Field.Placeholder;
    FieldFirst(f, t, []);
    assert t + [] == t;
    FirstPiece(None, t, Piece(f.Placeholder(), |t|));
    TemplateOfNothing(Some(t[|t| - 1]), t[|t|..]);
    var s := t + (" " + rest);
    assert s == t + " " + rest;
    FieldFirst(f, t, " " + rest);
    FirstPiece(None, s, Piece(f.Placeholder(), |t|));
    assert s[|t|..] == " " + rest;
    SpaceStep(Some(s[|t| - 1]), rest);
    Assoc(f.Placeholder(), " ", Template(rest));
    assert f.Placeholder() + [] == f.Placeholder();
  }
}
