/**
  Templates token by token: where a space separates two parts of a line for good.
 */
module LogTokens {
  import opened Common
  import opened Utf8
  import opened LogScanners
  import opened LogTemplates
  import opened LogShapes
  import opened LogCompressor
  import opened LogRuns

  // ---------------------------------------------------------------------------------------------
  // Fields do not look past a space
  // ---------------------------------------------------------------------------------------------

  /** A tail that begins with a space. */
  ghost predicate Spaced(t: bytes) {
    t != [] && t[0] == ' '
  }

  lemma {:induction false} RunStopsAtSpace(cls: Class, f: bytes, t: bytes, k: nat)
    requires Spaced(t) && k <= |f| && !In(' ', cls)
    ensures RunEnd(cls, f + t, k) == RunEnd(cls, f, k)
    decreases |f| - k
  {
    assert (f + t)[|f|] == ' ';
    if k < |f| {
      RunStopsAtSpace(cls, f, t, k + 1);
    }
  }

  lemma {:induction false} DottedStopsAtSpace(f: bytes, t: bytes, k: nat, n: nat)
    requires Spaced(t) && k <= |f| && n > 0
    ensures DottedEnd(f + t, k, n) == DottedEnd(f, k, n)
    decreases n
  {
    hide RunEnd;
    RunStopsAtSpace(Digit, f, t, k);
    var e := Min(RunEnd(Digit, f, k), k + 3);
    assert (f + t)[|f|] == ' ';
    if e != k && n > 1 && At(f, e, '.') {
      DottedStopsAtSpace(f, t, e + 1, n - 1);
    }
  }

  lemma UuidStopsAtSpace(left: Option<byte>, f: bytes, t: bytes)
    requires Spaced(t)
    ensures UuidLen(left, f + t) == UuidLen(left, f)
  {
    var s := f + t;
    assert s[|f|] == ' ';
    if |f| >= 36 {
      assert forall k :: 0 <= k < 36 ==> s[k] == f[k];
    }
  }

  lemma Ipv4StopsAtSpace(left: Option<byte>, f: bytes, t: bytes)
    requires Spaced(t)
    ensures Ipv4Len(left, f + t) == Ipv4Len(left, f)
  {
    hide RunEnd, DottedEnd;
    DottedStopsAtSpace(f, t, 0, 4);
    assert (f + t)[|f|] == ' ';
    if DottedEnd(f, 0, 4).Some? {
      var q := DottedEnd(f, 0, 4).value;
      if At(f, q, ':') {
        RunStopsAtSpace(Digit, f, t, q + 1);
      }
    }
  }

  lemma FractionStopsAtSpace(f: bytes, t: bytes, k: nat)
    requires Spaced(t) && k <= |f|
    ensures FractionEnd(f + t, k) == FractionEnd(f, k)
  {
    hide RunEnd;
    assert (f + t)[|f|] == ' ';
    if At(f, k, '.') {
      RunStopsAtSpace(Digit, f, t, k + 1);
    }
  }

  lemma DurationStopsAtSpace(left: Option<byte>, f: bytes, t: bytes)
    requires Spaced(t)
    ensures DurationLen(left, f + t) == DurationLen(left, f)
  {
    hide RunEnd, FractionEnd, UnitLen;
    RunStopsAtSpace(Digit, f, t, 0);
    var d := RunEnd(Digit, f, 0);
    assert (f + t)[|f|] == ' ';
    FractionStopsAtSpace(f, t, d);
    var j := FractionEnd(f, d);
    assert (f + t)[j..] == f[j..] + t;
    UnitStopsAtSpace(f[j..], t);
  }

  lemma UnitStopsAtSpace(f: bytes, t: bytes)
    requires Spaced(t)
    ensures UnitLen(f + t) == UnitLen(f)
  {
    var s := f + t;
    if |f| >= 2 {
      assert s[..2] == f[..2];
    } else if |s| >= 2 {
      assert s[|f|] == ' ';
      assert ' ' in s[..2];
    }
  }

  lemma HexStopsAtSpace(left: Option<byte>, f: bytes, t: bytes)
    requires Spaced(t)
    ensures HexLen(left, f + t) == HexLen(left, f)
  {
    hide RunEnd;
    assert (f + t)[|f|] == ' ';
    RunStopsAtSpace(HexDigit, f, t, 0);
    RunStopsAtSpace(Digit, f, t, 0);
    if |f| >= 2 {
      RunStopsAtSpace(HexDigit, f, t, 2);
    }
  }

  lemma IntStopsAtSpace(left: Option<byte>, f: bytes, t: bytes)
    requires Spaced(t)
    ensures IntLen(left, f + t) == IntLen(left, f)
  {
    hide RunEnd;
    assert (f + t)[|f|] == ' ';
    RunStopsAtSpace(Digit, f, t, 0);
  }

  /** Four digits, two digits and two digits with hyphens between: half a timestamp. */
  ghost predicate IsDate(d: bytes) {
    && |d| == 10
    && IsDigitChar(d[0]) && IsDigitChar(d[1]) && IsDigitChar(d[2]) && IsDigitChar(d[3]) && d[4] == '-'
    && IsDigitChar(d[5]) && IsDigitChar(d[6]) && d[7] == '-' && IsDigitChar(d[8]) && IsDigitChar(d[9])
  }

  lemma ZoneStopsAtSpace(f: bytes, t: bytes, k: nat)
    requires Spaced(t) && k <= |f|
    ensures ZoneEnd(f + t, k) == ZoneEnd(f, k)
  {
    assert (f + t)[|f|] == ' ';
  }

  /** A timestamp goes on past a space only when what comes before the space is a date. */
  lemma TimestampStopsAtSpace(f: bytes, t: bytes)
    requires Spaced(t) && !IsDate(f)
    ensures TimestampLen(f + t) == TimestampLen(f)
  {
    hide RunEnd, ZoneEnd, FractionEnd;
    var s := f + t;
    assert s[|f|] == ' ';
    if |f| >= 19 {
      FractionStopsAtSpace(f, t, 19);
      ZoneStopsAtSpace(f, t, FractionEnd(f, 19));
    }
  }

  // ---------------------------------------------------------------------------------------------
  // Tokens
  // ---------------------------------------------------------------------------------------------

  ghost predicate EndsInDate(f: bytes) {
    |f| >= 10 && IsDate(f[|f| - 10..])
  }

  /** A valid text without spaces and quotes that does not end in a date. */
  ghost predicate IsToken(f: bytes) {
    Valid(f) && (forall k :: 0 <= k < |f| ==> f[k] != ' ' && f[k] != '"') && !EndsInDate(f)
  }

  lemma TokenIsNotDate(f: bytes)
    requires IsToken(f)
    ensures !IsDate(f)
  {
    assert f[0..] == f;
  }

  lemma ValueStopsAtSpace(f: bytes, t: bytes)
    requires Spaced(t) && (f == [] || f[0] != '"')
    ensures ValueLen(f + t) == ValueLen(f)
  {
    hide RunEnd;
    RunStopsAtSpace(Unseparated, f, t, 0);
    if f == [] {
      NoRun(f + t);
    }
  }

  lemma NoRun(s: bytes)
    requires Spaced(s)
    ensures RunEnd(Unseparated, s, 0) == 0
  {
  }

  lemma MaskedStopsAtSpace(left: Option<byte>, f: bytes, t: bytes)
    requires Spaced(t) && !IsDate(f)
    ensures MaskedPiece(left, f + t) == MaskedPiece(left, f)
  {
    hide TimestampLen, UuidLen, Ipv4Len, DurationLen, HexLen;
    TimestampStopsAtSpace(f, t);
    UuidStopsAtSpace(left, f, t);
    Ipv4StopsAtSpace(left, f, t);
    DurationStopsAtSpace(left, f, t);
    HexStopsAtSpace(left, f, t);
  }

  lemma LeadFits(f: bytes)
    requires Valid(f) && f != []
    ensures LeadLen(f[0]) <= |f|
  {
    CharIsBoundary(f);
  }

  lemma PieceStopsAtSpace(left: Option<byte>, f: bytes, t: bytes)
    requires Spaced(t) && IsToken(f) && f != []
    ensures NextPiece(left, f + t) == NextPiece(left, f)
  {
    hide MaskedPiece, IntLen, ValueLen, Valid, IsDate;
    TokenIsNotDate(f);
    MaskedStopsAtSpace(left, f, t);
    IntStopsAtSpace(left, f, t);
    assert (f + t)[1..] == f[1..] + t;
    ValueStopsAtSpace(f[1..], t);
    LeadFits(f);
    var n := LeadLen(f[0]);
    assert (f + t)[..n] == f[..n];
  }

  lemma RestIsToken(left: Option<byte>, f: bytes)
    requires IsToken(f) && f != []
    ensures IsToken(f[NextPiece(left, f).len..])
  {
    hide NextPiece, Valid, IsDate;
    var n := NextPiece(left, f).len;
    PieceIsValid(left, f);
    ValidSplit(f, n);
    var g := f[n..];
    if |g| >= 10 {
      DropDrop(f, n, |g| - 10);
    }
  }

  /** Up to a space, a token is scanned as if it were the whole line. */
  lemma {:induction false} TokenThenSpace(left: Option<byte>, f: bytes, t: bytes)
    requires Spaced(t) && IsToken(f)
    ensures TemplateFrom(left, f + t)
         == TemplateFrom(left, f) + TemplateFrom(if f == [] then left else Some(f[|f| - 1]), t)
    decreases |f|
  {
    hide NextPiece, IsToken, TemplateFrom;
    if f == [] {
      assert f + t == t;
      TemplateOfNothing(left, f);
      assert [] + TemplateFrom(left, t) == TemplateFrom(left, t);
    } else {
      var p := NextPiece(left, f);
      PieceStopsAtSpace(left, f, t);
      RestIsToken(left, f);
      var g := f[p.len..];
      var next := Some(f[p.len - 1]);
      FirstPiece(left, f, p);
      FirstPiece(left, f + t, p);
      assert (f + t)[p.len..] == g + t;
      TokenThenSpace(next, g, t);
      Assoc(p.text, TemplateFrom(next, g), TemplateFrom(if g == [] then next else Some(g[|g| - 1]), t));
    }
  }

  /** The template of a token and more text is the template of the token and the template of the text. */
  lemma TokenAndRest(f: bytes, rest: bytes)
    requires IsToken(f)
    ensures Template(f + " " + rest) == Template(f) + " " + Template(rest)
  {
    hide TemplateFrom, IsToken;
    assert f + " " + rest == f + (" " + rest);
    TokenThenSpace(None, f, " " + rest);
    SpaceStep(if f == [] then None else Some(f[|f| - 1]), rest);
    Assoc(Template(f), " ", Template(rest));
  }

  ghost predicate IsTime(c: bytes) {
    && |c| == 8 && IsDigitChar(c[0]) && IsDigitChar(c[1]) && c[2] == ':'
    && IsDigitChar(c[3]) && IsDigitChar(c[4]) && c[5] == ':' && IsDigitChar(c[6]) && IsDigitChar(c[7])
  }

  lemma DateSpaceTime(d: bytes, c: bytes)
    requires IsDate(d) && IsTime(c)
    ensures IsDateTime(d + " " + c) && |d + " " + c| == 19
  {
    var s := d + " " + c;
    assert s[10] == ' ';
    assert forall k :: 0 <= k < 10 ==> s[k] == d[k];
    assert forall k :: 0 <= k < 8 ==> s[11 + k] == c[k];
  }

  /** A date is no token: with a time after the space, both together are one timestamp. */
  lemma DateAndTimeAreOne(d: bytes, c: bytes)
    requires IsDate(d) && IsTime(c)
    ensures Template(d + " " + c) == "<TS>" != Template(d) + " " + Template(c)
  {
    hide TemplateFrom, IsDate, IsTime, IsDateTime;
    var s := d + " " + c;
    DateSpaceTime(d, c);
    var t := Stamp(s, [], []);
    assert t.Text() + [] == s;
    StampIsScanned(t, []);
    FirstPiece(None, s, Piece("<TS>", 19));
    TemplateOfNothing(Some(s[18]), s[19..]);
    var dt := Template(d);
    assert (dt + " " + Template(c))[|dt|] == ' ';
  }

  // ---------------------------------------------------------------------------------------------
  // Lines of tokens
  // ---------------------------------------------------------------------------------------------

  ghost predicate AllTokens(fs: seq<bytes>) {
    forall i :: 0 <= i < |fs| ==> IsToken(fs[i])
  }

  function SpaceJoin(fs: seq<bytes>): bytes {
    if fs == [] then []
    else if |fs| == 1 then fs[0]
    else fs[0] + " " + SpaceJoin(fs[1..])
  }

  function Templates(fs: seq<bytes>): (ts: seq<bytes>)
    ensures |ts| == |fs| && forall i :: 0 <= i < |fs| ==> ts[i] == Template(fs[i])
  {
    if fs == [] then [] else [Template(fs[0])] + Templates(fs[1..])
  }

  /** The template of a line of tokens is the line of their templates. */
  lemma {:induction false} TokenLine(fs: seq<bytes>)
    requires AllTokens(fs)
    ensures Template(SpaceJoin(fs)) == SpaceJoin(Templates(fs))
    decreases |fs|
  {
    hide TemplateFrom, IsToken;
    if fs == [] {
      TemplateOfNothing(None, []);
    } else if |fs| > 1 {
      TokenAndRest(fs[0], SpaceJoin(fs[1..]));
      TokenLine(fs[1..]);
      assert Templates(fs)[1..] == Templates(fs[1..]);
    }
  }

  ghost predicate SameShape(fs: seq<bytes>, gs: seq<bytes>) {
    |fs| == |gs| && forall i :: 0 <= i < |fs| ==> Template(fs[i]) == Template(gs[i])
  }

  lemma SameShapeSameTemplate(fs: seq<bytes>, gs: seq<bytes>)
    requires AllTokens(fs) && AllTokens(gs) && SameShape(fs, gs)
    ensures Template(SpaceJoin(fs)) == Template(SpaceJoin(gs))
  {
    hide Template, IsToken;
    TokenLine(fs);
    TokenLine(gs);
    assert Templates(fs) == Templates(gs);
  }

  /** The lines of token lists. */
  function JoinedLines(fss: seq<seq<bytes>>): (ls: seq<bytes>)
    ensures |ls| == |fss| && forall i :: 0 <= i < |fss| ==> ls[i] == SpaceJoin(fss[i])
  {
    if fss == [] then [] else [SpaceJoin(fss[0])] + JoinedLines(fss[1..])
  }

  lemma SameShapeOneTemplate(fss: seq<seq<bytes>>)
    requires fss != [] && forall i :: 0 <= i < |fss| ==> AllTokens(fss[i]) && SameShape(fss[i], fss[0])
    ensures SameTemplate(JoinedLines(fss))
    ensures Template(JoinedLines(fss)[0]) == SpaceJoin(Templates(fss[0]))
  {
    hide Template, AllTokens, SameShape;
    forall i | 0 <= i < |fss|
      ensures Template(JoinedLines(fss)[i]) == Template(JoinedLines(fss)[0])
    {
      SameShapeSameTemplate(fss[i], fss[0]);
    }
    TokenLine(fss[0]);
  }

  /**
    A log of two or more lines whose tokens have the same templates one by one is compressed to the first line, the
    number of lines, and the template unless it is the line itself.
   */
  lemma SameShapeLinesCollapse(content: bytes, fss: seq<seq<bytes>>)
    requires |fss| >= 2 && Lines(content) == JoinedLines(fss)
    requires forall i :: 0 <= i < |fss| ==> AllTokens(fss[i]) && SameShape(fss[i], fss[0])
    ensures var (rep, tmpl) := (SpaceJoin(fss[0]), SpaceJoin(Templates(fss[0])));
            CompressedLog(content)
            == rep + ("  [x" + Decimal(|fss|) + (if tmpl == rep then "" else " ~ " + tmpl) + "]")
  {
    hide Template, AllTokens, SameShape, Lines, TrimEnd, RenderBlocks, SameTemplate, Templates, Decimal;
    var ls := JoinedLines(fss);
    SameShapeOneTemplate(fss);
    OneRun(ls);
    RenderOneRun(ls);
  }

  /** A log whose lines end with a line feed each has just these lines. */
  lemma {:induction false} TokenLinesAreLines(fss: seq<seq<bytes>>)
    requires forall i :: 0 <= i < |fss| ==>
               NoNewline(SpaceJoin(fss[i])) && StripCr(SpaceJoin(fss[i])) == SpaceJoin(fss[i])
    ensures Lines(Terminated(JoinedLines(fss))) == JoinedLines(fss)
  {
    hide NoNewline, SpaceJoin, StripCr;
    if fss != [] {
      OneLine(SpaceJoin(fss[0]), Terminated(JoinedLines(fss[1..])));
      assert JoinedLines(fss)[1..] == JoinedLines(fss[1..]);
      TokenLinesAreLines(fss[1..]);
    }
  }
}
