/**
  Log compression: runs of adjacent lines with the same template become one line and a marker.
 */
module LogCompressor {
  import opened Common
  import opened Utf8
  import opened LogScanners
  import opened LogTemplates

  const MIN_RUN := 2

  // ---------------------------------------------------------------------------------------------
  // Lines
  // ---------------------------------------------------------------------------------------------

  function StripCr(line: bytes): (r: bytes)
    ensures r <= line
  {
    if line != [] && line[|line| - 1] == '\r' then line[..|line| - 1] else line
  }

  /** Rust's `str::lines`: a line ends with a line feed, or a carriage return and a line feed, or at the end. */
  function Lines(s: bytes): seq<bytes>
    decreases |s|
  {
    if s == [] then []
    else
      var e := RunEnd(NotNewline, s, 0);
      if e == |s| then [s] else [StripCr(s[..e])] + Lines(s[e + 1..])
  }

  lemma StripCrIsValid(line: bytes)
    requires Valid(line)
    ensures Valid(StripCr(line))
  {
    hide Width;
    if StripCr(line) != line {
      ValidSplit(line, |line| - 1);
    }
  }

  /** A valid text cut around the line feed at `e`. */
  lemma CutAtNewline(s: bytes, e: nat)
    requires Valid(s) && e < |s| && s[e] == '\n'
    ensures Valid(s[..e]) && Valid(s[e + 1..])
  {
    hide Width, Valid;
    ValidSplit(s, e);
    BoundaryAfterAscii(s, e + 1);
    ValidSplit(s, e + 1);
  }

  lemma {:induction false} LinesAreValid(s: bytes)
    requires Valid(s)
    ensures forall k :: 0 <= k < |Lines(s)| ==> Valid(Lines(s)[k])
    decreases |s|
  {
    hide Valid, RunEnd;
    if s != [] {
      var e := RunEnd(NotNewline, s, 0);
      if e < |s| {
        RunEndSpec(NotNewline, s, 0);
        CutAtNewline(s, e);
        StripCrIsValid(s[..e]);
        LinesAreValid(s[e + 1..]);
      }
    }
  }

  // ---------------------------------------------------------------------------------------------
  // Maximal runs
  // ---------------------------------------------------------------------------------------------

  ghost predicate SameTemplate(b: seq<bytes>) {
    b != [] && forall j :: 0 <= j < |b| ==> Template(b[j]) == Template(b[0])
  }

  /** `bs` cuts `ls` into runs of equal templates that cannot be extended. */
  ghost predicate IsMaximalSplit(bs: seq<seq<bytes>>, ls: seq<bytes>) {
    && Flatten(bs) == ls
    && (forall i :: 0 <= i < |bs| ==> SameTemplate(bs[i]))
    && (forall i :: 0 < i < |bs| ==> Template(bs[i - 1][0]) != Template(bs[i][0]))
  }

  /** How many leading lines have the template `t`. */
  function LeadingRun(ls: seq<bytes>, t: bytes): (n: nat)
    ensures n <= |ls|
    ensures forall j :: 0 <= j < n ==> Template(ls[j]) == t
    ensures n < |ls| ==> Template(ls[n]) != t
  {
    if ls != [] && Template(ls[0]) == t then 1 + LeadingRun(ls[1..], t) else 0
  }

  function Blocks(ls: seq<bytes>): seq<seq<bytes>>
    decreases |ls|
  {
    if ls == [] then []
    else
      var n := 1 + LeadingRun(ls[1..], Template(ls[0]));
      [ls[..n]] + Blocks(ls[n..])
  }

  lemma EmptySplit()
    ensures IsMaximalSplit([], [])
  {
  }

  lemma {:induction false} BlocksAreMaximal(ls: seq<bytes>)
    ensures IsMaximalSplit(Blocks(ls), ls)
    decreases |ls|
  {
    hide Template, IsMaximalSplit;
    if ls == [] {
      EmptySplit();
    } else {
      var n := 1 + LeadingRun(ls[1..], Template(ls[0]));
      BlocksAreMaximal(ls[n..]);
      assert forall j :: 0 < j < n ==> ls[j] == ls[1..][j - 1];
      assert SameTemplate(ls[..n]);
      assert n < |ls| ==> ls[n] == ls[1..][n - 1];
      PrependBlock(ls[..n], Blocks(ls[n..]), ls[n..]);
      assert ls == ls[..n] + ls[n..];
    }
  }

  lemma PrependBlock(b: seq<bytes>, bs: seq<seq<bytes>>, ls: seq<bytes>)
    requires SameTemplate(b) && IsMaximalSplit(bs, ls)
    requires ls != [] ==> Template(ls[0]) != Template(b[0])
    ensures IsMaximalSplit([b] + bs, b + ls)
  {
    hide Template;
    var cs := [b] + bs;
    assert cs[1..] == bs;
    assert forall i :: 0 < i < |cs| ==> cs[i] == bs[i - 1];
    if bs != [] {
      assert Flatten(bs) == bs[0] + Flatten(bs[1..]);
      assert bs[0][0] == ls[0];
    }
  }

  lemma FirstBlockUniform(bs: seq<seq<bytes>>, ls: seq<bytes>, n: nat)
    requires IsMaximalSplit(bs, ls) && bs != [] && n < |bs[0]|
    ensures n < |ls| && Template(ls[n]) == Template(ls[0])
  {
    hide Template;
    assert ls[n] == bs[0][n] && ls[0] == bs[0][0];
  }

  lemma SecondBlockDiffers(bs: seq<seq<bytes>>, ls: seq<bytes>)
    requires IsMaximalSplit(bs, ls) && bs != [] && |bs[0]| < |ls|
    ensures Template(ls[|bs[0]|]) != Template(ls[0])
  {
    hide Template;
    var rest := bs[1..];
    assert Flatten(rest) == ls[|bs[0]|..];
    assert rest != [];
    assert bs[1][0] == ls[|bs[0]|] && bs[0][0] == ls[0];
  }

  /** A maximal split begins with the longest possible first run. */
  lemma FirstBlocksAgree(bs: seq<seq<bytes>>, cs: seq<seq<bytes>>, ls: seq<bytes>)
    requires IsMaximalSplit(bs, ls) && IsMaximalSplit(cs, ls) && ls != []
    ensures bs != [] && cs != [] && |bs[0]| <= |cs[0]|
  {
    hide Template;
    if |cs[0]| < |bs[0]| {
      FirstBlockUniform(bs, ls, |cs[0]|);
      SecondBlockDiffers(cs, ls);
    }
  }

  /** There is only one maximal split. */
  lemma {:induction false} MaximalSplitUnique(bs: seq<seq<bytes>>, cs: seq<seq<bytes>>, ls: seq<bytes>)
    requires IsMaximalSplit(bs, ls) && IsMaximalSplit(cs, ls)
    ensures bs == cs
    decreases |ls|
  {
    hide Template;
    if ls == [] {
      assert bs == [] && cs == [];
    } else {
      FirstBlocksAgree(bs, cs, ls);
      FirstBlocksAgree(cs, bs, ls);
      var n := |bs[0]|;
      assert bs[0] == ls[..n] == cs[0];
      assert Flatten(bs[1..]) == ls[n..] == Flatten(cs[1..]);
      MaximalSplitUnique(bs[1..], cs[1..], ls[n..]);
      assert bs == [bs[0]] + bs[1..] && cs == [cs[0]] + cs[1..];
    }
  }

  // ---------------------------------------------------------------------------------------------
  // Rendering
  // ---------------------------------------------------------------------------------------------

  /** The count and, unless it would repeat the line, the template. */
  function Marker(rep: bytes, tmpl: bytes, run: nat): bytes {
    "  [x" + Decimal(run) + (if tmpl != rep then " ~ " + tmpl else "") + "]"
  }

  /** The representative line, for a run with a marker. */
  function RenderRun(rep: bytes, tmpl: bytes, run: nat): bytes {
    rep + (if run >= MIN_RUN then Marker(rep, tmpl, run) else "") + "\n"
  }

  function RenderBlocks(bs: seq<seq<bytes>>): bytes
    requires forall i :: 0 <= i < |bs| ==> bs[i] != []
  {
    if bs == [] then []
    else RenderRun(bs[0][0], Template(bs[0][0]), |bs[0]|) + RenderBlocks(bs[1..])
  }

  lemma {:induction false} RenderSnoc(bs: seq<seq<bytes>>, b: seq<bytes>)
    requires b != [] && forall i :: 0 <= i < |bs| ==> bs[i] != []
    ensures RenderBlocks(bs + [b]) == RenderBlocks(bs) + RenderRun(b[0], Template(b[0]), |b|)
  {
    hide Template, RenderRun;
    if bs == [] {
      assert bs + [b] == [b] && [b][1..] == [];
    } else {
      RenderSnoc(bs[1..], b);
      assert (bs + [b])[1..] == bs[1..] + [b];
    }
  }

  lemma OneRunIsMaximal(ls: seq<bytes>)
    requires SameTemplate(ls)
    ensures IsMaximalSplit([ls], ls)
  {
    hide SameTemplate;
    assert [ls][1..] == [];
    assert Flatten([ls]) == ls + Flatten([ls][1..]);
  }

  lemma RenderOne(b: seq<bytes>)
    requires b != []
    ensures RenderBlocks([b]) == RenderRun(b[0], Template(b[0]), |b|)
  {
    hide Template, RenderRun;
    assert [b][1..] == [];
    assert RenderBlocks([b]) == RenderRun(b[0], Template(b[0]), |b|) + RenderBlocks([b][1..]);
  }

  /** Lines with one template are one run. */
  lemma OneRun(ls: seq<bytes>)
    requires SameTemplate(ls)
    ensures Blocks(ls) == [ls] && RenderBlocks([ls]) == RenderRun(ls[0], Template(ls[0]), |ls|)
  {
    hide Template, RenderRun, Blocks, RenderBlocks, IsMaximalSplit;
    OneRunIsMaximal(ls);
    BlocksAreMaximal(ls);
    MaximalSplitUnique([ls], Blocks(ls), ls);
    RenderOne(ls);
  }

  /** What log compression makes of a text. */
  function CompressedLog(content: bytes): bytes {
    BlocksAreMaximal(Lines(content));
    TrimEnd(RenderBlocks(Blocks(Lines(content))))
  }

  method Flush(out: StringBuf, repLine: bytes, tmpl: bytes, run: nat)
    modifies out
    ensures out.text == old(out.text) + RenderRun(repLine, tmpl, run)
  {
    hide Marker;
    out.PushStr(repLine);
    if run >= MIN_RUN {
      PushMarker(out, repLine, tmpl, run);
    }
    out.PushStr("\n");
    ghost var marker := if run >= MIN_RUN then Marker(repLine, tmpl, run) else "";
    Assoc(old(out.text), repLine, marker);
    Assoc(old(out.text), repLine + marker, "\n");
  }

  method PushMarker(out: StringBuf, repLine: bytes, tmpl: bytes, run: nat)
    modifies out
    ensures out.text == old(out.text) + Marker(repLine, tmpl, run)
  {
    out.PushStr("  [x");
    out.PushStr(Decimal(run));
    if tmpl != repLine {
      out.PushStr(" ~ ");
      out.PushStr(tmpl);
    }
    out.PushStr("]");
    ghost var count, shown := "  [x" + Decimal(run), if tmpl != repLine then " ~ " + tmpl else "";
    Assoc(old(out.text), "  [x", Decimal(run));
    Assoc(old(out.text) + count, " ~ ", tmpl);
    Assoc(old(out.text), count, shown);
    Assoc(old(out.text), count + shown, "]");
  }

  /** The run in progress grows by the next line, or ends before it. */
  lemma NextLine(done: seq<seq<bytes>>, cur: seq<bytes>, seen: seq<bytes>, line: bytes)
    requires cur != [] && IsMaximalSplit(done + [cur], seen)
    ensures Template(line) == Template(cur[0]) ==> IsMaximalSplit(done + [cur + [line]], seen + [line])
    ensures Template(line) != Template(cur[0]) ==> IsMaximalSplit(done + [cur] + [[line]], seen + [line])
  {
    hide Template;
    FlattenSnoc(done, cur);
    FlattenSnoc(done, cur + [line]);
    FlattenSnoc(done + [cur], [line]);
    var bs := done + [cur];
    assert forall i :: 0 <= i < |done| ==> bs[i] == done[i];
    assert bs[|done|] == cur;
    if Template(line) == Template(cur[0]) {
      var cs := done + [cur + [line]];
      assert forall i :: 0 <= i < |done| ==> cs[i] == bs[i];
      assert SameTemplate(cur + [line]);
    } else {
      var cs := done + [cur] + [[line]];
      assert forall i :: 0 <= i <= |done| ==> cs[i] == bs[i];
      assert SameTemplate([line]);
    }
  }

  /** The streaming loop, with one line of lookahead, renders the maximal runs of the text. */
  method CompressLogImpl(content: bytes) returns (r: Option<bytes>)
    requires Valid(content)
    ensures r == Some(CompressedLog(content))
  {
    hide Template, Valid, RenderRun, TrimEnd, SpaceAtEnd;
    var out := new StringBuf();
    var prevTmpl := new StringBuf();
    var curTmpl := new StringBuf();
    var prevLine: Option<bytes> := None;
    var run := 0;
    var ls := Lines(content);
    LinesAreValid(content);
    ghost var done, cur := [], [];
    for k := 0 to |ls|
      invariant fresh(out) && fresh(prevTmpl) && fresh(curTmpl)
      invariant out != prevTmpl && out != curTmpl && prevTmpl != curTmpl
      invariant k == 0 ==> prevLine.None? && done == [] && out.text == []
      invariant k > 0 ==> cur != [] && IsMaximalSplit(done + [cur], ls[..k])
      invariant k > 0 ==> prevLine == Some(cur[0]) && prevTmpl.text == Template(cur[0]) && run == |cur|
      invariant forall i :: 0 <= i < |done| ==> done[i] != []
      invariant out.text == RenderBlocks(done)
    {
      var line := ls[k];
      assert ls[..k + 1] == ls[..k] + [line];
      curTmpl.Clear();
      LogTemplate(line, curTmpl);
      assert curTmpl.text == Template(line);
      match prevLine {
        case None =>
          prevLine := Some(line);
          prevTmpl.Clear();
          prevTmpl.PushStr(curTmpl.text);
          run := 1;
          SingleLine(line);
          cur := [line];
        case Some(p) =>
          NextLine(done, cur, ls[..k], line);
          if curTmpl.text == prevTmpl.text {
            run := run + 1;
            cur := cur + [line];
          } else {
            Flush(out, p, prevTmpl.text, run);
            RenderSnoc(done, cur);
            prevLine := Some(line);
            prevTmpl.Clear();
            prevTmpl.PushStr(curTmpl.text);
            run := 1;
            done := done + [cur];
            cur := [line];
          }
      }
    }
    BlocksAreMaximal(ls);
    assert ls[..|ls|] == ls;
    if prevLine.Some? {
      Flush(out, prevLine.value, prevTmpl.text, run);
      RenderSnoc(done, cur);
      MaximalSplitUnique(done + [cur], Blocks(ls), ls);
    }
    return Some(TrimEnd(out.text));
  }

  lemma SingleLine(line: bytes)
    ensures IsMaximalSplit([] + [[line]], [line])
  {
    hide Template;
    var bs: seq<seq<bytes>> := [];
    FlattenSnoc(bs, [line]);
    assert SameTemplate([line]);
  }
}
