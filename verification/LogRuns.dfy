/**
  Properties of whole compressed logs.
 */
module LogRuns {
  import opened Common
  import opened Utf8
  import opened LogScanners
  import opened LogTemplates
  import opened LogShapes
  import opened LogCompressor

  // ---------------------------------------------------------------------------------------------
  // The compressed text is valid UTF-8
  // ---------------------------------------------------------------------------------------------

  lemma RunIsValid(rep: bytes, run: nat)
    requires Valid(rep)
    ensures Valid(RenderRun(rep, Template(rep), run))
  {
    hide Valid, TemplateFrom;
    var tmpl := Template(rep);
    TemplateFromIsValid(None, rep);
    var count := "  [x" + Decimal(run);
    var shown := if tmpl != rep then " ~ " + tmpl else "";
    AsciiIsValid(count);
    AsciiIsValid(" ~ ");
    AsciiIsValid("");
    ValidConcat(" ~ ", tmpl);
    AsciiIsValid("]");
    AsciiIsValid("\n");
    ValidConcat(count, shown);
    ValidConcat(count + shown, "]");
    var marker := if run >= MIN_RUN then count + shown + "]" else "";
    ValidConcat(rep, marker);
    ValidConcat(rep + marker, "\n");
  }

  lemma {:induction false} BlocksRenderValid(bs: seq<seq<bytes>>)
    requires forall i :: 0 <= i < |bs| ==> bs[i] != [] && Valid(bs[i][0])
    ensures Valid(RenderBlocks(bs))
  {
    hide RenderRun, Template;
    if bs == [] {
      AsciiIsValid([]);
    } else {
      RunIsValid(bs[0][0], |bs[0]|);
      BlocksRenderValid(bs[1..]);
      ValidConcat(RenderRun(bs[0][0], Template(bs[0][0]), |bs[0]|), RenderBlocks(bs[1..]));
    }
  }

  lemma {:induction false} InBlockInLines(bs: seq<seq<bytes>>, i: nat)
    requires i < |bs| && bs[i] != []
    ensures bs[i][0] in Flatten(bs)
  {
    if i == 0 {
      assert Flatten(bs)[0] == bs[0][0];
    } else {
      InBlockInLines(bs[1..], i - 1);
      assert bs[i][0] in Flatten(bs[1..]);
    }
  }

  lemma CompressedLogIsValid(content: bytes)
    requires Valid(content)
    ensures Valid(CompressedLog(content))
  {
    hide Template, Valid, RenderBlocks, TrimEnd;
    var ls := Lines(content);
    LinesAreValid(content);
    BlocksAreMaximal(ls);
    forall i | 0 <= i < |Blocks(ls)|
      ensures Blocks(ls)[i] != [] && Valid(Blocks(ls)[i][0])
    {
      InBlockInLines(Blocks(ls), i);
    }
    BlocksRenderValid(Blocks(ls));
    TrimEndIsValid(RenderBlocks(Blocks(ls)));
  }

  // ---------------------------------------------------------------------------------------------
  // Nothing to collapse
  // ---------------------------------------------------------------------------------------------

  ghost predicate NoEqualNeighbours(ls: seq<bytes>) {
    forall i :: 0 < i < |ls| ==> Template(ls[i - 1]) != Template(ls[i])
  }

  function Terminated(ls: seq<bytes>): bytes {
    if ls == [] then [] else ls[0] + "\n" + Terminated(ls[1..])
  }

  lemma {:induction false} SingletonBlocks(ls: seq<bytes>)
    requires NoEqualNeighbours(ls)
    ensures |Blocks(ls)| == |ls|
    ensures forall i :: 0 <= i < |ls| ==> Blocks(ls)[i] == [ls[i]]
  {
    hide Template;
    if ls != [] {
      assert |ls| > 1 ==> ls[1..][0] == ls[1];
      assert NoEqualNeighbours(ls[1..]);
      SingletonBlocks(ls[1..]);
    }
  }

  /** As many runs as lines means that no neighbours were merged. */
  lemma SingletonsOnly(ls: seq<bytes>)
    ensures |Blocks(ls)| == |ls| <==> NoEqualNeighbours(ls)
  {
    hide Template;
    BlocksAreMaximal(ls);
    if NoEqualNeighbours(ls) {
      SingletonBlocks(ls);
    }
    if |Blocks(ls)| == |ls| {
      AllSingletons(Blocks(ls));
      assert forall i :: 0 <= i < |ls| ==> Blocks(ls)[i] == [ls[i]];
    }
  }

  lemma {:induction false} NotLonger(bs: seq<seq<bytes>>)
    requires forall i :: 0 <= i < |bs| ==> bs[i] != []
    ensures |Flatten(bs)| >= |bs|
  {
    if bs != [] {
      NotLonger(bs[1..]);
    }
  }

  lemma {:induction false} AllSingletons(bs: seq<seq<bytes>>)
    requires forall i :: 0 <= i < |bs| ==> bs[i] != []
    requires |Flatten(bs)| == |bs|
    ensures forall i :: 0 <= i < |bs| ==> bs[i] == [Flatten(bs)[i]]
  {
    if bs != [] {
      NotLonger(bs[1..]);
      AllSingletons(bs[1..]);
    }
  }

  lemma {:induction false} RenderSingletons(bs: seq<seq<bytes>>, ls: seq<bytes>)
    requires |bs| == |ls| && forall i :: 0 <= i < |bs| ==> bs[i] == [ls[i]]
    ensures RenderBlocks(bs) == Terminated(ls)
  {
    hide Template;
    if bs != [] {
      RenderSingletons(bs[1..], ls[1..]);
    }
  }

  /** A log without equal neighbours comes back line by line. */
  lemma DistinctLinesPassThrough(content: bytes)
    requires NoEqualNeighbours(Lines(content))
    ensures CompressedLog(content) == TrimEnd(Terminated(Lines(content)))
  {
    hide Template, TrimEnd;
    SingletonBlocks(Lines(content));
    BlocksAreMaximal(Lines(content));
    RenderSingletons(Blocks(Lines(content)), Lines(content));
  }

  // ---------------------------------------------------------------------------------------------
  // Lines that differ in their timestamp only
  // ---------------------------------------------------------------------------------------------

  /** One line per timestamp, all with the same rest. */
  function StampedLines(ts: seq<Stamp>, rest: bytes): (ls: seq<bytes>)
    ensures |ls| == |ts|
    ensures forall i :: 0 <= i < |ts| ==> ls[i] == ts[i].Text() + " " + rest
  {
    if ts == [] then [] else [ts[0].Text() + " " + rest] + StampedLines(ts[1..], rest)
  }

  ghost predicate NoNewline(s: bytes) {
    forall m :: 0 <= m < |s| ==> s[m] != '\n'
  }

  lemma NoNewlineConcat(a: bytes, b: bytes)
    requires NoNewline(a) && NoNewline(b)
    ensures NoNewline(a + b)
  {
  }

  lemma StampHasNoNewline(t: Stamp)
    requires t.WellFormed()
    ensures NoNewline(t.Text())
  {
    assert NoNewline(t.dateTime) && NoNewline(t.fraction) && NoNewline(t.zone) by {
      DateTimeHasNoNewline(t.dateTime);
    }
    hide NoNewline;
    NoNewlineConcat(t.dateTime, t.fraction);
    NoNewlineConcat(t.dateTime + t.fraction, t.zone);
  }

  lemma DateTimeHasNoNewline(d: bytes)
    requires |d| == 19 && IsDateTime(d)
    ensures NoNewline(d)
  {
  }

  lemma OneLine(line: bytes, more: bytes)
    requires NoNewline(line)
    ensures Lines(line + "\n" + more) == [StripCr(line)] + Lines(more)
  {
    hide RunEnd;
    var s := line + "\n" + more;
    RunEndUnique(NotNewline, s, 0, |line|);
    assert s[..|line|] == line && s[|line| + 1..] == more;
  }

  lemma {:induction false} LinesOfStamped(ts: seq<Stamp>, rest: bytes)
    requires forall i :: 0 <= i < |ts| ==> ts[i].WellFormed()
    requires NoNewline(rest)
    ensures Lines(Terminated(StampedLines(ts, rest))) == StampedLines(ts, StripCr(rest))
  {
    if ts != [] {
      var line := ts[0].Text() + " " + rest;
      var more := Terminated(StampedLines(ts[1..], rest));
      StampHasNoNewline(ts[0]);
      NoNewlineConcat(ts[0].Text(), " ");
      NoNewlineConcat(ts[0].Text() + " ", rest);
      OneLine(line, more);
      assert StripCr(line) == ts[0].Text() + " " + StripCr(rest);
      LinesOfStamped(ts[1..], rest);
    }
  }

  /**
    A final line feed makes no difference to the lines, if and only if the text before it is not empty and ends in
    neither a line feed, which would begin an empty line, nor a carriage return, which would become part of the end.
   */
  lemma {:induction false} FinalNewlineOptional(s: bytes)
    ensures Lines(s + "\n") == Lines(s) <==> s != [] && s[|s| - 1] != '\n' && s[|s| - 1] != '\r'
    decreases |s|
  {
    hide RunEnd;
    var e := RunEnd(NotNewline, s, 0);
    RunEndSpec(NotNewline, s, 0);
    RunEndUnique(NotNewline, s + "\n", 0, e);
    assert (s + "\n")[..e] == s[..e];
    if e < |s| {
      var rest := s[e + 1..];
      assert s[e] == '\n';
      assert (s + "\n")[e + 1..] == rest + "\n";
      FinalNewlineOptional(rest);
      assert Lines(s)[1..] == Lines(rest) && Lines(s + "\n")[1..] == Lines(rest + "\n");
      assert Lines(s) == [StripCr(s[..e])] + Lines(rest);
      if rest != [] {
        assert rest[|rest| - 1] == s[|s| - 1];
      }
    } else {
      assert (s + "\n")[e + 1..] == [];
      assert s != [] ==> Lines(s) == [s];
      assert Lines(s + "\n") == [StripCr(s)];
    }
  }

  /** The end of a marker is not trimmed, the line feed after it is. */
  lemma TrimAfterMarker(s: bytes)
    requires s != [] && s[|s| - 1] == ']'
    ensures TrimEnd(s + "\n") == s
  {
    var u := s + "\n";
    assert u[|u| - 1..] == "\n";
    assert u[..|u| - 1] == s;
    assert SpaceAtEnd(s) == 0;
  }

  lemma BlocksOfStamped(ts: seq<Stamp>, rest: bytes)
    requires ts != [] && forall i :: 0 <= i < |ts| ==> ts[i].WellFormed()
    ensures Blocks(StampedLines(ts, rest)) == [StampedLines(ts, rest)]
    ensures SameTemplate(StampedLines(ts, rest)) && Template(StampedLines(ts, rest)[0]) == "<TS> " + Template(rest)
  {
    hide TemplateFrom, IsDateTime;
    var ls := StampedLines(ts, rest);
    forall i | 0 <= i < |ls|
      ensures Template(ls[i]) == "<TS> " + Template(rest)
    {
      TimestampedLine(ts[i], rest);
    }
    hide Template;
    OneRun(ls);
  }

  /** A run of at least two lines becomes its first line and a marker. */
  lemma RenderOneRun(b: seq<bytes>)
    requires |b| >= MIN_RUN && SameTemplate(b)
    ensures TrimEnd(RenderBlocks([b])) == b[0] + Marker(b[0], Template(b[0]), |b|)
  {
    hide Template, TrimEnd, RenderBlocks;
    OneRun(b);
    var marker := Marker(b[0], Template(b[0]), |b|);
    assert marker[|marker| - 1] == ']';
    TrimAfterMarker(b[0] + marker);
  }

  /** Each run is written as its first line, with a marker from two lines on, before the runs that follow. */
  lemma RunsFollow(b: seq<bytes>, bs: seq<seq<bytes>>)
    requires b != [] && forall i :: 0 <= i < |bs| ==> bs[i] != []
    ensures var tmpl := Template(b[0]);
            var marker := "  [x" + Decimal(|b|) + (if tmpl == b[0] then "" else " ~ " + tmpl) + "]";
            RenderBlocks([b] + bs) == b[0] + (if |b| >= 2 then marker else "") + "\n" + RenderBlocks(bs)
  {
    hide Template, Decimal;
    assert ([b] + bs)[1..] == bs;
  }

  lemma StampDiffersFromPlaceholder(t: Stamp, rest: bytes, tmpl: bytes)
    requires t.WellFormed()
    ensures t.Text() + " " + rest != "<TS> " + tmpl
  {
    assert (t.Text() + " " + rest)[0] == t.dateTime[0];
    assert ("<TS> " + tmpl)[0] == '<';
  }

  /** Two or more lines that differ in their timestamp only become the first line, the count and the template. */
  lemma TimestampedRunCollapses(ts: seq<Stamp>, rest: bytes)
    requires |ts| >= 2 && (forall i :: 0 <= i < |ts| ==> ts[i].WellFormed())
    requires NoNewline(rest)
    ensures CompressedLog(Terminated(StampedLines(ts, rest)))
         == ts[0].Text() + " " + StripCr(rest)
            + ("  [x" + Decimal(|ts|) + (" ~ " + ("<TS> " + Template(StripCr(rest)))) + "]")
  {
    hide Template, IsDateTime, TrimEnd, Lines, Decimal;
    var tail := StripCr(rest);
    var ls := StampedLines(ts, tail);
    LinesOfStamped(ts, rest);
    BlocksOfStamped(ts, tail);
    StampDiffersFromPlaceholder(ts[0], tail, Template(tail));
    RenderOneRun(ls);
  }

  // ---------------------------------------------------------------------------------------------
  // Identical lines
  // ---------------------------------------------------------------------------------------------

  function Copies(line: bytes, n: nat): (ls: seq<bytes>)
    ensures |ls| == n && forall i :: 0 <= i < n ==> ls[i] == line
  {
    if n == 0 then [] else [line] + Copies(line, n - 1)
  }

  lemma {:induction false} LinesOfCopies(line: bytes, n: nat)
    requires NoNewline(line) && StripCr(line) == line
    ensures Lines(Terminated(Copies(line, n))) == Copies(line, n)
  {
    hide NoNewline, StripCr;
    if n > 0 {
      OneLine(line, Terminated(Copies(line, n - 1)));
      LinesOfCopies(line, n - 1);
    }
  }

  /** Two or more copies of a line become the line and their number, with the template unless it is the line. */
  lemma IdenticalLinesCollapse(line: bytes, n: nat)
    requires n >= 2 && NoNewline(line) && StripCr(line) == line
    ensures CompressedLog(Terminated(Copies(line, n)))
         == line + ("  [x" + Decimal(n) + (if Template(line) == line then "" else " ~ " + Template(line)) + "]")
  {
    hide Template, TrimEnd, Lines, Decimal, RenderBlocks;
    LinesOfCopies(line, n);
    var ls := Copies(line, n);
    OneRun(ls);
    RenderOneRun(ls);
  }
}
