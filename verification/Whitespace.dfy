/**
  Collapsing white space, on strings seen as sequences of characters.
 */
module Whitespace {
  import opened Common
  import opened Utf8
  import Strings

  const SPACE: bytes := " "

  ghost predicate IsWord(w: seq<bytes>) {
    w != [] && forall i :: 0 <= i < |w| ==> !IsWhitespace(w[i])
  }

  /** Number of leading characters that are not white space. */
  function WordLen(cs: seq<bytes>): (n: nat)
    ensures n <= |cs|
    ensures forall i :: 0 <= i < n ==> !IsWhitespace(cs[i])
    ensures n < |cs| ==> IsWhitespace(cs[n])
  {
    if cs == [] || IsWhitespace(cs[0]) then 0 else 1 + WordLen(cs[1..])
  }

  /** The words of a text: its maximal runs of characters other than white space. */
  function Words(cs: seq<bytes>): (ws: seq<seq<bytes>>)
    ensures forall i :: 0 <= i < |ws| ==> IsWord(ws[i])
    decreases |cs|
  {
    if cs == [] then []
    else if IsWhitespace(cs[0]) then Words(cs[1..])
    else [cs[..WordLen(cs)]] + Words(cs[WordLen(cs)..])
  }

  function JoinWords(ws: seq<seq<bytes>>): seq<bytes> {
    if ws == [] then []
    else if |ws| == 1 then ws[0]
    else ws[0] + [SPACE] + JoinWords(ws[1..])
  }

  function Collapsed(s: bytes): bytes
    requires Valid(s)
  {
    Flatten(JoinWords(Words(Chars(s))))
  }

  // ---------------------------------------------------------------------------------------------
  // The loop
  // ---------------------------------------------------------------------------------------------

  function TrimStartChars(cs: seq<bytes>): seq<bytes> {
    if cs != [] && IsWhitespace(cs[0]) then TrimStartChars(cs[1..]) else cs
  }

  function TrimEndChars(cs: seq<bytes>): seq<bytes> {
    if cs != [] && IsWhitespace(cs[|cs| - 1]) then TrimEndChars(cs[..|cs| - 1]) else cs
  }

  /** Rust's `str::trim`. */
  function TrimChars(cs: seq<bytes>): seq<bytes> {
    TrimEndChars(TrimStartChars(cs))
  }

  /** What the loop still appends for the characters `cs`. */
  function Squeezed(lastWasSpace: bool, cs: seq<bytes>): seq<bytes>
    decreases |cs|
  {
    if cs == [] then []
    else if IsWhitespace(cs[0]) then (if lastWasSpace then [] else [SPACE]) + Squeezed(true, cs[1..])
    else [cs[0]] + Squeezed(false, cs[1..])
  }

  lemma WordStep(cs: seq<bytes>)
    requires cs != [] && !IsWhitespace(cs[0])
    ensures WordLen(cs) == 1 + WordLen(cs[1..])
    ensures |cs| == 1 || IsWhitespace(cs[1]) ==> WordLen(cs) == 1
  {
    hide IsWhitespace;
  }

  lemma SqueezedStep(b: bool, cs: seq<bytes>)
    requires cs != [] && !IsWhitespace(cs[0])
    ensures Squeezed(b, cs) == [cs[0]] + Squeezed(false, cs[1..])
  {
    hide IsWhitespace;
  }

  lemma {:induction false} SqueezedWord(b: bool, cs: seq<bytes>)
    requires cs != [] && !IsWhitespace(cs[0])
    ensures Squeezed(b, cs) == cs[..WordLen(cs)] + Squeezed(false, cs[WordLen(cs)..])
  {
    hide IsWhitespace, WordLen, Squeezed;
    WordStep(cs);
    SqueezedStep(b, cs);
    var n := WordLen(cs);
    var rest := cs[1..];
    if rest != [] && !IsWhitespace(rest[0]) {
      SqueezedWord(false, rest);
      assert cs[n..] == rest[n - 1..];
      assert cs[..n] == [cs[0]] + rest[..n - 1];
    } else {
      assert cs[..1] == [cs[0]];
    }
  }

  /** After white space, the loop appends the joined words, and one space if it ends in white space after a word. */
  lemma {:induction false} SqueezedIsJoined(cs: seq<bytes>)
    ensures Squeezed(true, cs) == JoinWords(Words(cs))
         || (Words(cs) != [] && Squeezed(true, cs) == JoinWords(Words(cs)) + [SPACE])
    decreases |cs|
  {
    hide IsWhitespace;
    if cs == [] {
    } else if IsWhitespace(cs[0]) {
      SqueezedIsJoined(cs[1..]);
    } else {
      SqueezedWord(true, cs);
      var n := WordLen(cs);
      var rest := cs[n..];
      if rest == [] {
        assert Words(cs) == [cs[..n]];
        assert Squeezed(true, cs) == cs[..n];
      } else {
        assert IsWhitespace(rest[0]);
        SqueezedIsJoined(rest[1..]);
        assert Words(rest) == Words(rest[1..]);
        assert Words(cs) == [cs[..n]] + Words(rest);
        assert Words(cs)[1..] == Words(rest);
      }
    }
  }

  lemma {:induction false} JoinedEnds(ws: seq<seq<bytes>>)
    requires ws != [] && forall i :: 0 <= i < |ws| ==> IsWord(ws[i])
    ensures var j := JoinWords(ws);
            j != [] && !IsWhitespace(j[0]) && !IsWhitespace(j[|j| - 1])
  {
    hide IsWhitespace;
    if |ws| > 1 {
      JoinedEnds(ws[1..]);
    }
  }

  lemma SpaceIsWhitespace()
    ensures IsWhitespace(SPACE)
  {
  }

  lemma TrimStartOne(lead: seq<bytes>, x: seq<bytes>)
    requires lead in {[], [SPACE]} && (x == [] || !IsWhitespace(x[0]))
    ensures TrimStartChars(lead + x) == x
  {
    hide IsWhitespace;
    SpaceIsWhitespace();
    assert [] + x == x;
    assert ([SPACE] + x)[1..] == x;
  }

  lemma TrimEndOne(x: seq<bytes>, trail: seq<bytes>)
    requires trail in {[], [SPACE]} && x != [] && !IsWhitespace(x[|x| - 1])
    ensures TrimEndChars(x + trail) == x
  {
    hide IsWhitespace;
    SpaceIsWhitespace();
    assert x + [] == x;
    assert (x + [SPACE])[..|x|] == x;
  }

  /** Trimming removes one space added at either end. */
  lemma TrimJoined(ws: seq<seq<bytes>>, lead: seq<bytes>, trail: seq<bytes>)
    requires forall i :: 0 <= i < |ws| ==> IsWord(ws[i])
    requires lead in {[], [SPACE]} && trail in {[], [SPACE]} && (ws == [] ==> trail == [])
    ensures TrimChars(lead + JoinWords(ws) + trail) == JoinWords(ws)
  {
    hide IsWhitespace, TrimStartChars, TrimEndChars, JoinWords;
    var j := JoinWords(ws);
    assert lead + j + trail == lead + (j + trail);
    if ws == [] {
      NothingJoined();
      assert j + trail == [];
      TrimStartOne(lead, []);
      TrimmedNothing();
    } else {
      JoinedEnds(ws);
      TrimStartOne(lead, j + trail);
      TrimEndOne(j, trail);
    }
  }

  lemma NothingJoined()
    ensures JoinWords([]) == []
  {
  }

  lemma TrimmedNothing()
    ensures TrimEndChars([]) == []
  {
  }

  /** At the beginning of a text the loop treats white space as it does after a word. */
  lemma SqueezedAtStart(cs: seq<bytes>)
    ensures var lead := if cs != [] && IsWhitespace(cs[0]) then [SPACE] else [];
            Squeezed(false, cs) == lead + Squeezed(true, cs)
  {
    hide IsWhitespace;
  }

  lemma SqueezedTrimmed(cs: seq<bytes>)
    ensures TrimChars(Squeezed(false, cs)) == JoinWords(Words(cs))
  {
    hide IsWhitespace, TrimChars, Squeezed, JoinWords;
    var j := JoinWords(Words(cs));
    SqueezedIsJoined(cs);
    SqueezedAtStart(cs);
    var lead: seq<bytes> := if cs != [] && IsWhitespace(cs[0]) then [SPACE] else [];
    var trail: seq<bytes> := if Squeezed(true, cs) == j then [] else [SPACE];
    assert Squeezed(false, cs) == lead + j + trail;
    TrimJoined(Words(cs), lead, trail);
  }

  method CollapseWhitespace(content: bytes) returns (r: bytes)
    requires Valid(content)
    ensures r == Collapsed(content)
  {
    hide IsWhitespace, TrimChars, Words, JoinWords, Valid, Chars;
    var out: seq<bytes> := [];
    var lastWasSpace := false;
    var cs := Chars(content);
    for k := 0 to |cs|
      invariant out + Squeezed(lastWasSpace, cs[k..]) == Squeezed(false, cs)
    {
      var ch := cs[k];
      assert cs[k..][1..] == cs[k + 1..];
      if IsWhitespace(ch) {
        if !lastWasSpace {
          out := out + [SPACE];
          lastWasSpace := true;
        }
      } else {
        out := out + [ch];
        lastWasSpace := false;
      }
    }
    assert out == Squeezed(false, cs);
    SqueezedTrimmed(cs);
    r := Flatten(TrimChars(out));
  }

  // ---------------------------------------------------------------------------------------------
  // What collapsing keeps
  // ---------------------------------------------------------------------------------------------

  function Visible(cs: seq<bytes>): seq<bytes> {
    if cs == [] then []
    else if IsWhitespace(cs[0]) then Visible(cs[1..])
    else [cs[0]] + Visible(cs[1..])
  }

  function ByteLen(cs: seq<bytes>): nat {
    if cs == [] then 0 else |cs[0]| + ByteLen(cs[1..])
  }

  lemma {:induction false} VisibleConcat(a: seq<bytes>, b: seq<bytes>)
    ensures Visible(a + b) == Visible(a) + Visible(b)
  {
    hide IsWhitespace;
    if a == [] {
      assert a + b == b;
    } else {
      assert (a + b)[1..] == a[1..] + b;
      VisibleConcat(a[1..], b);
    }
  }

  lemma {:induction false} VisibleWord(w: seq<bytes>)
    requires forall i :: 0 <= i < |w| ==> !IsWhitespace(w[i])
    ensures Visible(w) == w
  {
    if w != [] {
      VisibleWord(w[1..]);
    }
  }

  /** Collapsing keeps the characters other than white space, in order. */
  lemma {:induction false} CollapseKeepsVisible(cs: seq<bytes>)
    ensures Visible(JoinWords(Words(cs))) == Visible(cs)
    decreases |cs|
  {
    hide IsWhitespace;
    if cs == [] {
    } else if IsWhitespace(cs[0]) {
      CollapseKeepsVisible(cs[1..]);
    } else {
      var n := WordLen(cs);
      var w, rest := cs[..n], cs[n..];
      CollapseKeepsVisible(rest);
      assert cs == w + rest;
      VisibleConcat(w, rest);
      VisibleWord(w);
      if Words(rest) != [] {
        assert Words(cs)[1..] == Words(rest);
        SpaceIsWhitespace();
        VisibleConcat(w + [SPACE], JoinWords(Words(rest)));
        VisibleConcat(w, [SPACE]);
        assert [SPACE][1..] == [];
      } else {
        assert Words(cs) == [w];
      }
    }
  }

  lemma {:induction false} ByteLenConcat(a: seq<bytes>, b: seq<bytes>)
    ensures ByteLen(a + b) == ByteLen(a) + ByteLen(b)
  {
    if a == [] {
      assert a + b == b;
    } else {
      assert (a + b)[1..] == a[1..] + b;
      ByteLenConcat(a[1..], b);
    }
  }

  lemma {:induction false} FlattenLen(cs: seq<bytes>)
    ensures |Flatten(cs)| == ByteLen(cs)
  {
    if cs != [] {
      FlattenLen(cs[1..]);
    }
  }

  lemma {:induction false} CollapseNotLonger(cs: seq<bytes>)
    requires AllChars(cs)
    ensures ByteLen(JoinWords(Words(cs))) <= ByteLen(cs)
    decreases |cs|
  {
    hide IsWhitespace, IsChar;
    if cs == [] {
    } else if IsWhitespace(cs[0]) {
      CollapseNotLonger(cs[1..]);
    } else {
      var n := WordLen(cs);
      var w, rest := cs[..n], cs[n..];
      assert cs == w + rest;
      ByteLenConcat(w, rest);
      if Words(rest) != [] {
        assert Words(cs)[1..] == Words(rest);
        assert Words(rest) == Words(rest[1..]);
        CollapseNotLonger(rest[1..]);
        ByteLenConcat(w + [SPACE], JoinWords(Words(rest)));
        ByteLenConcat(w, [SPACE]);
        assert [SPACE][1..] == [];
        CharNotEmpty(rest[0]);
      } else {
        assert Words(cs) == [w];
      }
    }
  }

  lemma CharNotEmpty(c: bytes)
    requires IsChar(c)
    ensures |c| >= 1
  {
  }

  /** Words survive being joined and split again. */
  lemma {:induction false} WordsOfJoined(ws: seq<seq<bytes>>)
    requires forall i :: 0 <= i < |ws| ==> IsWord(ws[i])
    ensures Words(JoinWords(ws)) == ws
  {
    hide IsWhitespace;
    if ws != [] {
      var w := ws[0];
      var tail := if |ws| == 1 then [] else [SPACE] + JoinWords(ws[1..]);
      var j := w + tail;
      assert JoinWords(ws) == j;
      SpaceIsWhitespace();
      WordPrefix(w, tail);
      assert j[..|w|] == w && j[|w|..] == tail;
      WordsOfJoined(ws[1..]);
      if |ws| > 1 {
        assert tail[1..] == JoinWords(ws[1..]);
      }
    }
  }

  lemma {:induction false} WordPrefix(w: seq<bytes>, tail: seq<bytes>)
    requires forall i :: 0 <= i < |w| ==> !IsWhitespace(w[i])
    requires tail == [] || IsWhitespace(tail[0])
    ensures WordLen(w + tail) == |w|
  {
    hide IsWhitespace;
    if w == [] {
      assert w + tail == tail;
    } else {
      assert (w + tail)[1..] == w[1..] + tail;
      WordPrefix(w[1..], tail);
    }
  }

  lemma {:induction false} JoinedAreChars(cs: seq<bytes>)
    requires AllChars(cs)
    ensures AllChars(JoinWords(Words(cs)))
    decreases |cs|
  {
    hide IsWhitespace;
    if cs == [] {
    } else if IsWhitespace(cs[0]) {
      JoinedAreChars(cs[1..]);
    } else {
      var n := WordLen(cs);
      JoinedAreChars(cs[n..]);
      assert Words(cs)[1..] == Words(cs[n..]);
      assert Width(SPACE) == 1;
    }
  }

  /** Collapsing gives a valid text that is not longer, has the same visible characters, and collapses to itself. */
  lemma CollapsedText(s: bytes)
    requires Valid(s)
    ensures Valid(Collapsed(s)) && |Collapsed(s)| <= |s|
    ensures Visible(Chars(Collapsed(s))) == Visible(Chars(s))
    ensures Collapsed(Collapsed(s)) == Collapsed(s)
  {
    hide IsWhitespace, Words, JoinWords, Valid, IsChar;
    var cs := Chars(s);
    CharsOfText(s);
    JoinedAreChars(cs);
    TextOfChars(JoinWords(Words(cs)));
    CollapseKeepsVisible(cs);
    CollapseNotLonger(cs);
    FlattenLen(cs);
    FlattenLen(JoinWords(Words(cs)));
    WordsOfJoined(Words(cs));
  }

  // ---------------------------------------------------------------------------------------------
  // The characters with the property White_Space
  // ---------------------------------------------------------------------------------------------

  function ByteOf(n: nat): byte
    requires n <= 0xFF
  {
    n as char
  }

  /** The UTF-8 encoding of a character (section 3 of RFC 3629). */
  function Encode(c: char): bytes {
    var n := c as nat;
    if n < 0x80 then [ByteOf(n)]
    else if n < 0x800 then [ByteOf(0xC0 + n / 0x40), ByteOf(0x80 + n % 0x40)]
    else if n < 0x1_0000 then [ByteOf(0xE0 + n / 0x1000), ByteOf(0x80 + n / 0x40 % 0x40), ByteOf(0x80 + n % 0x40)]
    else [ByteOf(0xF0 + n / 0x4_0000), ByteOf(0x80 + n / 0x1000 % 0x40), ByteOf(0x80 + n / 0x40 % 0x40),
          ByteOf(0x80 + n % 0x40)]
  }

  lemma OneByte(c: char)
    requires c as nat < 0x80
    ensures IsWhitespace(Encode(c)) <==> Strings.IsSpace(c)
  {
  }

  lemma TwoBytes(c: char)
    requires 0x80 <= c as nat < 0x800
    ensures IsWhitespace(Encode(c)) <==> Strings.IsSpace(c)
  {
    var n := c as nat;
    assert n == n / 0x40 * 0x40 + n % 0x40;
  }

  lemma ThreeBytes(c: char)
    requires 0x800 <= c as nat < 0x1_0000
    ensures IsWhitespace(Encode(c)) <==> Strings.IsSpace(c)
  {
    var n := c as nat;
    var (x, y, z) := (n / 0x1000, n / 0x40 % 0x40, n % 0x40);
    assert n == x * 0x1000 + y * 0x40 + z;
    assert Encode(c) == [ByteOf(0xE0 + x), ByteOf(0x80 + y), ByteOf(0x80 + z)];
  }

  /** White space is the same among bytes as among characters. */
  lemma SameWhitespace(c: char)
    ensures IsWhitespace(Encode(c)) <==> Strings.IsSpace(c)
  {
    hide IsWhitespace, Strings.IsSpace, Encode;
    if c as nat < 0x80 {
      OneByte(c);
    } else if c as nat < 0x800 {
      TwoBytes(c);
    } else if c as nat < 0x1_0000 {
      ThreeBytes(c);
    } else {
      FourBytes(c);
    }
  }

  lemma FourBytes(c: char)
    requires c as nat >= 0x1_0000
    ensures !IsWhitespace(Encode(c)) && !Strings.IsSpace(c)
  {
    assert |Encode(c)| == 4;
  }
}
