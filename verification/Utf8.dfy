/**
  Byte strings and well-formed UTF-8.

  A Rust `&str` is a byte sequence that is well-formed UTF-8. A byte is represented by the
  character with the same code (0 to 255), so that ASCII literals can be written as usual.
 */
module Utf8 {
  import opened Common

  type byte = c: char | c <= '\U{FF}' witness '\U{0}'
  type bytes = seq<byte>

  predicate IsAscii(c: byte) {
    c < '\U{80}'
  }

  /** A UTF-8 tail byte, 0x80 to 0xBF. */
  predicate IsTail(c: byte) {
    '\U{80}' <= c <= '\U{BF}'
  }

  /** Width of the UTF-8 character `s` starts with (section 4 of RFC 3629), 0 when there is none. */
  function Width(s: bytes): (w: nat)
    ensures w <= |s| && w <= 4
    ensures forall k :: 0 < k < w ==> IsTail(s[k])
    ensures w > 0 ==> !IsTail(s[0])
  {
    if |s| >= 1 && IsAscii(s[0]) then 1
    else if |s| >= 2 && '\U{C2}' <= s[0] <= '\U{DF}' && IsTail(s[1]) then 2
    else if |s| >= 3 && IsTail(s[1]) && IsTail(s[2])
            && (|| (s[0] == '\U{E0}' && '\U{A0}' <= s[1])
                || '\U{E1}' <= s[0] <= '\U{EC}'
                || (s[0] == '\U{ED}' && s[1] <= '\U{9F}')
                || '\U{EE}' <= s[0] <= '\U{EF}') then 3
    else if |s| >= 4 && IsTail(s[1]) && IsTail(s[2]) && IsTail(s[3])
            && (|| (s[0] == '\U{F0}' && '\U{90}' <= s[1])
                || '\U{F1}' <= s[0] <= '\U{F3}'
                || (s[0] == '\U{F4}' && s[1] <= '\U{8F}')) then 4
    else 0
  }

  /** The whole of `s` is a sequence of UTF-8 characters. */
  predicate Valid(s: bytes)
    decreases |s|
  {
    s == [] || (Width(s) > 0 && Valid(s[Width(s)..]))
  }

  lemma DropDrop(s: bytes, i: nat, n: nat)
    requires i + n <= |s|
    ensures s[i..][n..] == s[i + n..]
  {
  }

  /** Rust's `str::is_char_boundary`. */
  predicate IsCharBoundary(s: bytes, i: nat) {
    i == 0 || i == |s| || (i < |s| && !IsTail(s[i]))
  }

  lemma {:induction false} WidthOfPrefix(a: bytes, c: bytes)
    requires Width(a) > 0
    ensures Width(a + c) == Width(a)
  {
    assert forall k :: 0 <= k < Width(a) ==> (a + c)[k] == a[k];
  }

  lemma {:induction false} ValidConcat(a: bytes, c: bytes)
    requires Valid(a) && Valid(c)
    ensures Valid(a + c)
    decreases |a|
  {
    if a == [] {
      assert a + c == c;
    } else {
      var w := Width(a);
      WidthOfPrefix(a, c);
      assert (a + c)[w..] == a[w..] + c;
      ValidConcat(a[w..], c);
    }
  }

  lemma WidthOfCut(s: bytes, i: nat)
    requires Width(s) <= i <= |s|
    ensures Width(s) > 0 ==> Width(s[..i]) == Width(s)
  {
    if Width(s) > 0 {
      assert forall k :: 0 <= k < Width(s) ==> s[..i][k] == s[k];
    }
  }

  /** A valid string cut at a character boundary gives two valid strings: `&s[..i]` and `&s[i..]` cannot panic. */
  lemma {:induction false} ValidSplit(s: bytes, i: nat)
    requires Valid(s) && i <= |s| && IsCharBoundary(s, i)
    ensures Valid(s[..i]) && Valid(s[i..])
    decreases |s|
  {
    hide Width, IsTail;
    if i == 0 {
      assert s[0..] == s;
    } else if i == |s| {
      assert s[..i] == s;
    } else {
      var w := Width(s);
      assert w <= i;
      DropDrop(s, w, i - w);
      assert s[w..][..i - w] == s[..i][w..];
      assert i - w < |s[w..]| && s[w..][i - w] == s[i];
      ValidSplit(s[w..], i - w);
      WidthOfCut(s, i);
    }
  }

  /** The position after an ASCII byte is a character boundary. */
  lemma {:induction false} BoundaryAfterAscii(s: bytes, j: nat)
    requires Valid(s) && 0 < j <= |s| && IsAscii(s[j - 1])
    ensures IsCharBoundary(s, j)
    decreases |s|
  {
    var w := Width(s);
    assert w <= j;
    if j == w {
      assert Valid(s[w..]);
      if w < |s| {
        assert Width(s[w..]) > 0;
        assert s[w..][0] == s[w];
      }
    } else {
      assert s[w..][j - w - 1] == s[j - 1];
      BoundaryAfterAscii(s[w..], j - w);
      if j < |s| {
        assert s[w..][j - w] == s[j];
      }
    }
  }

  lemma {:induction false} AsciiIsValid(s: bytes)
    requires forall k :: 0 <= k < |s| ==> IsAscii(s[k])
    ensures Valid(s)
    decreases |s|
  {
    if s != [] {
      AsciiIsValid(s[1..]);
    }
  }

  // ---------------------------------------------------------------------------------------------
  // White space
  // ---------------------------------------------------------------------------------------------

  /** The encoding of one character with the Unicode property White_Space (Rust's `char::is_whitespace`). */
  predicate IsWhitespace(c: bytes) {
    || (|c| == 1 && ('\t' <= c[0] <= '\r' || c[0] == ' '))
    || (|c| == 2 && c[0] == '\U{C2}' && (c[1] == '\U{85}' || c[1] == '\U{A0}'))
    || (|c| == 3 && c[0] == '\U{E1}' && c[1] == '\U{9A}' && c[2] == '\U{80}')
    || (|c| == 3 && c[0] == '\U{E2}' && c[1] == '\U{80}'
        && ('\U{80}' <= c[2] <= '\U{8A}' || c[2] == '\U{A8}' || c[2] == '\U{A9}' || c[2] == '\U{AF}'))
    || (|c| == 3 && c[0] == '\U{E2}' && c[1] == '\U{81}' && c[2] == '\U{9F}')
    || (|c| == 3 && c[0] == '\U{E3}' && c[1] == '\U{80}' && c[2] == '\U{80}')
  }

  /** Length of the white-space character `s` ends with, 0 when there is none. */
  function SpaceAtEnd(s: bytes): (n: nat)
    ensures n <= |s| && n <= 3
    ensures n > 0 ==> IsWhitespace(s[|s| - n..])
  {
    if |s| >= 1 && IsWhitespace(s[|s| - 1..]) then 1
    else if |s| >= 2 && IsWhitespace(s[|s| - 2..]) then 2
    else if |s| >= 3 && IsWhitespace(s[|s| - 3..]) then 3
    else 0
  }

  /** Rust's `str::trim_end`. */
  function TrimEnd(s: bytes): (r: bytes)
    ensures r <= s
    decreases |s|
  {
    if SpaceAtEnd(s) == 0 then s else TrimEnd(s[..|s| - SpaceAtEnd(s)])
  }

  lemma {:induction false} TrimEndIsValid(s: bytes)
    requires Valid(s)
    ensures Valid(TrimEnd(s))
    decreases |s|
  {
    var n := SpaceAtEnd(s);
    if n > 0 {
      assert s[|s| - n..][0] == s[|s| - n];
      ValidSplit(s, |s| - n);
      TrimEndIsValid(s[..|s| - n]);
    }
  }

  // ---------------------------------------------------------------------------------------------
  // Characters
  // ---------------------------------------------------------------------------------------------

  /** A Rust string. */
  type text = s: bytes | Valid(s)

  /** The characters of a valid string, each as the bytes that encode it. */
  function Chars(s: bytes): (cs: seq<bytes>)
    requires Valid(s)
    decreases |s|
  {
    if s == [] then [] else [s[..Width(s)]] + Chars(s[Width(s)..])
  }

  ghost predicate IsChar(c: bytes) {
    c != [] && Width(c) == |c|
  }

  ghost predicate AllChars(cs: seq<bytes>) {
    forall i :: 0 <= i < |cs| ==> IsChar(cs[i])
  }

  lemma FirstChar(s: bytes)
    requires Width(s) > 0
    ensures IsChar(s[..Width(s)])
  {
    var w := Width(s);
    assert forall k :: 0 <= k < w ==> s[..w][k] == s[k];
  }

  lemma {:induction false} CharsOfText(s: bytes)
    requires Valid(s)
    ensures AllChars(Chars(s)) && Flatten(Chars(s)) == s
    decreases |s|
  {
    hide Width;
    if s != [] {
      var w := Width(s);
      CharsOfText(s[w..]);
      FirstChar(s);
      assert s == s[..w] + s[w..];
    }
  }

  lemma {:induction false} TextOfChars(cs: seq<bytes>)
    requires AllChars(cs)
    ensures Valid(Flatten(cs)) && Chars(Flatten(cs)) == cs
  {
    if cs != [] {
      var rest := Flatten(cs[1..]);
      TextOfChars(cs[1..]);
      WidthOfPrefix(cs[0], rest);
      assert (cs[0] + rest)[..|cs[0]|] == cs[0];
      assert (cs[0] + rest)[|cs[0]|..] == rest;
    }
  }
}
