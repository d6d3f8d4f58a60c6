/**
  What the template of whole families of log lines is.
 */
module LogShapes {
  import opened Common
  import opened Utf8
  import opened LogScanners
  import opened LogTemplates

  lemma PieceLeftIrrelevant(l1: Option<byte>, l2: Option<byte>, s: bytes)
    requires LeftWordOrDot(l1) == LeftWordOrDot(l2) && LeftWord(l1) == LeftWord(l2)
    requires s != []
    ensures NextPiece(l1, s) == NextPiece(l2, s)
  {
    hide TimestampLen, ValueLen, RunEnd, DottedEnd, UnitLen, IsUuid;
  }

  /** A suffix is scanned the same way behind any two bytes that neither continue a word nor are a dot. */
  lemma LeftIrrelevant(l1: Option<byte>, l2: Option<byte>, s: bytes)
    requires LeftWordOrDot(l1) == LeftWordOrDot(l2) && LeftWord(l1) == LeftWord(l2)
    ensures TemplateFrom(l1, s) == TemplateFrom(l2, s)
  {
    hide NextPiece;
    if s != [] {
      PieceLeftIrrelevant(l1, l2, s);
    }
  }

  /** A byte that cannot begin a field is copied. */
  lemma CopyStep(left: Option<byte>, s: bytes)
    requires s != [] && IsAscii(s[0]) && s[0] != '=' && MaskedPiece(left, s).None? && IntLen(left, s).None?
    ensures TemplateFrom(left, s) == [s[0]] + TemplateFrom(Some(s[0]), s[1..])
  {
    hide MaskedPiece, IntLen, ValueLen, TemplateFrom;
    assert s[..1] == [s[0]];
    FirstPiece(left, s, Piece([s[0]], 1));
  }

  /** Every field begins with a word byte. */
  lemma NoFieldHere(left: Option<byte>, s: bytes)
    requires s == [] || !IsWordByte(s[0])
    ensures MaskedPiece(left, s).None? && IntLen(left, s).None?
  {
  }

  lemma SpaceStep(left: Option<byte>, rest: bytes)
    ensures TemplateFrom(left, " " + rest) == " " + Template(rest)
  {
    hide MaskedPiece, IntLen, TemplateFrom;
    NoFieldHere(left, " " + rest);
    CopyStep(left, " " + rest);
    LeftIrrelevant(Some(' '), None, rest);
    assert (" " + rest)[1..] == rest;
  }

  // ---------------------------------------------------------------------------------------------
  // Timestamps
  // ---------------------------------------------------------------------------------------------

  /** The parts of a timestamp. */
  datatype Stamp = Stamp(dateTime: bytes, fraction: bytes, zone: bytes) {
    ghost predicate WellFormed() {
      && |dateTime| == 19 && IsDateTime(dateTime)
      && (fraction == [] || IsFraction(fraction))
      && (zone == [] || zone == "Z" || IsOffset(zone))
    }

    function Text(): bytes {
      dateTime + fraction + zone
    }
  }

  ghost predicate IsFraction(f: bytes) {
    |f| >= 2 && f[0] == '.' && forall k :: 1 <= k < |f| ==> IsDigitChar(f[k])
  }

  ghost predicate IsOffset(z: bytes) {
    && |z| >= 3 && (z[0] == '+' || z[0] == '-') && IsDigitChar(z[1]) && IsDigitChar(z[2])
    && (|| |z| == 3
        || (|z| == 5 && IsDigitChar(z[3]) && IsDigitChar(z[4]))
        || (|z| == 6 && z[3] == ':' && IsDigitChar(z[4]) && IsDigitChar(z[5])))
  }

  lemma FractionOfStamp(t: Stamp, tail: bytes)
    requires t.WellFormed() && (tail == [] || tail[0] == ' ')
    ensures FractionEnd(t.Text() + tail, 19) == 19 + |t.fraction|
  {
    var s := t.Text() + tail;
    var f := 19 + |t.fraction|;
    assert forall k :: 0 <= k < |t.fraction| ==> s[19 + k] == t.fraction[k];
    assert f < |s| ==> s[f] == (t.zone + tail)[0];
    if t.fraction != [] {
      RunEndUnique(Digit, s, 20, f);
    }
  }

  lemma ZoneOfStamp(t: Stamp, tail: bytes)
    requires t.WellFormed() && (tail == [] || tail[0] == ' ')
    ensures ZoneEnd(t.Text() + tail, 19 + |t.fraction|) == |t.Text()|
  {
    var s := t.Text() + tail;
    var f := 19 + |t.fraction|;
    assert s[f..] == t.zone + tail;
    assert forall k :: 0 <= k < |t.zone| ==> s[f + k] == t.zone[k];
    assert f + |t.zone| < |s| ==> s[f + |t.zone|] == tail[0];
  }

  /** The scanner takes exactly the timestamp when a space or the end of the line follows. */
  lemma StampIsScanned(t: Stamp, tail: bytes)
    requires t.WellFormed() && (tail == [] || tail[0] == ' ')
    ensures TimestampLen(t.Text() + tail) == Some(|t.Text()|)
  {
    hide RunEnd, FractionEnd, ZoneEnd;
    var s := t.Text() + tail;
    FractionOfStamp(t, tail);
    ZoneOfStamp(t, tail);
    assert s[..19] == t.dateTime;
    assert forall k :: 0 <= k < 19 ==> s[k] == s[..19][k];
  }

  /** A line that begins with a timestamp and a space: the rest is masked as if it were a line of its own. */
  lemma TimestampedLine(t: Stamp, rest: bytes)
    requires t.WellFormed()
    ensures Template(t.Text() + " " + rest) == "<TS> " + Template(rest)
  {
    hide TimestampLen, UuidLen, Ipv4Len, DurationLen, HexLen, IntLen, ValueLen, TemplateFrom;
    var s := t.Text() + " " + rest;
    StampIsScanned(t, " " + rest);
    assert t.Text() + (" " + rest) == s;
    var n := |t.Text()|;
    FirstPiece(None, s, Piece("<TS>", n));
    assert s[n..] == " " + rest;
    SpaceStep(Some(s[n - 1]), rest);
  }

  // ---------------------------------------------------------------------------------------------
  // key=value lines
  // ---------------------------------------------------------------------------------------------

  datatype Pair = Pair(key: bytes, value: bytes)

  /** Word bytes, the first of them not a digit. */
  ghost predicate IsKey(k: bytes) {
    k != [] && !IsDigitChar(k[0]) && forall m :: 0 <= m < |k| ==> IsWordByte(k[m])
  }

  /** A quoted text, or a text without separators that does not begin with a quote. */
  ghost predicate IsValue(v: bytes) {
    || (|v| >= 2 && v[0] == '"' && v[|v| - 1] == '"' && forall m :: 0 < m < |v| - 1 ==> v[m] != '"')
    || (v != [] && v[0] != '"' && forall m :: 0 <= m < |v| ==> !IsSeparator(v[m]))
  }

  ghost predicate IsHexKey(k: bytes) {
    |k| >= 4 && forall m :: 0 <= m < |k| ==> IsHexDigit(k[m])
  }

  /** A key that reads as a hexadecimal id is masked like one; every other key is kept. */
  ghost function ShownKey(k: bytes): bytes {
    if IsHexKey(k) then "<HEX>" else k
  }

  ghost predicate AllPairs(ps: seq<Pair>) {
    forall i :: 0 <= i < |ps| ==> IsKey(ps[i].key) && IsValue(ps[i].value)
  }

  /** The pairs separated by single spaces. */
  function PairLine(ps: seq<Pair>): bytes {
    if ps == [] then []
    else if |ps| == 1 then ps[0].key + "=" + ps[0].value
    else ps[0].key + "=" + ps[0].value + " " + PairLine(ps[1..])
  }

  /** The same line with only the keys left. */
  ghost function KeyLine(ks: seq<bytes>): bytes {
    if ks == [] then []
    else if |ks| == 1 then ks[0] + "=<KV>"
    else ks[0] + "=<KV>" + " " + KeyLine(ks[1..])
  }

  ghost function ShownKeys(ps: seq<Pair>): (ks: seq<bytes>)
    ensures |ks| == |ps|
  {
    if ps == [] then [] else [ShownKey(ps[0].key)] + ShownKeys(ps[1..])
  }

  /** Nothing but hexadecimal ids is masked from the start of a key, and nothing at all inside it. */
  lemma KeyScan(left: Option<byte>, k: bytes, tail: bytes)
    requires k != [] && (forall m :: 0 <= m < |k| ==> IsWordByte(k[m])) && tail != [] && tail[0] == '='
    requires LeftWord(left) || !IsDigitChar(k[0])
    ensures IntLen(left, k + tail).None?
    ensures (LeftWord(left) || !IsHexKey(k)) ==> MaskedPiece(left, k + tail).None?
    ensures (!LeftWord(left) && IsHexKey(k)) ==> MaskedPiece(left, k + tail) == Some(Piece("<HEX>", |k|))
  {
    var s := k + tail;
    assert s[|k|] == '=';
    assert forall m :: 0 <= m < |k| ==> s[m] == k[m];
    assert TimestampLen(s).None? by {
      if |k| <= 4 {
        assert s[|k|] == '=';
      } else {
        assert s[4] == k[4];
      }
    }
    if !LeftWord(left) {
      assert RunEnd(Digit, s, 0) == 0;
      assert !IsUuid(s) by {
        if |k| <= 8 {
          assert s[|k|] == '=';
        } else {
          assert s[8] == k[8];
        }
      }
      HexKeyScan(k, tail);
    }
  }

  lemma HexKeyScan(k: bytes, tail: bytes)
    requires IsKey(k) && tail != [] && tail[0] == '='
    ensures HexLen(None, k + tail) == if IsHexKey(k) then Some(|k|) else None
  {
    var s := k + tail;
    assert s[|k|] == '=';
    assert forall m :: 0 <= m < |k| ==> s[m] == k[m];
    RunEndSpec(HexDigit, s, 0);
    var e := RunEnd(HexDigit, s, 0);
    if forall m :: 0 <= m < |k| ==> IsHexDigit(k[m]) {
      RunEndUnique(HexDigit, s, 0, |k|);
    } else {
      var m :| 0 <= m < |k| && !IsHexDigit(k[m]);
      assert e <= m by {
        assert !In(s[m], HexDigit);
      }
    }
  }

  /** Inside a word the rest of a key is copied. */
  lemma {:induction false} CopyRestOfKey(left: Option<byte>, k: bytes, tail: bytes)
    requires LeftWord(left) && (forall m :: 0 <= m < |k| ==> IsWordByte(k[m]))
    requires tail != [] && tail[0] == '='
    ensures TemplateFrom(left, k + tail) == k + TemplateFrom(if k == [] then left else Some(k[|k| - 1]), tail)
    decreases |k|
  {
    hide MaskedPiece, IntLen, TemplateFrom, IsWordByte;
    if k == [] {
      assert k + tail == tail;
      assert [] + TemplateFrom(left, tail) == TemplateFrom(left, tail);
    } else {
      KeyScan(left, k, tail);
      WordIsCopyable(k[0]);
      CopyStep(left, k + tail);
      assert (k + tail)[1..] == k[1..] + tail;
      CopyRestOfKey(Some(k[0]), k[1..], tail);
      Assoc([k[0]], k[1..], TemplateFrom(if |k| == 1 then Some(k[0]) else Some(k[|k| - 1]), tail));
      assert [k[0]] + k[1..] == k;
    }
  }

  lemma WordIsCopyable(c: byte)
    requires IsWordByte(c)
    ensures IsAscii(c) && c != '=' && LeftWord(Some(c))
  {
  }

  lemma KeyStep(k: bytes, tail: bytes)
    requires IsKey(k) && tail != [] && tail[0] == '='
    ensures k != [] && TemplateFrom(None, k + tail) == ShownKey(k) + TemplateFrom(Some(k[|k| - 1]), tail)
  {
    hide MaskedPiece, IntLen, ValueLen, IsWordByte, TemplateFrom;
    KeyScan(None, k, tail);
    WordIsCopyable(k[0]);
    if IsHexKey(k) {
      FirstPiece(None, k + tail, Piece("<HEX>", |k|));
      assert (k + tail)[|k|..] == tail;
    } else {
      CopyStep(None, k + tail);
      assert (k + tail)[1..] == k[1..] + tail;
      CopyRestOfKey(Some(k[0]), k[1..], tail);
      assert [k[0]] + k[1..] == k;
    }
  }

  lemma ValueIsScanned(v: bytes, tail: bytes)
    requires IsValue(v) && (tail == [] || tail[0] == ' ')
    ensures ValueLen(v + tail) == Some(|v|)
  {
    var s := v + tail;
    assert forall m :: 0 <= m < |v| ==> s[m] == v[m];
    if v[0] == '"' {
      RunEndUnique(Unquoted, s, 1, |v| - 1);
    } else {
      RunEndUnique(Unseparated, s, 0, |v|);
    }
  }

  lemma ValueIsNotEmpty(v: bytes)
    requires IsValue(v)
    ensures v != []
  {
  }

  lemma ValueStep(left: Option<byte>, v: bytes, tail: bytes)
    requires IsValue(v) && (tail == [] || tail[0] == ' ')
    ensures v != [] && TemplateFrom(left, "=" + v + tail) == "=<KV>" + TemplateFrom(Some(v[|v| - 1]), tail)
  {
    hide MaskedPiece, IntLen, ValueLen, TemplateFrom, IsValue;
    var s := "=" + v + tail;
    NoFieldHere(left, s);
    ValueIsScanned(v, tail);
    assert s[1..] == v + tail;
    FirstPiece(left, s, Piece("=<KV>", 1 + |v|));
    assert s[1 + |v|..] == tail;
    ValueIsNotEmpty(v);
    assert s[|v|] == v[|v| - 1];
  }

  /** One pair, at the start of a line or after a space. */
  lemma PairStep(p: Pair, tail: bytes)
    requires IsKey(p.key) && IsValue(p.value) && (tail == [] || tail[0] == ' ')
    ensures p.value != []
    ensures Template(p.key + "=" + p.value + tail)
         == ShownKey(p.key) + "=<KV>" + TemplateFrom(Some(p.value[|p.value| - 1]), tail)
  {
    hide TemplateFrom, IsKey, IsValue, ShownKey;
    var k, v := p.key, p.value;
    assert k + "=" + v + tail == k + ("=" + v + tail);
    KeyStep(k, "=" + v + tail);
    ValueStep(Some(k[|k| - 1]), v, tail);
    var rest := TemplateFrom(Some(v[|v| - 1]), tail);
    assert ShownKey(k) + ("=<KV>" + rest) == ShownKey(k) + "=<KV>" + rest;
  }

  /** A line of pairs keeps its keys and loses its values. */
  lemma {:induction false} PairLineTemplate(ps: seq<Pair>)
    requires AllPairs(ps)
    ensures Template(PairLine(ps)) == KeyLine(ShownKeys(ps))
    decreases |ps|
  {
    hide TemplateFrom, IsKey, IsValue, ShownKey;
    if ps == [] {
      TemplateOfNothing(None, []);
    } else if |ps| == 1 {
      LastPair(ps[0]);
      assert ps == [ps[0]] && ShownKeys(ps) == [ShownKey(ps[0].key)];
    } else {
      var rest := PairLine(ps[1..]);
      PairStep(ps[0], " " + rest);
      assert ps[0].key + "=" + ps[0].value + (" " + rest) == PairLine(ps);
      SpaceStep(Some(ps[0].value[|ps[0].value| - 1]), rest);
      PairLineTemplate(ps[1..]);
      assert ShownKeys(ps)[1..] == ShownKeys(ps[1..]);
      var k := ShownKey(ps[0].key) + "=<KV>";
      assert k + (" " + KeyLine(ShownKeys(ps[1..]))) == KeyLine(ShownKeys(ps));
    }
  }

  lemma LastPair(p: Pair)
    requires IsKey(p.key) && IsValue(p.value)
    ensures Template(p.key + "=" + p.value) == ShownKey(p.key) + "=<KV>"
  {
    hide TemplateFrom, IsKey, IsValue, ShownKey;
    PairStep(p, []);
    assert p.key + "=" + p.value + [] == p.key + "=" + p.value;
    TemplateOfNothing(Some(p.value[|p.value| - 1]), []);
  }

  lemma {:induction false} ShownKeysAt(ps: seq<Pair>, i: nat)
    requires i < |ps|
    ensures ShownKeys(ps)[i] == ShownKey(ps[i].key)
  {
    if i > 0 {
      ShownKeysAt(ps[1..], i - 1);
    }
  }

  ghost predicate NoEquals(k: bytes) {
    forall m :: 0 <= m < |k| ==> k[m] != '='
  }

  /** Text before the first `=` can be read off. */
  lemma {:induction false} SplitAtEquals(k1: bytes, t1: bytes, k2: bytes, t2: bytes)
    requires NoEquals(k1) && NoEquals(k2) && k1 + ("=" + t1) == k2 + ("=" + t2)
    ensures k1 == k2 && t1 == t2
  {
    var s1, s2 := k1 + ("=" + t1), k2 + ("=" + t2);
    assert s1[0] == s2[0];
    assert k1 == [] ==> s1[0] == '=';
    assert k2 == [] ==> s2[0] == '=';
    if k1 == [] || k2 == [] {
      assert s1[1..] == s2[1..];
      assert k1 == [] && k2 == [];
      assert t1 == s1[1..] && t2 == s2[1..];
    } else {
      assert s1[1..] == k1[1..] + ("=" + t1) && s2[1..] == k2[1..] + ("=" + t2);
      SplitAtEquals(k1[1..], t1, k2[1..], t2);
      assert k1 == [k1[0]] + k1[1..] && k2 == [k2[0]] + k2[1..];
    }
  }

  /** A line of shown keys determines them. */
  lemma {:induction false} KeyLineInjective(ks: seq<bytes>, js: seq<bytes>)
    requires forall i :: 0 <= i < |ks| ==> NoEquals(ks[i])
    requires forall i :: 0 <= i < |js| ==> NoEquals(js[i])
    requires KeyLine(ks) == KeyLine(js)
    ensures ks == js
    decreases |ks|
  {
    if ks != [] && js != [] {
      var t := if |ks| == 1 then "<KV>" else "<KV>" + " " + KeyLine(ks[1..]);
      var u := if |js| == 1 then "<KV>" else "<KV>" + " " + KeyLine(js[1..]);
      assert KeyLine(ks) == ks[0] + ("=" + t);
      assert KeyLine(js) == js[0] + ("=" + u);
      SplitAtEquals(ks[0], t, js[0], u);
      if |ks| > 1 && |js| > 1 {
        assert t[5..] == KeyLine(ks[1..]);
        assert u[5..] == KeyLine(js[1..]);
        KeyLineInjective(ks[1..], js[1..]);
      }
      assert ks == [ks[0]] + ks[1..];
      assert js == [js[0]] + js[1..];
    }
  }

  /** Two lines of pairs fall together exactly when they show the same keys in the same order, whatever their values. */
  lemma SameTemplateIffSameKeys(ps: seq<Pair>, qs: seq<Pair>)
    requires AllPairs(ps) && AllPairs(qs)
    ensures Template(PairLine(ps)) == Template(PairLine(qs)) <==> ShownKeys(ps) == ShownKeys(qs)
  {
    hide KeyLine, Template;
    PairLineTemplate(ps);
    PairLineTemplate(qs);
    if KeyLine(ShownKeys(ps)) == KeyLine(ShownKeys(qs)) {
      ShownKeysHaveNoEquals(ps);
      ShownKeysHaveNoEquals(qs);
      KeyLineInjective(ShownKeys(ps), ShownKeys(qs));
    }
  }

  lemma ShownKeysHaveNoEquals(ps: seq<Pair>)
    requires AllPairs(ps)
    ensures forall i :: 0 <= i < |ps| ==> NoEquals(ShownKeys(ps)[i])
  {
    forall i | 0 <= i < |ps|
      ensures NoEquals(ShownKeys(ps)[i])
    {
      ShownKeysAt(ps, i);
    }
  }

  /** Keys that read as hexadecimal ids are lost: lines about different things share a template. */
  lemma HexKeysCollide()
    ensures Template("dead=1") == Template("beef=1") == "<HEX>=<KV>"
  {
    hide TemplateFrom;
    var p, q := [Pair("dead", "1")], [Pair("beef", "1")];
    assert PairLine(p) == "dead=1" && PairLine(q) == "beef=1";
    PairLineTemplate(p);
    PairLineTemplate(q);
    ShownKeysAt(p, 0);
    ShownKeysAt(q, 0);
  }
}
