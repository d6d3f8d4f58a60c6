/**
  Comparing strings, and numbers and fractions written as strings of digits.
 */
module AuditDigits {
  import opened Common
  import opened Strings

  // ---------------------------------------------------------------------------------------------
  // Comparing strings
  // ---------------------------------------------------------------------------------------------

  /** Rust's `<` on strings; byte order and code point order agree on UTF-8. */
  predicate LexLess(a: string, b: string) {
    b != [] && (a == [] || a[0] < b[0] || (a[0] == b[0] && LexLess(a[1..], b[1..])))
  }

  lemma {:induction false} LexConcat(p: string, q: string, x: string, y: string)
    requires |p| == |q|
    ensures LexLess(p + x, q + y) <==> LexLess(p, q) || (p == q && LexLess(x, y))
  {
    if p == [] {
      assert p + x == x && q + y == y;
    } else {
      assert (p + x)[1..] == p[1..] + x && (q + y)[1..] == q[1..] + y;
      LexConcat(p[1..], q[1..], x, y);
      assert p == [p[0]] + p[1..] && q == [q[0]] + q[1..];
    }
  }

  lemma LexSame(c: char, x: string, y: string)
    ensures LexLess([c] + x, [c] + y) <==> LexLess(x, y)
  {
    assert ([c] + x)[1..] == x && ([c] + y)[1..] == y;
  }

  lemma {:induction false} LexTotal(a: string, b: string)
    ensures LexLess(a, b) || a == b || LexLess(b, a)
    ensures !(LexLess(a, b) && LexLess(b, a)) && !LexLess(a, a)
  {
    if a != [] && b != [] {
      LexTotal(a[1..], b[1..]);
      assert a[0] == b[0] && a[1..] == b[1..] ==> a == b by {
        assert a == [a[0]] + a[1..] && b == [b[0]] + b[1..];
      }
    }
    if a != [] {
      LexTotal(a[1..], a[1..]);
    }
  }

  // ---------------------------------------------------------------------------------------------
  // Zero-padded numbers
  // ---------------------------------------------------------------------------------------------

  /** The last `w` decimal digits of `n`. */
  function Pad(n: nat, w: nat): (s: string)
    ensures |s| == w && forall k :: 0 <= k < w ==> IsDigitChar(s[k])
  {
    if w == 0 then [] else Pad(n / 10, w - 1) + [DigitChar(n % 10)]
  }

  lemma {:induction false} PadOrder(n: nat, m: nat, w: nat)
    requires n < Pow10(w) && m < Pow10(w)
    ensures LexLess(Pad(n, w), Pad(m, w)) <==> n < m
    ensures Pad(n, w) == Pad(m, w) <==> n == m
  {
    if w > 0 {
      PadOrder(n / 10, m / 10, w - 1);
      LexConcat(Pad(n / 10, w - 1), Pad(m / 10, w - 1), [DigitChar(n % 10)], [DigitChar(m % 10)]);
      DigitOrder(n % 10, m % 10);
      assert Pad(n, w)[..w - 1] == Pad(n / 10, w - 1) && Pad(m, w)[..w - 1] == Pad(m / 10, w - 1);
      assert Pad(n, w)[w - 1] == DigitChar(n % 10) && Pad(m, w)[w - 1] == DigitChar(m % 10);
    }
  }

  lemma DigitOrder(a: nat, b: nat)
    requires a < 10 && b < 10
    ensures LexLess([DigitChar(a)], [DigitChar(b)]) <==> a < b
    ensures DigitChar(a) == DigitChar(b) <==> a == b
  {
    assert [DigitChar(a)][1..] == [] && [DigitChar(b)][1..] == [];
  }

  /** A padded number decides the comparison, unless both are equal and what follows decides. */
  lemma PadStep(n: nat, m: nat, w: nat, x: string, y: string)
    requires n < Pow10(w) && m < Pow10(w)
    ensures LexLess(Pad(n, w) + x, Pad(m, w) + y) <==> n < m || (n == m && LexLess(x, y))
  {
    PadOrder(n, m, w);
    LexConcat(Pad(n, w), Pad(m, w), x, y);
  }

  lemma {:induction false} ValueOfPad(n: nat, w: nat)
    requires n < Pow10(w)
    ensures AllDigits(Pad(n, w)) && Value(Pad(n, w)) == n
  {
    if w > 0 {
      ValueOfPad(n / 10, w - 1);
      assert Pad(n, w)[..w - 1] == Pad(n / 10, w - 1);
    }
  }

  // ---------------------------------------------------------------------------------------------
  // Fractions
  // ---------------------------------------------------------------------------------------------

  /** A fraction of a second with its digits, or nothing. */
  function Fraction(digits: string): string {
    if digits == "" then "" else "." + digits
  }

  lemma {:induction false} ValueHead(x: string)
    requires AllDigits(x) && x != ""
    ensures Value(x) == DigitValue(x[0]) * Pow10(|x| - 1) + Value(x[1..])
  {
    if |x| == 1 {
      assert x[..0] == "" && x[1..] == "";
    } else {
      var init := x[..|x| - 1];
      ValueHead(init);
      assert init[1..] == x[1..][..|x| - 2];
    }
  }

  lemma {:induction false} ValueFits(x: string)
    requires AllDigits(x)
    ensures Value(x) < Pow10(|x|)
  {
    if x != "" {
      ValueFits(x[..|x| - 1]);
    }
  }

  /** The value of the digits as a multiple of 10^-(|x| + n). */
  function Weight(x: string, n: nat): nat
    requires AllDigits(x)
  {
    Value(x) * Pow10(n)
  }

  /** That of the next value with as many digits. */
  function NextWeight(x: string, n: nat): nat
    requires AllDigits(x)
  {
    (Value(x) + 1) * Pow10(n)
  }

  lemma NoDigits(x: string, n: nat)
    requires AllDigits(x)
    ensures Weight("", n) == 0 && Weight(x, 0) == Value(x)
    ensures NextWeight("", n) == Pow10(n) && NextWeight(x, 0) == Value(x) + 1
  {
  }

  /** Leading digits decide between two sums, and what follows them if they are equal. */
  lemma HeadsDecide(c: nat, d: nat, k: nat, p: nat, q: nat)
    requires p < k && q <= k
    ensures q < k || q > 0 ==> (c * k + p < d * k + q <==> c < d || (c == d && p < q))
    ensures q < k ==> (c * k + p == d * k + q <==> c == d && p == q)
  {
    if c < d {
      assert d * k >= (c + 1) * k == c * k + k;
    } else if d < c {
      assert c * k >= (d + 1) * k == d * k + k;
    }
  }

  lemma Distribute(c: nat, a: nat, b: nat, v: nat)
    ensures (c * a + v) * (10 * b) == 10 * (c * (a * b) + v * b)
  {
    assert c * a * b == c * (a * b);
    assert (c * a + v) * b == c * a * b + v * b;
  }

  lemma Below(v: nat, a: nat, b: nat)
    requires v < a && b > 0
    ensures v * b < (v + 1) * b <= a * b
  {
  }

  lemma HeadsOfProducts(c: nat, d: nat, a: nat, b: nat, v: nat, w: nat)
    requires v < a && w <= b
    ensures w < b || w > 0 ==> ((c * a + v) * (10 * b) < (d * b + w) * (10 * a) <==> c < d || (c == d && v * b < w * a))
    ensures w < b ==> ((c * a + v) * (10 * b) == (d * b + w) * (10 * a) <==> c == d && v * b == w * a)
  {
    if b > 0 {
      Distribute(c, a, b, v);
      Distribute(d, b, a, w);
      Below(v, a, b);
      if w < b {
        Below(w, b, a);
      }
      assert a * b == b * a && (w > 0 ==> w * a > 0);
      HeadsDecide(c, d, a * b, v * b, w * a);
    }
  }

  /** Fractions compare by their first digits, and by the rest if these are equal. */
  lemma WeighByHead(x: string, y: string)
    requires AllDigits(x) && AllDigits(y) && x != "" && y != ""
    ensures Weight(x, |y|) < Weight(y, |x|)
       <==> x[0] < y[0] || (x[0] == y[0] && Weight(x[1..], |y| - 1) < Weight(y[1..], |x| - 1))
    ensures Weight(x, |y|) == Weight(y, |x|)
       <==> x[0] == y[0] && Weight(x[1..], |y| - 1) == Weight(y[1..], |x| - 1)
    ensures Weight(x, |y|) < NextWeight(y, |x|)
       <==> x[0] < y[0] || (x[0] == y[0] && Weight(x[1..], |y| - 1) < NextWeight(y[1..], |x| - 1))
  {
    ValueHead(x);
    ValueHead(y);
    ValueFits(x[1..]);
    ValueFits(y[1..]);
    var (a, b, v, w) := (Pow10(|x| - 1), Pow10(|y| - 1), Value(x[1..]), Value(y[1..]));
    assert Pow10(|x|) == 10 * a && Pow10(|y|) == 10 * b;
    hide Value, Pow10;
    HeadsOfProducts(DigitValue(x[0]), DigitValue(y[0]), a, b, v, w);
    HeadsOfProducts(DigitValue(x[0]), DigitValue(y[0]), a, b, v, w + 1);
  }

  /** Text that begins with a sign, as a numeric offset from UTC does. */
  predicate IsLow(u: string) {
    u != "" && (u[0] == '+' || u[0] == '-')
  }

  /** Fractions as numbers: the first is less, or equal with fewer digits, or the same and what follows decides. */
  predicate LowBefore(x: string, y: string, u: string, v: string)
    requires AllDigits(x) && AllDigits(y)
  {
    var (l, r) := (Weight(x, |y|), Weight(y, |x|));
    l < r || (l == r && (|x| < |y| || (|x| == |y| && LexLess(u, v))))
  }

  lemma {:induction false} DigitsBeforeSign(x: string, y: string, u: string, v: string)
    requires AllDigits(x) && AllDigits(y) && IsLow(u) && IsLow(v)
    ensures LexLess(x + u, y + v) <==> LowBefore(x, y, u, v)
    decreases |x|
  {
    hide Weight, Value;
    if x == "" || y == "" {
      assert "" + u == u && "" + v == v;
      NoDigits(x, |y|);
      NoDigits(y, |x|);
    } else {
      assert (x + u)[1..] == x[1..] + u && (y + v)[1..] == y[1..] + v;
      DigitsBeforeSign(x[1..], y[1..], u, v);
      WeighByHead(x, y);
    }
  }

  /** A fraction before an offset compares as a number, trailing zeros apart. */
  lemma FractionBeforeSign(x: string, y: string, u: string, v: string)
    requires AllDigits(x) && AllDigits(y) && IsLow(u) && IsLow(v)
    ensures LexLess(Fraction(x) + u, Fraction(y) + v) <==> LowBefore(x, y, u, v)
  {
    hide Weight, Value;
    DigitsBeforeSign(x, y, u, v);
    if x != "" && y != "" {
      hide LexLess, LowBefore;
      assert Fraction(x) + u == "." + (x + u) && Fraction(y) + v == "." + (y + v);
      LexSame('.', x + u, y + v);
    } else {
      assert "" + u == u && "" + v == v;
      NoDigits(x, |y|);
      NoDigits(y, |x|);
    }
  }

  lemma {:induction false} DigitsBeforeZ(x: string, y: string, u: string)
    requires AllDigits(x) && AllDigits(y) && IsLow(u)
    ensures LexLess(x + u, y + "Z") <==> Weight(x, |y|) < NextWeight(y, |x|)
    decreases |x|
  {
    hide Weight, NextWeight, Value, Pow10;
    if x == "" || y == "" {
      assert "" + u == u && "" + "Z" == "Z";
      NoDigits(x, |y|);
      NoDigits(y, |x|);
      ValueFits(x);
    } else {
      assert (x + u)[1..] == x[1..] + u && (y + "Z")[1..] == y[1..] + "Z";
      DigitsBeforeZ(x[1..], y[1..], u);
      WeighByHead(x, y);
    }
  }

  /** Before a `Z`, a fraction comes after all that are less in its digits or the same. */
  lemma FractionBeforeZ(x: string, y: string, u: string)
    requires AllDigits(x) && AllDigits(y) && IsLow(u)
    ensures LexLess(Fraction(x) + u, Fraction(y) + "Z") <==> Weight(x, |y|) < NextWeight(y, |x|)
  {
    hide Weight, NextWeight, Value, Pow10;
    DigitsBeforeZ(x, y, u);
    if x != "" && y != "" {
      hide LexLess;
      assert Fraction(x) + u == "." + (x + u) && Fraction(y) + "Z" == "." + (y + "Z");
      LexSame('.', x + u, y + "Z");
    } else {
      assert "" + u == u && "" + "Z" == "Z";
      NoDigits(x, |y|);
      NoDigits(y, |x|);
      ValueFits(x);
    }
  }
}
