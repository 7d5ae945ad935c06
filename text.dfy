/** Python's number-to-text conversions used by the publisher: `int()` on a
    float, `%i`, `%02i` and `%f`, each with the parser that reads its output
    back. Floats are modelled as exact reals; binary rounding is not modelled. */
module Text {

  predicate IsDigit(c: char) { '0' <= c <= '9' }

  predicate AllDigits(s: string) { forall i :: 0 <= i < |s| ==> IsDigit(s[i]) }

  function Pow10(k: nat): (p: nat)
    ensures p >= 1
  {
    if k == 0 then 1 else 10 * Pow10(k - 1)
  }

  function DigitChar(d: nat): (c: char)
    requires d < 10
    ensures IsDigit(c) && c as int - '0' as int == d
  {
    ('0' as int + d) as char
  }

  function DigitValue(c: char): (d: nat)
    requires IsDigit(c)
    ensures d < 10 && DigitChar(d) == c
  {
    c as int - '0' as int
  }

  /** The decimal digits of `n`, most significant first, without leading zeros. */
  function NatText(n: nat): (s: string)
    decreases n
  {
    if n < 10 then [DigitChar(n)] else NatText(n / 10) + [DigitChar(n % 10)]
  }

  /** The number a string of decimal digits denotes (leading zeros allowed). */
  function DigitsValue(s: string): nat
    requires AllDigits(s)
  {
    if s == [] then 0 else DigitsValue(s[..|s| - 1]) * 10 + DigitValue(s[|s| - 1])
  }

  lemma {:induction false} NatTextDigits(n: nat)
    ensures |NatText(n)| >= 1 && AllDigits(NatText(n))
    decreases n
  {
    if n >= 10 {
      NatTextDigits(n / 10);
    }
  }

  /** Reading the digits of `n` back gives `n`, and there is no leading zero. */
  lemma {:induction false} NatTextRoundTrip(n: nat)
    ensures AllDigits(NatText(n))
    ensures DigitsValue(NatText(n)) == n
    ensures NatText(n)[0] == '0' <==> n == 0
    decreases n
  {
    NatTextDigits(n);
    if n >= 10 {
      NatTextRoundTrip(n / 10);
      var s := NatText(n);
      assert s[..|s| - 1] == NatText(n / 10);
      assert s[0] == NatText(n / 10)[0];
    }
  }

  /** The number of digits of `n` is at most `k` exactly when `n < 10^k`. */
  lemma {:induction false} NatTextLength(n: nat, k: nat)
    requires k >= 1
    ensures |NatText(n)| <= k <==> n < Pow10(k)
    decreases n
  {
    if n >= 10 {
      if k == 1 {
        NatTextDigits(n / 10);
      } else {
        NatTextLength(n / 10, k - 1);
      }
    }
  }

  lemma {:induction false} DigitsValueAppend(a: string, b: string)
    requires AllDigits(a) && AllDigits(b)
    ensures AllDigits(a + b)
    ensures DigitsValue(a + b) == DigitsValue(a) * Pow10(|b|) + DigitsValue(b)
    decreases |b|
  {
    var ab := a + b;
    assert AllDigits(ab) by {
      forall i | 0 <= i < |ab| ensures IsDigit(ab[i]) {
        if i >= |a| { assert ab[i] == b[i - |a|]; }
      }
    }
    if b == [] {
      assert ab == a;
    } else {
      var b' := b[..|b| - 1];
      var c := DigitValue(b[|b| - 1]);
      assert ab[..|ab| - 1] == a + b';
      assert ab[|ab| - 1] == b[|b| - 1];
      DigitsValueAppend(a, b');
      var va, vb' := DigitsValue(a), DigitsValue(b');
      var p := Pow10(|b'|);
      assert Pow10(|b|) == 10 * p;
      assert DigitsValue(b) == vb' * 10 + c;
      assert DigitsValue(ab) == (va * p + vb') * 10 + c;
      MulDistrib(va, p, vb');
    }
  }

  lemma MulDistrib(x: int, p: int, y: int)
    ensures (x * p + y) * 10 == x * (10 * p) + y * 10
  {
  }

  function Zeros(k: nat): (s: string)
    ensures |s| == k && AllDigits(s)
  {
    if k == 0 then [] else Zeros(k - 1) + ['0']
  }

  lemma {:induction false} ZerosValue(k: nat)
    ensures DigitsValue(Zeros(k)) == 0
  {
    if k > 0 {
      ZerosValue(k - 1);
      assert Zeros(k)[..k - 1] == Zeros(k - 1);
    }
  }

  lemma ConcatSlices(a: string, b: string)
    ensures (a + b)[..|a|] == a && (a + b)[|a|..] == b
  {
  }

  /** `s` left-padded with '0' to at least `width` characters. */
  function ZeroPad(s: string, width: nat): (r: string)
  {
    if |s| >= width then s else Zeros(width - |s|) + s
  }

  lemma ZeroPadValue(s: string, width: nat)
    requires AllDigits(s)
    ensures |ZeroPad(s, width)| == if |s| >= width then |s| else width
    ensures AllDigits(ZeroPad(s, width))
    ensures DigitsValue(ZeroPad(s, width)) == DigitsValue(s)
  {
    if |s| < width {
      ZerosValue(width - |s|);
      DigitsValueAppend(Zeros(width - |s|), s);
    }
  }

  /** Python's `"%0<width>i" % i` on an integral value: a minus sign for a
      negative value, then the digits of `|i|` zero-padded so that sign and
      digits together fill `width` characters (`"%i"` is width 0). */
  function FormatInt(i: int, width: nat): string
  {
    if i < 0 then "-" + ZeroPad(NatText(-i), if width == 0 then 0 else width - 1)
    else ZeroPad(NatText(i), width)
  }

  /** Reads back a signed decimal integer: an optional '-' and one or more digits. */
  function IntValue(s: string): Option<int>
  {
    if |s| >= 2 && s[0] == '-' && AllDigits(s[1..]) then Some(0 - DigitsValue(s[1..]) as int)
    else if |s| >= 1 && AllDigits(s) then Some(DigitsValue(s))
    else None
  }

  datatype Option<T> = None | Some(value: T)

  /** `FormatInt` loses nothing: reading its text back gives the integer, and
      its length is the width or the natural length (sign and digits),
      whichever is larger. */
  lemma FormatIntRoundTrip(i: int, width: nat)
    ensures IntValue(FormatInt(i, width)) == Some(i)
    ensures i >= 0 ==> AllDigits(FormatInt(i, width))
    ensures i < 0 ==> FormatInt(i, width)[0] == '-' && AllDigits(FormatInt(i, width)[1..])
    ensures var natural := if i < 0 then 1 + |NatText(-i)| else |NatText(i)|;
      |FormatInt(i, width)| == if natural >= width then natural else width
  {
    if i < 0 {
      NegativeRoundTrip(-i, if width == 0 then 0 else width - 1);
    } else {
      NatTextRoundTrip(i);
      NatTextDigits(i);
      ZeroPadValue(NatText(i), width);
    }
  }

  lemma NegativeRoundTrip(n: nat, w: nat)
    requires n >= 1
    ensures var s := "-" + ZeroPad(NatText(n), w);
      IntValue(s) == Some(0 - n) && AllDigits(s[1..]) &&
      |s| == 1 + (if |NatText(n)| >= w then |NatText(n)| else w)
  {
    NatTextRoundTrip(n);
    ZeroPadValue(NatText(n), w);
    NatTextDigits(n);
    var p := ZeroPad(NatText(n), w);
    var s := "-" + p;
    assert s[1..] == p;
  }

  /** `FormatInt` writes only digits and a minus sign. */
  lemma FormatIntChars(i: int, width: nat)
    ensures forall k :: 0 <= k < |FormatInt(i, width)| ==>
      IsDigit(FormatInt(i, width)[k]) || FormatInt(i, width)[k] == '-'
  {
    FormatIntRoundTrip(i, width);
    var s := FormatInt(i, width);
    if i < 0 {
      assert forall k :: 1 <= k < |s| ==> s[k] == s[1..][k - 1];
    }
  }

  /** Python's `int(x)` on a float: truncation toward zero (not floor). */
  function Trunc(x: real): (d: int)
    ensures 0.0 <= x ==> d as real <= x < d as real + 1.0
    ensures x < 0.0 ==> d as real - 1.0 < x <= d as real
  {
    if x >= 0.0 then x.Floor else -((-x).Floor)
  }

  function Abs(x: real): (r: real)
    ensures r >= 0.0 && (r == x || r == -x)
  {
    if x < 0.0 then -x else x
  }

  /** Rounds to the nearest integer, an exact half going to the even neighbour
      (the rule Python's `%f` applies to the exact value it formats). */
  function RoundHalfEven(y: real): (n: int)
    ensures -0.5 <= n as real - y <= 0.5
    ensures n as real - y == 0.5 || y - n as real == 0.5 ==> n % 2 == 0
    ensures y >= 0.0 ==> n >= 0
  {
    var m := y.Floor;
    var frac := y - m as real;
    if frac < 0.5 then m
    else if frac > 0.5 then m + 1
    else if m % 2 == 0 then m
    else m + 1
  }

  const Micro: nat := 1000000

  /** Python's `"%f" % x` for `x >= 0`: the integer part, a point, and exactly
      six fractional digits, after rounding to the nearest millionth. */
  function FixedSix(x: real): string
    requires x >= 0.0
  {
    var n := RoundHalfEven(x * Micro as real);
    NatText(n / Micro) + "." + ZeroPad(NatText(n % Micro), 6)
  }

  /** Reads a `FixedSix` text back as a whole number of millionths. */
  function FixedSixValue(s: string): Option<nat>
  {
    if |s| >= 8 && s[|s| - 7] == '.' && AllDigits(s[..|s| - 7]) && AllDigits(s[|s| - 6..])
    then Some(DigitsValue(s[..|s| - 7]) * Micro + DigitsValue(s[|s| - 6..]))
    else None
  }

  /** `%f` keeps exactly six fractional digits, and reading the text back gives
      `x` rounded to the nearest millionth. */
  lemma FixedSixRoundTrip(x: real)
    requires x >= 0.0
    ensures var s := FixedSix(x);
      |s| >= 8 && s[|s| - 7] == '.' &&
      AllDigits(s[..|s| - 7]) && AllDigits(s[|s| - 6..]) &&
      FixedSixValue(s) == Some(RoundHalfEven(x * Micro as real))
  {
    var n := RoundHalfEven(x * Micro as real);
    var q, r := n / Micro, n % Micro;
    assert n == q * Micro + r;
    FixedSixParts(q, r);
    assert FixedSix(x) == NatText(q) + "." + ZeroPad(NatText(r), 6);
  }

  lemma FixedSixParts(q: nat, r: nat)
    requires r < Micro
    ensures var s := NatText(q) + "." + ZeroPad(NatText(r), 6);
      |s| >= 8 && s[|s| - 7] == '.' &&
      AllDigits(s[..|s| - 7]) && AllDigits(s[|s| - 6..]) &&
      FixedSixValue(s) == Some(q * Micro + r)
  {
    NatTextDigits(q);
    NatTextRoundTrip(q);
    FractionDigits(r);
    var ip, fp := NatText(q), ZeroPad(NatText(r), 6);
    ConcatSlices(ip + ".", fp);
    ConcatSlices(ip, ".");
    var s := ip + "." + fp;
    assert s[..|s| - 7] == (ip + ".")[..|ip|];
  }

  lemma FractionDigits(r: nat)
    requires r < Micro
    ensures var fp := ZeroPad(NatText(r), 6); |fp| == 6 && AllDigits(fp) && DigitsValue(fp) == r
  {
    NatTextRoundTrip(r);
    NatTextLength(r, 6);
    assert Pow10(6) == Micro;
    ZeroPadValue(NatText(r), 6);
  }

  /** `%f` of a whole number of units: its digits and six zeros. */
  lemma {:induction false} FixedSixWhole(k: nat)
    ensures FixedSix(k as real) == NatText(k) + ".000000"
  {
    FixedSixOfScaled(k);
    DivMicro(k);
    SixZeros();
  }

  lemma FixedSixOfScaled(k: nat)
    ensures FixedSix(k as real) == NatText(k * Micro / Micro) + "." + ZeroPad(NatText(k * Micro % Micro), 6)
  {
    var n := k * Micro;
    assert k as real * Micro as real == n as real;
    RoundWhole(n);
  }

  lemma SixZeros()
    ensures ZeroPad(NatText(0), 6) == "000000"
  {
    assert NatText(0) == "0";
    assert Zeros(1) == "0";
    assert Zeros(2) == "00";
    assert Zeros(3) == "000";
    assert Zeros(4) == "0000";
    assert Zeros(5) == "00000";
  }

  lemma RoundWhole(n: int)
    ensures RoundHalfEven(n as real) == n
  {
  }

  lemma DivMicro(k: nat)
    ensures k * Micro / Micro == k && k * Micro % Micro == 0
  {
  }

  /** Every character `FixedSix` produces is a digit or the point. */
  lemma FixedSixChars(x: real)
    requires x >= 0.0
    ensures forall i :: 0 <= i < |FixedSix(x)| ==> IsDigit(FixedSix(x)[i]) || FixedSix(x)[i] == '.'
  {
    FixedSixRoundTrip(x);
    var s := FixedSix(x);
    var k := |s| - 7;
    forall i | 0 <= i < |s| ensures IsDigit(s[i]) || s[i] == '.' {
      if i < k {
        assert s[i] == s[..k][i];
      } else if i > k {
        assert s[i] == s[k + 1..][i - k - 1];
      }
    }
  }
}
