/** Decimal renderings of non-negative integers: `String(n)`, `pad2` and the fixed-width
    digit groups of an ISO calendar date, each with its parse-back partner. */
module Digits {

  predicate IsDigit(c: char) { '0' <= c <= '9' }

  predicate AllDigits(s: string) { forall i :: 0 <= i < |s| ==> IsDigit(s[i]) }

  function DigitChar(k: nat): (c: char)
    requires k < 10
    ensures IsDigit(c)
  {
    ('0' as int + k) as char
  }

  function DigitValue(c: char): (k: nat)
    requires IsDigit(c)
    ensures k < 10 && DigitChar(k) == c
  {
    c as int - '0' as int
  }

  /** Digit characters are ordered as the digits they stand for. */
  lemma DigitCharLess(a: nat, b: nat)
    requires a < 10 && b < 10
    ensures DigitChar(a) < DigitChar(b) <==> a < b
    ensures DigitChar(a) == DigitChar(b) <==> a == b
  {
  }

  /** The number a string of decimal digits denotes (what `Number(s)` gives for it). */
  function ValueOf(s: string): nat
    requires AllDigits(s)
  {
    if s == [] then 0 else ValueOf(s[..|s| - 1]) * 10 + DigitValue(s[|s| - 1])
  }

  function Pow10(w: nat): (p: nat)
    ensures p >= 1
  {
    if w == 0 then 1 else 10 * Pow10(w - 1)
  }

  /** `String(n)` for a non-negative integer: no sign, no leading zero. */
  function NatToString(n: nat): (s: string)
    ensures 1 <= |s| && AllDigits(s)
  {
    if n < 10 then [DigitChar(n)] else NatToString(n / 10) + [DigitChar(n % 10)]
  }

  /** The `w` lowest decimal digits of `x`, zero-padded on the left. */
  function Fixed(x: nat, w: nat): (s: string)
    ensures |s| == w && AllDigits(s)
  {
    if w == 0 then [] else Fixed(x / 10, w - 1) + [DigitChar(x % 10)]
  }

  /** `pad2` of PoolWheelWidget: a zero in front of one-digit numbers. It is only ever
      applied to axis hours 7..21, so negative numbers (which `padStart` would turn into
      text such as "0-5") do not occur. */
  function Pad2(n: nat): string
  {
    if n < 10 then "0" + NatToString(n) else NatToString(n)
  }

  lemma {:induction false} ValueOfSnoc(s: string, c: char)
    requires AllDigits(s) && IsDigit(c)
    ensures AllDigits(s + [c]) && ValueOf(s + [c]) == ValueOf(s) * 10 + DigitValue(c)
  {
    assert (s + [c])[..|s + [c]| - 1] == s;
  }

  /** `String(n)` reads back as `n`, and only "0" starts with a zero. */
  lemma {:induction false} NatToStringRoundTrip(n: nat)
    ensures ValueOf(NatToString(n)) == n
    ensures NatToString(n)[0] == '0' <==> n == 0
  {
    if n < 10 {
      assert NatToString(n) == [] + [DigitChar(n)];
      ValueOfSnoc([], DigitChar(n));
    } else {
      NatToStringRoundTrip(n / 10);
      ValueOfSnoc(NatToString(n / 10), DigitChar(n % 10));
    }
  }

  /** A fixed-width group reads back as the number modulo 10^w. */
  lemma {:induction false} FixedRoundTrip(x: nat, w: nat)
    ensures ValueOf(Fixed(x, w)) == x % Pow10(w)
  {
    if w > 0 {
      FixedRoundTrip(x / 10, w - 1);
      ValueOfSnoc(Fixed(x / 10, w - 1), DigitChar(x % 10));
      ModPow10Step(x, w);
    }
  }

  lemma ModPow10Step(x: nat, w: nat)
    requires w > 0
    ensures x % Pow10(w) == (x / 10) % Pow10(w - 1) * 10 + x % 10
  {
    var p := Pow10(w - 1);
    var q := x / 10;
    var r := x % 10;
    assert x == 10 * q + r;
    var a := q / p;
    var b := q % p;
    assert q == a * p + b;
    assert x == (10 * p) * a + (10 * b + r);
    assert 0 <= 10 * b + r < 10 * p;
    DivModUnique(x, 10 * p, a, 10 * b + r);
  }

  lemma DivModUnique(x: int, d: int, q: int, r: int)
    requires d > 0 && x == d * q + r && 0 <= r < d
    ensures x % d == r && x / d == q
  {
    var q0, r0 := x / d, x % d;
    assert d * (q0 - q) == r - r0;
    if q0 > q {
      MulAtLeast(d, q0 - q);
    } else if q0 < q {
      MulAtLeast(d, q - q0);
    }
  }

  lemma MulAtLeast(d: int, k: int)
    requires d > 0 && k >= 1
    ensures d * k >= d
  {
  }

  /** Splitting off the last decimal digit: numbers compare by their leading digits first,
      then by the last one. */
  lemma LastDigitOrder(x: nat, y: nat)
    ensures x < y <==> x / 10 < y / 10 || (x / 10 == y / 10 && x % 10 < y % 10)
    ensures x == y <==> x / 10 == y / 10 && x % 10 == y % 10
  {
  }

  /** Dropping the last digit of a number below 10^w leaves a number below 10^(w-1). */
  lemma DropDigitBound(x: nat, w: nat)
    requires w > 0 && x < Pow10(w)
    ensures x / 10 < Pow10(w - 1)
  {
    var p := Pow10(w - 1);
    assert Pow10(w) == 10 * p;
    assert 10 * (x / 10) <= x;
  }

  /** A string of `w` digits is the fixed-width rendering of its own value. */
  lemma {:induction false} FixedOfValue(s: string)
    requires AllDigits(s)
    ensures Fixed(ValueOf(s), |s|) == s
  {
    if s != [] {
      var init, c := s[..|s| - 1], s[|s| - 1];
      FixedOfValue(init);
      var v := ValueOf(s);
      assert v / 10 == ValueOf(init) && v % 10 == DigitValue(c) by {
        DivModUnique(v, 10, ValueOf(init), DigitValue(c));
      }
      assert s == init + [c];
    }
  }

  /** `pad2(n)` reads back as `n`, is at least two characters long, and is exactly the
      two-digit group for the hours and days below one hundred. */
  lemma Pad2Properties(n: nat)
    ensures AllDigits(Pad2(n)) && ValueOf(Pad2(n)) == n && |Pad2(n)| >= 2
    ensures n < 100 ==> Pad2(n) == Fixed(n, 2)
  {
    NatToStringRoundTrip(n);
    if n < 10 {
      assert Pad2(n) == "0" + [DigitChar(n)];
      ValueOfSnoc("0", DigitChar(n));
      assert Fixed(n, 2) == Fixed(0, 1) + [DigitChar(n)];
    } else {
      assert NatToString(n) == NatToString(n / 10) + [DigitChar(n % 10)];
      NatToStringRoundTrip(n / 10);
      if n < 100 {
        assert Fixed(n, 2) == Fixed(n / 10, 1) + [DigitChar(n % 10)];
        assert Fixed(n / 10, 1) == [DigitChar(n / 10)];
      }
    }
  }
}
