/** Digit strings and their values, and the decimal rendering of naturals used for
    array indices and by JSON.stringify. */
module Numerals {
  import opened JsChars

  predicate AllDigits(t: string, radix: nat)
  {
    forall k :: 0 <= k < |t| ==> IsDigitOf(t[k], radix)
  }

  /** The value of a digit string read most significant digit first. */
  function DigitsValue(t: string, radix: nat): nat
    requires AllDigits(t, radix)
    decreases |t|
  {
    if t == [] then 0 else DigitsValue(t[..|t| - 1], radix) * radix + HexValue(t[|t| - 1])
  }

  function Power(b: nat, e: nat): (r: nat)
    ensures b > 0 ==> r > 0
  {
    if e == 0 then 1 else b * Power(b, e - 1)
  }

  /** 10 raised to an integer exponent, as an exact real. */
  function Pow10(e: int): (r: real)
    ensures r > 0.0
  {
    if e >= 0 then Power(10, e) as real else 1.0 / Power(10, -e) as real
  }

  /** End of the longest run of decimal digits in `t` that starts at `i`. */
  function DigitRun(t: string, i: nat): (e: nat)
    requires i <= |t|
    ensures i <= e <= |t|
    ensures AllDigits(t[i..e], 10)
    ensures e == |t| || !IsDecimalDigit(t[e])
    decreases |t| - i
  {
    if i < |t| && IsDecimalDigit(t[i]) then DigitRun(t, i + 1) else i
  }

  /** A run of digits that stops at a non-digit is the one DigitRun finds. */
  lemma DigitRunAt(t: string, i: nat, k: nat)
    requires i <= k <= |t|
    requires AllDigits(t[i..k], 10)
    requires k == |t| || !IsDecimalDigit(t[k])
    ensures DigitRun(t, i) == k
  {
    var e := DigitRun(t, i);
    assert forall m :: i <= m < k ==> t[m] == t[i..k][m - i];
    assert forall m :: i <= m < e ==> t[m] == t[i..e][m - i];
  }

  function DigitChar(d: nat): (c: char)
    requires d < 10
    ensures IsDecimalDigit(c) && HexValue(c) == d
  {
    (d + '0' as int) as char
  }

  /** The decimal rendering of a natural, as Number.prototype.toString gives it. */
  function NatToString(n: nat): (s: string)
    ensures |s| > 0 && AllDigits(s, 10)
    ensures n == 0 ==> s == "0"
    ensures n > 0 ==> s[0] != '0'
    decreases n
  {
    if n < 10 then [DigitChar(n)] else NatToString(n / 10) + [DigitChar(n % 10)]
  }

  /** The decimal rendering of an integer, with a leading '-' when negative. */
  function IntToString(i: int): (s: string)
    ensures |s| > 0
  {
    if i < 0 then "-" + NatToString(-i) else NatToString(i)
  }

  /** Reading back a rendered natural gives the natural. */
  lemma {:induction false} NatToStringValue(n: nat)
    ensures DigitsValue(NatToString(n), 10) == n
    decreases n
  {
    if n >= 10 {
      var s := NatToString(n);
      NatToStringValue(n / 10);
      assert s[..|s| - 1] == NatToString(n / 10);
    }
  }

  lemma NatToStringInjective(a: nat, b: nat)
    requires NatToString(a) == NatToString(b)
    ensures a == b
  {
    NatToStringValue(a);
    NatToStringValue(b);
  }

  /** A digit string of length n is below radix^n. */
  lemma {:induction false} DigitsValueBound(t: string, radix: nat)
    requires AllDigits(t, radix)
    ensures DigitsValue(t, radix) < Power(radix, |t|)
    decreases |t|
  {
    if t != [] {
      var init := t[..|t| - 1];
      assert AllDigits(init, radix);
      DigitsValueBound(init, radix);
      BoundStep(DigitsValue(init, radix), Power(radix, |init|), HexValue(t[|t| - 1]), radix);
    }
  }

  /** Appending a digit below r to a number below p gives a number below p * r. */
  lemma BoundStep(x: nat, p: nat, h: nat, r: nat)
    requires x < p && h < r
    ensures x * r + h < r * p
  {
    assert (x + 1) * r <= p * r;
  }
}
