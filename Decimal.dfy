/** Decimal text of natural numbers: Python's `str(n)` for `n >= 0` and `int(c)` for one digit. */
module Decimal {

  predicate IsDigit(c: char) {
    '0' <= c <= '9'
  }

  predicate AllDigits(s: string) {
    forall i :: 0 <= i < |s| ==> IsDigit(s[i])
  }

  function DigitValue(c: char): (d: nat)
    requires IsDigit(c)
    ensures d < 10
  {
    c as int - '0' as int
  }

  function DigitChar(d: nat): (c: char)
    requires d < 10
    ensures IsDigit(c) && DigitValue(c) == d
  {
    ('0' as int + d) as char
  }

  function Pow10(k: nat): (p: nat)
    ensures p >= 1
  {
    if k == 0 then 1 else 10 * Pow10(k - 1)
  }

  /** The number a string of digits denotes, most significant digit first. */
  function DecimalValue(s: string): (v: nat)
    requires AllDigits(s)
  {
    if s == [] then 0 else DecimalValue(s[..|s| - 1]) * 10 + DigitValue(s[|s| - 1])
  }

  /** `str(n)`: the canonical decimal text of `n`. */
  function NatToDecimal(n: nat): string {
    if n < 10 then [DigitChar(n)] else NatToDecimal(n / 10) + [DigitChar(n % 10)]
  }

  /** `str(n)` is digits only, denotes `n`, and has no leading zero; one digit exactly below 10. */
  lemma {:induction false} NatToDecimalDenotes(n: nat)
    ensures var s := NatToDecimal(n);
      && |s| >= 1 && AllDigits(s)
      && DecimalValue(s) == n
      && (s[0] == '0' <==> n == 0)
      && (n < 10 <==> |s| == 1)
  {
    if n >= 10 {
      NatToDecimalDenotes(n / 10);
      var s := NatToDecimal(n);
      assert s[..|s| - 1] == NatToDecimal(n / 10);
    }
  }

  /** The value of a digit string read from the front: the first digit weighs `10^(|s|)`. */
  lemma {:induction false} DecimalValueFront(d: char, s: string)
    requires IsDigit(d) && AllDigits(s)
    ensures AllDigits([d] + s)
    ensures DecimalValue([d] + s) == DigitValue(d) * Pow10(|s|) + DecimalValue(s)
  {
    var t := [d] + s;
    assert AllDigits(t);
    if s != [] {
      var s0 := s[..|s| - 1];
      assert t[..|t| - 1] == [d] + s0;
      DecimalValueFront(d, s0);
      var a, p, v0, e := DigitValue(d), Pow10(|s0|), DecimalValue(s0), DigitValue(s[|s| - 1]);
      assert s[..|s| - 1] == s0;
      assert DecimalValue(s) == v0 * 10 + e;
      assert Pow10(|s|) == 10 * p;
      assert DecimalValue(t) == (a * p + v0) * 10 + e;
      ShiftDigit(a, p, v0, e);
    }
  }

  lemma ShiftDigit(a: int, p: int, v: int, e: int)
    ensures (a * p + v) * 10 + e == a * (10 * p) + (v * 10 + e)
  {
    assert (a * p + v) * 10 == a * p * 10 + v * 10;
    assert a * (10 * p) == a * p * 10;
  }
}
