/**
 * Decimal rendering of integers, as Python's str() and f-strings write them:
 * digits without leading zeros, and a leading '-' for negative numbers.
 * A reader for the digits is the partner that shows the rendering loses
 * nothing, so different numbers get different texts.
 */
module Decimal {

  function DigitChar(d: int): (c: char)
    requires 0 <= d < 10
    ensures '0' <= c <= '9'
  {
    "0123456789"[d]
  }

  function DigitValue(c: char): (d: int)
    requires '0' <= c <= '9'
    ensures 0 <= d < 10
  {
    c as int - '0' as int
  }

  lemma DigitRoundTrip(d: int)
    requires 0 <= d < 10
    ensures DigitValue(DigitChar(d)) == d
  {
  }

  predicate AllDigits(s: string)
  {
    forall i :: 0 <= i < |s| ==> '0' <= s[i] <= '9'
  }

  /** The decimal digits of n, most significant first. */
  function NatToString(n: nat): (s: string)
    ensures |s| >= 1 && AllDigits(s)
    ensures n >= 10 ==> |s| >= 2
  {
    if n < 10 then [DigitChar(n)] else NatToString(n / 10) + [DigitChar(n % 10)]
  }

  /** Python's str() of an int. */
  function IntToString(i: int): (s: string)
    ensures i >= 0 ==> AllDigits(s)
    ensures i < 0 ==> |s| >= 2 && s[0] == '-' && AllDigits(s[1..])
  {
    if i < 0 then "-" + NatToString(-i) else NatToString(i)
  }

  /** The value of a string of digits, most significant first. */
  function DigitsValue(s: string): nat
    requires AllDigits(s)
  {
    if s == [] then 0 else DigitsValue(s[..|s| - 1]) * 10 + DigitValue(s[|s| - 1])
  }

  /** Reading the digits back gives the number. */
  lemma {:induction false} NatToStringRoundTrip(n: nat)
    ensures DigitsValue(NatToString(n)) == n
  {
    var s := NatToString(n);
    if n < 10 {
      assert s[..0] == [];
    } else {
      var head, last := NatToString(n / 10), DigitChar(n % 10);
      assert s == head + [last];
      NatToStringRoundTrip(n / 10);
      assert s[..|s| - 1] == head && s[|s| - 1] == last;
      assert DigitValue(last) == n % 10;
    }
  }

  /** Different numbers are written differently. */
  lemma NatToStringInjective(m: nat, n: nat)
    requires NatToString(m) == NatToString(n)
    ensures m == n
  {
    NatToStringRoundTrip(m);
    NatToStringRoundTrip(n);
  }

  /** The text starts with '-' exactly for negative numbers. */
  lemma MinusSign(i: int)
    ensures |IntToString(i)| >= 1
    ensures IntToString(i)[0] == '-' <==> i < 0
  {
  }

  lemma NegativeInjective(i: int, j: int)
    requires i < 0 && j < 0 && IntToString(i) == IntToString(j)
    ensures i == j
  {
    var s, a, b := IntToString(i), NatToString(-i), NatToString(-j);
    assert s == "-" + a && s == "-" + b;
    assert a == s[1..] == b;
    NatToStringInjective(-i, -j);
  }

  lemma IntToStringInjective(i: int, j: int)
    requires IntToString(i) == IntToString(j)
    ensures i == j
  {
    MinusSign(i);
    MinusSign(j);
    if i < 0 {
      NegativeInjective(i, j);
    } else {
      NatToStringInjective(i, j);
    }
  }
}
