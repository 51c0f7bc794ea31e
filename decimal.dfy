/** `Number.prototype.toString()` on integers: the decimal numeral with a
    leading '-' for negative numbers, and its inverse for checking it.
    Integers are unbounded here; JavaScript switches to exponent notation
    at a magnitude of 10^21, which this numeral does not follow. */
module Decimal {
  import opened Wrappers

  predicate IsDigit(c: char) {
    '0' <= c <= '9'
  }

  function DigitChar(d: nat): (c: char)
    requires d < 10
    ensures IsDigit(c) && c as int - '0' as int == d
  {
    (d + '0' as int) as char
  }

  /** The canonical numeral of n: only digits, and no leading zero unless n is 0. */
  function NatToDecimal(n: nat): (s: string)
    ensures |s| >= 1 && (forall i :: 0 <= i < |s| ==> IsDigit(s[i]))
    ensures s[0] == '0' <==> n == 0
  {
    if n < 10 then [DigitChar(n)] else NatToDecimal(n / 10) + [DigitChar(n % 10)]
  }

  /** `i.toString()` for an integer i of magnitude below 10^21; beyond that
      JavaScript writes an exponent and this numeral differs. */
  function IntToDecimal(i: int): string {
    if i < 0 then "-" + NatToDecimal(-i) else NatToDecimal(i)
  }

  /** The number a string of digits denotes. */
  function DigitsValue(s: string): nat
    requires forall i :: 0 <= i < |s| ==> IsDigit(s[i])
  {
    if s == [] then 0
    else
      assert IsDigit(s[|s| - 1]);
      DigitsValue(s[..|s| - 1]) * 10 + (s[|s| - 1] as int - '0' as int)
  }

  /** Reads an optionally signed decimal numeral; None for anything else. */
  function DecimalValue(s: string): Option<int> {
    if |s| >= 2 && s[0] == '-' && (forall i :: 1 <= i < |s| ==> IsDigit(s[i])) then Some(0 - DigitsValue(s[1..]) as int)
    else if |s| >= 1 && (forall i :: 0 <= i < |s| ==> IsDigit(s[i])) then Some(DigitsValue(s))
    else None
  }

  lemma {:induction false} NatToDecimalValue(n: nat)
    ensures DigitsValue(NatToDecimal(n)) == n
  {
    if n >= 10 {
      NatToDecimalValue(n / 10);
      var s := NatToDecimal(n);
      assert s[..|s| - 1] == NatToDecimal(n / 10);
    }
  }

  /** A non-empty string of digits reads as its digits' value. */
  lemma DigitsAsDecimal(d: string)
    requires |d| >= 1 && forall k :: 0 <= k < |d| ==> IsDigit(d[k])
    ensures DecimalValue(d) == Some(DigitsValue(d))
  {
    assert IsDigit(d[0]);
  }

  /** A minus sign before a non-empty string of digits negates their value. */
  lemma NegatedDigitsAsDecimal(d: string)
    requires |d| >= 1 && forall k :: 0 <= k < |d| ==> IsDigit(d[k])
    ensures DecimalValue("-" + d) == Some(0 - DigitsValue(d) as int)
  {
    var s := "-" + d;
    assert s[1..] == d;
    assert forall k :: 1 <= k < |s| ==> s[k] == d[k - 1];
  }

  /** Reading back the numeral of i gives i. */
  lemma IntToDecimalRoundTrip(i: int)
    ensures DecimalValue(IntToDecimal(i)) == Some(i)
  {
    if i < 0 {
      NatToDecimalValue(-i);
      NegatedDigitsAsDecimal(NatToDecimal(-i));
    } else {
      NatToDecimalValue(i);
      DigitsAsDecimal(NatToDecimal(i));
    }
  }

  /** Different integers have different numerals. */
  lemma IntToDecimalInjective(i: int, j: int)
    requires IntToDecimal(i) == IntToDecimal(j)
    ensures i == j
  {
    IntToDecimalRoundTrip(i);
    IntToDecimalRoundTrip(j);
  }
}
