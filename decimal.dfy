/**
 * Decimal numerals of integers, as JavaScript's template interpolation `${n}`
 * prints a number that holds an integral value below 10^21 in magnitude
 * (larger ones are printed in exponent form), and the reading of such a
 * numeral back into its value (the partner used to show that a printed
 * duration determines the numbers it was printed from).
 */
module Decimal {

  import opened Wrappers

  predicate IsDigit(c: char) {
    '0' <= c <= '9'
  }

  predicate AllDigits(s: string) {
    forall i :: 0 <= i < |s| ==> IsDigit(s[i])
  }

  function DigitChar(d: nat): (c: char)
    requires d < 10
    ensures IsDigit(c)
    ensures c as int - '0' as int == d
  {
    ('0' as int + d) as char
  }

  function DigitValue(c: char): (d: nat)
    requires IsDigit(c)
    ensures d < 10
    ensures DigitChar(d) == c
  {
    c as int - '0' as int
  }

  /** The decimal numeral of `n`, most significant digit first, without leading zeros. */
  function NatToString(n: nat): (s: string)
    ensures 1 <= |s|
    ensures AllDigits(s)
    ensures |s| > 1 ==> s[0] != '0'
    decreases n
  {
    if n < 10 then [DigitChar(n)] else NatToString(n / 10) + [DigitChar(n % 10)]
  }

  /** The numeral of an integer: a minus sign in front of negative values. */
  function IntToString(i: int): (s: string)
    ensures 1 <= |s|
    ensures s[0] == '-' <==> i < 0
    ensures i >= 0 ==> AllDigits(s)
  {
    if i < 0 then "-" + NatToString(-i) else NatToString(i)
  }

  /** The value of a string of decimal digits (the empty string is worth 0). */
  function DigitsValue(s: string): nat
    requires AllDigits(s)
  {
    if s == [] then 0 else 10 * DigitsValue(s[..|s| - 1]) + DigitValue(s[|s| - 1])
  }

  /** Reading a numeral back gives the number it was printed from. */
  lemma {:induction false} DigitsValueOfNatToString(n: nat)
    ensures DigitsValue(NatToString(n)) == n
  {
    if n >= 10 {
      var s := NatToString(n);
      assert s[..|s| - 1] == NatToString(n / 10);
      DigitsValueOfNatToString(n / 10);
    }
  }

  /** Two different numbers never print the same numeral. */
  lemma NatToStringInjective(a: nat, b: nat)
    requires NatToString(a) == NatToString(b)
    ensures a == b
  {
    DigitsValueOfNatToString(a);
    DigitsValueOfNatToString(b);
  }

  /** The length of the longest prefix of `s` made of digits. */
  function LeadingDigits(s: string): (k: nat)
    ensures k <= |s|
    ensures AllDigits(s[..k])
    ensures k < |s| ==> !IsDigit(s[k])
  {
    if s == [] || !IsDigit(s[0]) then 0
    else
      var k := 1 + LeadingDigits(s[1..]);
      assert s[..k] == [s[0]] + s[1..][..k - 1];
      k
  }

  /** A digit string followed by a non-digit is exactly the leading digits. */
  lemma {:induction false} LeadingDigitsOfNumeral(d: string, rest: string)
    requires AllDigits(d)
    requires rest != [] && !IsDigit(rest[0])
    ensures LeadingDigits(d + rest) == |d|
  {
    if d != [] {
      assert (d + rest)[1..] == d[1..] + rest;
      LeadingDigitsOfNumeral(d[1..], rest);
    }
  }

  /**
   * Reads a non-empty numeral from the front of `s` that is immediately
   * followed by `unit`; gives its value and what follows the unit.
   */
  function ReadNumber(s: string, unit: char): (r: Option<(nat, string)>)
    ensures r.Some? ==> |r.value.1| < |s|
  {
    var k := LeadingDigits(s);
    if 0 < k < |s| && s[k] == unit then Some((DigitsValue(s[..k]), s[k + 1..])) else None
  }

  /** What ReadNumber gives on a printed number followed by a unit. */
  lemma ReadNumberOfNatToString(n: nat, unit: char, rest: string)
    requires !IsDigit(unit)
    ensures ReadNumber(NatToString(n) + [unit] + rest, unit) == Some((n, rest))
  {
    var d := NatToString(n);
    var s := d + [unit] + rest;
    assert s == d + ([unit] + rest);
    LeadingDigitsOfNumeral(d, [unit] + rest);
    assert s[..|d|] == d;
    assert s[|d| + 1..] == rest;
    DigitsValueOfNatToString(n);
  }

  /** A numeral followed by a different unit is not read as that unit's number. */
  lemma ReadNumberOtherUnit(n: nat, unit: char, other: char, rest: string)
    requires !IsDigit(unit) && unit != other
    ensures ReadNumber(NatToString(n) + [unit] + rest, other).None?
  {
    var d := NatToString(n);
    var s := d + [unit] + rest;
    assert s == d + ([unit] + rest);
    LeadingDigitsOfNumeral(d, [unit] + rest);
  }
}
