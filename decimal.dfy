/**
 * Base-10 rendering and parsing of integers, as Java's `%d` / `String.valueOf`
 * print them and `Long.parseLong` reads them back (ASCII digits only).
 */
module Decimal {
  import opened Wrappers
  import opened JavaInts

  predicate IsDigit(c: char) { '0' <= c <= '9' }

  predicate AllDigits(s: string) { forall i :: 0 <= i < |s| ==> IsDigit(s[i]) }

  function DigitChar(d: int): (c: char)
    requires 0 <= d < 10
    ensures IsDigit(c)
  {
    (48 + d) as char
  }

  /** The decimal digits of `n`, most significant first, without leading zeros. */
  function NatToString(n: nat): (s: string)
    ensures |s| >= 1 && AllDigits(s)
    ensures |s| > 1 ==> s[0] != '0'
  {
    if n < 10 then [DigitChar(n)] else NatToString(n / 10) + [DigitChar(n % 10)]
  }

  /** `%d`: a leading minus sign for negative numbers. */
  function IntToString(x: int): (s: string)
    ensures x >= 0 ==> AllDigits(s)
    ensures x < 0 ==> |s| >= 2 && s[0] == '-' && AllDigits(s[1..])
  {
    if x < 0 then "-" + NatToString(-x) else NatToString(x)
  }

  /** The number a non-empty run of digits denotes. */
  function DigitsValue(s: string): nat
    requires AllDigits(s)
  {
    if s == [] then 0 else DigitsValue(s[..|s| - 1]) * 10 + (s[|s| - 1] as int - 48)
  }

  lemma {:induction false} DigitsValueOfNatToString(n: nat)
    ensures DigitsValue(NatToString(n)) == n
  {
    if n >= 10 {
      var s := NatToString(n);
      assert s[..|s| - 1] == NatToString(n / 10);
      DigitsValueOfNatToString(n / 10);
    }
  }

  /**
   * `Long.parseLong`: an optional sign followed by at least one digit, and the value
   * must fit in a long; anything else is a `NumberFormatException` (here `None`).
   */
  function ParseLong(s: string): (r: Option<int>)
    ensures r.Some? ==> IsLong(r.value)
    ensures r.Some? ==> |s| >= 1 && (IsDigit(s[0]) || s[0] == '+' || s[0] == '-')
    ensures r.Some? && s[0] != '-' ==> r.value >= 0
    ensures |s| == 0 || (|s| == 1 && !IsDigit(s[0])) ==> r.None?
    ensures (exists i :: 1 <= i < |s| && !IsDigit(s[i])) ==> r.None?
  {
    if |s| == 0 then None
    else
      var negative := s[0] == '-';
      var digits := if s[0] == '-' || s[0] == '+' then s[1..] else s;
      if |digits| == 0 || !AllDigits(digits) then None
      else
        var v: int := if negative then 0 - DigitsValue(digits) as int else DigitsValue(digits);
        if IsLong(v) then Some(v) else None
  }

  /** What `%d` prints for a long, `Long.parseLong` reads back. */
  lemma ParseLongOfIntToString(x: int)
    requires IsLong(x)
    ensures ParseLong(IntToString(x)) == Some(x)
  {
    if x < 0 {
      var s := IntToString(x);
      assert s[1..] == NatToString(-x);
      DigitsValueOfNatToString(-x);
    } else {
      DigitsValueOfNatToString(x);
    }
  }
}
