/** Decimal text of integers: Python's `str(n)` and the decoding that inverts it. */
module Numerals {
  import opened Wrappers

  predicate IsDigit(c: char) {
    '0' <= c <= '9'
  }

  predicate AllDigits(s: string) {
    forall i :: 0 <= i < |s| ==> IsDigit(s[i])
  }

  function Digit(d: nat): (c: char)
    requires d < 10
    ensures IsDigit(c)
  {
    ('0' as int + d) as char
  }

  function DigitValue(c: char): (d: nat)
    requires IsDigit(c)
    ensures d < 10
  {
    c as int - '0' as int
  }

  /** `str(n)` for `n >= 0`: decimal digits without leading zeros. */
  function NatToString(n: nat): (s: string)
    ensures |s| >= 1 && AllDigits(s)
    ensures s[0] == '0' ==> n == 0
    ensures n >= 10 ==> |s| >= 2
  {
    if n < 10 then [Digit(n)] else NatToString(n / 10) + [Digit(n % 10)]
  }

  /** Python's `str(n)` for any integer: a minus sign before the digits of a negative value. */
  function IntToString(n: int): string {
    if n < 0 then "-" + NatToString(-n) else NatToString(n)
  }

  /** The value of a string of decimal digits. */
  function NatValue(s: string): nat
    requires AllDigits(s)
  {
    if s == [] then 0 else NatValue(s[..|s| - 1]) * 10 + DigitValue(s[|s| - 1])
  }

  /** The integer denoted by an optional `-` followed by at least one digit, if `s` has that shape. */
  function IntValue(s: string): Option<int> {
    if |s| >= 2 && s[0] == '-' && AllDigits(s[1..]) then Some(-(NatValue(s[1..]) as int))
    else if |s| >= 1 && AllDigits(s) then Some(NatValue(s))
    else None
  }

  lemma {:induction false} NatValueOfNatToString(n: nat)
    ensures NatValue(NatToString(n)) == n
  {
    if n >= 10 {
      var s := NatToString(n);
      NatValueOfNatToString(n / 10);
      assert s[..|s| - 1] == NatToString(n / 10);
      assert DigitValue(s[|s| - 1]) == n % 10;
    }
  }

  /** `str` loses nothing: decoding the text of `n` gives back `n`. */
  lemma IntValueOfIntToString(n: int)
    ensures IntValue(IntToString(n)) == Some(n)
  {
    if n < 0 {
      NegativeValue(-n);
    } else {
      NatValueOfNatToString(n);
    }
  }

  lemma NegativeValue(m: nat)
    requires m > 0
    ensures IntValue("-" + NatToString(m)) == Some(-(m as int))
  {
    var digits := NatToString(m);
    var s := "-" + digits;
    assert s[0] == '-' && s[1..] == digits;
    NatValueOfNatToString(m);
  }

  /** `str(n) == '0'` holds for zero and for no other integer. */
  lemma IntToStringIsZero(n: int)
    ensures IntToString(n) == "0" <==> n == 0
  {
    if n < 0 {
      assert IntToString(n)[0] == '-';
    } else if 0 < n < 10 {
      assert IntToString(n) == [Digit(n)];
    }
  }
}
