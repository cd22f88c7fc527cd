/**
 Signed 32-bit integers and their decimal text: the engine's range-checked
 int32 parse used on `sizes` tokens, and Python's `str` of a non-negative
 int used when the converter writes the `sizes` line.
 */
module Decimal {
  import opened Results

  const INT32_MIN: int := -0x8000_0000
  const INT32_MAX: int := 0x7FFF_FFFF

  /** A signed 32-bit integer. */
  type int32 = x: int | -0x8000_0000 <= x <= 0x7FFF_FFFF

  predicate IsDigit(c: char) {
    '0' <= c <= '9'
  }

  predicate AllDigits(s: string) {
    forall i :: 0 <= i < |s| ==> IsDigit(s[i])
  }

  function DigitValue(c: char): (d: nat)
    requires IsDigit(c)
    ensures d < 10
  {
    c as int - '0' as int
  }

  function DigitChar(d: nat): (c: char)
    requires d < 10
    ensures IsDigit(c) && DigitValue(c) == d
  {
    (d + '0' as int) as char
  }

  /** The number a string of decimal digits denotes (most significant digit first). */
  function ValueOf(s: string): nat
    requires AllDigits(s)
  {
    if |s| == 0 then 0 else ValueOf(s[..|s| - 1]) * 10 + DigitValue(s[|s| - 1])
  }

  /**
   Decimal text of n without leading zeros, as Python's `str` writes a
   non-negative int.
   */
  function ToDecimal(n: nat): (s: string)
    ensures |s| > 0 && AllDigits(s)
    ensures ValueOf(s) == n
    ensures |s| > 1 ==> s[0] != '0'
  {
    if n < 10 then [DigitChar(n)]
    else
      var front := ToDecimal(n / 10);
      var s := front + [DigitChar(n % 10)];
      assert s[..|s| - 1] == front;
      s
  }

  /** Decimal digits, possibly after one sign. */
  predicate IsNumeral(s: string) {
    (|s| > 0 && AllDigits(s)) || (|s| > 1 && (s[0] == '-' || s[0] == '+') && AllDigits(s[1..]))
  }

  /**
   The engine's int32 parse of one token: an optional sign, then one or more
   decimal digits whose value lies in the int32 range; anything else fails.
   */
  function TryParseInt32(s: string): (r: Option<int32>)
  {
    var negative := |s| > 0 && s[0] == '-';
    var digits := if |s| > 0 && (s[0] == '-' || s[0] == '+') then s[1..] else s;
    if |digits| == 0 || !AllDigits(digits) then None
    else
      var magnitude: int := ValueOf(digits);
      var v := if negative then -magnitude else magnitude;
      if INT32_MIN <= v <= INT32_MAX then Some(v) else None
  }

  /**
   What the token parse accepts: only digits after at most one sign; a digit
   string parses iff its value fits in int32, and then to that value; a minus
   sign before digits parses iff the negated value fits, and then to it.
   */
  lemma TryParseInt32Accepts(s: string)
    ensures TryParseInt32(s).Some? ==> IsNumeral(s)
    ensures |s| > 0 && AllDigits(s) ==>
              (TryParseInt32(s).Some? <==> ValueOf(s) <= INT32_MAX)
              && (TryParseInt32(s).Some? ==> TryParseInt32(s).value == ValueOf(s))
    ensures |s| > 1 && s[0] == '-' && AllDigits(s[1..]) ==>
              (TryParseInt32(s).Some? <==> ValueOf(s[1..]) <= -INT32_MIN)
              && (TryParseInt32(s).Some? ==> TryParseInt32(s).value == -(ValueOf(s[1..]) as int))
  {
  }

  /**
   Printing then parsing: the decimal text of n parses back to n exactly when
   n fits in int32, and fails otherwise.
   */
  lemma ParseToDecimal(n: nat)
    ensures n <= INT32_MAX ==> TryParseInt32(ToDecimal(n)) == Some(n)
    ensures n > INT32_MAX ==> TryParseInt32(ToDecimal(n)).None?
  {
    var s := ToDecimal(n);
    assert s[0] != '-' && s[0] != '+' by {
      assert IsDigit(s[0]);
    }
  }

  /** A minus sign in front of the decimal text of n parses to -n exactly when -n fits in int32. */
  lemma ParseNegatedDecimal(n: nat)
    ensures n <= -INT32_MIN ==> TryParseInt32("-" + ToDecimal(n)) == Some(-(n as int))
    ensures n > -INT32_MIN ==> TryParseInt32("-" + ToDecimal(n)).None?
  {
    assert ("-" + ToDecimal(n))[1..] == ToDecimal(n);
  }
}
