/** Decimal integer literals: the syntax Python's `int(s)` accepts here, and `str(n)`. */
module Literals {

  predicate IsDigit(c: char) {
    '0' <= c <= '9'
  }

  predicate AllDigits(s: string) {
    forall i :: 0 <= i < |s| ==> IsDigit(s[i])
  }

  /** The accepted syntax: an optional sign followed by one or more digits. */
  predicate IsIntLiteral(s: string) {
    if |s| > 0 && (s[0] == '-' || s[0] == '+') then |s| > 1 && AllDigits(s[1..])
    else |s| > 0 && AllDigits(s)
  }

  /** The value of a digit string, read most significant digit first. */
  function DigitsValue(s: string): nat
    requires AllDigits(s)
  {
    if s == "" then 0 else 10 * DigitsValue(s[..|s| - 1]) + (s[|s| - 1] as int - '0' as int)
  }

  function DigitChar(d: nat): (c: char)
    requires d < 10
  {
    ('0' as int + d) as char
  }

  /** Python's `str(n)` for a natural number: its decimal digits, no leading zero. */
  function NatToString(n: nat): (s: string)
    ensures |s| > 0 && AllDigits(s)
    ensures DigitsValue(s) == n
    ensures |s| > 1 ==> s[0] != '0'
  {
    if n < 10 then [DigitChar(n)] else
      var p := NatToString(n / 10);
      var s := p + [DigitChar(n % 10)];
      assert s[..|s| - 1] == p;
      s
  }

  /** Python's `str(n)`: a minus sign before the digits of a negative number. */
  function IntToString(n: int): (s: string)
    ensures IsIntLiteral(s)
  {
    if n < 0 then "-" + NatToString(-n) else NatToString(n)
  }
}
