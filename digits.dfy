/** Decimal digit characters, `parseInt` on digit strings, and small integer helpers. */
module Digits {
  /** A character of the alphabet `'0123456789'` that every draw indexes. */
  predicate IsDigit(c: char) {
    '0' <= c <= '9'
  }

  predicate IsDigits(s: string) {
    forall i :: 0 <= i < |s| ==> IsDigit(s[i])
  }

  /** `Number(c)` for a one-character digit string. */
  function Value(c: char): int {
    c as int - '0' as int
  }

  /** `numbers[d]`: the character at index `d` of `'0123456789'`. */
  function Char(d: int): (c: char)
    requires 0 <= d <= 9
    ensures IsDigit(c) && Value(c) == d
  {
    ('0' as int + d) as char
  }

  /** `parseInt(s)` on a string of decimal digits (leading zeros allowed). */
  function DecimalValue(s: string): nat
    requires IsDigits(s)
  {
    if s == [] then 0 else 10 * DecimalValue(s[..|s| - 1]) + Value(s[|s| - 1])
  }

  function Min(a: int, b: int): int {
    if a <= b then a else b
  }

  function Max(a: int, b: int): int {
    if a >= b then a else b
  }
}
