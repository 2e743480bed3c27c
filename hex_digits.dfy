/** Hexadecimal digit characters, in the forms the codec writes and reads. */
module HexDigits {

  /** A digit `int(_, 16)` accepts: 0-9 and a-f in either case. */
  predicate IsHexDigit(c: char) {
    '0' <= c <= '9' || 'A' <= c <= 'F' || 'a' <= c <= 'f'
  }

  /** A digit as `"{:02X}"` writes it: 0-9 and upper-case A-F. */
  predicate IsUpperHexDigit(c: char) {
    '0' <= c <= '9' || 'A' <= c <= 'F'
  }

  /** The value of a hex digit; it is only ever asked of characters that are digits, and gives 0 for any other. */
  function DigitValue(c: char): (v: nat)
    ensures v < 16
  {
    if '0' <= c <= '9' then c as int - '0' as int
    else if 'A' <= c <= 'F' then c as int - 'A' as int + 10
    else if 'a' <= c <= 'f' then c as int - 'a' as int + 10
    else 0
  }

  /** The upper-case digit for `v`; reading it back gives `v`. */
  function UpperDigit(v: nat): (c: char)
    requires v < 16
    ensures IsUpperHexDigit(c) && DigitValue(c) == v
  {
    if v < 10 then ('0' as int + v) as char else ('A' as int + v - 10) as char
  }

  /** Upper-cases the letters a-f and leaves every other character alone. */
  function UpperHex(c: char): (u: char)
    ensures IsHexDigit(c) ==> IsUpperHexDigit(u) && DigitValue(u) == DigitValue(c)
    ensures !IsHexDigit(c) ==> u == c
  {
    if 'a' <= c <= 'f' then (c as int - 'a' as int + 'A' as int) as char else c
  }

  /** The byte that the two digits at `s[i]` and `s[i + 1]` denote, high digit first. */
  function ByteAt(s: string, i: nat): int
    requires i + 1 < |s|
  {
    16 * DigitValue(s[i]) + DigitValue(s[i + 1])
  }
}
