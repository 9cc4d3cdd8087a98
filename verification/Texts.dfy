/** Texts as the source's C code reads them. */
module Texts {

  /** The text as a C string: a null character after its end. */
  function At(s: string, i: nat): char {
    if i < |s| then s[i] else '\0'
  }

  predicate IsDigit(c: char) {
    '0' <= c <= '9'
  }

  predicate AllDigits(s: string) {
    forall i :: 0 <= i < |s| ==> IsDigit(s[i])
  }

  /** The code of a digit character. */
  function DigitChar(c: int): char
    requires 0 <= c < 37
  {
    ((if c > 9 then 'A' as int - 10 else '0' as int) + c) as char
  }

  /** The digits of a number, the most significant first; none for zero. */
  function Digits(v: nat, radix: nat): string
    requires 2 <= radix <= 37
  {
    if v == 0 then "" else Digits(v / radix, radix) + [DigitChar(v % radix)]
  }
}
