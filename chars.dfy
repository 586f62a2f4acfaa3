/**
 * The ASCII character classes the identifier grammars are written with.
 * `[0-9]` stands for the grammars' `\d`: Python's `\d` on a `str` pattern also
 * matches non-ASCII decimal digits, which this model does not admit.
 */
module Chars {

  /** `[0-9]` */
  predicate IsDigit(c: char) {
    '0' <= c <= '9'
  }

  /** `[A-Za-z0-9]` */
  predicate IsAlnum(c: char) {
    'A' <= c <= 'Z' || 'a' <= c <= 'z' || IsDigit(c)
  }

  predicate AllDigits(s: string) {
    forall i :: 0 <= i < |s| ==> IsDigit(s[i])
  }

  predicate AllAlnum(s: string) {
    forall i :: 0 <= i < |s| ==> IsAlnum(s[i])
  }

  /** `[0-9]+` */
  predicate DigitWord(s: string) {
    |s| > 0 && AllDigits(s)
  }

  /** `[A-Za-z0-9]+` */
  predicate AlnumWord(s: string) {
    |s| > 0 && AllAlnum(s)
  }
}
