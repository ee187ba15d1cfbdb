/** Character classes used by the recognisers. */
module Chars {

  /** `[A-Z]` */
  predicate IsUpper(c: char) {
    'A' <= c <= 'Z'
  }

  /** `\d` (RE2's `\d` is ASCII only) */
  predicate IsDigit(c: char) {
    '0' <= c <= '9'
  }

  /** `\p{L}`, restricted to the Basic Latin and Latin-1 Supplement blocks:
      the ASCII letters plus the Latin-1 letters. */
  predicate IsLetter(c: char) {
    || 'A' <= c <= 'Z'
    || 'a' <= c <= 'z'
    || c == '\U{AA}' || c == '\U{B5}' || c == '\U{BA}'
    || '\U{C0}' <= c <= '\U{D6}'
    || '\U{D8}' <= c <= '\U{F6}'
    || '\U{F8}' <= c <= '\U{FF}'
  }

  lemma UpperIsLetter(c: char)
    requires IsUpper(c)
    ensures IsLetter(c)
  {
  }
}
