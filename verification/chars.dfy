/**
 The character classes the registration form's checks are built from.

 The regular expressions in the form carry no `u` flag, so `\d`, `[A-Z]` and `[a-z]` are
 the ASCII ranges. `\s` and `String.prototype.trim` share one set of characters: the
 ECMAScript WhiteSpace and LineTerminator code points.
 */
module Chars {

  /** A character matched by `\s` and removed by `trim`. */
  predicate IsWs(c: char) {
    || c == '\t' || c == '\n' || c == '\U{B}' || c == '\U{C}' || c == '\r'
    || c == ' ' || c == '\U{A0}' || c == '\U{1680}'
    || ('\U{2000}' <= c <= '\U{200A}')
    || c == '\U{2028}' || c == '\U{2029}' || c == '\U{202F}' || c == '\U{205F}'
    || c == '\U{3000}' || c == '\U{FEFF}'
  }

  /** `\d` without the `u` flag. */
  predicate IsDigit(c: char) {
    '0' <= c <= '9'
  }

  /** `[A-Z]`. */
  predicate IsUpper(c: char) {
    'A' <= c <= 'Z'
  }

  /** `[a-z]`. */
  predicate IsLower(c: char) {
    'a' <= c <= 'z'
  }

  /**
   The members of the class `[! @ # $ % ^ & * _ + { } : < > ?]`. The class is written
   with blanks between the symbols, and those blanks are members too, so the space
   character counts as a special character.
   */
  const SpecialChars: string := "! @#$%^&*_+{}:<>?"

  predicate IsSpecial(c: char) {
    c in SpecialChars
  }

  /** The space character is a member of the special-character class. */
  lemma SpaceIsSpecial()
    ensures IsSpecial(' ') && IsWs(' ')
  {
    assert SpecialChars[1] == ' ';
  }
}
