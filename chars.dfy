/** Character classes used by Python's `re` module and `str` methods on
    Unicode text: `\s`, `\w`, `\d`, and the case folding applied under
    `re.IGNORECASE`. */
module CharClass {

  /** Python's `\s` on `str` patterns and the set `str.strip()` removes:
      exactly the characters for which `str.isspace()` holds. */
  predicate IsSpace(c: char) {
    var k := c as int;
    (9 <= k <= 13) || (0x1C <= k <= 0x20) || k == 0x85 || k == 0xA0 ||
    k == 0x1680 || (0x2000 <= k <= 0x200A) || k == 0x2028 || k == 0x2029 ||
    k == 0x202F || k == 0x205F || k == 0x3000
  }

  /** Python's `\d` on `str` patterns (decimal digits): the ASCII digits and the
      decimal digit blocks of the Arabic, Devanagari and full-width forms. */
  predicate IsDigit(c: char) {
    var k := c as int;
    (0x30 <= k <= 0x39) || (0x660 <= k <= 0x669) || (0x6F0 <= k <= 0x6F9) ||
    (0x966 <= k <= 0x96F) || (0xFF10 <= k <= 0xFF19)
  }

  predicate IsAsciiUpper(c: char) { 'A' <= c <= 'Z' }

  predicate IsAsciiLower(c: char) { 'a' <= c <= 'z' }

  /** Letters and other alphanumerics (`str.isalnum()`) of the Latin, Greek and
      Cyrillic scripts, together with the superscript and fraction digits of
      Latin-1 and the Kelvin sign. */
  predicate IsAlnumLetter(c: char) {
    var k := c as int;
    IsAsciiUpper(c) || IsAsciiLower(c) ||
    k == 0xAA || k == 0xB2 || k == 0xB3 || k == 0xB5 || k == 0xB9 || k == 0xBA ||
    (0xBC <= k <= 0xBE) || (0xC0 <= k <= 0xD6) || (0xD8 <= k <= 0xF6) ||
    (0xF8 <= k <= 0x2AF) ||
    (0x370 <= k <= 0x373) || k == 0x376 || k == 0x377 || (0x37A <= k <= 0x37D) ||
    k == 0x37F || k == 0x386 || (0x388 <= k <= 0x38A) || k == 0x38C ||
    (0x38E <= k <= 0x3A1) || (0x3A3 <= k <= 0x3F5) || (0x3F7 <= k <= 0x481) ||
    (0x48A <= k <= 0x52F) || k == 0x212A
  }

  /** Python's `\w` on `str` patterns: alphanumerics and the underscore. */
  predicate IsWord(c: char) {
    IsDigit(c) || IsAlnumLetter(c) || c == '_'
  }

  /** The punctuation marks of the class `[,.;:!?]`. */
  predicate IsPunct(c: char) {
    c == ',' || c == '.' || c == ';' || c == ':' || c == '!' || c == '?'
  }

  /** Case folding as `re.IGNORECASE` applies it to the letters that occur in
      the patterns of the output cleaner: ASCII letters, plus the characters the
      `re` module treats as case variants of them (dotted capital I and dotless
      small i of `i`, the Kelvin sign of `k`, the long s of `s`, and the micro
      sign and capital mu of the Greek small mu). */
  function Fold(c: char): (f: char)
    ensures IsAsciiUpper(c) ==> f as int == c as int + 32
    ensures IsAsciiLower(c) ==> f == c
  {
    var k := c as int;
    if IsAsciiUpper(c) then (k + 32) as char
    else if k == 0x130 || k == 0x131 then 'i'
    else if k == 0x212A then 'k'
    else if k == 0x17F then 's'
    else if k == 0xB5 || k == 0x39C then 'μ'
    else c
  }

  /** A pattern letter of the output cleaner's case-insensitive patterns. */
  predicate IsPatternLetter(c: char) {
    IsAsciiLower(c) || IsAsciiUpper(c) || c == 'μ'
  }

  /** Any character that matches a pattern letter case-insensitively is a word
      character, so a case-insensitive match that starts with a letter starts
      with a word character. */
  lemma FoldedLetterIsWord(c: char, p: char)
    requires IsPatternLetter(p) && Fold(c) == Fold(p)
    ensures IsWord(c)
  {
  }

  lemma SpaceIsNotWord(c: char)
    requires IsSpace(c)
    ensures !IsWord(c) && !IsPunct(c)
  {
  }
}
