/**
 * Character classes and small string helpers shared by the models.
 * Python's regular expressions and `str` methods work on Unicode; these
 * helpers restrict the classes to ASCII (see README, "Left out").
 */
module Text {

  /** A byte, as produced by UTF-8 encoding. */
  type byte = x: int | 0 <= x < 256

  predicate IsAsciiLetter(c: char) {
    'a' <= c <= 'z' || 'A' <= c <= 'Z'
  }

  predicate IsAsciiDigit(c: char) {
    '0' <= c <= '9'
  }

  /** The regex class `\w` over ASCII: a letter, a digit or `_`. */
  predicate IsWordChar(c: char) {
    IsAsciiLetter(c) || IsAsciiDigit(c) || c == '_'
  }

  /** ASCII lower-casing; every other character is left alone. */
  function LowerAscii(c: char): (r: char)
    ensures IsAsciiLetter(c) <==> 'a' <= r <= 'z'
    ensures !IsAsciiLetter(c) ==> r == c
  {
    if 'A' <= c <= 'Z' then (c as int + 32) as char else c
  }

  /** `s.startswith(p)`. */
  predicate StartsWith(s: string, p: string) {
    |p| <= |s| && s[..|p|] == p
  }
}
