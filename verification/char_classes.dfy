/** The character classes the cleaning regexes and `str.strip()` rely on. */
module CharClasses {

  /** Python's `str.isspace()`, which is also what `\s` matches in a `str` pattern and
      what `str.strip()` removes: the Unicode code points with bidirectional class
      WS, B or S, or general category Zs. */
  predicate IsSpace(c: char) {
    var n := c as int;
    (0x09 <= n <= 0x0D) || (0x1C <= n <= 0x20) || n == 0x85 || n == 0xA0 || n == 0x1680
    || (0x2000 <= n <= 0x200A) || n == 0x2028 || n == 0x2029 || n == 0x202F
    || n == 0x205F || n == 0x3000
  }

  /** `\d`, restricted to the ASCII decimal digits. */
  predicate IsDigit(c: char) {
    '0' <= c <= '9'
  }

  /** `\w`, restricted to ASCII letters, ASCII digits and the underscore. */
  predicate IsWord(c: char) {
    ('a' <= c <= 'z') || ('A' <= c <= 'Z') || IsDigit(c) || c == '_'
  }

  predicate IsNewline(c: char) {
    c == '\n'
  }

  predicate NotNewline(c: char) {
    c != '\n'
  }

  predicate NotSpace(c: char) {
    !IsSpace(c)
  }

  /** What the hyphen pass may delete: the hyphen and whitespace. */
  predicate NotHyphenOrSpace(c: char) {
    c != '-' && !IsSpace(c)
  }

  /** What the number pass may delete: digits and whitespace. */
  predicate NotDigitOrSpace(c: char) {
    !IsDigit(c) && !IsSpace(c)
  }

  /** The characters the whole cleaning keeps, in order: everything that is
      neither whitespace, nor a digit, nor a hyphen. */
  predicate IsContent(c: char) {
    !IsSpace(c) && !IsDigit(c) && c != '-'
  }
}
