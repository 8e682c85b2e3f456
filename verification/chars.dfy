/** ASCII character classes used by both the matcher and the token predicate:
    Rust's `char::is_ascii_digit`, `char::is_ascii_alphanumeric`, and the
    `\w` class built from them. */
module CharClass {

  predicate IsAsciiDigit(c: char) {
    '0' <= c <= '9'
  }

  predicate IsAsciiAlphanumeric(c: char) {
    'a' <= c <= 'z' || 'A' <= c <= 'Z' || IsAsciiDigit(c)
  }

  /** `\w`: an ASCII letter, an ASCII digit or an underscore. */
  predicate IsWordChar(c: char) {
    IsAsciiAlphanumeric(c) || c == '_'
  }
}
