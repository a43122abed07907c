/** The platform services the scanner calls but does not define: Unicode
    character classification and the `str::parse::<f64>` parser. They are
    passed in as parameters so that the model makes no claim about them beyond
    what `Sound` states. */
module Primitives {
  import opened Tokens

  datatype Platform = Platform(
    isAlphabetic: char -> bool,
    isNumeric: char -> bool,
    isWhitespace: char -> bool,
    parseF64: seq<char> -> Option<F64>)

  predicate IsAsciiLetter(c: char) {
    ('a' <= c <= 'z') || ('A' <= c <= 'Z')
  }

  predicate IsAsciiDigit(c: char) {
    '0' <= c <= '9'
  }

  /** Rust's `char::is_whitespace` on ASCII: tab, line feed, vertical tab,
      form feed, carriage return and space. */
  predicate IsAsciiWhitespace(c: char) {
    ('\t' <= c <= '\r') || c == ' '
  }

  predicate IsAscii(c: char) {
    (c as int) < 128
  }

  /** The classifications agree with the Unicode tables on the ASCII range;
      above it they are left unconstrained. */
  predicate Sound(p: Platform) {
    forall c: char :: IsAscii(c) ==>
      (p.isAlphabetic(c) <==> IsAsciiLetter(c)) &&
      (p.isNumeric(c) <==> IsAsciiDigit(c)) &&
      (p.isWhitespace(c) <==> IsAsciiWhitespace(c))
  }
}
