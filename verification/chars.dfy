/** Character classes of the Rust standard library that the checker relies on. */
module Chars {

  /** `char::is_whitespace`: the Unicode White_Space property. */
  predicate IsWhitespace(c: char)
  {
    || ('\U{0009}' <= c <= '\U{000D}')
    || c == ' ' || c == '\U{0085}' || c == '\U{00A0}' || c == '\U{1680}'
    || ('\U{2000}' <= c <= '\U{200A}')
    || c == '\U{2028}' || c == '\U{2029}' || c == '\U{202F}' || c == '\U{205F}' || c == '\U{3000}'
  }

  /** `char::is_ascii_punctuation`: the 32 printable ASCII symbols. */
  predicate IsAsciiPunctuation(c: char)
  {
    ('!' <= c <= '/') || (':' <= c <= '@') || ('[' <= c <= '`') || ('{' <= c <= '~')
  }

  predicate IsAsciiDigit(c: char)
  {
    '0' <= c <= '9'
  }

  /** `char::is_ascii_alphabetic` */
  predicate IsAsciiAlphabetic(c: char)
  {
    ('a' <= c <= 'z') || ('A' <= c <= 'Z')
  }

  /** `char::is_ascii_alphanumeric` */
  predicate IsAsciiAlphanumeric(c: char)
  {
    IsAsciiDigit(c) || IsAsciiAlphabetic(c)
  }

  /** `char::is_numeric`, restricted to the ASCII digits. */
  predicate IsNumeric(c: char)
  {
    IsAsciiDigit(c)
  }

  /** The sentence punctuation `！？「」。` that the aligners skip and the resolver removes. */
  predicate IsSentencePunctuation(c: char)
  {
    c == '！' || c == '？' || c == '「' || c == '」' || c == '。'
  }

  /** The characters a sentence alignment passes over without consuming a syllable. */
  predicate IsSkipped(c: char)
  {
    IsWhitespace(c) || IsAsciiPunctuation(c) || IsSentencePunctuation(c)
  }
}
