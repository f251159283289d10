/** Character classes used by the normaliser.

    The original runs under Python 2 on byte strings, so every `char` here
    stands for one byte (code 0 to 255). `str.split()`, `str.strip()` and
    `str.lower()` on byte strings only know about ASCII, and the regular
    expressions are compiled without the LOCALE or UNICODE flags, so `\b`
    sees `[A-Za-z0-9_]` as word characters. */
module Chars {

  /** Python 2 byte-string whitespace: space, tab, newline, vertical tab,
      form feed and carriage return (codes 9 to 13 and 32). */
  predicate IsSpace(c: char) {
    c == ' ' || ('\t' <= c <= '\r')
  }

  predicate NotSpace(c: char) {
    !IsSpace(c)
  }

  predicate IsDigit(c: char) {
    '0' <= c <= '9'
  }

  predicate IsUpper(c: char) {
    'A' <= c <= 'Z'
  }

  predicate IsLetter(c: char) {
    IsUpper(c) || ('a' <= c <= 'z')
  }

  /** The characters `\w` matches in a non-Unicode, non-locale pattern. */
  predicate IsWordChar(c: char) {
    IsLetter(c) || IsDigit(c) || c == '_'
  }

  /** Membership in Python's `string.punctuation`:
      !"#$%&'()*+,-./:;<=>?@[\]^_`{|}~ */
  predicate IsPunct(c: char) {
    ('!' <= c <= '/') || (':' <= c <= '@') || ('[' <= c <= '`') || ('{' <= c <= '~')
  }

  /** The six conversion-artifact bytes the pipeline deletes:
      0xC2, 0xE2, 0xBC, 0xBD, 0xEF and 0xB2. */
  predicate IsArtifact(c: char) {
    c == '\U{C2}' || c == '\U{E2}' || c == '\U{BC}' || c == '\U{BD}' || c == '\U{EF}' || c == '\U{B2}'
  }

  /** `str.lower()` on one byte: only A-Z change. */
  function Lower(c: char): (d: char)
    ensures !IsUpper(d)
    ensures IsSpace(d) <==> IsSpace(c)
    ensures IsWordChar(d) <==> IsWordChar(c)
    ensures !IsUpper(c) ==> d == c
  {
    if IsUpper(c) then (c as int + 32) as char else c
  }
}
