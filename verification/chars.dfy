/** Character classification used by Python's `lower()`, `title()` and `strip()`.

    Cased letters are the ASCII letters, the Latin-1 letters and the Greek mu pair
    that the micro sign upper-cases into:
    - upper case: A..Z, U+00C0..U+00DE except the multiplication sign, and capital mu
      (U+039C);
    - lower case: a..z, the ordinal indicators U+00AA and U+00BA, the micro sign
      (U+00B5), U+00DF..U+00FF except the division sign, and small mu (U+03BC).
    Upper and lower case differ by 0x20 in the ASCII and Latin-1 ranges. The micro
    sign and small mu upper-case to capital mu, which lower-cases to small mu. The
    ordinal indicators, sharp s (U+00DF) and y with diaeresis (U+00FF) have no upper
    case in this alphabet, so they upper-case to themselves. */
module Chars {

  const MicroSign: char := '\U{00B5}'
  const CapitalMu: char := '\U{039C}'
  const SmallMu: char := '\U{03BC}'

  predicate IsUpper(c: char) {
    ('A' <= c <= 'Z') || ('\U{00C0}' <= c <= '\U{00DE}' && c != '\U{00D7}') || c == CapitalMu
  }

  predicate IsLower(c: char) {
    ('a' <= c <= 'z') || c == '\U{00AA}' || c == MicroSign || c == '\U{00BA}'
    || ('\U{00DF}' <= c <= '\U{00FF}' && c != '\U{00F7}') || c == SmallMu
  }

  /** Python's notion of a cased character, restricted to the model's alphabet. */
  predicate IsCased(c: char) {
    IsUpper(c) || IsLower(c)
  }

  predicate IsAsciiUpper(c: char) {
    'A' <= c <= 'Z'
  }

  function Lower(c: char): (r: char)
    ensures !IsUpper(r)
    ensures IsCased(r) == IsCased(c)
    ensures !IsUpper(c) ==> r == c
    ensures c == CapitalMu ==> r == SmallMu
    ensures IsUpper(c) && c != CapitalMu ==> r as int == c as int + 0x20
  {
    if c == CapitalMu then SmallMu
    else if IsUpper(c) then (c as int + 0x20) as char
    else c
  }

  /** The lower-case letters that have an upper case in the alphabet. */
  predicate HasUpper(c: char) {
    ('a' <= c <= 'z') || ('\U{00E0}' <= c <= '\U{00FE}' && c != '\U{00F7}')
    || c == MicroSign || c == SmallMu
  }

  function Upper(c: char): (r: char)
    ensures IsCased(r) == IsCased(c)
    ensures !IsLower(c) ==> r == c
    ensures HasUpper(c) ==> IsLower(c) && IsUpper(r)
    ensures IsLower(c) && !HasUpper(c) ==> r == c
    ensures c == MicroSign || c == SmallMu ==> r == CapitalMu
    ensures HasUpper(c) && c != MicroSign && c != SmallMu ==> r as int == c as int - 0x20
  {
    if c == MicroSign || c == SmallMu then CapitalMu
    else if HasUpper(c) then (c as int - 0x20) as char
    else c
  }

  /** Python's `str.isspace()` characters. */
  predicate IsSpace(c: char) {
    c == ' ' || ('\t' <= c <= '\r') || ('\U{001C}' <= c <= '\U{001F}')
    || c == '\U{0085}' || c == '\U{00A0}' || c == '\U{1680}'
    || ('\U{2000}' <= c <= '\U{200A}') || c == '\U{2028}' || c == '\U{2029}'
    || c == '\U{202F}' || c == '\U{205F}' || c == '\U{3000}'
  }

  predicate IsDigit(c: char) {
    '0' <= c <= '9'
  }
}
