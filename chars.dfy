// Character classes of the C locale (ASCII), as used by <cctype> calls
// (isspace, isalnum, isdigit, toupper, tolower, iswspace).
module Chars {
  /** isspace / iswspace in the "C" locale. */
  predicate IsSpace(c: char) {
    c == ' ' || c == '\t' || c == '\n' || c == '\r' || c as int == 0x0B || c as int == 0x0C
  }

  predicate IsDigit(c: char) { '0' <= c <= '9' }

  predicate IsUpper(c: char) { 'A' <= c <= 'Z' }

  predicate IsLower(c: char) { 'a' <= c <= 'z' }

  predicate IsAlnum(c: char) { IsDigit(c) || IsUpper(c) || IsLower(c) }

  /** Numeric value of a decimal digit character. */
  function DigitValue(c: char): (d: nat)
    requires IsDigit(c)
    ensures d < 10
  {
    (c as int) - ('0' as int)
  }

  /** Digit character for a value below 10 ('0' + d). */
  function DigitChar(d: nat): (c: char)
    requires d < 10
    ensures IsDigit(c) && DigitValue(c) == d
  {
    ('0' as int + d) as char
  }

  /** toupper: lower-case letters map to upper case, everything else is kept. */
  function ToUpper(c: char): (u: char)
    ensures IsLower(c) ==> IsUpper(u) && (u as int) == (c as int) - 32
    ensures !IsLower(c) ==> u == c
  {
    if IsLower(c) then ((c as int) - 32) as char else c
  }

  /** tolower: upper-case letters map to lower case, everything else is kept. */
  function ToLower(c: char): (l: char)
    ensures IsUpper(c) ==> IsLower(l) && (l as int) == (c as int) + 32
    ensures !IsUpper(c) ==> l == c
  {
    if IsUpper(c) then ((c as int) + 32) as char else c
  }

  /**
   * The two conversions undo each other on letters, and each leaves no
   * letter of the case it converts from.
   */
  lemma CaseRoundTrip(c: char)
    ensures IsLower(c) ==> ToLower(ToUpper(c)) == c
    ensures IsUpper(c) ==> ToUpper(ToLower(c)) == c
    ensures !IsLower(ToUpper(c)) && !IsUpper(ToLower(c))
    ensures IsAlnum(ToUpper(c)) == IsAlnum(c) && IsAlnum(ToLower(c)) == IsAlnum(c)
  {
  }
}
