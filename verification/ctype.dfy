/**
 * Character classes used by the ddi_strto* parsers (module/spl/spl-generic.c).
 *
 * A C string is modelled as a sequence of characters; every index at or
 * past the end of the sequence reads as the NUL terminator. Only the ASCII
 * classes of isdigit/isalpha/isxdigit/tolower are modelled.
 */
module Ctype {

  const NUL: char := '\0'

  /** The byte at index i of the C string s: NUL at or past the end. */
  function At(s: seq<char>, i: nat): (c: char)
    ensures i < |s| ==> c == s[i]
    ensures i >= |s| ==> c == NUL
  {
    if i < |s| then s[i] else NUL
  }

  predicate IsDigit(c: char) {
    '0' <= c <= '9'
  }

  predicate IsUpper(c: char) {
    'A' <= c <= 'Z'
  }

  predicate IsLower(c: char) {
    'a' <= c <= 'z'
  }

  predicate IsAlpha(c: char) {
    IsUpper(c) || IsLower(c)
  }

  predicate IsXDigit(c: char) {
    IsDigit(c) || 'a' <= c <= 'f' || 'A' <= c <= 'F'
  }

  /** tolower: maps 'A'..'Z' to 'a'..'z' and leaves every other byte alone. */
  function ToLower(c: char): (r: char)
    ensures IsUpper(c) ==> IsLower(r) && r as int - 'a' as int == c as int - 'A' as int
    ensures !IsUpper(c) ==> r == c
  {
    if IsUpper(c) then (c as int - 'A' as int + 'a' as int) as char else c
  }

  /**
   * The digit value the parser gives an alphanumeric byte: c - '0' for a
   * decimal digit, tolower(c) - 'a' + 10 for a letter.
   */
  function DigitValue(c: char): (d: int)
    requires IsDigit(c) || IsAlpha(c)
    ensures 0 <= d <= 35
    ensures IsDigit(c) <==> d <= 9
    ensures IsXDigit(c) <==> d <= 15
  {
    if IsDigit(c) then c as int - '0' as int
    else ToLower(c) as int - 'a' as int + 10
  }

  /** The parser's loop accepts c in base b: an alphanumeric whose value is below b. */
  predicate Accepts(c: char, b: int) {
    (IsDigit(c) || IsAlpha(c)) && DigitValue(c) < b
  }

  /** The character a canonical rendering uses for digit value d (lower-case letters). */
  function DigitChar(d: nat): (c: char)
    requires d < 36
    ensures (IsDigit(c) || IsAlpha(c)) && DigitValue(c) == d
  {
    if d < 10 then ('0' as int + d) as char else ('a' as int + d - 10) as char
  }
}
