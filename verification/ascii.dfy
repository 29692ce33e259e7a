/**
 Character classes and case mappings of Python's `str` methods, restricted to
 the ASCII range. Characters outside ASCII are treated as neither whitespace
 nor letters.
 */
module Ascii {

  /** `str.isspace` on ASCII: space, the controls tab through carriage return,
      and the four information separators 0x1C-0x1F. */
  predicate IsSpace(c: char) {
    c == ' ' || '\t' <= c <= '\r' || '\U{1C}' <= c <= '\U{1F}'
  }

  predicate IsUpper(c: char) {
    'A' <= c <= 'Z'
  }

  predicate IsLower(c: char) {
    'a' <= c <= 'z'
  }

  /** `str.isalpha` on ASCII. */
  predicate IsAlpha(c: char) {
    IsUpper(c) || IsLower(c)
  }

  /** Position of a letter in the alphabet, 0 for `a` and `A`: the letter
      itself, independent of its case. */
  function AlphaIndex(c: char): int
    requires IsAlpha(c)
  {
    if IsUpper(c) then c as int - 'A' as int else c as int - 'a' as int
  }

  /** `str.upper` on a single ASCII character: the upper case of the same
      letter. */
  function Upper(c: char): (r: char)
    ensures IsAlpha(c) ==> IsUpper(r) && AlphaIndex(r) == AlphaIndex(c)
    ensures !IsAlpha(c) ==> r == c
    ensures IsAlpha(r) <==> IsAlpha(c)
    ensures IsSpace(r) <==> IsSpace(c)
  {
    if IsLower(c) then (c as int - 32) as char else c
  }

  /** `str.lower` on a single ASCII character: the lower case of the same
      letter. */
  function Lower(c: char): (r: char)
    ensures IsAlpha(c) ==> IsLower(r) && AlphaIndex(r) == AlphaIndex(c)
    ensures !IsAlpha(c) ==> r == c
    ensures IsAlpha(r) <==> IsAlpha(c)
    ensures IsSpace(r) <==> IsSpace(c)
  {
    if IsUpper(c) then (c as int + 32) as char else c
  }

  /** Upper and lower case are two spellings of the same letter: converting
      to one case and then to the other is the same as converting directly. */
  lemma CaseRoundTrip(c: char)
    ensures Upper(Lower(c)) == Upper(c)
    ensures Lower(Upper(c)) == Lower(c)
    ensures Upper(Upper(c)) == Upper(c)
    ensures Lower(Lower(c)) == Lower(c)
  {
  }
}
