/**
 * Characters and upper-casing shared by the name parser and the template
 * store: Python's whitespace set, and `str.upper` restricted to ASCII.
 */
module Text {

  /** The characters Python's `str.split()` and `str.strip()` treat as whitespace. */
  predicate IsSpace(c: char) {
    || c == ' '
    || '\t' <= c <= '\r'
    || '\U{1C}' <= c <= '\U{1F}'
    || c == '\U{85}' || c == '\U{A0}' || c == '\U{1680}'
    || '\U{2000}' <= c <= '\U{200A}'
    || c == '\U{2028}' || c == '\U{2029}' || c == '\U{202F}' || c == '\U{205F}' || c == '\U{3000}'
  }

  predicate IsLower(c: char) { 'a' <= c <= 'z' }

  predicate IsLetter(c: char) { 'A' <= c <= 'Z' || IsLower(c) }

  function UpperChar(c: char): (u: char)
    ensures !IsLower(u)
    ensures IsLower(c) ==> 'A' <= u <= 'Z' && u as int - 'A' as int == c as int - 'a' as int
    ensures !IsLower(c) ==> u == c
    ensures IsLetter(c) <==> IsLetter(u)
    ensures IsSpace(c) <==> IsSpace(u)
    ensures c == '.' <==> u == '.'
  {
    if IsLower(c) then (c as int - 32) as char else c
  }

  /** Contains no lower-case letter. */
  predicate IsUpperCase(s: string) {
    forall k :: 0 <= k < |s| ==> !IsLower(s[k])
  }

  /** Upper-casing, letter by letter. */
  function Upper(s: string): (u: string)
    ensures |u| == |s| && IsUpperCase(u)
    ensures forall k :: 0 <= k < |s| ==> u[k] == UpperChar(s[k])
  {
    seq(|s|, k requires 0 <= k < |s| => UpperChar(s[k]))
  }

  /** Upper-casing what is already upper-case changes nothing. */
  lemma UpperKeepsUpper(s: string)
    requires IsUpperCase(s)
    ensures Upper(s) == s
  {
  }

  /** Upper-casing twice is upper-casing once. */
  lemma UpperIdempotent(s: string)
    ensures Upper(Upper(s)) == Upper(s)
  {
    UpperKeepsUpper(Upper(s));
  }
}
