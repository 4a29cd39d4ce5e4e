/**
 * ASCII character classes used by the column renamer.
 *
 * Python 3 regular expressions and `str.lower()` are Unicode-aware; this
 * model restricts itself to ASCII. Non-ASCII letters and digits are out of
 * scope: here they are neither word characters nor case-mapped.
 */
module Chars {

  /** The regex class `[A-Z]`. */
  predicate IsUpper(c: char) { 'A' <= c <= 'Z' }

  /** The regex class `[a-z]`. */
  predicate IsLower(c: char) { 'a' <= c <= 'z' }

  /** The regex class `[0-9]`. */
  predicate IsDigit(c: char) { '0' <= c <= '9' }

  /** The regex class `[a-z0-9]`. */
  predicate IsLowerOrDigit(c: char) { IsLower(c) || IsDigit(c) }

  /** The regex class `\w`, restricted to ASCII: `[A-Za-z0-9_]`. */
  predicate IsWordChar(c: char) { IsUpper(c) || IsLower(c) || IsDigit(c) || c == '_' }

  /** True when the string holds no `[A-Z]` character. */
  predicate NoUpper(s: string) { forall i :: 0 <= i < |s| ==> !IsUpper(s[i]) }

  /** `str.lower()` on one ASCII character. */
  function ToLower(c: char): (r: char)
    ensures !IsUpper(r)
    ensures IsUpper(c) ==> IsLower(r) && r as int - 'a' as int == c as int - 'A' as int
    ensures !IsUpper(c) ==> r == c
  {
    if IsUpper(c) then (c as int - 'A' as int + 'a' as int) as char else c
  }

  /** `str.lower()` on a string, character by character. */
  function Lower(s: string): (r: string)
    ensures |r| == |s|
    ensures forall i :: 0 <= i < |s| ==> r[i] == ToLower(s[i])
    ensures NoUpper(r)
  {
    if |s| == 0 then [] else [ToLower(s[0])] + Lower(s[1..])
  }

  /** Lower-casing leaves a string without capitals as it is. */
  lemma LowerOfNoUpper(s: string)
    requires NoUpper(s)
    ensures Lower(s) == s
  {
  }
}
