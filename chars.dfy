/** ASCII character classes shared by the request validator and the Identity
    password policy.

    ASP.NET Core Identity's PasswordValidator defines its digit, lower-case,
    upper-case and letter-or-digit tests as ASCII ranges, so those are exact.
    White space is the ASCII subset of .NET's char.IsWhiteSpace (space and
    the control characters TAB..CR). */
module Chars {

  predicate IsDigit(c: char) { '0' <= c <= '9' }

  predicate IsLower(c: char) { 'a' <= c <= 'z' }

  predicate IsUpper(c: char) { 'A' <= c <= 'Z' }

  predicate IsLetterOrDigit(c: char) { IsDigit(c) || IsLower(c) || IsUpper(c) }

  /** Space, TAB, LF, VT, FF and CR. */
  predicate IsWhiteSpace(c: char) { c == ' ' || '\t' <= c <= '\r' }

  /** string.IsNullOrWhiteSpace for a non-null string: empty, or white space only. */
  predicate IsBlank(s: string) {
    forall i :: 0 <= i < |s| ==> IsWhiteSpace(s[i])
  }

  /** ToUpperInvariant restricted to ASCII letters. */
  function ToUpper(c: char): (r: char)
    ensures IsLower(c) ==> IsUpper(r)
    ensures !IsLower(c) ==> r == c
  {
    if IsLower(c) then (c as int - 'a' as int + 'A' as int) as char else c
  }

  function ToUpperString(s: string): (r: string)
    ensures |r| == |s|
    ensures forall i :: 0 <= i < |s| ==> r[i] == ToUpper(s[i])
  {
    seq(|s|, i requires 0 <= i < |s| => ToUpper(s[i]))
  }

  /** A character of a letter or digit class is never white space, so a
      string holding one is not blank. */
  lemma LetterOrDigitNotBlank(s: string, i: int)
    requires 0 <= i < |s| && IsLetterOrDigit(s[i])
    ensures !IsBlank(s)
  {
  }
}
