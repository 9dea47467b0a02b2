/** Character classes and case mapping used by the game, restricted to ASCII.
    Python's str.lower, str.isalpha and str.strip follow Unicode; here only the
    ASCII part of those tables is modelled. */
module Ascii {

  predicate IsUpper(c: char) { 'A' <= c <= 'Z' }

  predicate IsLower(c: char) { 'a' <= c <= 'z' }

  /** str.isalpha on a single ASCII character. */
  predicate IsAlpha(c: char) { IsUpper(c) || IsLower(c) }

  /** str.isspace on the ASCII range: tab, line feed, vertical tab, form feed,
      carriage return, the four information separators 0x1C-0x1F, and space. */
  predicate IsSpace(c: char) { 9 <= c as int <= 13 || 28 <= c as int <= 32 }

  /** str.lower on one character. */
  function LowerChar(c: char): (r: char)
    ensures IsUpper(c) ==> IsLower(r) && r as int == c as int + 32
    ensures !IsUpper(c) ==> r == c
    ensures IsAlpha(r) <==> IsAlpha(c)
    ensures !IsUpper(r)
  {
    if IsUpper(c) then (c as int + 32) as char else c
  }

  /** str.lower on a string: character by character. */
  function Lower(s: string): string
  {
    seq(|s|, i requires 0 <= i < |s| => LowerChar(s[i]))
  }

  /** Lowering twice is lowering once. */
  lemma LowerIdempotent(s: string)
    ensures Lower(Lower(s)) == Lower(s)
    ensures forall i :: 0 <= i < |s| ==> !IsUpper(Lower(s)[i])
  {
  }

  /** str.isalpha on a whole string: non-empty and every character a letter. */
  predicate IsAlphaString(s: string)
  {
    |s| > 0 && forall i :: 0 <= i < |s| ==> IsAlpha(s[i])
  }

  /** Number of whitespace characters at the front of s. */
  function LeadingSpaces(s: string): (n: nat)
    ensures n <= |s|
    ensures forall j :: 0 <= j < n ==> IsSpace(s[j])
    ensures n < |s| ==> !IsSpace(s[n])
  {
    if |s| == 0 || !IsSpace(s[0]) then 0 else 1 + LeadingSpaces(s[1..])
  }

  /** Number of whitespace characters at the back of s. */
  function TrailingSpaces(s: string): (n: nat)
    ensures n <= |s|
    ensures forall j :: |s| - n <= j < |s| ==> IsSpace(s[j])
    ensures n < |s| ==> !IsSpace(s[|s| - 1 - n])
  {
    if |s| == 0 || !IsSpace(s[|s| - 1]) then 0 else 1 + TrailingSpaces(s[..|s| - 1])
  }

  /** str.strip(): drop leading, then trailing, whitespace. */
  function Strip(s: string): (r: string)
    ensures |r| <= |s|
    ensures r != [] ==> !IsSpace(r[0]) && !IsSpace(r[|r| - 1])
    ensures var a := LeadingSpaces(s);
              a + |r| <= |s| && r == s[a..a + |r|]
              && forall j :: a + |r| <= j < |s| ==> IsSpace(s[j])
  {
    var a := LeadingSpaces(s);
    var t := s[a..];
    var r := t[..|t| - TrailingSpaces(t)];
    assert r == s[a..a + |r|];
    r
  }

  /** Stripping a string that has no surrounding whitespace leaves it alone. */
  lemma StripNoSpaces(s: string)
    requires s != [] ==> !IsSpace(s[0]) && !IsSpace(s[|s| - 1])
    ensures Strip(s) == s
  {
  }
}
