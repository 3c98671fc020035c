/**
 * The character classes that the extractor's regular expressions use, read
 * over ASCII: `\d`, `\s`, the case folding of `re.IGNORECASE`, and the
 * `str.strip()` applied to what a pattern captured.
 */
module Chars {

  /** `\d`: a decimal digit. */
  predicate IsDigit(c: char) {
    '0' <= c <= '9'
  }

  /** `\s`: space, tab, line feed, vertical tab, form feed or carriage return. */
  predicate IsSpace(c: char) {
    c == ' ' || c == '\t' || c == '\n' || c == '\U{000B}' || c == '\U{000C}' || c == '\r'
  }

  predicate IsUpper(c: char) {
    'A' <= c <= 'Z'
  }

  predicate IsLower(c: char) {
    'a' <= c <= 'z'
  }

  predicate IsLetter(c: char) {
    IsUpper(c) || IsLower(c)
  }

  /** The lower-case form of an ASCII letter; every other character is its own. */
  function Lower(c: char): (r: char)
    ensures IsUpper(c) ==> IsLower(r) && r as int == c as int + 32
    ensures !IsUpper(c) ==> r == c
  {
    if IsUpper(c) then (c as int + 32) as char else c
  }

  /** The upper-case form of an ASCII letter; every other character is its own. */
  function Upper(c: char): (r: char)
    ensures IsLower(c) ==> IsUpper(r) && r as int == c as int - 32
    ensures !IsLower(c) ==> r == c
  {
    if IsLower(c) then (c as int - 32) as char else c
  }

  /** Two strings that are equal up to the case of their ASCII letters. */
  predicate FoldEq(a: string, b: string) {
    |a| == |b| && forall i :: 0 <= i < |a| ==> Lower(a[i]) == Lower(b[i])
  }

  /** Whether every character of s is whitespace. */
  predicate AllSpace(s: string) {
    forall i :: 0 <= i < |s| ==> IsSpace(s[i])
  }

  /** Drops the leading whitespace of s (the first half of `str.strip()`). */
  function StripStart(s: string): (r: string)
    ensures |r| <= |s| && r == s[|s| - |r|..]
    ensures AllSpace(s[..|s| - |r|])
    ensures r == [] || !IsSpace(r[0])
  {
    if s != [] && IsSpace(s[0]) then StripStart(s[1..]) else s
  }

  /** Drops the trailing whitespace of s (the second half of `str.strip()`). */
  function StripEnd(s: string): (r: string)
    ensures |r| <= |s| && r == s[..|r|]
    ensures AllSpace(s[|r|..])
    ensures r == [] || !IsSpace(r[|r| - 1])
  {
    if s != [] && IsSpace(s[|s| - 1]) then StripEnd(s[..|s| - 1]) else s
  }

  /** s neither begins nor ends with whitespace. */
  predicate Trimmed(s: string) {
    s == [] || (!IsSpace(s[0]) && !IsSpace(s[|s| - 1]))
  }

  /** Python's `str.strip()` with no argument: s without its leading and
      trailing whitespace. */
  function Strip(s: string): (r: string)
    ensures |r| <= |s| && Trimmed(r)
  {
    StripEnd(StripStart(s))
  }

  /** Strip takes the piece of s that starts at k and removes only whitespace
      around it. */
  lemma StripSpec(s: string) returns (k: nat)
    ensures var r := Strip(s);
      k + |r| <= |s| && r == s[k..k + |r|] && AllSpace(s[..k]) && AllSpace(s[k + |r|..])
  {
    var a := StripStart(s);
    k := |s| - |a|;
    Middle(s, k, a, Strip(s));
  }

  /** A prefix of a suffix of s, cut off by whitespace on both sides, is a
      middle piece of s with whitespace around it. */
  lemma Middle(s: string, k: nat, a: string, r: string)
    requires k <= |s| && a == s[k..] && AllSpace(s[..k])
    requires |r| <= |a| && r == a[..|r|] && AllSpace(a[|r|..])
    ensures r == s[k..k + |r|] && AllSpace(s[k + |r|..])
  {
    assert a[|r|..] == s[k + |r|..];
  }

  /** A string that is empty or begins and ends with a non-whitespace character
      is left unchanged by `strip()`. */
  lemma StripUnchanged(s: string)
    requires s == [] || (!IsSpace(s[0]) && !IsSpace(s[|s| - 1]))
    ensures Strip(s) == s
  {
  }

  /** `strip()` empties a string exactly when it is all whitespace. */
  lemma StripEmptyIff(s: string)
    ensures Strip(s) == [] <==> AllSpace(s)
  {
    var a := StripStart(s);
    if Strip(s) == [] {
      assert s == s[..|s| - |a|] + a;
      assert AllSpace(a[0..]);
    }
    assert a != [] ==> a[0] == s[|s| - |a|];
  }
}
