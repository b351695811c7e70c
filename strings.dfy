/**
 * Text operations the table page object relies on: Python's `str.lower()`,
 * the substring test `w in s`, and the whole-word regular-expression search
 * `re.search(r"\bw\b", s)`.
 *
 * Characters are restricted to ASCII for case mapping and for the regular
 * expression's word characters.
 */
module Strings {

  predicate IsUpper(c: char) {
    'A' <= c <= 'Z'
  }

  /** A string is lower-case when it holds no upper-case letter. */
  predicate IsLowerCase(s: string) {
    forall i :: 0 <= i < |s| ==> !IsUpper(s[i])
  }

  function LowerChar(c: char): (r: char)
    ensures !IsUpper(r)
    ensures !IsUpper(c) ==> r == c
    ensures IsUpper(c) ==> r as int == c as int + 32
  {
    if IsUpper(c) then (c as int + 32) as char else c
  }

  /** Python's `s.lower()` on ASCII text. */
  function Lower(s: string): (r: string)
    ensures |r| == |s|
    ensures IsLowerCase(r)
    ensures forall i :: 0 <= i < |s| ==> r[i] == LowerChar(s[i])
  {
    seq(|s|, i requires 0 <= i < |s| => LowerChar(s[i]))
  }

  /** Lower-casing leaves lower-case text alone. */
  lemma LowerOfLowerCase(s: string)
    requires IsLowerCase(s)
    ensures Lower(s) == s
  {
    assert forall i :: 0 <= i < |s| ==> Lower(s)[i] == s[i];
  }

  /** Lower-casing twice is lower-casing once. */
  lemma LowerIdempotent(s: string)
    ensures Lower(Lower(s)) == Lower(s)
  {
    LowerOfLowerCase(Lower(s));
  }

  /** `w` occurs in `s` starting at index `i`. */
  predicate OccursAt(s: string, w: string, i: nat) {
    i + |w| <= |s| && s[i..i + |w|] == w
  }

  /** Python's `w in s` for strings: the empty string occurs in every string. */
  predicate Contains(s: string, w: string)
    ensures Contains(s, w) ==> |w| <= |s|
    ensures |w| == 0 ==> Contains(s, w)
  {
    assert |w| == 0 ==> OccursAt(s, w, 0);
    exists i: nat | i <= |s| :: OccursAt(s, w, i)
  }

  /** The regular expression class `\w` (ASCII). */
  predicate IsWordChar(c: char) {
    'a' <= c <= 'z' || 'A' <= c <= 'Z' || '0' <= c <= '9' || c == '_'
  }

  /**
   * `w` occurs at `i` with a word boundary on each side: for a `w` that starts
   * and ends with word characters this is a match of `\bw\b` at `i`.
   */
  predicate WordAt(s: string, w: string, i: nat) {
    && OccursAt(s, w, i)
    && (i == 0 || !IsWordChar(s[i - 1]))
    && (i + |w| == |s| || !IsWordChar(s[i + |w|]))
  }

  /** `re.search(r"\bw\b", s)` finds a match; the whole-word test is stricter than the substring test. */
  predicate HasWord(s: string, w: string)
    ensures HasWord(s, w) ==> Contains(s, w)
  {
    exists i: nat | i <= |s| :: WordAt(s, w, i)
  }

  /** A string contains itself, and holds itself as a whole word. */
  lemma SelfIsWord(w: string)
    ensures Contains(w, w) && HasWord(w, w)
  {
    assert w[0..|w|] == w;
    assert WordAt(w, w, 0);
  }
}
