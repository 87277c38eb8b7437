/**
 * String primitives the explain route relies on: the white-space class shared by the
 * regular-expression escape `\s` and `String.prototype.trim`, trimming, and the
 * leftmost-occurrence search a regular expression without the `g` flag performs.
 */
module Text {
  import opened Wrappers

  /**
   * ECMAScript WhiteSpace and LineTerminator code points: the set `\s` matches and
   * `trim()` removes.
   */
  predicate IsWhitespace(ch: char) {
    || ch == '\t' || ch == '\n' || ch == '\U{0B}' || ch == '\U{0C}' || ch == '\r'
    || ch == ' ' || ch == '\U{A0}' || ch == '\U{1680}'
    || ('\U{2000}' <= ch <= '\U{200A}')
    || ch == '\U{2028}' || ch == '\U{2029}' || ch == '\U{202F}' || ch == '\U{205F}'
    || ch == '\U{3000}' || ch == '\U{FEFF}'
  }

  /** `pat` occurs in `s` starting at index `i`. */
  predicate OccursAt(s: string, pat: string, i: nat) {
    i + |pat| <= |s| && s[i..i + |pat|] == pat
  }

  /** `p` is the leftmost index at which `pat` occurs in `s`. */
  predicate IsLeftmost(s: string, pat: string, p: nat) {
    OccursAt(s, pat, p) && forall j :: 0 <= j < p ==> !OccursAt(s, pat, j)
  }

  /** The leftmost index at or after `from` where `pat` occurs, if any. */
  function FindFrom(s: string, pat: string, from: nat): (r: Option<nat>)
    ensures r.Some? ==> from <= r.value && OccursAt(s, pat, r.value)
    ensures forall j :: from <= j && (r.None? || j < r.value) ==> !OccursAt(s, pat, j)
    decreases |s| - from
  {
    if |s| < from + |pat| then None
    else if s[from..from + |pat|] == pat then Some(from)
    else FindFrom(s, pat, from + 1)
  }

  /** Length of the maximal run of white space at the start of `s` (what a greedy `\s*` consumes). */
  function LeadingSpace(s: string): (n: nat)
    ensures n <= |s|
    ensures forall i :: 0 <= i < n ==> IsWhitespace(s[i])
    ensures n == |s| || !IsWhitespace(s[n])
  {
    if s == [] || !IsWhitespace(s[0]) then 0 else 1 + LeadingSpace(s[1..])
  }

  /** Length of the maximal run of white space at the end of `s`. */
  function TrailingSpace(s: string): (n: nat)
    ensures n <= |s|
    ensures forall i :: |s| - n <= i < |s| ==> IsWhitespace(s[i])
    ensures n == |s| || !IsWhitespace(s[|s| - n - 1])
  {
    if s == [] || !IsWhitespace(s[|s| - 1]) then 0 else 1 + TrailingSpace(s[..|s| - 1])
  }

  /**
   * `String.prototype.trim`: the slice of `s` left once white space is removed from both
   * ends. It starts where the leading white space ends, everything after it is white space,
   * and, unless empty, it starts and ends with a character that is not white space.
   */
  function Trim(s: string): (r: string)
    ensures LeadingSpace(s) + |r| <= |s| && r == s[LeadingSpace(s)..LeadingSpace(s) + |r|]
    ensures forall i :: LeadingSpace(s) + |r| <= i < |s| ==> IsWhitespace(s[i])
    ensures r == [] <==> forall i :: 0 <= i < |s| ==> IsWhitespace(s[i])
    ensures r != [] ==> !IsWhitespace(r[0]) && !IsWhitespace(r[|r| - 1])
  {
    var t := s[LeadingSpace(s)..];
    t[..|t| - TrailingSpace(t)]
  }

  /** A string with no white space at either end is its own trim. */
  lemma TrimOfTrimmed(s: string)
    requires s != [] && !IsWhitespace(s[0]) && !IsWhitespace(s[|s| - 1])
    ensures Trim(s) == s
  {
    assert LeadingSpace(s) == 0;
  }

  /** Trimming is idempotent. */
  lemma TrimIdempotent(s: string)
    ensures Trim(Trim(s)) == Trim(s)
  {
    if Trim(s) != [] {
      TrimOfTrimmed(Trim(s));
    }
  }

  /** Trimming removes characters and never introduces one. */
  lemma TrimKeepsOut(s: string, ch: char)
    requires ch !in s
    ensures ch !in Trim(s)
  {
  }

  /** A slice of a slice is a slice of the whole. */
  lemma SliceOfSlice(s: string, lo: nat, hi: nat, i: nat, j: nat)
    requires lo <= hi <= |s| && i <= j <= hi - lo
    ensures s[lo..hi][i..j] == s[lo + i..lo + j]
  {
    forall k | 0 <= k < j - i
      ensures s[lo..hi][i..j][k] == s[lo + i..lo + j][k]
    {
      assert s[lo..hi][i..j][k] == s[lo..hi][i + k] == s[lo + i + k];
    }
  }

  /**
   * No occurrence of `pat` starts inside `s[lo..hi]` when the slice itself lacks `pat`
   * and the character just after it does not appear in `pat`.
   */
  lemma NoneStartsWithin(s: string, pat: string, lo: nat, hi: nat)
    requires lo <= hi <= |s|
    requires forall j: nat :: !OccursAt(s[lo..hi], pat, j)
    requires hi < |s| ==> s[hi] !in pat
    ensures forall j: nat :: lo <= j < hi ==> !OccursAt(s, pat, j)
  {
    forall j: nat | lo <= j < hi
      ensures !OccursAt(s, pat, j)
    {
      if j + |pat| <= hi {
        assert !OccursAt(s[lo..hi], pat, j - lo);
        SliceOfSlice(s, lo, hi, j - lo, j - lo + |pat|);
      } else if j + |pat| <= |s| {
        assert s[j..j + |pat|][hi - j] == s[hi];
      }
    }
  }

  /** A string occurs in a concatenation at the point where it was appended. */
  lemma OccursAtJoin(pre: string, x: string)
    ensures OccursAt(pre + x, x, |pre|)
  {
    assert (pre + x)[|pre|..|pre| + |x|] == x;
  }

  /** Appending text keeps every occurrence where it was. */
  lemma OccursExtended(s: string, x: string, p: nat, rest: string)
    requires OccursAt(s, x, p)
    ensures OccursAt(s + rest, x, p)
  {
    assert (s + rest)[p..p + |x|] == s[p..p + |x|];
  }

  /** Two strings with a common suffix appended are equal only when they were equal. */
  lemma SuffixCancels(a: string, b: string, suffix: string)
    requires a + suffix == b + suffix
    ensures a == b
  {
    assert |a| == |b|;
    assert a == (a + suffix)[..|a|];
    assert b == (b + suffix)[..|b|];
  }
}
