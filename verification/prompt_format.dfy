/**
 * The reply layout the prompt asks both backends for, one line per level:
 *
 *   CHILD: <text>
 *   TEEN: <text>
 *   EXPERT: <text>
 *
 * and what the tagged-section parser makes of it, and of a reply with a level missing.
 */
module PromptFormat {
  import opened Wrappers
  import opened Text
  import opened Sections

  /** One explanation as the prompt requests it: a non-empty single line, trimmed. */
  predicate IsLine(s: string) {
    s != [] && !IsWhitespace(s[0]) && !IsWhitespace(s[|s| - 1]) && '\n' !in s
  }

  /** `pat` does not occur anywhere in `s`. */
  ghost predicate Lacks(s: string, pat: string) {
    forall j: nat :: !OccursAt(s, pat, j)
  }

  /** The requested layout, filled in. */
  function Formatted(child: string, teen: string, expert: string): string {
    "CHILD: " + child + "\nTEEN: " + teen + "\nEXPERT: " + expert
  }

  /** A reply that skips the teen level: a `CHILD:` line, then an `EXPERT:` line. */
  function WithoutTeen(child: string, expert: string): string {
    "CHILD: " + child + "\nEXPERT: " + expert
  }

  // ---------------------------------------------------------------------------------
  // Facts about occurrences at given positions

  /** No occurrence of `pat` can start at `j` when the character at `j + k` disagrees with `pat[k]`. */
  lemma Mismatch(s: string, pat: string, j: nat, k: nat)
    requires k < |pat| && j + k < |s| && s[j + k] != pat[k]
    ensures !OccursAt(s, pat, j)
  {
    if j + |pat| <= |s| {
      assert s[j..j + |pat|][k] == s[j + k];
    }
  }

  /** Where a piece of the text is known, so is every occurrence inside it. */
  lemma OccursInPiece(s: string, lo: nat, piece: string, i: nat, pat: string)
    requires lo + |piece| <= |s| && s[lo..lo + |piece|] == piece
    requires i + |pat| <= |piece| && piece[i..i + |pat|] == pat
    ensures OccursAt(s, pat, lo + i)
  {
    SliceOfSlice(s, lo, lo + |piece|, i, i + |pat|);
  }

  /** The tags and stop patterns inside the fixed pieces of the layout. */
  lemma TagsInPieces()
    ensures "CHILD: "[0..6] == "CHILD:"
    ensures "\nTEEN: "[0..6] == "\nTEEN:" && "\nTEEN: "[1..6] == "TEEN:"
    ensures "\nEXPERT: "[0..8] == "\nEXPERT:" && "\nEXPERT: "[1..8] == "EXPERT:"
    ensures "TEEN:"[0] !in "CHILD: " && "EXPERT:"[0] !in "CHILD: "
  {
  }

  /** Where a piece of the text is known, so is each of its characters. */
  lemma CharOfPiece(s: string, lo: nat, piece: string, k: nat)
    requires lo + |piece| <= |s| && s[lo..lo + |piece|] == piece && k < |piece|
    ensures s[lo + k] == piece[k]
  {
    assert s[lo..lo + |piece|][k] == s[lo + k];
  }

  /** A trimmed line placed at `lo` starts and ends with characters that are not white space. */
  lemma LineEnds(s: string, lo: nat, line: string)
    requires IsLine(line) && lo + |line| <= |s| && s[lo..lo + |line|] == line
    ensures !IsWhitespace(s[lo]) && !IsWhitespace(s[lo + |line| - 1])
    ensures forall k: nat :: lo <= k < lo + |line| ==> s[k] != '\n'
  {
    CharOfPiece(s, lo, line, 0);
    CharOfPiece(s, lo, line, |line| - 1);
    forall k: nat | lo <= k < lo + |line|
      ensures s[k] != '\n'
    {
      CharOfPiece(s, lo, line, k - lo);
    }
  }

  /** A pattern whose first character is missing from a piece starts nowhere inside it. */
  lemma NoneStartsInPiece(s: string, lo: nat, piece: string, pat: string)
    requires lo + |piece| <= |s| && s[lo..lo + |piece|] == piece
    requires pat != [] && pat[0] !in piece
    ensures forall j: nat :: lo <= j < lo + |piece| ==> !OccursAt(s, pat, j)
  {
    forall j: nat | lo <= j < lo + |piece|
      ensures !OccursAt(s, pat, j)
    {
      CharOfPiece(s, lo, piece, j - lo);
      Mismatch(s, pat, j, 0);
    }
  }

  /** No stop pattern starts inside a run of text free of line feeds. */
  lemma NoStopWithin(text: string, level: Level, a: nat, b: nat)
    requires b <= |text| && forall k: nat :: a <= k < b ==> text[k] != '\n'
    ensures forall k: nat :: a <= k < b ==> !OccursAt(text, Stop(level), k)
  {
    forall k: nat | a <= k < b
      ensures !OccursAt(text, Stop(level), k)
    {
      NoStopAt(text, level, k);
    }
  }

  /**
   * When the leftmost tag of `level` is at `p`, white space runs up to `a`, and the text
   * from `a` to `b` is trimmed and is followed by the stop pattern or the end, then that
   * text is the field.
   */
  lemma FieldOfSegment(text: string, level: Level, p: nat, a: nat, b: nat)
    requires IsLeftmost(text, Tag(level), p)
    requires p + |Tag(level)| <= a < b <= |text|
    requires forall k :: p + |Tag(level)| <= k < a ==> IsWhitespace(text[k])
    requires !IsWhitespace(text[a]) && !IsWhitespace(text[b - 1])
    requires forall k: nat :: a <= k < b ==> !OccursAt(text, Stop(level), k)
    requires b == |text| || OccursAt(text, Stop(level), b)
    ensures Field(text, level) == text[a..b]
  {
    var group := text[a..b];
    assert IsRegexMatch(text, level, Match(p, a, b));
    assert group[0] == text[a] && group[|group| - 1] == text[b - 1];
    TrimOfTrimmed(group);
    FieldOfMatch(text, level, Match(p, a, b));
  }

  // ---------------------------------------------------------------------------------
  // The requested layout

  /** `s` is the requested layout filled with `c`, `t` and `x`, piece by piece. */
  ghost predicate LaidOut(s: string, c: string, t: string, x: string) {
    var n, m := |c|, |t|;
    && |s| == 23 + n + m + |x|
    && s[0..7] == "CHILD: " && s[7..7 + n] == c && s[7 + n..14 + n] == "\nTEEN: "
    && s[14 + n..14 + n + m] == t && s[14 + n + m..23 + n + m] == "\nEXPERT: "
    && s[23 + n + m..|s|] == x
  }

  lemma FormattedLaidOut(c: string, t: string, x: string)
    ensures LaidOut(Formatted(c, t, x), c, t, x)
  {
  }

  lemma ChildOfLaidOut(s: string, c: string, t: string, x: string)
    requires LaidOut(s, c, t, x) && IsLine(c)
    ensures Field(s, Child) == c
  {
    var n := |c|;
    TagsInPieces();
    OccursInPiece(s, 0, "CHILD: ", 0, "CHILD:");
    OccursInPiece(s, 7 + n, "\nTEEN: ", 0, "\nTEEN:");
    CharOfPiece(s, 0, "CHILD: ", 6);
    LineEnds(s, 7, c);
    NoStopWithin(s, Child, 7, 7 + n);
    FieldOfSegment(s, Child, 0, 7, 7 + n);
  }

  /** The leftmost `TEEN:` of the requested layout is the teen tag. */
  lemma TeenTagOfLaidOut(s: string, c: string, t: string, x: string)
    requires LaidOut(s, c, t, x) && Lacks(c, "TEEN:")
    ensures IsLeftmost(s, "TEEN:", 8 + |c|)
  {
    var n := |c|;
    TagsInPieces();
    OccursInPiece(s, 7 + n, "\nTEEN: ", 1, "TEEN:");
    NoneStartsInPiece(s, 0, "CHILD: ", "TEEN:");
    CharOfPiece(s, 7 + n, "\nTEEN: ", 0);
    NoneStartsWithin(s, "TEEN:", 7, 7 + n);
    Mismatch(s, "TEEN:", 7 + n, 0);
  }

  lemma TeenOfLaidOut(s: string, c: string, t: string, x: string)
    requires LaidOut(s, c, t, x) && IsLine(t) && Lacks(c, "TEEN:")
    ensures Field(s, Teen) == t
  {
    var n, m := |c|, |t|;
    TeenTagOfLaidOut(s, c, t, x);
    TagsInPieces();
    OccursInPiece(s, 14 + n + m, "\nEXPERT: ", 0, "\nEXPERT:");
    CharOfPiece(s, 7 + n, "\nTEEN: ", 6);
    LineEnds(s, 14 + n, t);
    NoStopWithin(s, Teen, 14 + n, 14 + n + m);
    FieldOfSegment(s, Teen, 8 + n, 14 + n, 14 + n + m);
  }

  /** No `EXPERT:` starts inside a literal `\nTEEN: `. */
  lemma LiteralTeenLacksExpert(s: string, lo: nat, i: nat)
    requires lo + 7 <= |s| && s[lo..lo + 7] == "\nTEEN: " && i < 7
    ensures !OccursAt(s, "EXPERT:", lo + i)
  {
    CharOfPiece(s, lo, "\nTEEN: ", i);
    if i == 2 || i == 3 {
      CharOfPiece(s, lo, "\nTEEN: ", i + 1);
      Mismatch(s, "EXPERT:", lo + i, 1);
    } else {
      Mismatch(s, "EXPERT:", lo + i, 0);
    }
  }

  /** No `EXPERT:` starts inside a literal `\nTEEN: `. */
  lemma TeenPieceLacksExpert(s: string, lo: nat)
    requires lo + 7 <= |s| && s[lo..lo + 7] == "\nTEEN: "
    ensures forall j: nat :: lo <= j < lo + 7 ==> !OccursAt(s, "EXPERT:", j)
  {
    forall j: nat | lo <= j < lo + 7
      ensures !OccursAt(s, "EXPERT:", j)
    {
      LiteralTeenLacksExpert(s, lo, j - lo);
    }
  }

  /** No `EXPERT:` starts in the child line of the requested layout, or in the `\nTEEN: ` after it. */
  lemma NoExpertBeforeTeenLine(s: string, c: string)
    requires 14 + |c| <= |s| && s[0..7] == "CHILD: " && s[7..7 + |c|] == c
    requires s[7 + |c|..14 + |c|] == "\nTEEN: " && Lacks(c, "EXPERT:")
    ensures forall j: nat :: j < 14 + |c| ==> !OccursAt(s, "EXPERT:", j)
  {
    var n := |c|;
    TagsInPieces();
    NoneStartsInPiece(s, 0, "CHILD: ", "EXPERT:");
    CharOfPiece(s, 7 + n, "\nTEEN: ", 0);
    NoneStartsWithin(s, "EXPERT:", 7, 7 + n);
    TeenPieceLacksExpert(s, 7 + n);
  }

  /** The leftmost `EXPERT:` of the requested layout is the expert tag. */
  lemma ExpertTagOfLaidOut(s: string, c: string, t: string, x: string)
    requires LaidOut(s, c, t, x) && Lacks(c, "EXPERT:") && Lacks(t, "EXPERT:")
    ensures IsLeftmost(s, "EXPERT:", 15 + |c| + |t|)
  {
    var n, m := |c|, |t|;
    NoExpertBeforeTeenLine(s, c);
    TagsInPieces();
    OccursInPiece(s, 14 + n + m, "\nEXPERT: ", 1, "EXPERT:");
    CharOfPiece(s, 14 + n + m, "\nEXPERT: ", 0);
    NoneStartsWithin(s, "EXPERT:", 14 + n, 14 + n + m);
    Mismatch(s, "EXPERT:", 14 + n + m, 0);
  }

  lemma ExpertOfLaidOut(s: string, c: string, t: string, x: string)
    requires LaidOut(s, c, t, x) && IsLine(x) && Lacks(c, "EXPERT:") && Lacks(t, "EXPERT:")
    ensures Field(s, Expert) == x
  {
    var n, m := |c|, |t|;
    ExpertTagOfLaidOut(s, c, t, x);
    CharOfPiece(s, 14 + n + m, "\nEXPERT: ", 8);
    LineEnds(s, 23 + n + m, x);
    NoStopWithin(s, Expert, 23 + n + m, |s|);
    FieldOfSegment(s, Expert, 15 + n + m, 23 + n + m, |s|);
  }

  /**
   * A reply in exactly the layout the prompt asks for, each explanation a trimmed single
   * line that does not mention a later level's tag, is parsed back to the explanations
   * that were written.
   */
  lemma FormatRoundTrip(c: string, t: string, x: string)
    requires IsLine(c) && IsLine(t) && IsLine(x)
    requires Lacks(c, "TEEN:") && Lacks(c, "EXPERT:") && Lacks(t, "EXPERT:")
    ensures Parse(Formatted(c, t, x)) == Explanations(c, t, x)
  {
    var s := Formatted(c, t, x);
    FormattedLaidOut(c, t, x);
    ChildOfLaidOut(s, c, t, x);
    TeenOfLaidOut(s, c, t, x);
    ExpertOfLaidOut(s, c, t, x);
  }

  // ---------------------------------------------------------------------------------
  // A reply without the teen line

  /** `s` is a `CHILD:` line holding `c` followed by an `EXPERT:` line holding `x`. */
  ghost predicate LaidOutWithoutTeen(s: string, c: string, x: string) {
    var n := |c|;
    && |s| == 16 + n + |x|
    && s[0..7] == "CHILD: " && s[7..7 + n] == c && s[7 + n..16 + n] == "\nEXPERT: "
    && s[16 + n..|s|] == x
  }

  lemma WithoutTeenLaidOut(c: string, x: string)
    ensures LaidOutWithoutTeen(WithoutTeen(c, x), c, x)
  {
  }

  lemma WithoutTeenTail(c: string, x: string)
    ensures WithoutTeen(c, x)[7..|WithoutTeen(c, x)|] == c + "\nEXPERT: " + x
  {
    assert WithoutTeen(c, x) == "CHILD: " + (c + "\nEXPERT: " + x);
  }

  /** Neither `TEEN:` nor `\nTEEN:` starts inside a literal `\nEXPERT: `. */
  lemma LiteralExpertLacksTeen(s: string, lo: nat, i: nat)
    requires lo + 9 <= |s| && s[lo..lo + 9] == "\nEXPERT: " && i < 9
    ensures !OccursAt(s, "TEEN:", lo + i)
    ensures !OccursAt(s, "\nTEEN:", lo + i)
  {
    CharOfPiece(s, lo, "\nEXPERT: ", i);
    if i == 6 {
      CharOfPiece(s, lo, "\nEXPERT: ", i + 1);
      Mismatch(s, "TEEN:", lo + i, 1);
    } else {
      Mismatch(s, "TEEN:", lo + i, 0);
    }
    if i == 0 {
      CharOfPiece(s, lo, "\nEXPERT: ", 1);
      Mismatch(s, "\nTEEN:", lo, 1);
    } else {
      Mismatch(s, "\nTEEN:", lo + i, 0);
    }
  }

  lemma TeenAbsentWithoutTeen(s: string, c: string, x: string)
    requires LaidOutWithoutTeen(s, c, x) && Lacks(c, "TEEN:") && Lacks(x, "TEEN:")
    ensures TagAbsent(s, Teen)
  {
    var n := |c|;
    CharOfPiece(s, 7 + n, "\nEXPERT: ", 0);
    NoneStartsWithin(s, "TEEN:", 7, 7 + n);
    NoneStartsWithin(s, "TEEN:", 16 + n, |s|);
    TagsInPieces();
    NoneStartsInPiece(s, 0, "CHILD: ", "TEEN:");
    forall j: nat | 7 + n <= j < 16 + n
      ensures !OccursAt(s, "TEEN:", j)
    {
      LiteralExpertLacksTeen(s, 7 + n, j - (7 + n));
    }
  }

  /** Without a teen line, no `\nTEEN:` follows the `CHILD:` tag. */
  lemma NoChildStopWithoutTeen(s: string, c: string, x: string)
    requires LaidOutWithoutTeen(s, c, x) && IsLine(c) && IsLine(x)
    ensures forall k: nat :: 7 <= k < |s| ==> !OccursAt(s, Stop(Child), k)
  {
    var n := |c|;
    LineEnds(s, 7, c);
    LineEnds(s, 16 + n, x);
    NoStopWithin(s, Child, 7, 7 + n);
    NoStopWithin(s, Child, 16 + n, |s|);
    forall k: nat | 7 + n <= k < 16 + n
      ensures !OccursAt(s, Stop(Child), k)
    {
      LiteralExpertLacksTeen(s, 7 + n, k - (7 + n));
    }
  }

  lemma ChildWithoutTeen(s: string, c: string, x: string)
    requires LaidOutWithoutTeen(s, c, x) && IsLine(c) && IsLine(x)
    ensures Field(s, Child) == s[7..|s|]
  {
    var n := |c|;
    TagsInPieces();
    OccursInPiece(s, 0, "CHILD: ", 0, "CHILD:");
    CharOfPiece(s, 0, "CHILD: ", 6);
    LineEnds(s, 7, c);
    LineEnds(s, 16 + n, x);
    NoChildStopWithoutTeen(s, c, x);
    FieldOfSegment(s, Child, 0, 7, |s|);
  }

  /** The leftmost `EXPERT:` of a reply without a teen line is the expert tag. */
  lemma ExpertTagWithoutTeen(s: string, c: string, x: string)
    requires LaidOutWithoutTeen(s, c, x) && Lacks(c, "EXPERT:")
    ensures IsLeftmost(s, "EXPERT:", 8 + |c|)
  {
    var n := |c|;
    TagsInPieces();
    OccursInPiece(s, 7 + n, "\nEXPERT: ", 1, "EXPERT:");
    NoneStartsInPiece(s, 0, "CHILD: ", "EXPERT:");
    CharOfPiece(s, 7 + n, "\nEXPERT: ", 0);
    NoneStartsWithin(s, "EXPERT:", 7, 7 + n);
    Mismatch(s, "EXPERT:", 7 + n, 0);
  }

  lemma ExpertWithoutTeen(s: string, c: string, x: string)
    requires LaidOutWithoutTeen(s, c, x) && IsLine(x) && Lacks(c, "EXPERT:")
    ensures Field(s, Expert) == x
  {
    var n := |c|;
    ExpertTagWithoutTeen(s, c, x);
    CharOfPiece(s, 7 + n, "\nEXPERT: ", 8);
    LineEnds(s, 16 + n, x);
    NoStopWithin(s, Expert, 16 + n, |s|);
    FieldOfSegment(s, Expert, 8 + n, 16 + n, |s|);
  }

  /**
   * A reply with the teen line missing. The teen field is its placeholder, but the child
   * capture, which stops only at a `\nTEEN:` or the end of the text, runs on through the
   * whole expert line; the expert field is still the expert line alone.
   */
  lemma MissingTeenSwallowsExpert(c: string, x: string)
    requires IsLine(c) && IsLine(x)
    requires Lacks(c, "TEEN:") && Lacks(c, "EXPERT:") && Lacks(x, "TEEN:")
    ensures Parse(WithoutTeen(c, x)) == Explanations(c + "\nEXPERT: " + x, Placeholder(Teen), x)
  {
    var s := WithoutTeen(c, x);
    WithoutTeenLaidOut(c, x);
    ChildWithoutTeen(s, c, x);
    WithoutTeenTail(c, x);
    TeenAbsentWithoutTeen(s, c, x);
    AbsentIsBlank(s, Teen);
    ExpertWithoutTeen(s, c, x);
  }
}
