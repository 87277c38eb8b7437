/**
 * The tagged-section parser that both backends of the explain route apply to the raw
 * text a model returns. Three regular expressions, each with the `s` flag,
 *
 *   CHILD:\s*(.*?)(?=\nTEEN:|$)      TEEN:\s*(.*?)(?=\nEXPERT:|$)      EXPERT:\s*(.*?)(?=\n|$)
 *
 * are modelled as scans: find the leftmost tag, skip the maximal run of white space
 * (the greedy `\s*` is never backtracked, since the `$` alternative always succeeds
 * eventually), then capture up to the first occurrence of the stop pattern or the end
 * of the text. Each capture is trimmed, and an absent or empty capture becomes that
 * level's fixed placeholder.
 */
module Sections {
  import opened Wrappers
  import opened Text

  datatype Level = Child | Teen | Expert

  /** The record both backends and the template produce. */
  datatype Explanations = Explanations(child: string, teen: string, expert: string)

  function Tag(level: Level): string {
    match level
    case Child => "CHILD:"
    case Teen => "TEEN:"
    case Expert => "EXPERT:"
  }

  /** The lookahead alternative that ends a capture (the other alternative is `$`). */
  function Stop(level: Level): string {
    match level
    case Child => "\nTEEN:"
    case Teen => "\nEXPERT:"
    case Expert => "\n"
  }

  function LevelName(level: Level): string {
    match level
    case Child => "child"
    case Teen => "teen"
    case Expert => "expert"
  }

  /** The sentence a field falls back to; the same text for each level as the route's literals. */
  function Placeholder(level: Level): string {
    "Unable to generate " + LevelName(level) + "-level explanation."
  }

  /** Each placeholder is a single sentence with no white space at either end. */
  lemma PlaceholderShape(level: Level)
    ensures |Placeholder(level)| > 1
    ensures Placeholder(level)[0] == 'U' && Placeholder(level)[|Placeholder(level)| - 1] == '.'
    ensures '\n' !in Placeholder(level)
  {
  }

  /** Where a match lies: the tag's index, and the bounds of capture group 1. */
  datatype Match = Match(tagAt: nat, start: nat, end: nat)

  /** The tag of `level` does not occur in `text`, so its regular expression does not match. */
  ghost predicate TagAbsent(text: string, level: Level) {
    forall j: nat :: !OccursAt(text, Tag(level), j)
  }

  /**
   * The match the regular expression of `level` finds in `text`: the leftmost tag, then
   * the maximal white-space run, then the shortest group followed by the stop pattern
   * or by the end of the text.
   */
  ghost predicate IsRegexMatch(text: string, level: Level, m: Match) {
    && IsLeftmost(text, Tag(level), m.tagAt)
    && m.tagAt + |Tag(level)| <= m.start <= m.end <= |text|
    && (forall k :: m.tagAt + |Tag(level)| <= k < m.start ==> IsWhitespace(text[k]))
    && (m.start == |text| || !IsWhitespace(text[m.start]))
    && (m.end == |text| || OccursAt(text, Stop(level), m.end))
    && (forall k: nat :: m.start <= k < m.end ==> !OccursAt(text, Stop(level), k))
  }

  /** Nothing but white space follows the leftmost tag of `level` (or there is no such tag). */
  ghost predicate Blank(text: string, level: Level) {
    forall p: nat :: IsLeftmost(text, Tag(level), p) ==>
      forall k :: p + |Tag(level)| <= k < |text| ==> IsWhitespace(text[k])
  }

  /** `String.prototype.match` with one of the three regular expressions. */
  function MatchOf(text: string, level: Level): (m: Option<Match>)
    ensures m.None? <==> TagAbsent(text, level)
    ensures m.Some? ==> IsRegexMatch(text, level, m.value)
  {
    match FindFrom(text, Tag(level), 0)
    case None => None
    case Some(p) =>
      var afterTag := p + |Tag(level)|;
      var start := afterTag + LeadingSpace(text[afterTag..]);
      var end := match FindFrom(text, Stop(level), start)
        case Some(e) => e
        case None => |text|;
      Some(Match(p, start, end))
  }

  /** The regular-expression semantics above admit one match at most. */
  lemma RegexMatchUnique(text: string, level: Level, m1: Match, m2: Match)
    requires IsRegexMatch(text, level, m1) && IsRegexMatch(text, level, m2)
    ensures m1 == m2
  {
  }

  /** Every stop pattern begins with a line feed, so none starts at another character. */
  lemma NoStopAt(text: string, level: Level, k: nat)
    requires k < |text| ==> text[k] != '\n'
    ensures !OccursAt(text, Stop(level), k)
  {
    if k + |Stop(level)| <= |text| {
      assert text[k..k + |Stop(level)|][0] == text[k];
      assert Stop(level)[0] == '\n';
    }
  }

  /** With no tag there is no leftmost tag, so the text counts as blank. */
  lemma AbsentIsBlank(text: string, level: Level)
    requires TagAbsent(text, level)
    ensures Blank(text, level)
  {
    forall p: nat
      ensures !IsLeftmost(text, Tag(level), p)
    {
      assert !OccursAt(text, Tag(level), p);
    }
  }

  /** When the group starts with a character, that character is not white space, so the text is not blank. */
  lemma GroupStartsWithText(text: string, level: Level, m: Match)
    requires IsRegexMatch(text, level, m) && m.start < |text|
    ensures Trim(text[m.start..m.end]) != [] && !Blank(text, level)
  {
    NoStopAt(text, level, m.start);
    assert text[m.start..m.end][0] == text[m.start];
    assert IsLeftmost(text, Tag(level), m.tagAt);
  }

  /** When the group starts at the end of the text, only white space follows the tag. */
  lemma GroupAtEnd(text: string, level: Level, m: Match)
    requires IsRegexMatch(text, level, m) && m.start == |text|
    ensures Blank(text, level)
  {
    forall p: nat | IsLeftmost(text, Tag(level), p)
      ensures forall k :: p + |Tag(level)| <= k < |text| ==> IsWhitespace(text[k])
    {
      RegexMatchUnique(text, level, m, Match(p, m.start, m.end));
    }
  }

  /** The trimmed group of a match is empty exactly when only white space follows the tag. */
  lemma GroupBlank(text: string, level: Level, m: Match)
    requires IsRegexMatch(text, level, m)
    ensures Trim(text[m.start..m.end]) == [] <==> Blank(text, level)
  {
    if m.start < |text| {
      GroupStartsWithText(text, level, m);
    } else {
      GroupAtEnd(text, level, m);
      assert text[m.start..m.end] == [];
    }
  }

  /** The expert group stops before the first line feed, so it holds none. */
  lemma ExpertGroupIsOneLine(text: string, m: Match)
    requires IsRegexMatch(text, Expert, m)
    ensures '\n' !in text[m.start..m.end]
  {
    var group := text[m.start..m.end];
    forall k | 0 <= k < |group|
      ensures group[k] != '\n'
    {
      assert !OccursAt(text, Stop(Expert), m.start + k);
      assert text[m.start + k..m.start + k + 1] == [group[k]];
    }
  }

  /**
   * Capture group 1 after `trim()`, or the empty string when the tag is absent
   * (`match?.[1]?.trim()` yields `undefined`, which is falsy). It is empty exactly when
   * nothing but white space follows the leftmost tag, it never has white space at either
   * end, and the expert capture never holds a line feed.
   */
  function Captured(text: string, level: Level): (r: string)
    ensures r == [] <==> Blank(text, level)
    ensures r != [] ==> !IsWhitespace(r[0]) && !IsWhitespace(r[|r| - 1])
    ensures level == Expert ==> '\n' !in r
  {
    var m := MatchOf(text, level);
    if m.None? then
      AbsentIsBlank(text, level);
      ""
    else
      var group := text[m.value.start..m.value.end];
      GroupBlank(text, level, m.value);
      if level == Expert then
        ExpertGroupIsOneLine(text, m.value);
        TrimKeepsOut(group, '\n');
        Trim(group)
      else
        Trim(group)
  }

  /** Whatever satisfies the regular-expression semantics, the capture is its trimmed group. */
  lemma CapturedOfMatch(text: string, level: Level, m: Match)
    requires IsRegexMatch(text, level, m)
    ensures Captured(text, level) == Trim(text[m.start..m.end])
  {
    RegexMatchUnique(text, level, m, MatchOf(text, level).value);
  }

  /**
   * One field of the parsed record: the trimmed capture, or the level's placeholder when
   * the tag is absent or only white space follows it (`trimmed || placeholder`). Either
   * way the field is non-empty, has no white space at either end, and the expert field
   * is a single line.
   */
  function Field(text: string, level: Level): (r: string)
    ensures Blank(text, level) ==> r == Placeholder(level)
    ensures !Blank(text, level) ==> r == Captured(text, level)
    ensures r != [] && !IsWhitespace(r[0]) && !IsWhitespace(r[|r| - 1])
    ensures level == Expert ==> '\n' !in r
  {
    var captured := Captured(text, level);
    if captured == [] then
      PlaceholderShape(level);
      Placeholder(level)
    else
      captured
  }

  /** When the group of the match is not empty, its trim is the field. */
  lemma FieldOfMatch(text: string, level: Level, m: Match)
    requires IsRegexMatch(text, level, m) && m.start < m.end
    ensures Field(text, level) == Trim(text[m.start..m.end])
  {
    GroupStartsWithText(text, level, m);
    CapturedOfMatch(text, level, m);
  }

  /** Every field non-empty and free of white space at both ends. */
  predicate WellTrimmed(e: Explanations) {
    && |e.child| > 0 && !IsWhitespace(e.child[0]) && !IsWhitespace(e.child[|e.child| - 1])
    && |e.teen| > 0 && !IsWhitespace(e.teen[0]) && !IsWhitespace(e.teen[|e.teen| - 1])
    && |e.expert| > 0 && !IsWhitespace(e.expert[0]) && !IsWhitespace(e.expert[|e.expert| - 1])
  }

  /** The record a backend's raw text yields (identical for both backends). */
  function Parse(text: string): (r: Explanations)
    ensures WellTrimmed(r) && '\n' !in r.expert
    ensures r.child == (if Blank(text, Child) then Placeholder(Child) else Captured(text, Child))
    ensures r.teen == (if Blank(text, Teen) then Placeholder(Teen) else Captured(text, Teen))
    ensures r.expert == (if Blank(text, Expert) then Placeholder(Expert) else Captured(text, Expert))
  {
    Explanations(Field(text, Child), Field(text, Teen), Field(text, Expert))
  }

  /**
   * A field is its placeholder exactly when the tag is missing, only white space follows
   * it, or the model literally wrote the placeholder sentence after the tag.
   */
  lemma PlaceholderExactly(text: string, level: Level)
    ensures Field(text, level) == Placeholder(level)
        <==> Blank(text, level) || Captured(text, level) == Placeholder(level)
  {
  }
}
