# ThinkTiny explain route, modelled in Dafny

ThinkTiny explains a topic at three levels: for a child, a teenager and an expert. Its
one server route, `POST /api/explain`, takes a topic and returns a record
`{child, teen, expert}`. The route rejects a missing or empty topic with a 400. It then
asks a local model backend (Ollama). If that gives nothing, it asks a hosted one (the
Hugging Face inference API). If that also gives nothing, it fills three fixed templates
with the topic. Both backends are asked to reply as three tagged lines (`CHILD: …`,
`TEEN: …`, `EXPERT: …`). Their raw text goes through the same tagged-section parser: three
regular expressions, a trim, and a per-level placeholder for a missing section.

The model has five modules:

- `Wrappers` (`wrappers.dfy`) holds `Option`.
- `Text` (`text.dfy`) models the white-space class that JavaScript's `\s` and `trim()`
  share, the leftmost-occurrence search, and `trim()`.
- `Sections` (`sections.dfy`) models the parser. It is written once, because both backends
  use identical code. It contains:
  - `IsRegexMatch`, a reference definition of what each regular expression matches;
  - `MatchOf`, the scan that computes that match;
  - `Captured`, `Field` and `Parse`, which build the record.
- `Route` (`route.dfy`) models the demo templates and a backend attempt once its call has
  returned. It also models the POST handler as a method: the method reassigns its
  `explanations` variable step by step and logs which backends it attempted.
- `PromptFormat` (`prompt_format.dfy`) proves what the parser makes of a reply in the
  layout the prompt requests, and of a reply with the teen line missing.

How the regular expressions are read. Each pattern has the `s` flag and no `m` flag, so
`.` matches a line feed and `$` matches only at the end of the text. The greedy `\s*` is
never backtracked, because the `$` alternative of the lookahead always succeeds in the
end. A match is therefore made of:

- the leftmost occurrence of the tag;
- the maximal run of white space after it;
- the shortest group that is followed by the stop pattern (`\nTEEN:`, `\nEXPERT:` or `\n`)
  or by the end of the text.

Two consequences of the code may surprise a reader:

- The child capture stops only at `\nTEEN:` or at the end of the text. A reply without a
  teen line therefore puts the whole `EXPERT:` line into the child field, as
  `PromptFormat.MissingTeenSwallowsExpert` proves.
- A field is the placeholder when its tag is missing or only white space follows the tag.
  The converse does not hold: a model that writes the placeholder sentence itself after
  the tag also gets that sentence, so a placeholder in the response does not show that
  the tag was missing. `Sections.PlaceholderExactly` states the exact condition.

## Model

| member | source | states |
|---|---|---|
| `Text.IsWhitespace` | app/api/explain/route.ts:45-52 | The character set that `\s` and `trim()` share: the ECMAScript WhiteSpace set (tab, vertical tab, form feed, space, no-break space, byte order mark and the Unicode space separators U+1680, U+2000-U+200A, U+202F, U+205F, U+3000) and the LineTerminator set (line feed, carriage return, U+2028, U+2029). |
| `Text.FindFrom` | app/api/explain/route.ts:45-47 | The result is the leftmost index at or after `from` where the pattern occurs: it occurs there and nowhere between `from` and it. `None` means it occurs nowhere from `from` on. |
| `Text.LeadingSpace` | app/api/explain/route.ts:45-47 | What the greedy `\s*` consumes: a run of white space that cannot be extended. |
| `Text.TrailingSpace` | app/api/explain/route.ts:50-52 | The maximal run of white space at the end of a string, which `trim()` removes. |
| `Text.Trim` | app/api/explain/route.ts:50-52 | `trim()` returns the slice that starts after the leading white space. Only white space follows it. It is empty exactly when the input is all white space. Otherwise it starts and ends with a character that is not white space. |
| `Text.TrimOfTrimmed` | app/api/explain/route.ts:50-52 | A string with no white space at either end is unchanged by `trim()`. |
| `Text.TrimIdempotent` | app/api/explain/route.ts:50-52 | Trimming twice is the same as trimming once. |
| `Sections.Tag` | app/api/explain/route.ts:45-47 | The literal each pattern starts with: `CHILD:`, `TEEN:` and `EXPERT:`. |
| `Sections.Stop` | app/api/explain/route.ts:45-47 | The lookahead alternative other than `$` that ends each group: `\nTEEN:` for child, `\nEXPERT:` for teen and `\n` for expert. |
| `Sections.Placeholder` | app/api/explain/route.ts:50-52 | The fallback sentence of each level: `Unable to generate child-level explanation.`, and likewise with `teen` and `expert`. |
| `Sections.PlaceholderShape` | app/api/explain/route.ts:50-52 | Each placeholder is a single line starting with `U` and ending with `.`, so it has no white space at either end. |
| `Sections.IsRegexMatch` | app/api/explain/route.ts:45-47 | The reference reading of one pattern with the `s` flag. The tag is at its leftmost occurrence. The group starts after the maximal white-space run that follows the tag. The group ends at the end of the text or where the stop pattern occurs, and the stop pattern occurs nowhere from its start to its end. |
| `Sections.MatchOf` | app/api/explain/route.ts:45-47 | There is no match exactly when the tag does not occur. Otherwise the match meets `IsRegexMatch`: the leftmost tag, then the maximal white-space run, then a group that ends at the first stop pattern after its start or at the end of the text. |
| `Sections.RegexMatchUnique` | app/api/explain/route.ts:45-47 | `IsRegexMatch` allows at most one match, so `MatchOf` finds the match. |
| `Sections.AbsentIsBlank` | app/api/explain/route.ts:50-52 | When the tag does not occur, the field counts as blank, so it falls back to the placeholder. |
| `Sections.GroupBlank` | app/api/explain/route.ts:45-52 | The untrimmed group of the match trims to empty exactly when only white space follows the leftmost tag. |
| `Sections.ExpertGroupIsOneLine` | app/api/explain/route.ts:47 | The expert group stops at the first line feed, so it contains none. |
| `Sections.CapturedOfMatch` | app/api/explain/route.ts:45-52 | Whatever satisfies the reference definition `IsRegexMatch`, the capture is its trimmed group. |
| `Sections.FieldOfMatch` | app/api/explain/route.ts:45-52 | When the group of the match is not empty, its trim is the field; the placeholder is not used. |
| `Sections.Captured` | app/api/explain/route.ts:50-52 | The trimmed capture (empty when the tag is absent) is empty exactly when only white space follows the leftmost tag. Otherwise it has no white space at either end. The expert capture is one line. |
| `Sections.Field` | app/api/explain/route.ts:50-52 | A field is its level's placeholder when the tag is absent or only white space follows it. Otherwise it is the trimmed capture. Either way it is non-empty, has no white space at either end, and the expert field has no line feed. |
| `Sections.Parse` | app/api/explain/route.ts:44-53 | Each field of the parsed record depends only on its own tag's match, and the three fields are well trimmed. The same function serves both backends (route.ts:80-89 is identical code). |
| `Sections.PlaceholderExactly` | app/api/explain/route.ts:50-52 | A field equals its placeholder exactly when the tag is absent, only white space follows it, or the capture is the placeholder sentence itself. |
| `Route.DemoExplanations` | app/api/explain/route.ts:4-8 | Every template field is longer than the copies of the topic it holds (child and teen two, expert one), so none is empty even for an empty topic. |
| `Route.DemoHoldsTopic` | app/api/explain/route.ts:4-8 | The template puts the topic verbatim into each field: twice in child (after `Imagine ` and after the first middle text), twice in teen (at the start and after its middle text), once at the start of expert. |
| `Route.DemoDeterminesTopic` | app/api/explain/route.ts:4-8 | Different topics give different template records, so nothing of the topic is lost. |
| `Route.Attempt` | app/api/explain/route.ts:40-58 | A backend attempt gives null exactly when the backend was unavailable. An OK answer always gives a well-trimmed record, which is the parse of its text, with a missing text read as `""` (`\|\| ''`). |
| `Route.UntaggedAnswer` | app/api/explain/route.ts:76-89 | An OK answer with no tag, including an empty or missing text, gives three placeholders and not null. |
| `Route.IsFalsy` | app/api/explain/route.ts:101 | `!topic` for a topic that is a string or missing: true exactly when it is missing or the empty string, so a white-space-only topic is accepted. |
| `Route.Post` | app/api/explain/route.ts:97-129 | A missing or empty topic gives `400 'Topic is required'` and no backend is attempted. A whitespace-only topic is accepted. If the local backend answers, its parse is the response and the hosted backend is not attempted. The hosted backend is attempted only after a null from the local one. The template is used only when both give null. Every 200 response has three non-empty fields. |
| `PromptFormat.ChildOfLaidOut` | app/api/explain/route.ts:45-50 | In a reply laid out as requested (`LaidOut`), the child field is the child line. |
| `PromptFormat.TeenTagOfLaidOut` | app/api/explain/route.ts:46 | In that layout, the leftmost `TEEN:` is the teen line's tag, provided the child line does not contain `TEEN:`. |
| `PromptFormat.TeenOfLaidOut` | app/api/explain/route.ts:46-51 | In that layout, the teen field is the teen line, provided the child line does not contain `TEEN:`. |
| `PromptFormat.ExpertTagOfLaidOut` | app/api/explain/route.ts:47 | In that layout, the leftmost `EXPERT:` is the expert line's tag, provided the earlier lines do not contain `EXPERT:`. |
| `PromptFormat.ExpertOfLaidOut` | app/api/explain/route.ts:47-52 | In that layout, the expert field is the expert line, provided the earlier lines do not contain `EXPERT:`. |
| `PromptFormat.FormatRoundTrip` | app/api/explain/route.ts:21-53 | Parsing a reply in the layout the prompt requests returns exactly the three lines that were written. Each line must be trimmed, non-empty and free of line feeds, and must not contain a later level's tag. |
| `PromptFormat.TeenAbsentWithoutTeen` | app/api/explain/route.ts:46 | A `CHILD:` line followed by an `EXPERT:` line, neither containing `TEEN:`, has no `TEEN:` anywhere, so the teen regular expression does not match. |
| `PromptFormat.ChildWithoutTeen` | app/api/explain/route.ts:45 | Without a teen line, the child capture runs from the child text to the end of the reply, through the expert line. |
| `PromptFormat.ExpertWithoutTeen` | app/api/explain/route.ts:47 | Without a teen line, the expert field is still the expert line. |
| `PromptFormat.MissingTeenSwallowsExpert` | app/api/explain/route.ts:45-52 | For a reply with only `CHILD:` and `EXPERT:` lines: teen is its placeholder, child is the child line plus the whole expert line, and expert is the expert line. |

## Left out

- The network calls (`fetch` to Ollama and to the Hugging Face API), HTTP status codes of the backends, JSON encoding and decoding, the `HUGGINGFACE_API_KEY` lookup and `console` logging. Each backend call is an input `Reply`: unavailable, or answered with its text field.
- The prompt text sent to the backends is opaque to the route. Only the reply layout it requests is modelled, by `PromptFormat.Formatted`.
- The 500 path (route.ts:131-137) catches failures of `request.json()` and of the framework. Nothing in the model can throw, so it is left out.
- A topic that is a JSON value other than a string, and a backend text field that is not a string, are not modelled. A topic is a string or missing, and an answer's text is a string or missing.
- Strings are sequences of Unicode scalar values, where JavaScript uses UTF-16 code units. Lone surrogates cannot be represented. `IsWhitespace` is the ECMAScript WhiteSpace and LineTerminator set as of current Unicode.
- General JavaScript regular-expression semantics are not modelled. Only the three fixed patterns are, as scans.
- The `async`/`await` suspension between the two backend calls is not modelled. The calls are sequential and share no state.
- The React pages and components (`app/page.tsx`, `app/components/*.tsx`) are presentation: component state, clipboard and timers. They are not part of this model, and neither is the client-side trim of the topic.
