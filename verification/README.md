# A toy grep's matcher and tokenizer, in Dafny

This project models the two pure pieces of a small `grep -E` clone written in
Rust:

- **the recursive matcher** `solve` and its wrapper `match_pattern`
  (`src/main.rs`). `solve` walks a regular-expression syntax tree over a
  line of characters. It returns an end position of a match, or the
  sentinel `INF` when its search finds none. The search is greedy and never
  backtracks: a `Concat` takes the leftmost start from which its children,
  each committed to its own result, all match, and an `Alternate` commits to
  the smallest end among its branches. A flag selects the mode:
  - in must-match mode the match is anchored at the current position;
  - in search mode it may start at any later position.
- **the flat tokenizer** of `src/utils.rs`:
  - `patterns_to_vec` scans a pattern into `RegPattern` tokens;
  - `get_repition_type` reads the quantifier written after a character;
  - `match_pattern_with_char` is the per-token character predicate.

Modules and files:

| file | module | contents |
|---|---|---|
| `pattern.dfy` | `Pattern` | `Repetition`, `RegexAst` and `RegPattern` as datatypes |
| `chars.dfy` | `CharClass` | ASCII digit, alphanumeric and word-character tests |
| `matcher.dfy` | `Matcher` | `Solve` and `MatchPattern` |
| `matcher_props.dfy` | `MatcherProps` | what `Solve` returns for each node kind and mode, and what `MatchPattern` accepts |
| `utils.dfy` | `Utils` | `GetRepetitionType`, `MatchPatternWithChar` and the scan |
| `utils_props.dfy` | `UtilsProps` | the scan and `Render` are inverse; the scan panics exactly on a `[`, not in the last position, with no `]` after it |
| `quirks.dfy` | `Quirks` | concrete patterns and lines that pin down the quirks below |

How the Rust code is represented:

- **`Solve`.** The `for` loops of `solve` over the children of a `Concat` and
  the branches of an `Alternate` become three functions, mutually recursive
  with `Solve`:
  - `Thread`: must-match mode;
  - `SearchConcat`: the loop over start positions;
  - `AltMin`: the running minimum.

  `INF` keeps its value, 1 000 000 000. The matcher requires the line to be
  shorter than `INF`, so the sentinel never collides with a real position.
- **The scan.** The scan loop is split into `NextToken` (one iteration) and
  `Scan` (the loop).
- **The panic.** The `panic!` on a `[` without a `]` is the error value
  `UnclosedBracket(at)`.
- **`Render`.** `Render` writes tokens back as pattern text. It is the
  partner the scan is proved lossless against: `Render(PatternsToVec(p)) == p`
  whenever the scan succeeds, and `PatternsToVec(Render(ts)) == ts` for every
  list of printable tokens. A token is printable unless it carries
  `Optional`, is a group with a quantifier, is a group whose text holds `]`,
  is a plain group whose text starts with `^`, or is a literal `\`, `[`,
  `^`, `$`, `.`, `?` or `+`. Without that restriction the inverse fails:
  `Literal('a', None), Literal('?', None)` is written as `a?`, which scans
  back to the single token `Literal('a', Star)`.

Quirks of the code that the model keeps and proves:

- **One committed end position per node.** `solve` returns a single end
  position, not a set of them, and never revisits a choice. An `Alternate`
  keeps only its smallest branch end (`src/main.rs:191-199`) and a `Concat`
  in search mode stops at the leftmost start that works
  (`src/main.rs:70-95`). So a match can be missed: the tree
  `Concat([Alternate([Literal('a'), Concat([Literal('a'), Literal('b')])]), Literal('c')])`
  does not match `abc`, although `Concat([Concat([Literal('a'), Literal('b')]), Literal('c')])`
  does (`Quirks.AlternationMissesMatch`). And the end returned need not be
  the smallest: `Concat([Alternate([Concat([Literal('a'), Wildcard, Wildcard, Wildcard]), Literal('b')])])`
  on `abxx` ends at 4, while the branch `Literal('b')` from position 1 ends
  at 2 (`Quirks.LeftmostNotShortest`).
- **No captures and no back-references.** `solve` has no arm for
  `CaptureGroup`.
- **`?` is read as `Star`, and `*` is not a quantifier at all.**
- **Every repetition other than `None` fails before the end of the line.**
  For example, `Repeat(Literal('a'), Star)` does not match `b`
  (`Quirks.StarOnlyAtEnd`).
- **Bracket groups never carry a quantifier.** The quantifier lookup for a
  group inspects the group's own `]`. So the extra advance at
  `src/utils.rs:62-64` is never taken, and a `+` after `]` becomes a literal.
- **`\` or `[` in the last position is a literal.**
- **`Repeat(sub, None)`, `Alternate` and a non-empty `Concat` fail at the
  end of the line.** The early return at `src/main.rs:21-28` decides every
  node there: only `$`, `Repeat(_, Star)`, `Repeat(_, Optional)` and the
  empty `Concat` succeed. So these composites fail at the end even when
  their child would succeed: `$` matches the empty line, but `Repeat($, None)` and
  `Alternate([$])` do not.
- **Before the end of the line, `Wildcard` always ends one past the current
  position.** In search mode the `min` at `src/main.rs:131` always picks
  `ind + 1` there; at or past the end the early return gives `INF`.

## Model

| member | source | states |
|---|---|---|
| `Matcher.Solve` | src/main.rs:18-209 | from a position inside the line the result is `INF` or an end position between that position and the line's end; at or past the end it is the line length for `$`, `Star`/`Optional` repetitions and the empty concatenation, and `INF` for every other node |
| `Matcher.Thread` | src/main.rs:55-69 | threading children in must-match mode from a position inside the line ends at `INF` or between that position and the line's end |
| `Matcher.SearchConcat` | src/main.rs:70-95 | the search over start positions from `start` gives `INF` or an end no earlier than `start` and within the line |
| `Matcher.AltMin` | src/main.rs:191-199 | the running minimum never exceeds its seed and, seeded with `INF` or an in-range position, stays `INF` or in range |
| `MatcherProps.AtEndOfInput` | src/main.rs:21-28 | at or past the end, in both modes, `$`, `Star`/`Optional` repetitions and the empty concatenation return the line length and every other node, `^` on the empty line included, returns `INF` |
| `MatcherProps.CharNodeMustMatch` | src/main.rs:34-47 | in must-match mode a one-character node returns one past the position iff the character there is accepted, and `INF` otherwise |
| `MatcherProps.CharNodeSearch` | src/main.rs:99-161 | in search mode a one-character node is `INF` iff no character from the position on is accepted, and otherwise ends one past the first accepted character |
| `MatcherProps.WildcardBeforeEnd` | src/main.rs:127-133 | before the end `.` ends exactly one past the position in both modes |
| `MatcherProps.StartOfLineSolve` | src/main.rs:163-175 | `^` succeeds without consuming only at position 0 of a non-empty line, in both modes, and is `INF` everywhere else |
| `MatcherProps.EndOfLineSolve` | src/main.rs:177-189 | `$` in search mode, or at the end, yields the line length; in must-match mode before the end it is `INF` |
| `MatcherProps.EmptyConcat` | src/main.rs:49-53 | the empty concatenation succeeds without consuming, in both modes |
| `MatcherProps.ThreadAppend` | src/main.rs:55-69 | threading `a + b` is threading `a`, then `b` from where `a` ended; a failure in `a` is final |
| `MatcherProps.ConcatMustMatch` | src/main.rs:55-69 | a concatenation in must-match mode is its children threaded from the position, and fails as soon as some prefix of the children fails |
| `MatcherProps.SearchConcatFirstStart` | src/main.rs:72-94 | the search over starts fails iff no start in `start..=len` lets every child match, and otherwise returns the end for the smallest start that does |
| `MatcherProps.ConcatSearch` | src/main.rs:70-95 | a concatenation in search mode fails iff no start in `ind..=len` lets every child match, and otherwise ends where the children end from the smallest such start |
| `MatcherProps.ThreadCharNodes` | src/main.rs:55-69 | threading one-character nodes succeeds iff the window of the line at the position is accepted node by node, and then ends right after that window |
| `MatcherProps.CharStringMatch` | src/main.rs:211-219 | a concatenation of one-character nodes matches a line iff some window of the line is accepted node by node, and the match ends after the leftmost such window |
| `MatcherProps.AltMinIsMinimum` | src/main.rs:192-198 | the running minimum is at most every branch result and is either its seed or one of the branch results |
| `MatcherProps.AlternateSolve` | src/main.rs:191-199 | before the end an alternation is at most every branch, is `INF` iff every branch is, and otherwise equals some branch's result |
| `MatcherProps.RepeatSolve` | src/main.rs:201-204 | before the end `Repeat(sub, None)` behaves as `sub` and every other repetition is `INF`; at the end `Star` and `Optional` succeed and the others fail, whatever `sub` does |
| `MatcherProps.MatchCharNode` | src/main.rs:211-219 | a one-character node matches a line iff some character of the line is accepted |
| `Matcher.MatchPattern` | src/main.rs:211-219 | on the empty line a tree matches iff it succeeds at the end of the line |
| `MatcherProps.AcceptsAgreesWithChar` | src/utils.rs:98-114 | the matcher's per-character test for each one-character node agrees with `match_pattern_with_char` on the token of the same kind |
| `MatcherProps.MatchAnchorsAndEmpty` | src/main.rs:211-219 | `^` alone matches exactly the non-empty lines; `$` alone and the empty pattern match every line |
| `Utils.GetRepetitionType` | src/utils.rs:116-126 | the result is `Star` iff the next character exists and is `?`, `Plus` iff it is `+`, and never `Optional` (so `*` and the end of the pattern give `None`) |
| `Utils.MatchPatternWithChar` | src/utils.rs:98-114 | for each non-anchor token: an ASCII digit, an ASCII letter/digit/`_`, membership in the group, absence from the group, equality, and always true; the anchors are excluded |
| `Utils.NegativeGroupIsComplement` | src/utils.rs:104-106 | a negated group accepts exactly the characters the plain group with the same text rejects |
| `Utils.FindFrom` | src/utils.rs:39-45 | the search for `]` finds its first occurrence from the `[` on, and finds nothing iff there is none |
| `Utils.EscapeToken` | src/utils.rs:12-34 | `\d` gives `Digit` and `\w` gives `Word`, whose quantifier is the one read after the letter; the index moves past the two characters and the quantifier, and that text is the token's spelling |
| `Utils.ClosedGroup` | src/utils.rs:45-64 | the group up to the first `]` is negated iff it starts with `^`, carries no quantifier, and the scan resumes just after the `]` |
| `Utils.BracketToken` | src/utils.rs:38-65 | the bracket branch panics iff no `]` follows the `[`; otherwise it gives a plain or negated group (negated iff the text starts with `^`) ending at the first `]`, whose spelling is the text read, with no quantifier |
| `Utils.SingleToken` | src/utils.rs:81-91 | `.` gives `Wildcard` and any other character a `Literal` of itself, whose quantifier is the one read after the character, which is consumed too |
| `Utils.NextToken` | src/utils.rs:9-93 | one iteration advances by at least one character, consuming exactly the spelling of the token it pushes; it panics iff the character at the index is a `[`, not the last one, with no `]` after it; `^` and `$` always give the anchors, consuming one character even when a quantifier follows; `\d`/`\w` give the escape token, a `[` that is not last gives the bracket group, and every other character gives a `Wildcard` or `Literal` with its quantifier |
| `Utils.Scan` | src/utils.rs:9-93 | the tokens read from an index are written back as exactly the rest of the pattern, there are no more of them than characters, and none carries `Optional` or a quantified group; a panic names the index, from `i` on, of a `[` that is not the last character and has no `]` after it |
| `Utils.PatternsToVec` | src/utils.rs:5-96 | the tokens of a pattern are written back as exactly the pattern, at most one per character, with no `Optional` and no quantified group; a panic names a `[` (not last) with no `]` after it |
| `UtilsProps.PositiveGroupText` | src/utils.rs:38-65 | reading `[g]` (with `g` free of `]` and not starting with `^`) gives the plain group `g` and resumes after the `]` |
| `UtilsProps.NegativeGroupText` | src/utils.rs:38-65 | reading `[^g]` (with `g` free of `]`) gives the negated group `g` and resumes after the `]` |
| `UtilsProps.NextTokenOfRender` | src/utils.rs:9-93 | reading the spelling of a printable token, followed by text that does not start with a quantifier, gives that token back and resumes right after its spelling |
| `UtilsProps.ScanOfRender` | src/utils.rs:9-93 | scanning the spelling of a list of printable tokens gives that list back |
| `UtilsProps.PatternsToVecOfRender` | src/utils.rs:5-96 | `patterns_to_vec` inverts `Render` on every list of printable tokens |
| `UtilsProps.PatternsToVecPanics` | src/utils.rs:38-43 | `patterns_to_vec` panics iff the pattern holds a `[`, not in the last position, with no `]` anywhere after it |
| `Quirks.QuestionMarkIsStar` | src/utils.rs:116-126 | `a?` is read as a literal with `Star` and `\d+` as a digit with `Plus` |
| `Quirks.AsteriskIsLiteral` | src/utils.rs:121-125 | `a*` is read as two plain literals, `a` and `*` |
| `Quirks.BracketQuantifierIsLiteral` | src/utils.rs:45-64 | `[ab]+` is read as the plain group `ab` followed by the literal `+`; `[^x]` as the negated group `x` |
| `Quirks.TrailingEscapeIsLiteral` | src/utils.rs:10 | a `\` or `[` in the last position is a literal, while `[ab` panics |
| `Quirks.AnchoredAbcMatches` | src/main.rs:70-95 | `^abc$` matches `abc`, ending at 3 |
| `Quirks.AnchoredAbcLateStart` | src/main.rs:163-175 | on any line, threading `^abc$` from any position other than 0 fails |
| `Quirks.AnchoredAbcRejectsPrefix` | src/main.rs:70-95 | `^abc$` does not match `xabc` |
| `Quirks.AnchoredAbcRejectsSuffix` | src/main.rs:70-95 | `^abc$` does not match `abcx` |
| `Quirks.CompositesFailAtEnd` | src/main.rs:21-28 | on the empty line `$` matches but `Repeat($, None)` and `Alternate([$])` do not |
| `Quirks.StarOnlyAtEnd` | src/main.rs:201-204 | `Repeat(Literal('a'), Star)` matches the empty line but not the line `b` |
| `Quirks.AlternationMissesMatch` | src/main.rs:191-199 | the alternation of `a` and `ab`, followed by `c`, does not match `abc`, while `abc` as a plain concatenation does: the alternation commits to its shorter branch |
| `Quirks.LeftmostNotShortest` | src/main.rs:70-95 | the alternation of `Concat([Literal('a'), Wildcard, Wildcard, Wildcard])` and `Literal('b')`, searched on `abxx`, ends at 4 from the leftmost start, although threading it from position 1 ends at 2 |

## Left out

- `main` (`src/main.rs:223-241`) is not modelled. It reads the arguments and stdin and exits with a status code: I/O.
- The `eprintln!` tracing in `solve` and `match_pattern` is not modelled. It has no effect on any result.
- `pattern_to_ast` and `old_main` are not part of this model. `MatchPattern` therefore takes the syntax tree as given instead of the pattern text.
- `CaptureGroup` is excluded by the precondition `CaptureFree`, because `solve` has no arm for it.
- The `last_matched_on_pattern` parameter is dropped: `solve` only forwards it and never reads it.
- The tokenizer indexes the pattern by bytes in some places and by characters in others. The model assumes an ASCII pattern, where the two agree.
- `usize` arithmetic is not modelled. The matcher requires the line to be shorter than `INF`, so no position it computes comes near the `usize` range.
- `MatchPatternWithChar` requires a non-anchor token rather than modelling the source's `panic!` on `^` and `$`.
