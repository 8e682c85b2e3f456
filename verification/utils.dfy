/** The flat tokenizer of src/utils.rs: `get_repition_type` (quantifier
    suffix), `match_pattern_with_char` (per-character predicate) and
    `patterns_to_vec` (the scan of a pattern into tokens).

    The pattern is taken to be ASCII, so byte positions and character
    positions coincide and a `string` index stands for both. The scan loop is
    split into `NextToken` (one iteration of the loop) and `Scan` (the loop).
    `Render` writes a token list back as pattern text; it is the partner that
    the scan is proved lossless against. */
module Utils {
  import opened Pattern
  import opened CharClass

  /** The outcome of a step that may hit the source's `panic!` on a `[`
      without a matching `]`; `at` is the index of that `[`. */
  datatype Result<T> = Ok(value: T) | UnclosedBracket(at: nat)

  /** Outcome of a search for one character. */
  datatype Find = Missing | At(index: nat)

  /** The quantifier written right after index `last`. A `?` is read as
      `Star`, a `+` as `Plus`; anything else, `*` included, and a position
      past the end give `None`. `Optional` is never produced. */
  function GetRepetitionType(pattern: string, last: nat): (r: Repetition)
    ensures r != Optional
    ensures r == Star <==> last + 1 < |pattern| && pattern[last + 1] == '?'
    ensures r == Plus <==> last + 1 < |pattern| && pattern[last + 1] == '+'
  {
    if last + 1 >= |pattern| then Repetition.None
    else if pattern[last + 1] == '?' then Star
    else if pattern[last + 1] == '+' then Plus
    else Repetition.None
  }

  /** The character predicate of a token. The anchors have none: the
      source panics on them. */
  function MatchPatternWithChar(token: RegPattern, c: char): (r: bool)
    requires !token.StartOfLine? && !token.EndOfLine?
    ensures token.Digit? ==> (r <==> '0' <= c <= '9')
    ensures token.Word? ==> (r <==> 'a' <= c <= 'z' || 'A' <= c <= 'Z' || '0' <= c <= '9' || c == '_')
    ensures token.Literal? ==> (r <==> c == token.c)
    ensures token.Wildcard? ==> r
    ensures token.PositiveGroup? ==> (r <==> exists k :: 0 <= k < |token.group| && token.group[k] == c)
    ensures token.NegativeGroup? ==> (r <==> forall k :: 0 <= k < |token.group| ==> token.group[k] != c)
  {
    match token
    case Digit(_) => IsAsciiDigit(c)
    case Word(_) => IsWordChar(c)
    case PositiveGroup(group, _) => c in group
    case NegativeGroup(group, _) => c !in group
    case Literal(l, _) => c == l
    case Wildcard(_) => true
  }

  /** A negated bracket group accepts exactly the characters the plain group
      with the same text rejects, whatever quantifiers the two carry. */
  lemma NegativeGroupIsComplement(group: string, r1: Repetition, r2: Repetition, c: char)
    ensures MatchPatternWithChar(RegPattern.NegativeGroup(group, r1), c)
        <==> !MatchPatternWithChar(RegPattern.PositiveGroup(group, r2), c)
  {
  }

  /** The first index at or after `from` holding `c` (the source's
      `str::find` on a suffix, shifted back to an absolute index). */
  function FindFrom(s: string, from: nat, c: char): (r: Find)
    ensures r.At? ==> from <= r.index < |s| && s[r.index] == c
    ensures r.At? ==> forall k :: from <= k < r.index ==> s[k] != c
    ensures r.Missing? <==> forall k :: from <= k < |s| ==> s[k] != c
    decreases |s| - from
  {
    if from >= |s| then Missing
    else if s[from] == c then At(from)
    else FindFrom(s, from + 1, c)
  }

  /** The shape every scanned token has: no token carries `Optional`, and a
      bracket group never carries a quantifier, because the quantifier
      lookup for a group inspects its own closing `]`. */
  predicate ScannedShape(t: RegPattern) {
    match t
    case PositiveGroup(_, rep) => rep == Repetition.None
    case NegativeGroup(_, rep) => rep == Repetition.None
    case StartOfLine => true
    case EndOfLine => true
    case _ => t.rep != Optional
  }

  /** The text a quantifier is written as; `?` is how `Star` is spelled. */
  function RepSuffix(r: Repetition): string {
    match r
    case Star => "?"
    case Plus => "+"
    case _ => ""
  }

  /** A token written back as pattern text. */
  function RenderToken(t: RegPattern): string {
    match t
    case Digit(r) => "\\d" + RepSuffix(r)
    case Word(r) => "\\w" + RepSuffix(r)
    case PositiveGroup(g, _) => "[" + g + "]"
    case NegativeGroup(g, _) => "[^" + g + "]"
    case Literal(c, r) => [c] + RepSuffix(r)
    case Wildcard(r) => "." + RepSuffix(r)
    case StartOfLine => "^"
    case EndOfLine => "$"
  }

  /** A token list written back as pattern text. */
  function Render(ts: seq<RegPattern>): string {
    if ts == [] then "" else RenderToken(ts[0]) + Render(ts[1..])
  }

  /** The text from `i` on of a token whose head is `head` and whose
      quantifier, looked up after the head's last character, is `rep`. */
  lemma HeadText(p: string, i: nat, head: string, rep: Repetition)
    requires |head| > 0 && i + |head| <= |p| && p[i..i + |head|] == head
    requires rep == GetRepetitionType(p, i + |head| - 1)
    ensures i + |head| + |RepSuffix(rep)| <= |p|
    ensures head + RepSuffix(rep) == p[i..i + |head| + |RepSuffix(rep)|]
  {
    var n := i + |head| + |RepSuffix(rep)|;
    var t := head + RepSuffix(rep);
    forall k | 0 <= k < |t| ensures t[k] == p[i..n][k] {
      if k < |head| { assert head[k] == p[i..i + |head|][k]; }
    }
  }

  /** The `\d` / `\w` branch at index `i`: the class token with the
      quantifier written after the letter, which is consumed too. */
  function EscapeToken(p: string, i: nat): (r: (RegPattern, nat))
    requires i + 1 < |p| && p[i] == '\\' && (p[i + 1] == 'd' || p[i + 1] == 'w')
    ensures r.0.Digit? <==> p[i + 1] == 'd'
    ensures r.0.Word? <==> p[i + 1] == 'w'
    ensures r.0.rep == GetRepetitionType(p, i + 1)
    ensures r.1 == i + 2 + |RepSuffix(r.0.rep)| <= |p|
    ensures RenderToken(r.0) == p[i..r.1]
    ensures ScannedShape(r.0)
  {
    var rep := GetRepetitionType(p, i + 1);
    var next := if rep != Repetition.None then i + 3 else i + 2;
    if p[i + 1] == 'd' then
      HeadText(p, i, "\\d", rep);
      (RegPattern.Digit(rep), next)
    else
      HeadText(p, i, "\\w", rep);
      (RegPattern.Word(rep), next)
  }

  /** `[g]` is the text from an `[` at `i` to the `]` at `close`. */
  lemma PlainGroupText(p: string, i: nat, close: nat)
    requires i < close < |p| && p[i] == '[' && p[close] == ']'
    ensures "[" + p[i + 1..close] + "]" == p[i..close + 1]
  {
    var t := "[" + p[i + 1..close] + "]";
    forall k | 0 <= k < |t| ensures t[k] == p[i..close + 1][k] {
      if 0 < k < |t| - 1 { assert t[k] == p[i + 1..close][k - 1]; }
    }
  }

  /** `[^g]` is the text from an `[` at `i`, followed by `^`, to the `]` at
      `close`. */
  lemma NegatedGroupText(p: string, i: nat, close: nat)
    requires i + 1 < close < |p| && p[i] == '[' && p[i + 1] == '^' && p[close] == ']'
    ensures "[^" + p[i + 2..close] + "]" == p[i..close + 1]
  {
    var t := "[^" + p[i + 2..close] + "]";
    forall k | 0 <= k < |t| ensures t[k] == p[i..close + 1][k] {
      if 1 < k < |t| - 1 { assert t[k] == p[i + 2..close][k - 2]; }
    }
  }

  /** The group closed by the `]` at `close`, negated when its text starts
      with `^`. The quantifier lookup at `close - 1` inspects the `]` itself,
      so its `None` is the only value it can give and the extra advance is
      never taken. */
  function ClosedGroup(p: string, i: nat, close: nat): (r: (RegPattern, nat))
    requires i + 1 < close < |p| && p[i] == '[' && p[close] == ']' && p[i + 1] != ']'
    ensures r.1 == close + 1
    ensures r.0.NegativeGroup? <==> p[i + 1] == '^'
    ensures r.0.PositiveGroup? || r.0.NegativeGroup?
    ensures RenderToken(r.0) == p[i..r.1]
    ensures ScannedShape(r.0)
  {
    var rep := GetRepetitionType(p, close - 1);
    assert rep == Repetition.None;
    var next: nat := close + 1 + (if rep != Repetition.None then 1 else 0);
    if p[i + 1] == '^' then
      NegatedGroupText(p, i, close);
      (RegPattern.NegativeGroup(p[i + 2..close], rep), next)
    else
      PlainGroupText(p, i, close);
      (RegPattern.PositiveGroup(p[i + 1..close], rep), next)
  }

  /** The bracket branch at index `i`: the text up to the first `]` becomes
      a group and scanning resumes after the `]`; with no `]` the source
      panics. */
  function BracketToken(p: string, i: nat): (r: Result<(RegPattern, nat)>)
    requires i + 1 < |p| && p[i] == '['
    ensures r.UnclosedBracket? <==> forall k :: i <= k < |p| ==> p[k] != ']'
    ensures r.UnclosedBracket? ==> r.at == i
    ensures r.Ok? ==> i + 2 <= r.value.1 <= |p| && p[r.value.1 - 1] == ']'
    ensures r.Ok? ==> forall k :: i <= k < r.value.1 - 1 ==> p[k] != ']'
    ensures r.Ok? ==> (r.value.0.NegativeGroup? <==> p[i + 1] == '^')
    ensures r.Ok? ==> r.value.0.PositiveGroup? || r.value.0.NegativeGroup?
    ensures r.Ok? ==> RenderToken(r.value.0) == p[i..r.value.1]
    ensures r.Ok? ==> ScannedShape(r.value.0)
  {
    match FindFrom(p, i, ']')
    case Missing => UnclosedBracket(i)
    case At(close) =>
      if close == i + 1 then
        // `p[i + 1]` is `]`: the empty group `[]`
        PlainGroupText(p, i, close);
        Ok((RegPattern.PositiveGroup([], GetRepetitionType(p, close - 1)), close + 1))
      else Ok(ClosedGroup(p, i, close))
  }

  /** The fall-through branch at index `i`: `.` becomes a wildcard and any
      other character a literal, each with the quantifier written after it,
      which is consumed too. */
  function SingleToken(p: string, i: nat): (r: (RegPattern, nat))
    requires i < |p|
    ensures r.0.Wildcard? <==> p[i] == '.'
    ensures r.0.Wildcard? || (r.0.Literal? && r.0.c == p[i])
    ensures r.0.rep == GetRepetitionType(p, i)
    ensures r.1 == i + 1 + |RepSuffix(r.0.rep)| <= |p|
    ensures RenderToken(r.0) == p[i..r.1]
    ensures ScannedShape(r.0)
  {
    var rep := GetRepetitionType(p, i);
    var next := if rep != Repetition.None then i + 2 else i + 1;
    HeadText(p, i, [p[i]], rep);
    if p[i] == '.' then (RegPattern.Wildcard(rep), next)
    else (RegPattern.Literal(p[i], rep), next)
  }

  /** One iteration of the scan loop at index `i`: the token it pushes and
      the index it resumes from, or the bracket it panics on. The
      two-character branches need a character after `i`, so a `\\` or `[`
      in the last position falls through to a literal. */
  function NextToken(p: string, i: nat): (r: Result<(RegPattern, nat)>)
    requires i < |p|
    ensures r.Ok? ==> i < r.value.1 <= |p|
    ensures r.Ok? ==> RenderToken(r.value.0) == p[i..r.value.1]
    ensures r.Ok? ==> ScannedShape(r.value.0)
    ensures r.UnclosedBracket? <==>
      i + 1 < |p| && p[i] == '[' && forall k :: i <= k < |p| ==> p[k] != ']'
    ensures r.UnclosedBracket? ==> r.at == i
    ensures p[i] == '^' ==> r == Ok((RegPattern.StartOfLine, i + 1))
    ensures p[i] == '$' ==> r == Ok((RegPattern.EndOfLine, i + 1))
    ensures i + 1 < |p| && p[i] == '\\' && (p[i + 1] == 'd' || p[i + 1] == 'w') ==>
      r == Ok(EscapeToken(p, i))
    ensures i + 1 < |p| && p[i] == '[' ==> r == BracketToken(p, i)
    ensures (&& !(i + 1 < |p| && p[i] == '\\' && (p[i + 1] == 'd' || p[i + 1] == 'w'))
             && !(i + 1 < |p| && p[i] == '[')
             && p[i] != '^' && p[i] != '$')
      ==> r == Ok(SingleToken(p, i))
  {
    if i + 1 < |p| && p[i] == '\\' && (p[i + 1] == 'd' || p[i + 1] == 'w') then
      Ok(EscapeToken(p, i))
    else if i + 1 < |p| && p[i] == '[' then
      BracketToken(p, i)
    else if p[i] == '^' then
      Ok((RegPattern.StartOfLine, i + 1))
    else if p[i] == '$' then
      Ok((RegPattern.EndOfLine, i + 1))
    else
      Ok(SingleToken(p, i))
  }

  /** A token read from `i` to `next`, put in front of the tokens read from
      `next` on, is read from `i` on. */
  lemma ScanCons(p: string, i: nat, next: nat, token: RegPattern, rest: seq<RegPattern>)
    requires i < next <= |p| && RenderToken(token) == p[i..next] && ScannedShape(token)
    requires Render(rest) == p[next..] && |rest| <= |p| - next
    requires forall k :: 0 <= k < |rest| ==> ScannedShape(rest[k])
    ensures Render([token] + rest) == p[i..]
    ensures |[token] + rest| <= |p| - i
    ensures forall k :: 0 <= k < |[token] + rest| ==> ScannedShape(([token] + rest)[k])
  {
    assert p[i..] == p[i..next] + p[next..];
    assert ([token] + rest)[1..] == rest;
  }

  /** The scan loop from index `i` to the end of the pattern. Each
      iteration pushes one token and advances by at least one character, so
      the list is never longer than the text scanned; writing the tokens
      back reproduces that text exactly. */
  function Scan(p: string, i: nat): (r: Result<seq<RegPattern>>)
    requires i <= |p|
    ensures r.Ok? ==> Render(r.value) == p[i..]
    ensures r.Ok? ==> |r.value| <= |p| - i
    ensures r.Ok? ==> forall k :: 0 <= k < |r.value| ==> ScannedShape(r.value[k])
    ensures r.UnclosedBracket? ==>
      i <= r.at && r.at + 1 < |p| && p[r.at] == '[' && forall k :: r.at <= k < |p| ==> p[k] != ']'
    decreases |p| - i
  {
    if i == |p| then Ok([])
    else
      match NextToken(p, i)
      case UnclosedBracket(at) => UnclosedBracket(at)
      case Ok((token, next)) =>
        match Scan(p, next)
        case UnclosedBracket(at) => UnclosedBracket(at)
        case Ok(rest) =>
          ScanCons(p, i, next, token, rest);
          Ok([token] + rest)
  }

  /** `patterns_to_vec`: the whole pattern scanned into tokens. */
  function PatternsToVec(pattern: string): (r: Result<seq<RegPattern>>)
    ensures r.Ok? ==> Render(r.value) == pattern && |r.value| <= |pattern|
    ensures r.Ok? ==> forall k :: 0 <= k < |r.value| ==> ScannedShape(r.value[k])
    ensures r.UnclosedBracket? ==>
      r.at + 1 < |pattern| && pattern[r.at] == '[' && forall k :: r.at <= k < |pattern| ==> pattern[k] != ']'
  {
    Scan(pattern, 0)
  }
}
