/** Properties of the tokenizer of src/utils.rs that relate several calls:
    the scan and `Render` are inverse to each other on the tokens the scan can
    produce back, and the scan panics exactly when some `[` (not in the last
    position) has no `]` anywhere after it. */
module UtilsProps {
  import opened Pattern
  import opened Utils

  /** Tokens that the scanner reads back unchanged from their own text: no
      `Optional` (it has no spelling), no quantifier on a group, no `]`
      inside a group, no leading `^` in a plain group, and no literal that
      the scanner would read as the start of something else or as a
      quantifier. */
  predicate Printable(t: RegPattern) {
    match t
    case Digit(r) => r != Optional
    case Word(r) => r != Optional
    case Wildcard(r) => r != Optional
    case Literal(c, r) =>
      && r != Optional
      && c != '\\' && c != '[' && c != '^' && c != '$' && c != '.' && c != '?' && c != '+'
    case PositiveGroup(g, r) => r == Repetition.None && ']' !in g && (g == [] || g[0] != '^')
    case NegativeGroup(g, r) => r == Repetition.None && ']' !in g
    case StartOfLine => true
    case EndOfLine => true
  }

  /** The text of a printable token is never empty and never starts with a
      quantifier character, so it cannot be swallowed by the token before. */
  lemma RenderTokenHead(t: RegPattern)
    requires Printable(t)
    ensures |RenderToken(t)| > 0 && RenderToken(t)[0] != '?' && RenderToken(t)[0] != '+'
  {
  }

  /** Where `p[i..]` is `s + rest`, the characters of `p` from `i` on are
      those of `s` and then those of `rest`. */
  lemma SplitAt(p: string, i: nat, s: string, rest: string)
    requires i <= |p| && p[i..] == s + rest
    ensures |p| == i + |s| + |rest|
    ensures forall k :: 0 <= k < |s| ==> p[i + k] == s[k]
    ensures forall k :: 0 <= k < |rest| ==> p[i + |s| + k] == rest[k]
  {
    forall k | 0 <= k < |s| ensures p[i + k] == s[k] {
      assert p[i..][k] == (s + rest)[k];
    }
    forall k | 0 <= k < |rest| ensures p[i + |s| + k] == rest[k] {
      assert p[i..][|s| + k] == (s + rest)[|s| + k];
    }
  }

  /** Where `p[i..]` is `open + g + "]" + rest`, the characters of `open`
      and `g` sit from `i` on and the `]` right after them. */
  lemma GroupLayout(p: string, i: nat, open: string, g: string, rest: string)
    requires i <= |p| && p[i..] == open + g + "]" + rest
    ensures i + |open| + |g| < |p| && p[i + |open| + |g|] == ']'
    ensures forall k :: 0 <= k < |open| ==> p[i + k] == open[k]
    ensures forall k :: 0 <= k < |g| ==> p[i + |open| + k] == g[k]
    ensures p[i + |open|..i + |open| + |g|] == g
  {
    var text := open + g + "]";
    SplitAt(p, i, text, rest);
    assert p[i + |open| + |g|] == text[|open| + |g|];
    forall k | 0 <= k < |open| ensures p[i + k] == open[k] { assert text[k] == open[k]; }
    forall k | 0 <= k < |g| ensures p[i + |open| + k] == g[k] { assert text[|open| + k] == g[k]; }
  }

  /** `FindFrom` stops at the first occurrence. */
  lemma FindFirst(s: string, from: nat, at: nat, c: char)
    requires from <= at < |s| && s[at] == c
    requires forall k :: from <= k < at ==> s[k] != c
    ensures FindFrom(s, from, c) == At(at)
  {
  }

  /** The characters of a text without `]`, placed from `start` on, are no
      `]` either. */
  lemma GroupBody(p: string, start: nat, g: string)
    requires start + |g| <= |p| && ']' !in g
    requires forall k :: 0 <= k < |g| ==> p[start + k] == g[k]
    ensures forall k :: start <= k < start + |g| ==> p[k] != ']'
  {
    forall k | start <= k < start + |g| ensures p[k] != ']' {
      assert p[start + (k - start)] == g[k - start];
    }
  }

  /** The bracket branch once the first `]` is known. */
  lemma BracketTokenAt(p: string, i: nat, close: nat)
    requires i + 1 < |p| && p[i] == '['
    requires FindFrom(p, i, ']') == At(close)
    ensures close == i + 1 ==>
      BracketToken(p, i) == Ok((RegPattern.PositiveGroup([], Repetition.None), close + 1))
    ensures close != i + 1 ==> BracketToken(p, i) == Ok(ClosedGroup(p, i, close))
  {
  }

  /** The group `ClosedGroup` builds, spelled out: its text without the
      brackets (and without the `^` of a negated group), and no quantifier. */
  lemma ClosedGroupValue(p: string, i: nat, close: nat)
    requires i + 1 < close < |p| && p[i] == '[' && p[close] == ']' && p[i + 1] != ']'
    ensures p[i + 1] == '^' ==>
      ClosedGroup(p, i, close) == (RegPattern.NegativeGroup(p[i + 2..close], Repetition.None), close + 1)
    ensures p[i + 1] != '^' ==>
      ClosedGroup(p, i, close) == (RegPattern.PositiveGroup(p[i + 1..close], Repetition.None), close + 1)
  {
  }

  /** Reading `[g]` followed by anything gives the plain group `g`. */
  lemma PositiveGroupText(g: string, p: string, i: nat, rest: string, next: nat)
    requires ']' !in g && (g == [] || g[0] != '^')
    requires i <= |p| && p[i..] == "[" + g + "]" + rest
    requires next == i + |g| + 2
    ensures i + 1 < |p| && p[i] == '['
    ensures BracketToken(p, i) == Ok((RegPattern.PositiveGroup(g, Repetition.None), next))
    ensures NextToken(p, i) == Ok((RegPattern.PositiveGroup(g, Repetition.None), next))
  {
    GroupLayout(p, i, "[", g, rest);
    var close := i + |g| + 1;
    GroupBody(p, i + 1, g);
    assert p[i] == '[';
    FindFirst(p, i, close, ']');
    BracketTokenAt(p, i, close);
    if g != [] {
      assert p[i + 1] == g[0];
      ClosedGroupValue(p, i, close);
    }
  }

  /** Reading `[^g]` followed by anything gives the negated group `g`. */
  lemma NegativeGroupText(g: string, p: string, i: nat, rest: string, next: nat)
    requires ']' !in g
    requires i <= |p| && p[i..] == "[^" + g + "]" + rest
    requires next == i + |g| + 3
    ensures i + 1 < |p| && p[i] == '['
    ensures BracketToken(p, i) == Ok((RegPattern.NegativeGroup(g, Repetition.None), next))
    ensures NextToken(p, i) == Ok((RegPattern.NegativeGroup(g, Repetition.None), next))
  {
    GroupLayout(p, i, "[^", g, rest);
    var close := i + |g| + 2;
    GroupBody(p, i + 2, g);
    assert p[i] == '[' && p[i + 1] == '^';
    FindFirst(p, i, close, ']');
    BracketTokenAt(p, i, close);
    ClosedGroupValue(p, i, close);
  }

  /** The bracket case of `NextTokenOfRender` for a plain group. */
  lemma PositiveGroupOfRender(t: RegPattern, p: string, i: nat, rest: string, next: nat)
    requires t.PositiveGroup? && Printable(t)
    requires i <= |p| && p[i..] == RenderToken(t) + rest
    requires next == i + |RenderToken(t)|
    ensures NextToken(p, i) == Ok((t, next))
  {
    var g := t.group;
    assert t == RegPattern.PositiveGroup(g, Repetition.None);
    assert |RenderToken(t)| == |g| + 2;
    PositiveGroupText(g, p, i, rest, next);
  }

  /** The bracket case of `NextTokenOfRender` for a negated group. */
  lemma NegativeGroupOfRender(t: RegPattern, p: string, i: nat, rest: string, next: nat)
    requires t.NegativeGroup? && Printable(t)
    requires i <= |p| && p[i..] == RenderToken(t) + rest
    requires next == i + |RenderToken(t)|
    ensures NextToken(p, i) == Ok((t, next))
  {
    var g := t.group;
    assert t == RegPattern.NegativeGroup(g, Repetition.None);
    assert |RenderToken(t)| == |g| + 3;
    NegativeGroupText(g, p, i, rest, next);
  }

  /** The quantifier read after index `last` is the one whose spelling
      follows it, when the text after that spelling does not start with a
      quantifier character. */
  lemma SuffixOfRender(r: Repetition, p: string, last: nat, rest: string)
    requires r != Optional
    requires last < |p| && p[last + 1..] == RepSuffix(r) + rest
    requires rest == [] || (rest[0] != '?' && rest[0] != '+')
    ensures GetRepetitionType(p, last) == r
  {
    SplitAt(p, last + 1, RepSuffix(r), rest);
  }

  /** The `\d` / `\w` case of `NextTokenOfRender`. */
  lemma EscapeOfRender(t: RegPattern, p: string, i: nat, rest: string, next: nat)
    requires (t.Digit? || t.Word?) && Printable(t)
    requires i <= |p| && p[i..] == RenderToken(t) + rest
    requires rest == [] || (rest[0] != '?' && rest[0] != '+')
    requires next == i + |RenderToken(t)|
    ensures i + 1 < |p| && p[i] == '\\' && (p[i + 1] == 'd' || p[i + 1] == 'w')
    ensures EscapeToken(p, i) == (t, next)
    ensures NextToken(p, i) == Ok((t, next))
  {
    var head := if t.Digit? then "\\d" else "\\w";
    assert RenderToken(t) == head + RepSuffix(t.rep);
    SplitAt(p, i, head, RepSuffix(t.rep) + rest);
    assert p[i + 2..] == RepSuffix(t.rep) + rest by {
      assert p[i + 2..] == p[i..][2..];
    }
    SuffixOfRender(t.rep, p, i + 1, rest);
  }

  /** The literal and wildcard case of `NextTokenOfRender`. */
  lemma SingleOfRender(t: RegPattern, p: string, i: nat, rest: string, next: nat)
    requires (t.Literal? || t.Wildcard?) && Printable(t)
    requires i <= |p| && p[i..] == RenderToken(t) + rest
    requires rest == [] || (rest[0] != '?' && rest[0] != '+')
    requires next == i + |RenderToken(t)|
    ensures i < |p| && p[i] == (if t.Literal? then t.c else '.')
    ensures SingleToken(p, i) == (t, next)
    ensures NextToken(p, i) == Ok((t, next))
  {
    var head := if t.Literal? then [t.c] else ".";
    assert RenderToken(t) == head + RepSuffix(t.rep);
    SplitAt(p, i, head, RepSuffix(t.rep) + rest);
    assert p[i + 1..] == RepSuffix(t.rep) + rest by {
      assert p[i + 1..] == p[i..][1..];
    }
    SuffixOfRender(t.rep, p, i, rest);
  }

  /** Scanning the text of a printable token, followed by anything that does
      not start with a quantifier, yields that token and resumes right after
      its text. */
  lemma NextTokenOfRender(t: RegPattern, p: string, i: nat, rest: string, next: nat)
    requires Printable(t)
    requires i <= |p| && p[i..] == RenderToken(t) + rest
    requires rest == [] || (rest[0] != '?' && rest[0] != '+')
    requires next == i + |RenderToken(t)|
    ensures i < |p| && next <= |p|
    ensures NextToken(p, i) == Ok((t, next))
  {
    if t.PositiveGroup? {
      PositiveGroupOfRender(t, p, i, rest, next);
    } else if t.NegativeGroup? {
      NegativeGroupOfRender(t, p, i, rest, next);
    } else if t.Digit? || t.Word? {
      EscapeOfRender(t, p, i, rest, next);
    } else if t.Literal? || t.Wildcard? {
      SingleOfRender(t, p, i, rest, next);
    } else {
      assert p[i] == p[i..][0];
    }
  }

  /** One turn of the scan loop: a token read at `i` followed by the
      tokens read from where it stops. */
  lemma ScanStep(p: string, i: nat, t: RegPattern, next: nat, rest: seq<RegPattern>)
    requires i < |p| && next <= |p|
    requires NextToken(p, i) == Ok((t, next))
    requires Scan(p, next) == Ok(rest)
    ensures Scan(p, i) == Ok([t] + rest)
  {
  }

  predicate AllPrintable(ts: seq<RegPattern>) {
    forall k :: 0 <= k < |ts| ==> Printable(ts[k])
  }

  /** The text of a list of printable tokens does not start with a
      quantifier character. */
  lemma RenderHead(ts: seq<RegPattern>)
    requires AllPrintable(ts)
    ensures Render(ts) == [] || (Render(ts)[0] != '?' && Render(ts)[0] != '+')
  {
    if ts != [] {
      RenderTokenHead(ts[0]);
      assert Render(ts) == RenderToken(ts[0]) + Render(ts[1..]);
    }
  }

  /** Where `p[i..]` is `head + rest`, the text from `i + |head|` is `rest`. */
  lemma SuffixAfter(p: string, i: nat, head: string, rest: string)
    requires i <= |p| && p[i..] == head + rest
    ensures i + |head| <= |p| && p[i + |head|..] == rest
  {
    assert p[i + |head|..] == p[i..][|head|..];
  }

  /** A non-empty list splits into its first token and a printable rest. */
  lemma SplitFirst(ts: seq<RegPattern>)
    requires ts != [] && AllPrintable(ts)
    ensures Printable(ts[0]) && AllPrintable(ts[1..])
    ensures Render(ts) == RenderToken(ts[0]) + Render(ts[1..])
    ensures ts == [ts[0]] + ts[1..]
  {
    forall k | 0 <= k < |ts[1..]| ensures Printable(ts[1..][k]) { assert ts[1..][k] == ts[k + 1]; }
  }

  /** One turn of the scan over the text of a printable token followed by
      text that does not start with a quantifier: the token read there heads
      whatever the scan reads after its text. */
  lemma ScanConsOfRender(t: RegPattern, p: string, i: nat, rest: string, next: nat, tail: seq<RegPattern>)
    requires Printable(t)
    requires i <= |p| && p[i..] == RenderToken(t) + rest
    requires rest == [] || (rest[0] != '?' && rest[0] != '+')
    requires next == i + |RenderToken(t)| <= |p| && Scan(p, next) == Ok(tail)
    ensures Scan(p, i) == Ok([t] + tail)
  {
    NextTokenOfRender(t, p, i, rest, next);
    ScanStep(p, i, t, next, tail);
  }

  /** Scanning the text of a list of printable tokens gives back that list. */
  lemma {:induction false} ScanOfRender(ts: seq<RegPattern>, p: string, i: nat)
    requires AllPrintable(ts)
    requires i <= |p| && p[i..] == Render(ts)
    ensures Scan(p, i) == Ok(ts)
    decreases |ts|
  {
    if ts == [] {
      assert |p[i..]| == 0;
    } else {
      var t, more := ts[0], ts[1..];
      SplitFirst(ts);
      RenderHead(more);
      var head, rest := RenderToken(t), Render(more);
      assert p[i..] == head + rest;
      SuffixAfter(p, i, head, rest);
      var next: nat := i + |head|;
      ScanOfRender(more, p, next);
      ScanConsOfRender(t, p, i, rest, next, more);
    }
  }

  /** `patterns_to_vec` read on the text of printable tokens gives them back;
      together with the contract of `PatternsToVec` (the tokens it returns
      are written back as exactly the pattern) the scan is lossless. */
  lemma PatternsToVecOfRender(ts: seq<RegPattern>)
    requires AllPrintable(ts)
    ensures PatternsToVec(Render(ts)) == Ok(ts)
  {
    ScanOfRender(ts, Render(ts), 0);
  }

  /** A bracket with no `]` after it is never inside a token that starts
      earlier: the token stops before it. */
  lemma NextTokenStopsBeforeUnclosed(p: string, i: nat, k: nat)
    requires i < k && k + 1 < |p| && p[k] == '['
    requires forall j :: k <= j < |p| ==> p[j] != ']'
    requires NextToken(p, i).Ok?
    ensures NextToken(p, i).value.1 <= k
  {
  }

  /** The scan from `i` panics whenever some `[` at or after `i`, not in the
      last position, has no `]` after it. */
  lemma {:induction false} ScanPanicsOnUnclosed(p: string, i: nat, k: nat)
    requires i <= k && k + 1 < |p| && p[k] == '['
    requires forall j :: k <= j < |p| ==> p[j] != ']'
    ensures Scan(p, i).UnclosedBracket?
    decreases k - i
  {
    if i < k {
      match NextToken(p, i)
      case UnclosedBracket(_) =>
      case Ok((_, next)) =>
        NextTokenStopsBeforeUnclosed(p, i, k);
        ScanPanicsOnUnclosed(p, next, k);
    }
  }

  /** `patterns_to_vec` panics exactly when the pattern holds a `[`, not in
      the last position, with no `]` anywhere after it. */
  lemma PatternsToVecPanics(p: string)
    ensures PatternsToVec(p).UnclosedBracket? <==>
      exists k :: 0 <= k && k + 1 < |p| && p[k] == '[' && forall j :: k <= j < |p| ==> p[j] != ']'
  {
    if exists k :: 0 <= k && k + 1 < |p| && p[k] == '[' && forall j :: k <= j < |p| ==> p[j] != ']' {
      var k :| 0 <= k && k + 1 < |p| && p[k] == '[' && forall j :: k <= j < |p| ==> p[j] != ']';
      ScanPanicsOnUnclosed(p, 0, k);
    }
  }
}
