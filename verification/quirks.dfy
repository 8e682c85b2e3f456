/** Concrete inputs that pin down the tokenizer's and the matcher's quirks. */
module Quirks {
  import opened Pattern
  import opened Utils
  import opened Matcher
  import opened UtilsProps

  /** `?` after a character is read as `Star`, and `+` as `Plus`. */
  lemma QuestionMarkIsStar()
    ensures PatternsToVec("a?") == Ok([RegPattern.Literal('a', Star)])
    ensures PatternsToVec("\\d+") == Ok([RegPattern.Digit(Plus)])
  {
    PatternsToVecOfRender([RegPattern.Literal('a', Star)]);
    PatternsToVecOfRender([RegPattern.Digit(Plus)]);
  }

  /** `*` is not a quantifier: it becomes a literal of its own. */
  lemma AsteriskIsLiteral()
    ensures PatternsToVec("a*") == Ok([RegPattern.Literal('a', Repetition.None), RegPattern.Literal('*', Repetition.None)])
  {
    PatternsToVecOfRender([RegPattern.Literal('a', Repetition.None), RegPattern.Literal('*', Repetition.None)]);
  }

  /** A quantifier after a bracket group is not attached to it: it is left
      for the next iteration and read as a literal. */
  lemma BracketQuantifierIsLiteral()
    ensures PatternsToVec("[ab]+") ==
      Ok([RegPattern.PositiveGroup("ab", Repetition.None), RegPattern.Literal('+', Repetition.None)])
    ensures PatternsToVec("[^x]") == Ok([RegPattern.NegativeGroup("x", Repetition.None)])
  {
    var p := "[ab]+";
    PositiveGroupText("ab", p, 0, "+", 4);
    assert Scan(p, 5) == Ok([]);
    ScanStep(p, 4, RegPattern.Literal('+', Repetition.None), 5, []);
    assert [RegPattern.Literal('+', Repetition.None)] + [] == [RegPattern.Literal('+', Repetition.None)];
    ScanStep(p, 0, RegPattern.PositiveGroup("ab", Repetition.None), 4, [RegPattern.Literal('+', Repetition.None)]);
    assert [RegPattern.PositiveGroup("ab", Repetition.None)] + [RegPattern.Literal('+', Repetition.None)]
      == [RegPattern.PositiveGroup("ab", Repetition.None), RegPattern.Literal('+', Repetition.None)];
    var q := "[^x]";
    NegativeGroupText("x", q, 0, "", 4);
    assert Scan(q, 4) == Ok([]);
    ScanStep(q, 0, RegPattern.NegativeGroup("x", Repetition.None), 4, []);
    assert [RegPattern.NegativeGroup("x", Repetition.None)] + [] == [RegPattern.NegativeGroup("x", Repetition.None)];
  }

  /** A `\` or `[` in the last position is a literal; a `[` earlier without
      a `]` after it panics. */
  lemma TrailingEscapeIsLiteral()
    ensures PatternsToVec("a\\") == Ok([RegPattern.Literal('a', Repetition.None), RegPattern.Literal('\\', Repetition.None)])
    ensures PatternsToVec("a[") == Ok([RegPattern.Literal('a', Repetition.None), RegPattern.Literal('[', Repetition.None)])
    ensures PatternsToVec("[ab").UnclosedBracket?
  {
    var p := "a\\";
    assert Scan(p, 2) == Ok([]);
    ScanStep(p, 1, RegPattern.Literal('\\', Repetition.None), 2, []);
    assert [RegPattern.Literal('\\', Repetition.None)] + [] == [RegPattern.Literal('\\', Repetition.None)];
    ScanStep(p, 0, RegPattern.Literal('a', Repetition.None), 1, [RegPattern.Literal('\\', Repetition.None)]);
    assert [RegPattern.Literal('a', Repetition.None)] + [RegPattern.Literal('\\', Repetition.None)]
      == [RegPattern.Literal('a', Repetition.None), RegPattern.Literal('\\', Repetition.None)];
    var q := "a[";
    assert Scan(q, 2) == Ok([]);
    ScanStep(q, 1, RegPattern.Literal('[', Repetition.None), 2, []);
    assert [RegPattern.Literal('[', Repetition.None)] + [] == [RegPattern.Literal('[', Repetition.None)];
    ScanStep(q, 0, RegPattern.Literal('a', Repetition.None), 1, [RegPattern.Literal('[', Repetition.None)]);
    assert [RegPattern.Literal('a', Repetition.None)] + [RegPattern.Literal('[', Repetition.None)] == [RegPattern.Literal('a', Repetition.None), RegPattern.Literal('[', Repetition.None)];
    PatternsToVecPanics("[ab");
  }

  /** The children of `^abc$`. */
  function AnchoredAbc(): seq<RegexAst> {
    [RegexAst.StartOfLine, RegexAst.Literal('a'), RegexAst.Literal('b'), RegexAst.Literal('c'), RegexAst.EndOfLine]
  }

  /** `^abc$` matches `abc`, ending at its end. */
  lemma AnchoredAbcMatches()
    ensures CaptureFree(Concat(AnchoredAbc()))
    ensures Solve("abc", Concat(AnchoredAbc()), 0, false) == 3
  {
    var ns, s := AnchoredAbc(), "abc";
    assert CaptureFree(Concat(ns));
    assert ns[5..] == [];
    assert Thread(s, ns[4..], 3) == 3 by { assert ns[4..][1..] == ns[5..]; }
    assert Thread(s, ns[3..], 2) == 3 by { assert ns[3..][1..] == ns[4..]; }
    assert Thread(s, ns[2..], 1) == 3 by { assert ns[2..][1..] == ns[3..]; }
    assert Thread(s, ns[1..], 0) == 3 by { assert ns[1..][1..] == ns[2..]; }
    assert Thread(s, ns, 0) == 3;
  }

  /** From any start but 0 the `^` of `^abc$` fails, on any line. */
  lemma AnchoredAbcLateStart(t: string, k: nat)
    requires |t| < INF && 0 < k
    ensures AllCaptureFree(AnchoredAbc())
    ensures Thread(t, AnchoredAbc(), k) == INF
  {
    var ns := AnchoredAbc();
    assert Solve(t, ns[0], k, true) == INF;
  }

  /** `^abc$` does not match `xabc`: only start 0 passes `^`, and from there
      `a` fails. */
  lemma AnchoredAbcRejectsPrefix()
    ensures CaptureFree(Concat(AnchoredAbc()))
    ensures !MatchPattern("xabc", Concat(AnchoredAbc()))
  {
    var ns, x := AnchoredAbc(), "xabc";
    assert CaptureFree(Concat(ns));
    forall k: nat | 0 < k ensures Thread(x, ns, k) == INF { AnchoredAbcLateStart(x, k); }
    assert Thread(x, ns[1..], 0) == INF;
    assert Thread(x, ns, 0) == INF;
    assert SearchConcat(x, ns, 4) == INF;
    assert SearchConcat(x, ns, 3) == INF;
    assert SearchConcat(x, ns, 2) == INF;
    assert SearchConcat(x, ns, 1) == INF;
    assert SearchConcat(x, ns, 0) == INF;
  }

  /** `^abc$` does not match `abcx`: from start 0 the `$` fails at the `x`. */
  lemma AnchoredAbcRejectsSuffix()
    ensures CaptureFree(Concat(AnchoredAbc()))
    ensures !MatchPattern("abcx", Concat(AnchoredAbc()))
  {
    var ns, y := AnchoredAbc(), "abcx";
    assert CaptureFree(Concat(ns));
    forall k: nat | 0 < k ensures Thread(y, ns, k) == INF { AnchoredAbcLateStart(y, k); }
    assert ns[5..] == [];
    assert Thread(y, ns[4..], 3) == INF;
    assert Thread(y, ns[3..], 2) == INF by { assert ns[3..][1..] == ns[4..]; }
    assert Thread(y, ns[2..], 1) == INF by { assert ns[2..][1..] == ns[3..]; }
    assert Thread(y, ns[1..], 0) == INF by { assert ns[1..][1..] == ns[2..]; }
    assert Thread(y, ns, 0) == INF;
    assert SearchConcat(y, ns, 4) == INF;
    assert SearchConcat(y, ns, 3) == INF;
    assert SearchConcat(y, ns, 2) == INF;
    assert SearchConcat(y, ns, 1) == INF;
    assert SearchConcat(y, ns, 0) == INF;
  }

  /** At the end of the input the early return overrides the composite
      nodes: `Repeat($, None)` and `Alternate([$])` fail on the empty line
      although `$` itself matches there. */
  lemma CompositesFailAtEnd()
    ensures CaptureFree(Repeat(RegexAst.EndOfLine, Repetition.None))
    ensures CaptureFree(Alternate([RegexAst.EndOfLine]))
    ensures MatchPattern("", RegexAst.EndOfLine)
    ensures !MatchPattern("", Repeat(RegexAst.EndOfLine, Repetition.None))
    ensures !MatchPattern("", Alternate([RegexAst.EndOfLine]))
  {
  }

  /** The repetitions other than `None` are unimplemented before the end of
      the line: `Repeat(Literal('a'), Star)` matches the empty line but not
      `b`, although zero
      repetitions of `a` would do. */
  lemma StarOnlyAtEnd()
    ensures CaptureFree(Repeat(RegexAst.Literal('a'), Star))
    ensures MatchPattern("", Repeat(RegexAst.Literal('a'), Star))
    ensures !MatchPattern("b", Repeat(RegexAst.Literal('a'), Star))
  {
  }

  /** The alternation of `Literal('a')` and `Concat([Literal('a'),
      Literal('b')])`, followed by `Literal('c')`. */
  function AltThenC(): seq<RegexAst> {
    [Alternate([RegexAst.Literal('a'), Concat([RegexAst.Literal('a'), RegexAst.Literal('b')])]), RegexAst.Literal('c')]
  }

  /** The search does not backtrack into an alternation: `Concat(AltThenC())`
      does not match `abc`, because the alternation commits to its smallest
      end (after `a`) and `Literal('c')` then fails at `b`; with the longer
      branch written alone, `Concat([Concat([Literal('a'), Literal('b')]),
      Literal('c')])` does match. */
  lemma AlternationMissesMatch()
    ensures CaptureFree(Concat(AltThenC()))
    ensures !MatchPattern("abc", Concat(AltThenC()))
    ensures CaptureFree(Concat([Concat([RegexAst.Literal('a'), RegexAst.Literal('b')]), RegexAst.Literal('c')]))
    ensures MatchPattern("abc", Concat([Concat([RegexAst.Literal('a'), RegexAst.Literal('b')]), RegexAst.Literal('c')]))
  {
    var ns, s := AltThenC(), "abc";
    var alt, ab := ns[0], ns[0].branches[1];
    assert CaptureFree(Concat(ns));
    assert Solve(s, ab, 0, true) == 2 by {
      assert Thread(s, ab.nodes[1..], 1) == 2 by { assert ab.nodes[1..][1..] == []; }
    }
    assert Solve(s, alt, 0, true) == 1 by {
      assert alt.branches[1..][1..] == [];
    }
    assert Thread(s, ns, 0) == INF;
    assert Solve(s, ab, 1, true) == INF;
    assert Solve(s, alt, 1, true) == INF by { assert alt.branches[1..][1..] == []; }
    assert Thread(s, ns, 1) == INF;
    assert Solve(s, ab, 2, true) == INF;
    assert Solve(s, alt, 2, true) == INF by { assert alt.branches[1..][1..] == []; }
    assert Thread(s, ns, 2) == INF;
    assert Thread(s, ns, 3) == INF;
    assert SearchConcat(s, ns, 3) == INF;
    assert SearchConcat(s, ns, 2) == INF;
    assert SearchConcat(s, ns, 1) == INF;
    assert SearchConcat(s, ns, 0) == INF;
    var ms := [Concat([RegexAst.Literal('a'), RegexAst.Literal('b')]), RegexAst.Literal('c')];
    assert CaptureFree(Concat(ms));
    assert Thread(s, ms[1..], 2) == 3 by { assert ms[1..][1..] == []; }
    assert Solve(s, ms[0], 0, true) == 2 by {
      assert Thread(s, ms[0].nodes[1..], 1) == 2 by { assert ms[0].nodes[1..][1..] == []; }
    }
    assert Thread(s, ms, 0) == 3;
  }

  /** The alternation of `Concat([Literal('a'), Wildcard, Wildcard,
      Wildcard])` and `Literal('b')`: a four-character branch and a
      one-character branch. */
  function LongOrB(): RegexAst {
    Alternate([Concat([RegexAst.Literal('a'), RegexAst.Wildcard, RegexAst.Wildcard, RegexAst.Wildcard]),
               RegexAst.Literal('b')])
  }

  /** The result is the end of the match from the leftmost start, not the
      smallest end of any match: on `abxx` the search ends at 4 (from start
      0), although the branch `b` matches from start 1 and ends at 2. */
  lemma LeftmostNotShortest()
    ensures CaptureFree(Concat([LongOrB()]))
    ensures Solve("abxx", Concat([LongOrB()]), 0, false) == 4
    ensures Thread("abxx", [LongOrB()], 1) == 2
  {
    var s, alt := "abxx", LongOrB();
    var long := alt.branches[0];
    assert CaptureFree(Concat([alt]));
    assert Solve(s, long, 0, true) == 4 by {
      var ns := long.nodes;
      assert ns[3..][1..] == [];
      assert Thread(s, ns[3..], 3) == 4;
      assert ns[2..][1..] == ns[3..];
      assert Thread(s, ns[2..], 2) == 4;
      assert ns[1..][1..] == ns[2..];
      assert Thread(s, ns[1..], 1) == 4;
      assert Thread(s, ns, 0) == 4;
    }
    assert alt.branches[1..][1..] == [];
    assert Solve(s, alt, 0, true) == 4;
    assert [alt][1..] == [];
    assert Thread(s, [alt], 0) == 4;
    assert SearchConcat(s, [alt], 0) == 4;
    assert Solve(s, long, 1, true) == INF;
    assert Solve(s, alt, 1, true) == 2;
  }
}
