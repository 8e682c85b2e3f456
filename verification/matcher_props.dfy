/** Properties of the matcher of src/main.rs, node by node, stated against
    independent descriptions: the first accepting character for the
    one-character nodes in search mode, the first successful start for a
    `Concat` in search mode, the minimum of the branches for an `Alternate`,
    and plain substring matching for a `Concat` of one-character nodes. */
module MatcherProps {
  import opened Pattern
  import opened Matcher
  import Utils

  // ---------------------------------------------------------------------
  // End of input
  // ---------------------------------------------------------------------

  /** At or past the end of the input only `EndOfLine`, a `*` or `?`
      repetition and the empty `Concat` succeed, each at the input length;
      every other node fails, `StartOfLine` on the empty input included. */
  lemma AtEndOfInput(input: string, node: RegexAst, ind: nat, mustMatch: bool)
    requires |input| < INF && CaptureFree(node) && ind >= |input|
    ensures Solve(input, node, ind, mustMatch) ==
      (if node.EndOfLine? || (node.Repeat? && (node.kind == Star || node.kind == Optional))
          || node == Concat([])
       then |input| else INF)
  {
  }

  // ---------------------------------------------------------------------
  // One-character nodes
  // ---------------------------------------------------------------------

  /** In must-match mode a one-character node ends right after the current
      character when that character is accepted, and fails otherwise. */
  lemma CharNodeMustMatch(input: string, node: RegexAst, ind: nat)
    requires |input| < INF && IsCharNode(node)
    ensures Solve(input, node, ind, true) ==
      (if ind < |input| && Accepts(node, input[ind]) then ind + 1 else INF)
  {
  }

  /** In search mode a one-character node ends one past the first accepted
      character at or after `ind`, and fails when there is none. */
  lemma {:induction false} CharNodeSearch(input: string, node: RegexAst, ind: nat)
    requires |input| < INF && IsCharNode(node) && ind <= |input|
    ensures Solve(input, node, ind, false) == INF <==>
      forall j :: ind <= j < |input| ==> !Accepts(node, input[j])
    ensures Solve(input, node, ind, false) != INF ==>
      var r := Solve(input, node, ind, false);
      ind < r <= |input| && Accepts(node, input[r - 1])
      && forall j :: ind <= j < r - 1 ==> !Accepts(node, input[j])
    decreases |input| - ind
  {
    if ind < |input| {
      CharNodeSearch(input, node, ind + 1);
    }
  }

  /** Before the end of the input a wildcard ends right after the current
      character in both modes: the minimum taken in search mode always picks
      `ind + 1`. */
  lemma WildcardBeforeEnd(input: string, ind: nat, mustMatch: bool)
    requires |input| < INF && ind < |input|
    ensures Solve(input, RegexAst.Wildcard, ind, mustMatch) == ind + 1
  {
  }

  // ---------------------------------------------------------------------
  // Anchors
  // ---------------------------------------------------------------------

  /** `StartOfLine` succeeds, consuming nothing, only at index 0 of a
      non-empty input, in both modes. */
  lemma {:induction false} StartOfLineSolve(input: string, ind: nat, mustMatch: bool)
    requires |input| < INF
    ensures Solve(input, RegexAst.StartOfLine, ind, mustMatch) ==
      (if ind == 0 && |input| > 0 then 0 else INF)
    decreases |input| - ind
  {
    if 0 < ind < |input| && !mustMatch {
      StartOfLineSolve(input, ind + 1, false);
    }
  }

  /** `EndOfLine` in search mode always ends at the input length; in
      must-match mode it fails before the end. */
  lemma {:induction false} EndOfLineSolve(input: string, ind: nat, mustMatch: bool)
    requires |input| < INF
    ensures Solve(input, RegexAst.EndOfLine, ind, mustMatch) ==
      (if !mustMatch || ind >= |input| then |input| else INF)
    decreases |input| - ind
  {
    if ind < |input| && !mustMatch {
      EndOfLineSolve(input, ind + 1, false);
    }
  }

  // ---------------------------------------------------------------------
  // Concat
  // ---------------------------------------------------------------------

  /** The empty `Concat` matches the empty string wherever it is tried. */
  lemma EmptyConcat(input: string, ind: nat, mustMatch: bool)
    requires |input| < INF && ind <= |input|
    ensures Solve(input, Concat([]), ind, mustMatch) == ind
  {
  }

  /** Threading through `a + b` is threading through `a` and then, from
      where `a` ended, through `b`; a failure in `a` is final. */
  lemma {:induction false} ThreadAppend(input: string, a: seq<RegexAst>, b: seq<RegexAst>, pos: nat)
    requires |input| < INF && AllCaptureFree(a) && AllCaptureFree(b) && pos <= |input|
    ensures AllCaptureFree(a + b)
    ensures Thread(input, a + b, pos) ==
      (var mid := Thread(input, a, pos); if mid == INF then INF else Thread(input, b, mid))
    decreases |a|
  {
    if a == [] {
      assert a + b == b;
    } else {
      assert (a + b)[0] == a[0];
      assert (a + b)[1..] == a[1..] + b;
      var next := Solve(input, a[0], pos, true);
      if next != INF {
        ThreadAppend(input, a[1..], b, next);
      }
    }
  }

  /** In must-match mode a non-empty `Concat` before the end of the input is
      its children threaded from `ind`; in particular it fails as soon as a
      prefix of the children fails. */
  lemma ConcatMustMatch(input: string, nodes: seq<RegexAst>, k: nat, ind: nat)
    requires |input| < INF && CaptureFree(Concat(nodes)) && |nodes| > 0 && ind < |input|
    requires k <= |nodes|
    ensures Solve(input, Concat(nodes), ind, true) == Thread(input, nodes, ind)
    ensures Thread(input, nodes[..k], ind) == INF ==> Solve(input, Concat(nodes), ind, true) == INF
  {
    assert nodes == nodes[..k] + nodes[k..];
    ThreadAppend(input, nodes[..k], nodes[k..], ind);
  }

  /** `s` is the first start at or after `from` (and not past the end of
      the input) from which `nodes` all match in turn. */
  predicate IsFirstStart(input: string, nodes: seq<RegexAst>, from: nat, s: nat)
    requires |input| < INF && AllCaptureFree(nodes)
  {
    && from <= s <= |input|
    && Thread(input, nodes, s) != INF
    && forall u :: from <= u < s ==> Thread(input, nodes, u) == INF
  }

  /** The search over starts returns the threaded end from the first start
      in `start..=|input|` from which the children all match, and fails
      exactly when no start works. */
  lemma {:induction false} SearchConcatFirstStart(input: string, nodes: seq<RegexAst>, start: nat)
    requires |input| < INF && AllCaptureFree(nodes)
    ensures SearchConcat(input, nodes, start) == INF <==>
      forall s :: start <= s <= |input| ==> Thread(input, nodes, s) == INF
    ensures SearchConcat(input, nodes, start) != INF ==>
      exists s :: IsFirstStart(input, nodes, start, s) && Thread(input, nodes, s) == SearchConcat(input, nodes, start)
    decreases |input| + 1 - start
  {
    if start <= |input| {
      if Thread(input, nodes, start) != INF {
        assert SearchConcat(input, nodes, start) == Thread(input, nodes, start);
        assert IsFirstStart(input, nodes, start, start);
      } else {
        SearchConcatFirstStart(input, nodes, start + 1);
        if SearchConcat(input, nodes, start + 1) != INF {
          var s: nat :| IsFirstStart(input, nodes, start + 1, s)
            && Thread(input, nodes, s) == SearchConcat(input, nodes, start + 1);
          assert IsFirstStart(input, nodes, start, s);
        }
      }
    }
  }

  /** In search mode a non-empty `Concat` before the end of the input ends
      where its children, anchored, end from the smallest start in
      `ind..=|input|` at which they all match, and fails exactly when there
      is no such start. */
  lemma ConcatSearch(input: string, nodes: seq<RegexAst>, ind: nat)
    requires |input| < INF && CaptureFree(Concat(nodes)) && |nodes| > 0 && ind < |input|
    ensures Solve(input, Concat(nodes), ind, false) == INF <==>
      forall s :: ind <= s <= |input| ==> Thread(input, nodes, s) == INF
    ensures Solve(input, Concat(nodes), ind, false) != INF ==>
      exists s :: IsFirstStart(input, nodes, ind, s) && Thread(input, nodes, s) == Solve(input, Concat(nodes), ind, false)
  {
    SearchConcatFirstStart(input, nodes, ind);
  }

  // ---------------------------------------------------------------------
  // A Concat of one-character nodes is substring matching
  // ---------------------------------------------------------------------

  predicate AllCharNodes(nodes: seq<RegexAst>) {
    forall k :: 0 <= k < |nodes| ==> IsCharNode(nodes[k])
  }

  /** The characters of `input` from `s` on are accepted, one by one, by
      `nodes`. */
  predicate WindowMatches(input: string, nodes: seq<RegexAst>, s: nat) {
    s + |nodes| <= |input| && forall k :: 0 <= k < |nodes| ==> Accepts(nodes[k], input[s + k])
  }

  /** Threading one-character nodes from `pos` succeeds exactly when the
      window of input at `pos` is accepted node by node, and then ends right
      after that window. */
  lemma {:induction false} ThreadCharNodes(input: string, nodes: seq<RegexAst>, pos: nat)
    requires |input| < INF && AllCharNodes(nodes) && pos <= |input|
    ensures AllCaptureFree(nodes)
    ensures Thread(input, nodes, pos) ==
      (if WindowMatches(input, nodes, pos) then pos + |nodes| else INF)
    decreases |nodes|
  {
    if nodes != [] {
      CharNodeMustMatch(input, nodes[0], pos);
      if pos < |input| && Accepts(nodes[0], input[pos]) {
        ThreadCharNodes(input, nodes[1..], pos + 1);
        if WindowMatches(input, nodes[1..], pos + 1) {
          forall k | 0 <= k < |nodes| ensures Accepts(nodes[k], input[pos + k]) {
            if k > 0 { assert nodes[k] == nodes[1..][k - 1]; }
          }
        } else if pos + |nodes| <= |input| {
          var k :| 0 <= k < |nodes[1..]| && !Accepts(nodes[1..][k], input[pos + 1 + k]);
          assert !Accepts(nodes[k + 1], input[pos + k + 1]);
        }
      }
    }
  }

  /** A non-empty `Concat` of one-character nodes matches a line exactly when
      some window of the line is accepted node by node, and the match ends
      after the leftmost such window. */
  lemma CharStringMatch(input: string, nodes: seq<RegexAst>)
    requires |input| < INF && AllCharNodes(nodes) && |nodes| > 0
    ensures CaptureFree(Concat(nodes))
    ensures MatchPattern(input, Concat(nodes)) <==>
      exists s :: 0 <= s && WindowMatches(input, nodes, s)
    ensures MatchPattern(input, Concat(nodes)) ==>
      exists s :: 0 <= s && WindowMatches(input, nodes, s)
        && Solve(input, Concat(nodes), 0, false) == s + |nodes|
        && forall u :: 0 <= u < s ==> !WindowMatches(input, nodes, u)
  {
    ThreadCharNodes(input, nodes, 0);
    assert CaptureFree(Concat(nodes));
    forall s | 0 <= s <= |input| ensures Thread(input, nodes, s) ==
      (if WindowMatches(input, nodes, s) then s + |nodes| else INF)
    {
      ThreadCharNodes(input, nodes, s);
    }
    if |input| > 0 {
      ConcatSearch(input, nodes, 0);
      var r := Solve(input, Concat(nodes), 0, false);
      if r != INF {
        var s: nat :| IsFirstStart(input, nodes, 0, s) && Thread(input, nodes, s) == r;
        assert WindowMatches(input, nodes, s);
        forall u | 0 <= u < s ensures !WindowMatches(input, nodes, u) {
          assert Thread(input, nodes, u) == INF;
        }
      } else {
        forall s | 0 <= s ensures !WindowMatches(input, nodes, s) {
          if s <= |input| { assert Thread(input, nodes, s) == INF; }
        }
      }
    }
  }

  // ---------------------------------------------------------------------
  // Alternate and Repeat
  // ---------------------------------------------------------------------

  /** The fold over the branches is the minimum of the starting value and
      every branch result, and is one of them. */
  lemma {:induction false} AltMinIsMinimum(input: string, branches: seq<RegexAst>, ind: nat, mustMatch: bool, acc: nat)
    requires |input| < INF && AllCaptureFree(branches)
    ensures forall k :: 0 <= k < |branches| ==>
      AltMin(input, branches, ind, mustMatch, acc) <= Solve(input, branches[k], ind, mustMatch)
    ensures AltMin(input, branches, ind, mustMatch, acc) == acc
      || exists k :: 0 <= k < |branches|
           && AltMin(input, branches, ind, mustMatch, acc) == Solve(input, branches[k], ind, mustMatch)
    decreases |branches|
  {
    if branches != [] {
      var acc' := Min(acc, Solve(input, branches[0], ind, mustMatch));
      AltMinIsMinimum(input, branches[1..], ind, mustMatch, acc');
      var r := AltMin(input, branches, ind, mustMatch, acc);
      forall k | 0 <= k < |branches| ensures r <= Solve(input, branches[k], ind, mustMatch) {
        if k > 0 { assert branches[k] == branches[1..][k - 1]; }
      }
      if r != acc && r != Solve(input, branches[0], ind, mustMatch) {
        var k :| 0 <= k < |branches[1..]| && r == Solve(input, branches[1..][k], ind, mustMatch);
        assert branches[1..][k] == branches[k + 1];
      }
    }
  }

  /** Before the end of the input an `Alternate` gives the smallest of its
      branch results, in either mode: it fails exactly when every branch
      fails, and otherwise ends where some branch ends. */
  lemma AlternateSolve(input: string, branches: seq<RegexAst>, ind: nat, mustMatch: bool)
    requires |input| < INF && CaptureFree(Alternate(branches)) && ind < |input|
    ensures forall k :: 0 <= k < |branches| ==>
      Solve(input, Alternate(branches), ind, mustMatch) <= Solve(input, branches[k], ind, mustMatch)
    ensures Solve(input, Alternate(branches), ind, mustMatch) == INF <==>
      forall k :: 0 <= k < |branches| ==> Solve(input, branches[k], ind, mustMatch) == INF
    ensures Solve(input, Alternate(branches), ind, mustMatch) != INF ==>
      exists k :: 0 <= k < |branches|
        && Solve(input, Alternate(branches), ind, mustMatch) == Solve(input, branches[k], ind, mustMatch)
  {
    AltMinIsMinimum(input, branches, ind, mustMatch, INF);
  }

  /** Before the end of the input `Repeat(sub, None)` is `sub` in the same
      mode, and every other repetition fails; at the end `*` and `?` succeed
      while `+` and `None` fail, whatever `sub` would do there. */
  lemma RepeatSolve(input: string, sub: RegexAst, kind: Repetition, ind: nat, mustMatch: bool)
    requires |input| < INF && CaptureFree(sub)
    ensures CaptureFree(Repeat(sub, kind))
    ensures ind < |input| ==>
      Solve(input, Repeat(sub, kind), ind, mustMatch)
        == (if kind == Repetition.None then Solve(input, sub, ind, mustMatch) else INF)
    ensures ind >= |input| ==>
      Solve(input, Repeat(sub, kind), ind, mustMatch)
        == (if kind == Star || kind == Optional then |input| else INF)
  {
  }

  // ---------------------------------------------------------------------
  // match_pattern
  // ---------------------------------------------------------------------

  /** A one-character node matches a line exactly when some character of
      the line is accepted. */
  lemma MatchCharNode(input: string, node: RegexAst)
    requires |input| < INF && IsCharNode(node)
    ensures MatchPattern(input, node) <==> exists j :: 0 <= j < |input| && Accepts(node, input[j])
  {
    CharNodeSearch(input, node, 0);
  }

  /** `^` alone matches every non-empty line and not the empty one; `$`
      alone and the empty pattern match every line. */
  lemma MatchAnchorsAndEmpty(input: string)
    requires |input| < INF
    ensures MatchPattern(input, RegexAst.StartOfLine) <==> |input| > 0
    ensures MatchPattern(input, RegexAst.EndOfLine)
    ensures MatchPattern(input, Concat([]))
  {
    StartOfLineSolve(input, 0, false);
    EndOfLineSolve(input, 0, false);
  }

  /** The matcher's character test and the tokenizer's agree on every node
      kind the two share, whatever quantifier the token carries. */
  lemma AcceptsAgreesWithChar(c: char, rep: Repetition, l: char, g: string)
    ensures Accepts(RegexAst.Digit, c) == Utils.MatchPatternWithChar(RegPattern.Digit(rep), c)
    ensures Accepts(RegexAst.Word, c) == Utils.MatchPatternWithChar(RegPattern.Word(rep), c)
    ensures Accepts(RegexAst.Literal(l), c) == Utils.MatchPatternWithChar(RegPattern.Literal(l, rep), c)
    ensures Accepts(RegexAst.Wildcard, c) == Utils.MatchPatternWithChar(RegPattern.Wildcard(rep), c)
    ensures Accepts(RegexAst.PositiveGroup(g), c) == Utils.MatchPatternWithChar(RegPattern.PositiveGroup(g, rep), c)
    ensures Accepts(RegexAst.NegativeGroup(g), c) == Utils.MatchPatternWithChar(RegPattern.NegativeGroup(g, rep), c)
  {
  }
}
