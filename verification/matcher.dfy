/** The recursive matcher of src/main.rs: `solve` and its wrapper
    `match_pattern`.

    `Solve(input, node, ind, mustMatch)` is an end position of a match of
    `node` in `input`, or the sentinel `INF` when the search finds none. In
    must-match mode the match is anchored at `ind`; in search mode it may
    start at any later position. The search is greedy and never backtracks:
    a `Concat` takes the leftmost start from which its children, each
    committed to its own result, all match, and an `Alternate` commits to the
    smallest end among its branches. So the result need not be the smallest
    end of any match, and a match can be missed altogether.

    The source's `for` loops over the children of a `Concat` and the
    branches of an `Alternate` become the helper functions `Thread`,
    `SearchConcat` and `AltMin`, mutually recursive with `Solve`.
    Termination is by the node (a child is smaller than its parent) and then
    by the input left; same-node recursion always moves one character on. */
module Matcher {
  import opened Pattern
  import opened CharClass

  /** The "no match" sentinel. Every position the matcher returns is at most
      the input length, so inputs shorter than `INF` keep the two apart. */
  const INF: nat := 1_000_000_000

  /** The smaller of two positions, as Rust's `min`. */
  function Min(a: nat, b: nat): (m: nat)
    ensures m <= a && m <= b
    ensures m == a || m == b
  {
    if a <= b then a else b
  }

  /** The matcher has no arm for capture groups; they are excluded
      everywhere in the tree. */
  predicate CaptureFree(node: RegexAst) {
    match node
    case CaptureGroup(_, _) => false
    case Concat(nodes) => forall k :: 0 <= k < |nodes| ==> CaptureFree(nodes[k])
    case Alternate(branches) => forall k :: 0 <= k < |branches| ==> CaptureFree(branches[k])
    case Repeat(sub, _) => CaptureFree(sub)
    case _ => true
  }

  predicate AllCaptureFree(nodes: seq<RegexAst>) {
    forall k :: 0 <= k < |nodes| ==> CaptureFree(nodes[k])
  }

  /** The nodes that consume exactly one input character. */
  predicate IsCharNode(node: RegexAst) {
    node.Literal? || node.Digit? || node.Word? || node.Wildcard?
    || node.PositiveGroup? || node.NegativeGroup?
  }

  /** Whether a one-character node accepts `c`. */
  predicate Accepts(node: RegexAst, c: char) {
    match node
    case Literal(l) => c == l
    case Digit => IsAsciiDigit(c)
    case Word => IsWordChar(c)
    case Wildcard => true
    case PositiveGroup(g) => c in g
    case NegativeGroup(g) => c !in g
    case _ => false
  }

  /** The nodes that succeed at (or past) the end of the input. */
  predicate SucceedsAtEnd(node: RegexAst) {
    match node
    case EndOfLine => true
    case Repeat(_, Star) => true
    case Repeat(_, Optional) => true
    case Concat(nodes) => |nodes| == 0
    case _ => false
  }

  function Solve(input: string, node: RegexAst, ind: nat, mustMatch: bool): (r: nat)
    requires |input| < INF && CaptureFree(node)
    ensures ind <= |input| ==> r == INF || ind <= r <= |input|
    ensures ind >= |input| ==> (r != INF <==> SucceedsAtEnd(node))
    ensures ind >= |input| ==> r == (if SucceedsAtEnd(node) then |input| else INF)
    decreases node, |input| - ind
  {
    if ind >= |input| then
      if SucceedsAtEnd(node) then |input| else INF
    else
      match node
      case Literal(_) | Digit | Word | PositiveGroup(_) | NegativeGroup(_) =>
        if Accepts(node, input[ind]) then ind + 1
        else if mustMatch then INF
        else Solve(input, node, ind + 1, false)
      case Wildcard =>
        if mustMatch then ind + 1
        else Min(ind + 1, Solve(input, node, ind + 1, false))
      case StartOfLine =>
        if ind == 0 then ind
        else if mustMatch then INF
        else Solve(input, node, ind + 1, false)
      case EndOfLine =>
        // `ind == |input|` cannot hold on this side of the end-of-input test
        if mustMatch then INF
        else Solve(input, node, ind + 1, false)
      case Concat(nodes) =>
        if |nodes| == 0 then ind
        else if mustMatch then Thread(input, nodes, ind)
        else SearchConcat(input, nodes, ind)
      case Alternate(branches) =>
        AltMin(input, branches, ind, mustMatch, INF)
      case Repeat(sub, kind) =>
        if kind == Repetition.None then Solve(input, sub, ind, mustMatch)
        else INF
      case CaptureGroup(_, _) =>
        assert false; INF
  }

  /** A `Concat` in must-match mode: each child, anchored, starts where the
      one before it ended; the first failing child makes the whole fail. */
  function Thread(input: string, nodes: seq<RegexAst>, pos: nat): (r: nat)
    requires |input| < INF && AllCaptureFree(nodes)
    ensures pos <= |input| ==> r == INF || pos <= r <= |input|
    decreases nodes, 0
  {
    if |nodes| == 0 then pos
    else
      var next := Solve(input, nodes[0], pos, true);
      if next == INF then INF
      else Thread(input, nodes[1..], next)
  }

  /** A `Concat` in search mode: the children threaded from each start
      `start, start + 1, ..., |input|` in turn; the first start from which
      they all match gives the result. */
  function SearchConcat(input: string, nodes: seq<RegexAst>, start: nat): (r: nat)
    requires |input| < INF && AllCaptureFree(nodes)
    ensures r == INF || start <= r <= |input|
    decreases nodes, |input| + 1 - start
  {
    if start > |input| then INF
    else
      var end := Thread(input, nodes, start);
      if end != INF then end
      else SearchConcat(input, nodes, start + 1)
  }

  /** An `Alternate`: the running minimum `acc` of the branch results, taken
      left to right. */
  function AltMin(input: string, branches: seq<RegexAst>, ind: nat, mustMatch: bool, acc: nat): (r: nat)
    requires |input| < INF && AllCaptureFree(branches)
    ensures r <= acc
    ensures ind <= |input| && (acc == INF || ind <= acc <= |input|) ==> r == INF || ind <= r <= |input|
    decreases branches, 0
  {
    if |branches| == 0 then acc
    else AltMin(input, branches[1..], ind, mustMatch, Min(acc, Solve(input, branches[0], ind, mustMatch)))
  }

  /** `match_pattern` over an already built tree: the line matches when a
      search from position 0 finds an end position. */
  function MatchPattern(input: string, ast: RegexAst): (r: bool)
    requires |input| < INF && CaptureFree(ast)
    ensures |input| == 0 ==> (r <==> SucceedsAtEnd(ast))
  {
    Solve(input, ast, 0, false) != INF
  }
}
