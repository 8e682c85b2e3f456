/** The vocabulary shared by the tokenizer and the matcher: quantifier kinds,
    the regex syntax tree walked by the matcher, and the flat token list the
    tokenizer produces. None of these carry behaviour of their own. */
module Pattern {

  /** Rust's `u32`, the width of a capture-group id. */
  newtype u32 = x: int | 0 <= x < 0x1_0000_0000

  /** Quantifier kinds: none, `+`, `*`, `?`. */
  datatype Repetition = None | Plus | Star | Optional

  /** The syntax tree the matcher walks. */
  datatype RegexAst =
    | Concat(nodes: seq<RegexAst>)           // sequence of nodes
    | Alternate(branches: seq<RegexAst>)     // a|b|c
    | Repeat(sub: RegexAst, kind: Repetition)
    | CaptureGroup(id: u32, body: RegexAst)  // (cat)
    | Digit                                  // \d
    | Word                                   // \w
    | PositiveGroup(members: string)         // [abc]
    | NegativeGroup(members: string)         // [^abc]
    | Literal(ch: char)
    | Wildcard                               // .
    | StartOfLine                            // ^
    | EndOfLine                              // $

  /** One token of the flat pattern list. Every token that stands for one
      input character carries the quantifier written after it; the two
      anchors carry none. */
  datatype RegPattern =
    | Digit(rep: Repetition)
    | Word(rep: Repetition)
    | PositiveGroup(group: string, rep: Repetition)
    | NegativeGroup(group: string, rep: Repetition)
    | Literal(c: char, rep: Repetition)
    | Wildcard(rep: Repetition)
    | StartOfLine
    | EndOfLine
}
