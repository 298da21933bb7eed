/**
 * A reference description of init-file text as a sequence of lexical
 * tokens, with the statement pieces each token sequence should produce,
 * and the theorem that the splitter's scan produces exactly those pieces.
 */
module SplitGrammar {
  import opened Wrappers
  import opened SqlSplit
  import opened SplitLaws

  datatype Token =
    | Code(text: string)                          // ordinary statement text
    | Terminator                                  // `;`
    | Quoted(body: string)                        // a closed string literal
    | OpenQuote(body: string)                     // a string literal cut off by the end of input
    | LineComment(body: string, closed: bool)     // `--` body, then a newline when closed
    | BlockComment(body: string, closed: bool)    // block comment, with its closer when closed

  /** How a token is written in the input. */
  function Spell(t: Token): string {
    match t
    case Code(x) => x
    case Terminator => ";"
    case Quoted(b) => "'" + b + "'"
    case OpenQuote(b) => "'" + b
    case LineComment(b, closed) => "--" + b + (if closed then "\n" else "")
    case BlockComment(b, closed) => "/*" + b + (if closed then "*/" else "")
  }

  /** The input text a token sequence spells. */
  function Render(ts: seq<Token>): string {
    if ts == [] then [] else Spell(ts[0]) + Render(ts[1..])
  }

  /** A token other than empty code is spelled with at least one character. */
  predicate Visible(t: Token) {
    !(t.Code? && t.text == [])
  }

  /**
   * The token sequence reads back as itself: each token's body avoids the
   * character sequences that would end it early, no token fuses with the
   * next, and the unterminated forms come last.
   */
  predicate WellFormed(ts: seq<Token>) {
    ts == [] || (Fits(ts[0], ts[1..]) && WellFormed(ts[1..]))
  }

  /** Token `t` can be read back as itself when the tokens `rest` follow it. */
  predicate Fits(t: Token, rest: seq<Token>) {
    && Visible(t)
    && match t
       case Code(x) => Ordinary(x) && (rest == [] || Seamless(x, Spell(rest[0])))
       case Terminator => true
       case Quoted(b) => StringBody(b) && (rest == [] || !Visible(rest[0]) || Spell(rest[0])[0] != '\'')
       case OpenQuote(b) => StringBody(b) && rest == []
       case LineComment(b, closed) => '\n' !in b && (closed || rest == [])
       case BlockComment(b, closed) => NoCloser(b) && (closed || rest == [])
  }

  lemma WellFormedCons(t: Token, rest: seq<Token>)
    requires Fits(t, rest) && WellFormed(rest)
    ensures WellFormed([t] + rest)
  {
    assert ([t] + rest)[1..] == rest;
  }

  /** Well-formed text starts with the first character of its first token. */
  lemma RenderStart(ts: seq<Token>)
    requires ts != [] && Visible(ts[0])
    ensures Render(ts) != [] && Render(ts)[0] == Spell(ts[0])[0]
  {
    assert Render(ts) == Spell(ts[0]) + Render(ts[1..]);
  }

  /**
   * The statement pieces the tokens make, before trimming: code and string
   * literals are kept verbatim, a line comment leaves its newline, a block
   * comment leaves nothing, and a terminator starts a new piece. The first
   * piece continues whatever text came before the tokens.
   */
  function Collect(ts: seq<Token>): (ps: seq<string>)
    ensures |ps| >= 1
  {
    if ts == [] then [[]]
    else
      var r := Collect(ts[1..]);
      match ts[0]
      case Code(x) => [x + r[0]] + r[1..]
      case Terminator => [[]] + r
      case Quoted(b) => ["'" + b + "'" + r[0]] + r[1..]
      case OpenQuote(b) => ["'" + b]
      case LineComment(_, closed) => if closed then ["\n" + r[0]] + r[1..] else [[]]
      case BlockComment(_, closed) => if closed then r else [[]]
  }

  /** Pieces `ps` continuing the text `acc` collected before them. */
  function Attach(acc: string, ps: seq<string>): seq<string>
    requires |ps| >= 1
  {
    [acc + ps[0]] + ps[1..]
  }

  // One lemma per kind of token: given the pieces the text after the token
  // scans to, the pieces the token and that text scan to.

  lemma ScanCode(x: string, next: string, r: seq<string>, acc: string)
    requires Ordinary(x) && Seamless(x, next) && |r| >= 1
    requires Pieces(next, Normal, acc + x) == Attach(acc + x, r)
    ensures Pieces(x + next, Normal, acc) == Attach(acc, [x + r[0]] + r[1..])
  {
    OrdinaryCopied(x, next, acc);
    assert acc + x + r[0] == acc + (x + r[0]);
  }

  lemma ScanTerminator(next: string, r: seq<string>, acc: string)
    requires |r| >= 1 && Pieces(next, Normal, []) == Attach([], r)
    ensures Pieces(";" + next, Normal, acc) == Attach(acc, [[]] + r)
  {
    TerminatorEnds(next, acc);
    assert [] + r[0] == r[0];
    assert [r[0]] + r[1..] == r;
    assert acc + [] == acc;
  }

  lemma ScanQuoted(b: string, next: string, r: seq<string>, acc: string)
    requires StringBody(b) && (next == [] || next[0] != '\'') && |r| >= 1
    requires Pieces(next, Normal, acc + "'" + b + "'") == Attach(acc + "'" + b + "'", r)
    ensures Pieces("'" + b + "'" + next, Normal, acc) == Attach(acc, ["'" + b + "'" + r[0]] + r[1..])
  {
    QuotedLiteralCopied(b, next, acc);
    assert acc + "'" + b + "'" + r[0] == acc + ("'" + b + "'" + r[0]);
  }

  lemma ScanLineComment(b: string, next: string, r: seq<string>, acc: string)
    requires '\n' !in b && |r| >= 1
    requires Pieces(next, Normal, acc + "\n") == Attach(acc + "\n", r)
    ensures Pieces("--" + b + "\n" + next, Normal, acc) == Attach(acc, ["\n" + r[0]] + r[1..])
  {
    LineCommentKeepsNewline(b, next, acc);
    assert acc + "\n" + r[0] == acc + ("\n" + r[0]);
  }

  lemma ScanBlockComment(b: string, next: string, r: seq<string>, acc: string)
    requires NoCloser(b) && |r| >= 1
    requires Pieces(next, Normal, acc) == Attach(acc, r)
    ensures Pieces("/*" + b + "*/" + next, Normal, acc) == Attach(acc, r)
  {
    BlockCommentVanishes(b, next, acc);
  }

  /** The last token, when it is one of the forms cut off by the end of the input. */
  lemma ScanOpenEnd(t: Token, acc: string)
    requires WellFormed([t]) && (t.OpenQuote? || (t.LineComment? && !t.closed) || (t.BlockComment? && !t.closed))
    ensures Pieces(Spell(t), Normal, acc) == Attach(acc, Collect([t]))
  {
    assert [t][1..] == [];
    match t
    case OpenQuote(b) =>
      UnterminatedStringKept(b, acc);
      assert acc + "'" + b == acc + ("'" + b);
    case LineComment(b, _) =>
      assert "--" + b + "" == "--" + b;
      LineCommentRunsToEnd(b, acc);
      assert acc + [] == acc;
    case BlockComment(b, _) =>
      assert "/*" + b + "" == "/*" + b;
      BlockCommentRunsToEnd(b, acc);
      assert acc + [] == acc;
  }

  /** The scan of well-formed token text yields exactly the pieces the tokens describe. */
  lemma {:induction false} ScanMatchesTokens(ts: seq<Token>, acc: string)
    requires WellFormed(ts)
    ensures Pieces(Render(ts), Normal, acc) == Attach(acc, Collect(ts))
    decreases |ts|
  {
    if ts == [] {
      assert acc + [] == acc;
    } else if ts[0].OpenQuote? || (ts[0].LineComment? && !ts[0].closed) || (ts[0].BlockComment? && !ts[0].closed) {
      assert ts == [ts[0]];
      assert Render(ts) == Spell(ts[0]) + [] == Spell(ts[0]);
      ScanOpenEnd(ts[0], acc);
    } else {
      var t, rest := ts[0], ts[1..];
      var next := Render(rest);
      assert Render(ts) == Spell(t) + next;
      if rest != [] && Visible(rest[0]) {
        RenderStart(rest);
      }
      match t
      case Code(x) =>
        ScanMatchesTokens(rest, acc + x);
        ScanCode(x, next, Collect(rest), acc);
      case Terminator =>
        ScanMatchesTokens(rest, []);
        ScanTerminator(next, Collect(rest), acc);
      case Quoted(b) =>
        ScanMatchesTokens(rest, acc + "'" + b + "'");
        ScanQuoted(b, next, Collect(rest), acc);
      case LineComment(b, _) =>
        ScanMatchesTokens(rest, acc + "\n");
        ScanLineComment(b, next, Collect(rest), acc);
      case BlockComment(b, _) =>
        ScanMatchesTokens(rest, acc);
        ScanBlockComment(b, next, Collect(rest), acc);
    }
  }

  /** `parseSQL` on well-formed token text: the trimmed, non-blank pieces the tokens describe. */
  lemma ParseSqlMatchesTokens(ts: seq<Token>)
    requires WellFormed(ts)
    ensures ParseSql(Render(ts)) == Ok(Statements(Collect(ts)))
  {
    ScanMatchesTokens(ts, []);
    var ps := Collect(ts);
    assert [] + ps[0] == ps[0];
    assert [ps[0]] + ps[1..] == ps;
  }
}
