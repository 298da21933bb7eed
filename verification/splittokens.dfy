/**
 * Every init-file text is token text. `Tokenize` reads any input as a
 * well-formed token sequence that spells it, so the token description of
 * `SplitGrammar` covers `parseSQL` on every input, not only on text built
 * from tokens.
 */
module SplitTokens {
  import opened Wrappers
  import opened SqlSplit
  import opened SplitLaws
  import opened SplitGrammar

  // ----- where each kind of token ends -----

  /** The length of the ordinary text at the start of `s`: up to the first `;`, quote or comment opener. */
  function CodeLen(s: string): (n: nat)
    ensures n <= |s|
    decreases |s|
  {
    if s == [] || s[0] == ';' || s[0] == '\'' || (|s| >= 2 && OpensComment(s[0], s[1])) then 0
    else 1 + CodeLen(s[1..])
  }

  /** The length of a string literal's body at the start of `t`: up to the first quote that is not doubled. */
  function BodyLen(t: string): (n: nat)
    ensures n <= |t|
    decreases |t|
  {
    if t == [] then 0
    else if t[0] != '\'' then 1 + BodyLen(t[1..])
    else if |t| >= 2 && t[1] == '\'' then 2 + BodyLen(t[2..])
    else 0
  }

  /** The position of the first newline in `t`, or `|t|` when there is none. */
  function NewlineAt(t: string): (n: nat)
    ensures n <= |t|
    decreases |t|
  {
    if t == [] || t[0] == '\n' then 0 else 1 + NewlineAt(t[1..])
  }

  /** The position of the first block-comment closer in `t`, or `|t|` when there is none. */
  function CloserAt(t: string): (n: nat)
    ensures n == |t| || n + 2 <= |t|
    decreases |t|
  {
    if |t| < 2 then |t|
    else if t[0] == '*' && t[1] == '/' then 0
    else 1 + CloserAt(t[1..])
  }

  /** Ordinary text stops only where a `;`, a quote or a comment opener starts, and never splits an opener. */
  lemma {:induction false} CodeLenSpec(s: string)
    ensures var n := CodeLen(s);
      && Ordinary(s[..n])
      && (n < |s| ==> s[n] == ';' || s[n] == '\'' || (n + 1 < |s| && OpensComment(s[n], s[n + 1])))
      && (0 < n < |s| ==> !OpensComment(s[n - 1], s[n]))
    decreases |s|
  {
    var n := CodeLen(s);
    if n > 0 {
      var u := s[1..];
      CodeLenSpec(u);
      assert n - 1 == CodeLen(u);
      forall i | 0 <= i < n ensures s[..n][i] == s[i] {}
      forall i | 1 <= i < n ensures s[i] == u[..n - 1][i - 1] {}
      if n < |s| {
        assert s[n] == u[n - 1];
        assert n + 1 < |s| ==> s[n + 1] == u[n];
      }
    }
  }

  /** A literal's body is a string body, and it ends at a quote that is not doubled. */
  lemma {:induction false} BodyLenSpec(t: string)
    ensures var n := BodyLen(t);
      && StringBody(t[..n])
      && (n < |t| ==> t[n] == '\'' && (n + 1 == |t| || t[n + 1] != '\''))
    decreases |t|
  {
    var n := BodyLen(t);
    if t != [] && t[0] != '\'' {
      BodyLenSpec(t[1..]);
      assert t[..n][1..] == t[1..][..n - 1];
    } else if t != [] && |t| >= 2 && t[1] == '\'' {
      BodyLenSpec(t[2..]);
      assert t[..n][2..] == t[2..][..n - 2];
    }
  }

  /** A line comment's body holds no newline, and it ends at one. */
  lemma {:induction false} NewlineAtSpec(t: string)
    ensures var n := NewlineAt(t);
      && (forall i :: 0 <= i < n ==> t[i] != '\n')
      && (n < |t| ==> t[n] == '\n')
    decreases |t|
  {
    if t != [] && t[0] != '\n' {
      NewlineAtSpec(t[1..]);
    }
  }

  /** A block comment's body holds no closer, and it ends at one. */
  lemma {:induction false} CloserAtSpec(t: string)
    ensures var n := CloserAt(t);
      && NoCloser(t[..n])
      && (n < |t| ==> t[n] == '*' && t[n + 1] == '/')
    decreases |t|
  {
    var n := CloserAt(t);
    if |t| >= 2 && !(t[0] == '*' && t[1] == '/') {
      CloserAtSpec(t[1..]);
      forall i | 1 <= i < n ensures t[..n][i] == t[1..][..n - 1][i - 1] {}
    }
  }

  // ----- the tokenizer -----

  /** The first token of non-empty text, with the number of characters that spell it. */
  function NextToken(s: string): (r: (Token, nat))
    requires s != []
    ensures 1 <= r.1 <= |s|
  {
    if s[0] == ';' then (Terminator, 1)
    else if s[0] == '\'' then
      var t := s[1..];
      var n := BodyLen(t);
      if n < |t| then (Quoted(t[..n]), n + 2) else (OpenQuote(t), |s|)
    else if |s| >= 2 && s[0] == '-' && s[1] == '-' then
      var t := s[2..];
      var n := NewlineAt(t);
      if n < |t| then (LineComment(t[..n], true), n + 3) else (LineComment(t, false), |s|)
    else if |s| >= 2 && s[0] == '/' && s[1] == '*' then
      var t := s[2..];
      var n := CloserAt(t);
      if n < |t| then (BlockComment(t[..n], true), n + 4) else (BlockComment(t, false), |s|)
    else
      (Code(s[..CodeLen(s)]), CodeLen(s))
  }

  /** Any text, read as tokens from left to right. */
  function Tokenize(s: string): seq<Token>
    decreases |s|
  {
    if s == [] then []
    else
      var r := NextToken(s);
      [r.0] + Tokenize(s[r.1..])
  }

  /**
   * What the tokens after the first one must offer for the first to fit:
   * there are none exactly when the first token ends the text, and
   * otherwise the next one starts with the character after it.
   */
  predicate Continues(s: string, n: nat, rs: seq<Token>)
    requires n <= |s|
  {
    && (rs == [] <==> n == |s|)
    && (rs != [] ==> Spell(rs[0]) != [] && Spell(rs[0])[0] == s[n])
  }

  // One lemma per kind of token: the token spells the text it was read
  // from, and it fits in front of the tokens read after it.

  lemma QuoteToken(s: string, rs: seq<Token>)
    requires s != [] && s[0] == '\''
    requires Continues(s, NextToken(s).1, rs)
    ensures Spell(NextToken(s).0) == s[..NextToken(s).1]
    ensures Fits(NextToken(s).0, rs)
  {
    var t := s[1..];
    var n := BodyLen(t);
    BodyLenSpec(t);
    if n < |t| {
      assert s[..n + 2] == "'" + t[..n] + "'";
      if rs != [] {
        assert s[n + 2] == t[n + 1];
      }
    } else {
      assert t[..n] == t;
      assert s == "'" + t;
    }
  }

  lemma LineToken(s: string, rs: seq<Token>)
    requires |s| >= 2 && s[0] == '-' && s[1] == '-'
    requires Continues(s, NextToken(s).1, rs)
    ensures Spell(NextToken(s).0) == s[..NextToken(s).1]
    ensures Fits(NextToken(s).0, rs)
  {
    var t := s[2..];
    var n := NewlineAt(t);
    NewlineAtSpec(t);
    if n < |t| {
      assert s[..n + 3] == "--" + t[..n] + "\n";
      assert '\n' !in t[..n] by {
        forall i | 0 <= i < n ensures t[..n][i] != '\n' {}
      }
    } else {
      assert s == "--" + t;
      assert '\n' !in t by {
        forall i | 0 <= i < |t| ensures t[i] != '\n' {}
      }
    }
  }

  lemma BlockToken(s: string, rs: seq<Token>)
    requires |s| >= 2 && s[0] == '/' && s[1] == '*'
    requires Continues(s, NextToken(s).1, rs)
    ensures Spell(NextToken(s).0) == s[..NextToken(s).1]
    ensures Fits(NextToken(s).0, rs)
  {
    var t := s[2..];
    var n := CloserAt(t);
    CloserAtSpec(t);
    if n < |t| {
      assert s[..n + 4] == "/*" + t[..n] + "*/";
    } else {
      assert t[..n] == t;
      assert s == "/*" + t;
    }
  }

  lemma CodeToken(s: string, rs: seq<Token>)
    requires s != [] && s[0] != ';' && s[0] != '\'' && !(|s| >= 2 && OpensComment(s[0], s[1]))
    requires Continues(s, NextToken(s).1, rs)
    ensures Spell(NextToken(s).0) == s[..NextToken(s).1]
    ensures Fits(NextToken(s).0, rs)
  {
    CodeLenSpec(s);
  }

  /** The first token spells the start of the text and fits in front of the tokens after it. */
  lemma NextTokenFits(s: string, rs: seq<Token>)
    requires s != []
    requires Continues(s, NextToken(s).1, rs)
    ensures Spell(NextToken(s).0) == s[..NextToken(s).1]
    ensures Fits(NextToken(s).0, rs)
  {
    if s[0] == ';' {
    } else if s[0] == '\'' {
      QuoteToken(s, rs);
    } else if |s| >= 2 && s[0] == '-' && s[1] == '-' {
      LineToken(s, rs);
    } else if |s| >= 2 && s[0] == '/' && s[1] == '*' {
      BlockToken(s, rs);
    } else {
      CodeToken(s, rs);
    }
  }

  lemma TokenizeStep(s: string)
    requires s != []
    ensures Tokenize(s) == [NextToken(s).0] + Tokenize(s[NextToken(s).1..])
  {
  }

  /** A token spelling the start of the text, in front of well-formed tokens spelling the rest, spells all of it. */
  lemma ConsSpells(s: string, t: Token, n: nat, rs: seq<Token>)
    requires 1 <= n <= |s| && Spell(t) == s[..n] && Fits(t, rs)
    requires Render(rs) == s[n..] && WellFormed(rs)
    ensures Render([t] + rs) == s && WellFormed([t] + rs) && Visible(t)
  {
    assert ([t] + rs)[1..] == rs;
    assert s == s[..n] + s[n..];
  }

  /** Tokens that spell the text after position `n`, starting with a visible one, continue it. */
  lemma SpelledContinues(s: string, n: nat, rs: seq<Token>)
    requires n <= |s| && Render(rs) == s[n..]
    requires rs != [] ==> Visible(rs[0])
    ensures Continues(s, n, rs)
  {
    if rs != [] {
      RenderStart(rs);
    }
  }

  /** Every text is well-formed token text: its tokens spell it back and read back as themselves. */
  lemma {:induction false} TokenizeComplete(s: string)
    ensures Render(Tokenize(s)) == s
    ensures WellFormed(Tokenize(s))
    ensures Tokenize(s) != [] ==> Visible(Tokenize(s)[0])
    decreases |s|
  {
    if s != [] {
      var r := NextToken(s);
      var rs := Tokenize(s[r.1..]);
      TokenizeComplete(s[r.1..]);
      SpelledContinues(s, r.1, rs);
      NextTokenFits(s, rs);
      ConsSpells(s, r.0, r.1, rs);
      TokenizeStep(s);
    }
  }

  /** `parseSQL` of any input is given by the pieces its tokens make. */
  lemma ParseSqlOfAnyText(s: string)
    ensures ParseSql(s) == Ok(Statements(Collect(Tokenize(s))))
  {
    TokenizeComplete(s);
    ParseSqlMatchesTokens(Tokenize(s));
  }
}
