/**
 * General laws of `parseSQL` over token-described text, one for each kind
 * of behaviour the repository's statement-splitting tests exercise:
 * comments disappear wherever they stand, terminators inside string
 * literals do not split, and the number of pieces is fixed by the
 * terminators outside strings and comments.
 */
module SplitShapes {
  import opened Wrappers
  import opened GoStrings
  import opened SqlSplit
  import opened SplitLaws
  import opened SplitGrammar

  /** Text is the concatenation of the spellings of its tokens. */
  lemma {:induction false} RenderAppend(u: seq<Token>, v: seq<Token>)
    ensures Render(u + v) == Render(u) + Render(v)
    decreases |u|
  {
    if u == [] {
      assert u + v == v;
    } else {
      assert (u + v)[1..] == u[1..] + v;
      RenderAppend(u[1..], v);
    }
  }

  /** The pieces of `u + v` depend on `v` only through the pieces of `v`. */
  lemma {:induction false} CollectCongruence(u: seq<Token>, v: seq<Token>, w: seq<Token>)
    requires Collect(v) == Collect(w)
    ensures Collect(u + v) == Collect(u + w)
    decreases |u|
  {
    if u == [] {
      assert u + v == v && u + w == w;
    } else {
      assert (u + v)[0] == u[0] && (u + w)[0] == u[0];
      assert (u + v)[1..] == u[1..] + v && (u + w)[1..] == u[1..] + w;
      CollectCongruence(u[1..], v, w);
    }
  }

  /** The terminators that stand outside strings and comments. */
  function Terminators(ts: seq<Token>): nat {
    if ts == [] then 0 else (if ts[0].Terminator? then 1 else 0) + Terminators(ts[1..])
  }

  /** Each terminator token, and nothing else, starts a new piece. */
  lemma {:induction false} PieceCount(ts: seq<Token>)
    requires WellFormed(ts)
    ensures |Collect(ts)| == 1 + Terminators(ts)
    decreases |ts|
  {
    if ts != [] {
      PieceCount(ts[1..]);
    }
  }

  /** A string body without quotes is a closed literal's body, whatever else it holds. */
  lemma {:induction false} QuoteFreeBody(b: string)
    requires '\'' !in b
    ensures StringBody(b)
    decreases |b|
  {
    if b != [] {
      assert b[1..] == b[1..] && forall c :: c in b[1..] ==> c in b;
      QuoteFreeBody(b[1..]);
    }
  }

  lemma RenderThree(u: seq<Token>, a: seq<Token>, v: seq<Token>)
    ensures Render(u + a + v) == Render(u) + Render(a) + Render(v)
  {
    assert u + a + v == u + (a + v);
    RenderAppend(u, a + v);
    RenderAppend(a, v);
  }

  lemma RenderOne(t: Token)
    ensures Render([t]) == Spell(t)
  {
    assert Render([t]) == Spell(t) + [];
    assert Spell(t) + [] == Spell(t);
  }

  /**
   * Exchanging token runs `a` and `b` that leave the same pieces before
   * the same following tokens does not change what `parseSQL` returns.
   */
  lemma SwapTokens(u: seq<Token>, a: seq<Token>, b: seq<Token>, v: seq<Token>)
    requires WellFormed(u + a + v) && WellFormed(u + b + v)
    requires Collect(a + v) == Collect(b + v)
    ensures ParseSql(Render(u) + Render(a) + Render(v)) == ParseSql(Render(u) + Render(b) + Render(v))
  {
    CollectCongruence(u, a + v, b + v);
    ParseSqlOfThree(u, a, v);
    ParseSqlOfThree(u, b, v);
  }

  lemma ParseSqlOfThree(u: seq<Token>, a: seq<Token>, v: seq<Token>)
    requires WellFormed(u + a + v)
    ensures ParseSql(Render(u) + Render(a) + Render(v)) == Ok(Statements(Collect(u + (a + v))))
  {
    assert u + a + v == u + (a + v);
    RenderThree(u, a, v);
    ParseSqlMatchesTokens(u + a + v);
  }

  /** A block comment anywhere is removed without leaving anything, not even a space. */
  lemma BlockCommentRemoved(u: seq<Token>, c: string, v: seq<Token>)
    requires WellFormed(u + [BlockComment(c, true)] + v) && WellFormed(u + [] + v)
    ensures ParseSql(Render(u) + ("/*" + c + "*/") + Render(v)) == ParseSql(Render(u) + Render(v))
  {
    var bc := BlockComment(c, true);
    assert ([bc] + v)[1..] == v;
    assert [] + v == v;
    SwapTokens(u, [bc], [], v);
    RenderOne(bc);
    assert Render(u) + Render([]) == Render(u);
  }

  /** A comment that runs to the end of the input changes nothing. */
  lemma TrailingCommentIgnored(u: seq<Token>, t: Token)
    requires (t.LineComment? || t.BlockComment?) && !t.closed
    requires WellFormed(u + [t]) && WellFormed(u)
    ensures ParseSql(Render(u) + Spell(t)) == ParseSql(Render(u))
  {
    assert Collect([t]) == Collect([]);
    CollectCongruence(u, [t], []);
    assert u + [] == u;
    RenderAppend(u, [t]);
    assert Render([t]) == Spell(t) + [];
    assert Spell(t) + [] == Spell(t);
    ParseSqlMatchesTokens(u + [t]);
    ParseSqlMatchesTokens(u);
  }

  /** Whitespace in front of a piece does not change the statement it gives. */
  lemma LeadingSpaceTrimmed(pre: string, p: string)
    requires AllSpace(pre)
    ensures Statements([pre + p]) == Statements([p])
  {
    StatementsOfOne(pre + p);
    StatementsOfOne(p);
    TrimSpaceSkipsLeadingSpace(pre, p);
    TrimSpaceSpec(pre + p);
    TrimSpaceSpec(p);
  }

  /** A line comment anywhere leaves only its newline behind. */
  lemma LineCommentLeavesNewline(u: seq<Token>, c: string, v: seq<Token>)
    requires WellFormed(u + [LineComment(c, true)] + v) && WellFormed(u + [Code("\n")] + v)
    ensures ParseSql(Render(u) + ("--" + c + "\n") + Render(v)) == ParseSql(Render(u) + "\n" + Render(v))
  {
    var l := LineComment(c, true);
    var n := Code("\n");
    assert ([l] + v)[1..] == v && ([n] + v)[1..] == v;
    SwapTokens(u, [l], [n], v);
    RenderOne(l);
    RenderOne(n);
  }

  /** A line comment before the first statement changes nothing. */
  lemma LeadingLineCommentIgnored(c: string, v: seq<Token>)
    requires WellFormed([LineComment(c, true)] + v)
    ensures ParseSql("--" + c + "\n" + Render(v)) == ParseSql(Render(v))
  {
    var ts := [LineComment(c, true)] + v;
    assert ts[1..] == v;
    assert Render(ts) == "--" + c + "\n" + Render(v);
    ParseSqlMatchesTokens(ts);
    ParseSqlMatchesTokens(v);
    var r := Collect(v);
    assert [r[0]] + r[1..] == r;
    StatementsAppend([r[0]], r[1..]);
    StatementsAppend(["\n" + r[0]], r[1..]);
    LeadingSpaceTrimmed("\n", r[0]);
  }
}
