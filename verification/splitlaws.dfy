/**
 * What the splitter does with each lexical construct, stated as equations
 * between scans, and the reference splitting it agrees with on text that
 * holds no quote and no comment opener.
 */
module SplitLaws {
  import opened Wrappers
  import opened GoStrings
  import opened SqlSplit

  // `--` and `/*` open a comment, but only where the scanner is in Normal mode.
  predicate OpensComment(a: char, b: char) {
    (a == '-' && b == '-') || (a == '/' && b == '*')
  }

  /** Text that Normal mode copies character by character: no terminator, no quote, no comment opener. */
  predicate Ordinary(t: string) {
    forall i :: 0 <= i < |t| ==> t[i] != ';' && t[i] != '\'' && (i + 1 < |t| ==> !OpensComment(t[i], t[i + 1]))
  }

  /** `t` followed by `rest` does not form a comment opener across the seam. */
  predicate Seamless(t: string, rest: string) {
    t == [] || rest == [] || !OpensComment(t[|t| - 1], rest[0])
  }

  /** Ordinary text goes into the current statement unchanged. */
  lemma {:induction false} OrdinaryCopied(t: string, rest: string, acc: string)
    requires Ordinary(t) && Seamless(t, rest)
    ensures Pieces(t + rest, Normal, acc) == Pieces(rest, Normal, acc + t)
    decreases |t|
  {
    if t == [] {
      assert t + rest == rest && acc + t == acc;
    } else {
      var s := t + rest;
      assert s[1..] == t[1..] + rest;
      assert |s| > 1 ==> !OpensComment(s[0], s[1]);
      assert Ordinary(t[1..]) by {
        forall i | 0 <= i < |t| - 1 ensures t[1..][i] == t[i + 1] {}
      }
      OrdinaryCopied(t[1..], rest, acc + [t[0]]);
      assert acc + [t[0]] + t[1..] == acc + t;
    }
  }

  /** A terminator in Normal mode finishes the piece collected so far and starts an empty one. */
  lemma TerminatorEnds(rest: string, acc: string)
    ensures Pieces(";" + rest, Normal, acc) == [acc] + Pieces(rest, Normal, [])
  {
    assert (";" + rest)[1..] == rest;
  }

  /**
   * The inside of a string literal: any character but a quote, or a doubled
   * quote `''` standing for one literal quote.
   */
  predicate StringBody(t: string)
    decreases |t|
  {
    if t == [] then true
    else if t[0] != '\'' then StringBody(t[1..])
    else |t| >= 2 && t[1] == '\'' && StringBody(t[2..])
  }

  // Inside a string every character is kept verbatim, a doubled quote as
  // two characters without leaving the string; so `;`, `--` and `/*`
  // there are plain text.
  lemma {:induction false} StringBodyCopied(t: string, rest: string, acc: string)
    requires StringBody(t)
    ensures Pieces(t + rest, InString, acc) == Pieces(rest, InString, acc + t)
    decreases |t|
  {
    var s := t + rest;
    if t == [] {
      assert s == rest && acc + t == acc;
    } else if t[0] != '\'' {
      assert s[1..] == t[1..] + rest;
      StringBodyCopied(t[1..], rest, acc + [t[0]]);
      assert acc + [t[0]] + t[1..] == acc + t;
    } else {
      assert s[1] == '\'';
      assert s[2..] == t[2..] + rest;
      StringBodyCopied(t[2..], rest, acc + "''");
      assert t == "''" + t[2..];
      assert acc + "''" + t[2..] == acc + t;
    }
  }

  /** A quoted literal, quotes included, is copied into the statement verbatim. */
  lemma QuotedLiteralCopied(t: string, rest: string, acc: string)
    requires StringBody(t)
    requires rest == [] || rest[0] != '\''
    ensures Pieces("'" + t + "'" + rest, Normal, acc) == Pieces(rest, Normal, acc + "'" + t + "'")
  {
    var s := "'" + t + "'" + rest;
    assert s[1..] == t + ("'" + rest);
    StringBodyCopied(t, "'" + rest, acc + "'");
    var q := "'" + rest;
    assert q[1..] == rest;
    assert |q| > 1 ==> q[1] == rest[0];
    assert Pieces(q, InString, acc + "'" + t) == Pieces(rest, Normal, acc + "'" + t + "'");
  }

  /** An unterminated string runs to the end of input, and its text still ends up in the last piece. */
  lemma UnterminatedStringKept(t: string, acc: string)
    requires StringBody(t)
    ensures Pieces("'" + t, Normal, acc) == [acc + "'" + t]
  {
    assert ("'" + t)[1..] == t + [];
    StringBodyCopied(t, [], acc + "'");
  }

  /** Comment text before the newline is discarded. */
  lemma {:induction false} LineCommentTextSkipped(t: string, rest: string, acc: string)
    requires '\n' !in t
    ensures Pieces(t + rest, InLineComment, acc) == Pieces(rest, InLineComment, acc)
    decreases |t|
  {
    if t == [] {
      assert t + rest == rest;
    } else {
      assert t[0] in t;
      assert (t + rest)[1..] == t[1..] + rest;
      LineCommentTextSkipped(t[1..], rest, acc);
    }
  }

  /** A line comment is removed up to its newline, and the newline itself is kept. */
  lemma LineCommentKeepsNewline(t: string, rest: string, acc: string)
    requires '\n' !in t
    ensures Pieces("--" + t + "\n" + rest, Normal, acc) == Pieces(rest, Normal, acc + "\n")
  {
    var s := "--" + t + "\n" + rest;
    assert s[1] == '-';
    assert s[2..] == t + ("\n" + rest);
    LineCommentTextSkipped(t, "\n" + rest, acc);
    assert ("\n" + rest)[1..] == rest;
  }

  /** A line comment with no newline after it runs to the end of input. */
  lemma LineCommentRunsToEnd(t: string, acc: string)
    requires '\n' !in t
    ensures Pieces("--" + t, Normal, acc) == [acc]
  {
    var s := "--" + t;
    assert s[1] == '-';
    assert s[2..] == t + [];
    LineCommentTextSkipped(t, [], acc);
  }

  // `t` holds no `*/`.
  predicate NoCloser(t: string) {
    forall i :: 0 <= i < |t| - 1 ==> !(t[i] == '*' && t[i + 1] == '/')
  }

  lemma NoCloserTail(t: string)
    requires t != [] && NoCloser(t)
    ensures NoCloser(t[1..])
  {
    forall i | 0 <= i < |t| - 1 ensures t[1..][i] == t[i + 1] {}
  }

  // Inside a block comment everything up to the first `*/` is discarded, the `*/` too.
  lemma {:induction false} BlockCommentTextSkipped(t: string, rest: string, acc: string)
    requires NoCloser(t)
    ensures Pieces(t + "*/" + rest, InBlockComment, acc) == Pieces(rest, Normal, acc)
    decreases |t|
  {
    var s := t + "*/" + rest;
    if t == [] {
      assert s == "*/" + rest;
      assert s[2..] == rest;
    } else {
      assert s[1..] == t[1..] + "*/" + rest;
      if |t| == 1 {
        assert s[1] == '*';
      } else {
        assert s[1] == t[1];
      }
      NoCloserTail(t);
      BlockCommentTextSkipped(t[1..], rest, acc);
    }
  }

  /** A block comment is deleted with nothing put in its place. */
  lemma BlockCommentVanishes(t: string, rest: string, acc: string)
    requires NoCloser(t)
    ensures Pieces("/*" + t + "*/" + rest, Normal, acc) == Pieces(rest, Normal, acc)
  {
    var s := "/*" + t + "*/" + rest;
    assert s[1] == '*';
    assert s[2..] == t + "*/" + rest;
    BlockCommentTextSkipped(t, rest, acc);
  }

  lemma {:induction false} BlockCommentTextToEnd(t: string, acc: string)
    requires NoCloser(t)
    ensures Pieces(t, InBlockComment, acc) == [acc]
    decreases |t|
  {
    if t != [] {
      NoCloserTail(t);
      BlockCommentTextToEnd(t[1..], acc);
    }
  }

  /** An unterminated block comment swallows the rest of the input. */
  lemma BlockCommentRunsToEnd(t: string, acc: string)
    requires NoCloser(t)
    ensures Pieces("/*" + t, Normal, acc) == [acc]
  {
    var s := "/*" + t;
    assert s[1] == '*';
    assert s[2..] == t;
    BlockCommentTextToEnd(t, acc);
  }

  // ---------------------------------------------------------------------
  // Text with no quote and no comment opener

  /** Text in which only the terminator is special. */
  predicate Plain(s: string) {
    forall i :: 0 <= i < |s| ==> s[i] != '\'' && (i + 1 < |s| ==> !OpensComment(s[i], s[i + 1]))
  }

  lemma PlainTail(s: string)
    requires s != [] && Plain(s)
    ensures Plain(s[1..])
  {
    forall i | 0 <= i < |s| - 1 ensures s[1..][i] == s[i + 1] {}
  }

  /** Go's `strings.Split(s, ";")`: the pieces between terminators, always at least one. */
  function Segments(s: string): (segs: seq<string>)
    ensures |segs| >= 1
  {
    if s == [] then [[]]
    else
      var rest := Segments(s[1..]);
      if s[0] == ';' then [[]] + rest
      else [[s[0]] + rest[0]] + rest[1..]
  }

  /** No segment holds a terminator, and joining the segments with it gives the text back. */
  lemma {:induction false} SegmentsJoin(s: string)
    ensures forall k :: 0 <= k < |Segments(s)| ==> ';' !in Segments(s)[k]
    ensures Join(Segments(s), ";") == s
  {
    if s != [] {
      SegmentsJoin(s[1..]);
      var rest := Segments(s[1..]);
      assert s == [s[0]] + s[1..];
      if s[0] == ';' {
        assert Join([[]] + rest, ";") == [] + ";" + Join(rest, ";");
      } else {
        var segs := [[s[0]] + rest[0]] + rest[1..];
        assert ';' !in segs[0];
        if |rest| > 1 {
          assert segs[1..] == rest[1..];
          assert Join(rest, ";") == rest[0] + ";" + Join(rest[1..], ";");
        }
      }
    }
  }

  /**
   * On plain text the scan's pieces are the segments between terminators,
   * the first one prefixed by what was collected before.
   */
  lemma {:induction false} PlainPieces(s: string, acc: string)
    requires Plain(s)
    ensures Pieces(s, Normal, acc) == [acc + Segments(s)[0]] + Segments(s)[1..]
    decreases |s|
  {
    if s == [] {
      assert acc + [] == acc;
    } else {
      PlainTail(s);
      assert |s| > 1 ==> !OpensComment(s[0], s[1]);
      var rest := Segments(s[1..]);
      assert Step(s, Normal, acc).used == 1;
      if s[0] == ';' {
        PlainPieces(s[1..], []);
        assert [] + rest[0] == rest[0];
        assert [[] + rest[0]] + rest[1..] == rest;
        assert acc + [] == acc;
      } else {
        PlainPieces(s[1..], acc + [s[0]]);
        assert acc + [s[0]] + rest[0] == acc + ([s[0]] + rest[0]);
      }
    }
  }

  /** On plain text `parseSQL` returns the trimmed, non-blank `;`-separated segments in input order. */
  lemma ParseSqlPlain(s: string)
    requires Plain(s)
    ensures ParseSql(s) == Ok(Statements(Segments(s)))
  {
    PlainPieces(s, []);
    var segs := Segments(s);
    assert [] + segs[0] == segs[0];
    assert [[] + segs[0]] + segs[1..] == segs;
  }

  lemma {:induction false} SegmentsOfTerminated(s: string)
    ensures Segments(s + ";") == Segments(s) + [[]]
  {
    if s == [] {
      assert s + ";" == ";";
      assert Segments(";"[1..]) == [[]];
    } else {
      assert (s + ";")[1..] == s[1..] + ";";
      SegmentsOfTerminated(s[1..]);
    }
  }

  /** A final terminator is optional: with or without it the statements are the same. */
  lemma TrailingTerminatorOptional(s: string)
    requires Plain(s)
    ensures ParseSql(s + ";") == ParseSql(s)
  {
    var t := s + ";";
    assert Plain(t) by {
      forall i | 0 <= i < |t| ensures t[i] != '\'' && (i + 1 < |t| ==> !OpensComment(t[i], t[i + 1])) {
        if i < |s| {
          assert t[i] == s[i];
          if i + 1 < |s| {
            assert t[i + 1] == s[i + 1];
          }
        }
      }
    }
    ParseSqlPlain(s);
    ParseSqlPlain(t);
    SegmentsOfTerminated(s);
    StatementsAppend(Segments(s), [[]]);
    StatementsOfOne([]);
    assert AllSpace([]);
    assert Statements(Segments(s)) + [] == Statements(Segments(s));
  }

  lemma {:induction false} SegmentsWithoutTerminator(s: string)
    requires ';' !in s
    ensures Segments(s) == [s]
  {
    if s != [] {
      assert s[0] in s;
      assert forall c :: c in s[1..] ==> c in s;
      SegmentsWithoutTerminator(s[1..]);
      assert s == [s[0]] + s[1..];
    }
  }

  /** Plain text without a terminator is one statement, its trimmed self, or nothing when blank. */
  lemma SingleStatement(s: string)
    requires Plain(s) && ';' !in s
    ensures ParseSql(s) == Ok(if AllSpace(s) then [] else [TrimSpace(s)])
  {
    ParseSqlPlain(s);
    SegmentsWithoutTerminator(s);
    StatementsOfOne(s);
  }

  /** Empty and whitespace-only input yields no statement. */
  lemma BlankInputYieldsNothing(s: string)
    requires AllSpace(s)
    ensures ParseSql(s) == Ok([])
  {
    assert forall i :: 0 <= i < |s| ==> s[i] != ';';
    SingleStatement(s);
  }

  /** Input that is one comment and nothing else yields no statement. */
  lemma CommentOnlyYieldsNothing(t: string)
    ensures '\n' !in t ==> ParseSql("--" + t) == Ok([])
    ensures NoCloser(t) ==> ParseSql("/*" + t) == Ok([])
  {
    StatementsOfOne([]);
    if '\n' !in t {
      LineCommentRunsToEnd(t, []);
    }
    if NoCloser(t) {
      BlockCommentRunsToEnd(t, []);
    }
  }
}
