/**
 * The init-file statement splitter (`parseSQL`): one left-to-right scan with
 * one character of lookahead and four mutually exclusive lexical modes.
 *
 * The scan is stated in two layers. `Pieces` cuts the input into the raw
 * accumulator contents found at each terminator seen in Normal mode and at
 * the end of input; `Statements` then trims each piece and drops the blank
 * ones. `ParseSqlLoop` is the single loop of the source, which trims as it
 * goes, and is proved to compute the same list.
 */
module SqlSplit {
  import opened Wrappers
  import opened GoStrings

  /** The three flags of the source collapsed into one value: at most one is ever set. */
  datatype Mode = Normal | InString | InLineComment | InBlockComment

  /** The scanner after one step: characters consumed, new mode and accumulator, and whether a statement ended. */
  datatype Next = Next(used: nat, mode: Mode, acc: string, ends: bool)

  // One step of the scan on non-empty input `s`: the first character, and
  // also its successor when the two form `''`, `--`, `/*` or `*/`. When a
  // terminator ends the statement, the finished text is the old `acc`.
  function Step(s: string, mode: Mode, acc: string): (r: Next)
    requires s != []
    ensures 1 <= r.used <= |s|
  {
    var c := s[0];
    var pair := |s| > 1;
    match mode
    case InLineComment =>
      if c == '\n' then Next(1, Normal, acc + "\n", false)
      else Next(1, InLineComment, acc, false)
    case InBlockComment =>
      if c == '*' && pair && s[1] == '/' then Next(2, Normal, acc, false)
      else Next(1, InBlockComment, acc, false)
    case InString =>
      if c == '\'' && pair && s[1] == '\'' then Next(2, InString, acc + "''", false)
      else if c == '\'' then Next(1, Normal, acc + "'", false)
      else Next(1, InString, acc + [c], false)
    case Normal =>
      if c == '\'' then Next(1, InString, acc + "'", false)
      else if c == '-' && pair && s[1] == '-' then Next(2, InLineComment, acc, false)
      else if c == '/' && pair && s[1] == '*' then Next(2, InBlockComment, acc, false)
      else if c == ';' then Next(1, Normal, [], true)
      else Next(1, Normal, acc + [c], false)
  }

  /**
   * The raw statement texts of the unread input `s`, scanned from `mode`
   * with `acc` collected so far: one at each terminator read in Normal
   * mode, and one for whatever is collected at the end of input, whatever
   * the mode then is (an unterminated string or comment still yields the
   * text gathered before and inside it).
   */
  function Pieces(s: string, mode: Mode, acc: string): (ps: seq<string>)
    ensures |ps| >= 1
    decreases |s|
  {
    if s == [] then [acc]
    else
      var n := Step(s, mode, acc);
      var rest := Pieces(s[n.used..], n.mode, n.acc);
      if n.ends then [acc] + rest else rest
  }

  /** One step of `Pieces`: the piece a terminator ends, then the pieces of the rest. */
  lemma PiecesUnfold(s: string, mode: Mode, acc: string)
    requires s != []
    ensures var n := Step(s, mode, acc);
      Pieces(s, mode, acc) == (if n.ends then [acc] else []) + Pieces(s[n.used..], n.mode, n.acc)
  {
  }

  /** What the splitter emits: non-empty text with no whitespace at either end. */
  predicate IsStatement(t: string) {
    t != [] && NoEdgeSpace(t)
  }

  predicate AllStatements(ts: seq<string>) {
    forall k :: 0 <= k < |ts| ==> IsStatement(ts[k])
  }

  /** Each piece trimmed, the ones left empty dropped, the order kept. */
  function Statements(pieces: seq<string>): seq<string> {
    if pieces == [] then []
    else
      var t := TrimSpace(pieces[0]);
      (if t == [] then [] else [t]) + Statements(pieces[1..])
  }

  /** Every statement made is non-empty and trimmed, and there are no more of them than pieces. */
  lemma {:induction false} StatementsAreTrimmed(pieces: seq<string>)
    ensures |Statements(pieces)| <= |pieces|
    ensures AllStatements(Statements(pieces))
  {
    if pieces != [] {
      TrimSpaceSpec(pieces[0]);
      StatementsAreTrimmed(pieces[1..]);
    }
  }

  lemma {:induction false} StatementsAppend(a: seq<string>, b: seq<string>)
    ensures Statements(a + b) == Statements(a) + Statements(b)
  {
    if a == [] {
      assert a + b == b;
    } else {
      assert (a + b)[1..] == a[1..] + b;
      StatementsAppend(a[1..], b);
    }
  }

  /** The statements made from a single piece. */
  lemma StatementsOfOne(piece: string)
    ensures Statements([piece]) == if AllSpace(piece) then [] else [TrimSpace(piece)]
  {
    assert [piece][1..] == [];
    TrimSpaceSpec(piece);
  }

  /**
   * `parseSQL`: total, it never reports an error, and every statement it
   * returns is non-empty and trimmed.
   */
  function ParseSql(content: string): (r: Result<seq<string>, string>)
    ensures r.Ok?
    ensures AllStatements(r.value)
  {
    StatementsAreTrimmed(Pieces(content, Normal, []));
    Ok(Statements(Pieces(content, Normal, [])))
  }

  /**
   * The splitter as the source writes it: an index loop over the characters
   * that trims each statement as soon as its terminator is read.
   */
  method ParseSqlLoop(content: string) returns (statements: seq<string>, err: Option<string>)
    ensures err == None
    ensures ParseSql(content) == Ok(statements)
  {
    statements := [];
    err := None;
    var mode := Normal;
    var cur: string := [];
    var i := 0;
    while i < |content|
      invariant 0 <= i <= |content|
      invariant statements + Statements(Pieces(content[i..], mode, cur)) == Statements(Pieces(content, Normal, []))
      decreases |content| - i
    {
      ghost var emitted, before, mode0, start := statements, cur, mode, i;
      i, mode, cur, statements := ScanOne(content, i, mode, cur, statements);
      ghost var step := Step(content[start..], mode0, before);
      assert content[start..][step.used..] == content[i..];
      PiecesUnfold(content[start..], mode0, before);
      EmitThenRest(before, step.ends, Pieces(content[i..], mode, cur), emitted, statements);
    }
    assert content[i..] == [];
    FinalFlush(mode, cur, statements);
    var remaining := TrimSpace(cur);
    if remaining != [] {
      statements := statements + [remaining];
    }
  }

  /** The statements of a piece list whose head may be a finished piece. */
  lemma EmitThenRest(acc: string, ends: bool, later: seq<string>, emitted: seq<string>, statements: seq<string>)
    requires statements == emitted + (if ends then Statements([acc]) else [])
    ensures statements + Statements(later) == emitted + Statements((if ends then [acc] else []) + later)
  {
    if ends {
      StatementsAppend([acc], later);
      assert statements + Statements(later) == emitted + (Statements([acc]) + Statements(later));
    } else {
      assert [] + later == later;
    }
  }

  /** At the end of input the loop's last trim-and-append completes the statements. */
  lemma FinalFlush(mode: Mode, cur: string, statements: seq<string>)
    ensures var t := TrimSpace(cur);
      statements + Statements(Pieces([], mode, cur)) == (if t == [] then statements else statements + [t])
  {
    assert Pieces([], mode, cur) == [cur];
    StatementsOfOne(cur);
    TrimSpaceSpec(cur);
    assert statements + [] == statements;
  }

  /**
   * One iteration of the source's loop body at index `i`: the branches on
   * the mode flags, the lookahead and the extra skip of a two-character
   * token, and the trim-and-append at a terminator.
   */
  method ScanOne(content: string, i: nat, mode: Mode, cur: string, statements: seq<string>)
    returns (i': nat, mode': Mode, cur': string, statements': seq<string>)
    requires i < |content|
    ensures var n := Step(content[i..], mode, cur);
      && i' == i + n.used && mode' == n.mode && cur' == n.acc
      && statements' == statements + (if n.ends then Statements([cur]) else [])
  {
    var c := content[i];
    var n := |content|;
    assert i + 1 < n ==> content[i..][1] == content[i + 1];
    i', mode', cur', statements' := i, mode, cur, statements;
    if mode == InLineComment {
      if c == '\n' {
        mode' := Normal;
        cur' := cur + "\n";
      }
    } else if mode == InBlockComment {
      if c == '*' && i + 1 < n && content[i + 1] == '/' {
        mode' := Normal;
        i' := i + 1;
      }
    } else if mode == InString {
      cur' := cur + [c];
      if c == '\'' {
        if i + 1 < n && content[i + 1] == '\'' {
          assert cur' + [content[i + 1]] == cur + "''";
          cur' := cur' + [content[i + 1]];
          i' := i + 1;
        } else {
          mode' := Normal;
        }
      }
    } else if c == '\'' {
      mode' := InString;
      cur' := cur + [c];
    } else if c == '-' && i + 1 < n && content[i + 1] == '-' {
      mode' := InLineComment;
      i' := i + 1;
    } else if c == '/' && i + 1 < n && content[i + 1] == '*' {
      mode' := InBlockComment;
      i' := i + 1;
    } else if c == ';' {
      StatementsOfOne(cur);
      TrimSpaceSpec(cur);
      var stmt := TrimSpace(cur);
      if stmt != [] {
        statements' := statements + [stmt];
      } else {
        assert statements' == statements + [];
      }
      cur' := [];
    } else {
      cur' := cur + [c];
    }
    i' := i' + 1;
  }
}
