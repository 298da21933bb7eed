/**
 * `truncateStatement`: how an init statement is shown in log lines and
 * error messages. Runs of whitespace collapse to single spaces, and a
 * result longer than the byte budget is cut and ends in "...".
 */
module Display {
  import opened GoStrings

  /** The statement with its words separated by single spaces (`strings.Join(strings.Fields(s), " ")`). */
  function Normalize(s: string): string {
    Join(Fields(s), " ")
  }

  /** Text in display form: words separated by single spaces, no other whitespace. */
  predicate Collapsed(s: string) {
    && NoEdgeSpace(s)
    && (forall i :: 0 <= i < |s| ==> IsSpace(s[i]) ==> s[i] == ' ')
    && (forall i :: 0 <= i < |s| - 1 ==> !(s[i] == ' ' && s[i + 1] == ' '))
  }

  /** The three bytes "..." put at the end of a cut statement. */
  const Ellipsis: seq<byte> := [0x2E, 0x2E, 0x2E]

  /** The byte length of the normalized statement is within `maxLen`. */
  predicate FitsBudget(stmt: string, maxLen: int) {
    |Utf8(Normalize(stmt))| <= maxLen
  }

  /**
   * `truncateStatement(stmt, maxLen)`, on the bytes of the Go string. The
   * precondition is what keeps the slice `[:maxLen-3]` in range.
   */
  function Truncate(stmt: string, maxLen: int): (r: seq<byte>)
    requires maxLen >= 3 || FitsBudget(stmt, maxLen)
    ensures |r| <= maxLen
    ensures r == Utf8(Normalize(stmt)) <==> FitsBudget(stmt, maxLen)
  {
    var b := Utf8(Normalize(stmt));
    if |b| <= maxLen then b else b[..maxLen - 3] + Ellipsis
  }

  /** A statement that does not fit is cut to exactly `maxLen` bytes: a prefix of its display form, then "...". */
  lemma TruncatedShape(stmt: string, maxLen: int)
    requires maxLen >= 3 && !FitsBudget(stmt, maxLen)
    ensures var r := Truncate(stmt, maxLen);
      && |r| == maxLen
      && r[..maxLen - 3] == Utf8(Normalize(stmt))[..maxLen - 3]
      && r[maxLen - 3..] == Ellipsis
  {
    var r := Truncate(stmt, maxLen);
    assert r == Utf8(Normalize(stmt))[..maxLen - 3] + Ellipsis;
  }

  // ----- words and fields -----

  /** `Word(s)` is the leading run of non-space characters of `s`. */
  lemma {:induction false} WordPrefix(s: string)
    ensures var w := Word(s);
      && w == s[..|w|]
      && (forall i :: 0 <= i < |w| ==> !IsSpace(w[i]))
      && (|w| < |s| ==> IsSpace(s[|w|]))
    decreases |s|
  {
    if s != [] && !IsSpace(s[0]) {
      WordPrefix(s[1..]);
    }
  }

  /** A word followed by a space or by nothing reads back as that word. */
  lemma {:induction false} WordOfWord(w: string, rest: string)
    requires IsWord(w) && (rest == [] || IsSpace(rest[0]))
    ensures Word(w + rest) == w
    decreases |w|
  {
    assert (w + rest)[0] == w[0];
    if |w| == 1 {
      assert (w + rest)[1..] == rest;
      assert [w[0]] == w;
    } else {
      assert (w + rest)[1..] == w[1..] + rest;
      assert IsWord(w[1..]) by {
        forall i | 0 <= i < |w| - 1 ensures !IsSpace(w[1..][i]) {
          assert w[1..][i] == w[i + 1];
        }
      }
      WordOfWord(w[1..], rest);
      assert [w[0]] + w[1..] == w;
    }
  }

  /** Every field is a word. */
  lemma {:induction false} FieldsAreWords(s: string)
    ensures AllWords(Fields(s))
    decreases |s|
  {
    if s != [] {
      if IsSpace(s[0]) {
        FieldsAreWords(s[1..]);
      } else {
        var w := Word(s);
        WordPrefix(s);
        FieldsAreWords(s[|w|..]);
        assert IsWord(w);
      }
    }
  }

  /** Splitting words joined by single spaces gives back the words. */
  lemma {:induction false} FieldsOfJoin(ws: seq<string>)
    requires AllWords(ws)
    ensures Fields(Join(ws, " ")) == ws
    decreases |ws|
  {
    if ws == [] {
    } else if |ws| == 1 {
      var w := ws[0];
      assert w + [] == w;
      WordOfWord(w, []);
      assert w[|w|..] == [];
      assert ws == [w];
    } else {
      var w, rest := ws[0], Join(ws[1..], " ");
      assert AllWords(ws[1..]) by {
        forall k | 0 <= k < |ws| - 1 ensures IsWord(ws[1..][k]) {
          assert ws[1..][k] == ws[k + 1];
        }
      }
      var s := w + " " + rest;
      assert s == w + (" " + rest);
      WordOfWord(w, " " + rest);
      assert s[|w|..] == " " + rest;
      assert (" " + rest)[1..] == rest;
      FieldsOfJoin(ws[1..]);
      assert [w] + ws[1..] == ws;
    }
  }

  // ----- display form -----

  /** The display form keeps the words of the statement, in order. */
  lemma NormalizeKeepsWords(s: string)
    ensures Fields(Normalize(s)) == Fields(s)
  {
    FieldsAreWords(s);
    FieldsOfJoin(Fields(s));
  }

  /** Words joined by single spaces are in display form. */
  lemma {:induction false} JoinCollapsed(ws: seq<string>)
    requires AllWords(ws)
    ensures Collapsed(Join(ws, " "))
    ensures ws != [] ==> Join(ws, " ") != []
    decreases |ws|
  {
    if |ws| >= 2 {
      var w, j := ws[0], Join(ws[1..], " ");
      assert AllWords(ws[1..]) by {
        forall k | 0 <= k < |ws| - 1 ensures IsWord(ws[1..][k]) {
          assert ws[1..][k] == ws[k + 1];
        }
      }
      JoinCollapsed(ws[1..]);
      JoinStep(w, j);
    }
  }

  /** A word, a space, and non-empty display text make display text. */
  lemma JoinStep(w: string, j: string)
    requires IsWord(w) && Collapsed(j) && j != []
    ensures Collapsed(w + " " + j)
  {
    var s := w + " " + j;
    forall i | 0 <= i < |s|
      ensures IsSpace(s[i]) ==> s[i] == ' '
      ensures i < |s| - 1 ==> !(s[i] == ' ' && s[i + 1] == ' ')
    {
      if i < |w| {
        assert s[i] == w[i];
      } else if i > |w| {
        assert s[i] == j[i - |w| - 1];
        if i < |s| - 1 {
          assert s[i + 1] == j[i - |w|];
        }
      } else {
        assert s[i + 1] == j[0];
      }
    }
    assert s[|s| - 1] == j[|j| - 1];
  }

  /** Text in display form is the display form of itself. */
  lemma {:induction false} CollapsedJoinFields(s: string)
    requires Collapsed(s)
    ensures Join(Fields(s), " ") == s
    decreases |s|
  {
    if s != [] {
      var w := Word(s);
      WordPrefix(s);
      assert IsWord(w);
      if |w| == |s| {
        assert w == s;
        assert s[|w|..] == [];
        assert Fields(s) == [w];
      } else {
        var r := CollapsedSplit(s);
        CollapsedJoinFields(r);
        assert ([w] + Fields(r))[1..] == Fields(r);
      }
    }
  }

  /** Display text with more than one word: the first word, a space, and display text. */
  lemma CollapsedSplit(s: string) returns (r: string)
    requires Collapsed(s) && s != [] && |Word(s)| < |s|
    ensures Collapsed(r) && r != [] && !IsSpace(r[0])
    ensures s == Word(s) + " " + r
    ensures Fields(s) == [Word(s)] + Fields(r)
    ensures Fields(r) != []
  {
    var w := Word(s);
    WordPrefix(s);
    assert s[|w|] == ' ';
    assert |w| + 1 < |s| && s[|w| + 1] != ' ';
    r := s[|w| + 1..];
    CollapsedDrop(s, |w| + 1);
    assert s[|w|..][1..] == r;
    assert s == s[..|w|] + [s[|w|]] + r;
  }

  /** A suffix of display text that starts with a non-space character is display text. */
  lemma CollapsedDrop(s: string, k: nat)
    requires Collapsed(s) && k < |s| && !IsSpace(s[k])
    ensures Collapsed(s[k..])
  {
    var r := s[k..];
    forall i | 0 <= i < |r| ensures r[i] == s[k + i] {}
  }

  /** The display form is in display form. */
  lemma NormalizeCollapsed(s: string)
    ensures Collapsed(Normalize(s))
  {
    FieldsAreWords(s);
    JoinCollapsed(Fields(s));
  }

  /** Normalizing leaves a statement unchanged exactly when it is already in display form. */
  lemma NormalizeFixedPoints(s: string)
    ensures Normalize(s) == s <==> Collapsed(s)
  {
    NormalizeCollapsed(s);
    if Collapsed(s) {
      CollapsedJoinFields(s);
    }
  }

  /** Normalizing twice is normalizing once. */
  lemma NormalizeIdempotent(s: string)
    ensures Normalize(Normalize(s)) == Normalize(s)
  {
    NormalizeCollapsed(s);
    NormalizeFixedPoints(Normalize(s));
  }

  // ----- ASCII statements -----

  /** The display form of an ASCII statement is ASCII. */
  lemma NormalizeAscii(s: string)
    requires IsAscii(s)
    ensures IsAscii(Normalize(s))
  {
    FieldsAscii(s);
    JoinAscii(Fields(s));
  }

  lemma {:induction false} FieldsAscii(s: string)
    requires IsAscii(s)
    ensures forall k :: 0 <= k < |Fields(s)| ==> IsAscii(Fields(s)[k])
    decreases |s|
  {
    if s != [] {
      var w := Word(s);
      WordPrefix(s);
      var d := if IsSpace(s[0]) then 1 else |w|;
      assert IsAscii(s[d..]) by {
        forall i | 0 <= i < |s| - d ensures s[d..][i] < '\U{80}' {
          assert s[d..][i] == s[d + i];
        }
      }
      FieldsAscii(s[d..]);
    }
  }

  lemma {:induction false} JoinAscii(ws: seq<string>)
    requires forall k :: 0 <= k < |ws| ==> IsAscii(ws[k])
    ensures IsAscii(Join(ws, " "))
    decreases |ws|
  {
    if |ws| >= 2 {
      JoinAscii(ws[1..]);
      var s := ws[0] + " " + Join(ws[1..], " ");
      forall i | 0 <= i < |s| ensures s[i] < '\U{80}' {
        if i > |ws[0]| {
          assert s[i] == Join(ws[1..], " ")[i - |ws[0]| - 1];
        }
      }
    }
  }

  /** `truncateStatement` as it reads when a byte is a character. */
  function TruncateChars(stmt: string, maxLen: int): string
    requires maxLen >= 3 || |Normalize(stmt)| <= maxLen
  {
    var t := Normalize(stmt);
    if |t| <= maxLen then t else t[..maxLen - 3] + "..."
  }

  /**
   * The character-level cut keeps the display form's shape: no whitespace
   * at either end, single spaces only. A cut may end in a space, but "..."
   * follows it.
   */
  lemma TruncateCharsCollapsed(stmt: string, maxLen: int)
    requires maxLen >= 3
    ensures Collapsed(TruncateChars(stmt, maxLen))
  {
    var t := Normalize(stmt);
    NormalizeCollapsed(stmt);
    if |t| > maxLen {
      var k := maxLen - 3;
      var r := t[..k] + "...";
      assert r == TruncateChars(stmt, maxLen);
      forall i | 0 <= i < k ensures r[i] == t[i] {}
      forall i | k <= i < |r| ensures r[i] == '.' {}
      assert !IsSpace('.');
    }
  }

  /**
   * On ASCII statements the byte-level truncation is the character-level
   * one: the display form is kept whole when it has at most `maxLen`
   * characters, and otherwise cut to `maxLen - 3` characters and "...".
   */
  lemma TruncateAscii(stmt: string, maxLen: int)
    requires IsAscii(stmt) && maxLen >= 3
    ensures Truncate(stmt, maxLen) == Utf8(TruncateChars(stmt, maxLen))
  {
    var t := Normalize(stmt);
    NormalizeAscii(stmt);
    AsciiUtf8(t);
    if |t| > maxLen {
      var k := maxLen - 3;
      assert IsAscii(t[..k]) by {
        forall i | 0 <= i < k ensures t[..k][i] == t[i] {}
      }
      AsciiUtf8(t[..k]);
      assert Utf8(t[..k]) == Utf8(t)[..k];
      Utf8Append(t[..k], "...");
      assert Utf8("...") == Ellipsis;
    }
  }
}
