/**
 * The parts of Go's `strings` and `unicode` packages the core relies on:
 * whitespace classification, `TrimSpace`, `Fields` and `Join`, plus the
 * UTF-8 length `len` reports for a string.
 */
module GoStrings {

  /** Go's `unicode.IsSpace`: the Unicode White_Space property. */
  predicate IsSpace(c: char) {
    || ('\t' <= c <= '\r')  // \t \n \v \f \r
    || c == ' '
    || c == '\U{85}' || c == '\U{A0}' || c == '\U{1680}'
    || ('\U{2000}' <= c <= '\U{200A}')
    || c == '\U{2028}' || c == '\U{2029}' || c == '\U{202F}' || c == '\U{205F}' || c == '\U{3000}'
  }

  predicate AllSpace(s: string) {
    forall i :: 0 <= i < |s| ==> IsSpace(s[i])
  }

  /** No whitespace at either end (vacuously true of the empty string). */
  predicate NoEdgeSpace(s: string) {
    s == [] || (!IsSpace(s[0]) && !IsSpace(s[|s| - 1]))
  }

  /** Drops the leading whitespace. */
  function TrimLeft(s: string): string {
    if s != [] && IsSpace(s[0]) then TrimLeft(s[1..]) else s
  }

  /** Drops the trailing whitespace. */
  function TrimRight(s: string): string {
    if s != [] && IsSpace(s[|s| - 1]) then TrimRight(s[..|s| - 1]) else s
  }

  /** Go's `strings.TrimSpace`. */
  function TrimSpace(s: string): string {
    TrimRight(TrimLeft(s))
  }

  /** `TrimLeft` removes exactly the leading run of whitespace. */
  lemma {:induction false} TrimLeftRemovesSpacePrefix(s: string)
    ensures var r := TrimLeft(s);
      && |r| <= |s| && r == s[|s| - |r|..]
      && (r == [] || !IsSpace(r[0]))
      && AllSpace(s[..|s| - |r|])
  {
    if s != [] && IsSpace(s[0]) {
      TrimLeftRemovesSpacePrefix(s[1..]);
      var r := TrimLeft(s[1..]);
      assert s[..|s| - |r|] == [s[0]] + s[1..][..|s| - 1 - |r|];
    }
  }

  /** `TrimRight` removes exactly the trailing run of whitespace. */
  lemma {:induction false} TrimRightRemovesSpaceSuffix(s: string)
    ensures var r := TrimRight(s);
      && |r| <= |s| && r == s[..|r|]
      && (r == [] || !IsSpace(r[|r| - 1]))
      && AllSpace(s[|r|..])
  {
    if s != [] && IsSpace(s[|s| - 1]) {
      TrimRightRemovesSpaceSuffix(s[..|s| - 1]);
      var r := TrimRight(s[..|s| - 1]);
      assert s[|r|..] == s[..|s| - 1][|r|..] + [s[|s| - 1]];
    }
  }

  /**
   * `TrimSpace` leaves no whitespace at either end, is empty exactly on
   * blank input, and leaves text without edge whitespace unchanged.
   */
  lemma TrimSpaceSpec(s: string)
    ensures NoEdgeSpace(TrimSpace(s))
    ensures |TrimSpace(s)| <= |s|
    ensures TrimSpace(s) == [] <==> AllSpace(s)
    ensures NoEdgeSpace(s) ==> TrimSpace(s) == s
  {
    var l := TrimLeft(s);
    var r := TrimRight(l);
    TrimLeftRemovesSpacePrefix(s);
    TrimRightRemovesSpaceSuffix(l);
    if r == [] {
      assert l[|r|..] == l;
      assert l == [];
      assert s[..|s| - |l|] == s;
    }
    if NoEdgeSpace(s) && s != [] {
      assert l == s;
      assert r == l;
    }
  }

  /** Whitespace around a trimmed text is exactly what `TrimSpace` removes. */
  lemma TrimSpaceAround(pre: string, t: string, post: string)
    requires AllSpace(pre) && AllSpace(post) && t != [] && NoEdgeSpace(t)
    ensures TrimSpace(pre + t + post) == t
  {
    TrimLeftOverSpace(pre, t + post);
    assert pre + t + post == pre + (t + post);
    TrimRightOverSpace(t, post);
  }

  lemma {:induction false} TrimLeftOverSpace(pre: string, rest: string)
    requires AllSpace(pre) && (rest == [] || !IsSpace(rest[0]))
    ensures TrimLeft(pre + rest) == rest
  {
    if pre == [] {
      assert pre + rest == rest;
    } else {
      assert (pre + rest)[1..] == pre[1..] + rest;
      assert AllSpace(pre[1..]) by {
        forall i | 0 <= i < |pre| - 1 ensures pre[1..][i] == pre[i + 1] {}
      }
      TrimLeftOverSpace(pre[1..], rest);
    }
  }

  lemma {:induction false} TrimRightOverSpace(rest: string, post: string)
    requires AllSpace(post) && (rest == [] || !IsSpace(rest[|rest| - 1]))
    ensures TrimRight(rest + post) == rest
  {
    if post == [] {
      assert rest + post == rest;
    } else {
      var p := post[..|post| - 1];
      assert (rest + post)[..|rest + post| - 1] == rest + p;
      assert AllSpace(p) by {
        forall i | 0 <= i < |p| ensures p[i] == post[i] {}
      }
      TrimRightOverSpace(rest, p);
    }
  }

  /** Leading whitespace makes no difference to `TrimSpace`. */
  lemma {:induction false} TrimSpaceSkipsLeadingSpace(pre: string, s: string)
    requires AllSpace(pre)
    ensures TrimSpace(pre + s) == TrimSpace(s)
    decreases |pre|
  {
    if pre == [] {
      assert pre + s == s;
    } else {
      assert (pre + s)[1..] == pre[1..] + s;
      assert AllSpace(pre[1..]) by {
        forall i | 0 <= i < |pre| - 1 ensures pre[1..][i] == pre[i + 1] {}
      }
      TrimSpaceSkipsLeadingSpace(pre[1..], s);
    }
  }

  /** A field of `strings.Fields`: a non-empty run of non-space characters. */
  predicate IsWord(w: string) {
    w != [] && forall i :: 0 <= i < |w| ==> !IsSpace(w[i])
  }

  predicate AllWords(ws: seq<string>) {
    forall k :: 0 <= k < |ws| ==> IsWord(ws[k])
  }

  /** The longest prefix of `s` that holds no whitespace. */
  function Word(s: string): (w: string)
    ensures |w| <= |s|
    ensures s != [] && !IsSpace(s[0]) ==> |w| >= 1
  {
    if s == [] || IsSpace(s[0]) then [] else [s[0]] + Word(s[1..])
  }

  /** Go's `strings.Fields`: the maximal runs of non-space characters, in order. */
  function Fields(s: string): seq<string>
    decreases |s|
  {
    if s == [] then []
    else if IsSpace(s[0]) then Fields(s[1..])
    else
      var w := Word(s);
      [w] + Fields(s[|w|..])
  }

  /** Go's `strings.Join`: the elements with `sep` between consecutive ones. */
  function Join(ws: seq<string>, sep: string): string {
    if ws == [] then []
    else if |ws| == 1 then ws[0]
    else ws[0] + sep + Join(ws[1..], sep)
  }

  /** A byte of a Go string. */
  newtype byte = x: int | 0 <= x < 256

  /** The UTF-8 encoding of one character (a Unicode scalar value). */
  function RuneBytes(c: char): (bs: seq<byte>)
    ensures 1 <= |bs| <= 4
    ensures |bs| == 1 <==> c < '\U{80}'
  {
    var n := c as int;
    if n < 0x80 then [n as byte]
    else if n < 0x800 then [(0xC0 + n / 0x40) as byte, (0x80 + n % 0x40) as byte]
    else if n < 0x1_0000 then
      [(0xE0 + n / 0x1000) as byte, (0x80 + n / 0x40 % 0x40) as byte, (0x80 + n % 0x40) as byte]
    else
      [(0xF0 + n / 0x4_0000) as byte, (0x80 + n / 0x1000 % 0x40) as byte,
       (0x80 + n / 0x40 % 0x40) as byte, (0x80 + n % 0x40) as byte]
  }

  /** The bytes of a Go string holding the text `s`: its UTF-8 encoding. */
  function Utf8(s: string): seq<byte> {
    if s == [] then [] else RuneBytes(s[0]) + Utf8(s[1..])
  }

  predicate IsAscii(s: string) {
    forall i :: 0 <= i < |s| ==> s[i] < '\U{80}'
  }

  /** ASCII text is encoded one byte per character, each byte the character's code. */
  lemma {:induction false} AsciiUtf8(s: string)
    requires IsAscii(s)
    ensures |Utf8(s)| == |s|
    ensures forall i :: 0 <= i < |s| ==> Utf8(s)[i] as int == s[i] as int
  {
    if s != [] {
      assert IsAscii(s[1..]) by {
        forall i | 0 <= i < |s| - 1 ensures s[1..][i] < '\U{80}' {
          assert s[1..][i] == s[i + 1];
        }
      }
      AsciiUtf8(s[1..]);
    }
  }

  /** Encoding distributes over concatenation. */
  lemma {:induction false} Utf8Append(a: string, b: string)
    ensures Utf8(a + b) == Utf8(a) + Utf8(b)
    decreases |a|
  {
    if a == [] {
      assert a + b == b;
    } else {
      assert (a + b)[0] == a[0] && (a + b)[1..] == a[1..] + b;
      Utf8Append(a[1..], b);
    }
  }
}
