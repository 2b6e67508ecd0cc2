/** The Python string operations the service listing and the table rely on:
    str.isspace, str.split() with and without maxsplit, str.splitlines,
    str.lower (ASCII letters only) and the substring test `needle in hay`. */
module PyStr {

  /** Whether `c` lies in one of the inclusive code-point ranges. */
  predicate InRanges(c: char, ranges: seq<(char, char)>) {
    |ranges| > 0 && ((ranges[0].0 <= c <= ranges[0].1) || InRanges(c, ranges[1..]))
  }

  /** The characters CPython's str.isspace() accepts, which are the field
      separators of split() with no separator argument. */
  const SpaceRanges: seq<(char, char)> := [
    ('\t', '\r'), ('\U{1C}', ' '), ('\U{85}', '\U{85}'), ('\U{A0}', '\U{A0}'),
    ('\U{1680}', '\U{1680}'), ('\U{2000}', '\U{200A}'), ('\U{2028}', '\U{2029}'),
    ('\U{202F}', '\U{202F}'), ('\U{205F}', '\U{205F}'), ('\U{3000}', '\U{3000}')]

  /** The characters at which str.splitlines() ends a line ("\r\n" counts as one break). */
  const LineBreakRanges: seq<(char, char)> := [
    ('\n', '\r'), ('\U{1C}', '\U{1E}'), ('\U{85}', '\U{85}'), ('\U{2028}', '\U{2029}')]

  predicate IsSpace(c: char) {
    if c <= ' ' then '\t' <= c <= '\r' || '\U{1C}' <= c
    else '\U{85}' <= c && InRanges(c, SpaceRanges)
  }

  predicate IsLineBreak(c: char) {
    InRanges(c, LineBreakRanges)
  }

  predicate NoSpace(s: string) {
    forall i :: 0 <= i < |s| ==> !IsSpace(s[i])
  }

  predicate NoLineBreak(s: string) {
    forall i :: 0 <= i < |s| ==> !IsLineBreak(s[i])
  }

  /** The index of the first non-whitespace character of `s` at or after i
      (|s| when there is none): the scan split() does before each field. */
  function SpaceEnd(s: string, i: nat): (j: nat)
    requires i <= |s|
    ensures i <= j <= |s|
    ensures j < |s| ==> !IsSpace(s[j])
    decreases |s| - i
  {
    if i < |s| && IsSpace(s[i]) then SpaceEnd(s, i + 1) else i
  }

  /** The index of the first whitespace character of `s` at or after i
      (|s| when there is none): the end of the field starting at i. */
  function WordEnd(s: string, i: nat): (j: nat)
    requires i <= |s|
    ensures i <= j <= |s|
    ensures j < |s| ==> IsSpace(s[j])
    decreases |s| - i
  {
    if i < |s| && !IsSpace(s[i]) then WordEnd(s, i + 1) else i
  }

  /** The characters SpaceEnd skips are whitespace. */
  lemma {:induction false} SpaceEndSpaces(s: string, i: nat)
    requires i <= |s|
    ensures forall q :: i <= q < SpaceEnd(s, i) ==> IsSpace(s[q])
    decreases |s| - i
  {
    if i < |s| && IsSpace(s[i]) {
      SpaceEndSpaces(s, i + 1);
    }
  }

  /** The characters WordEnd passes over hold no whitespace. */
  lemma {:induction false} WordEndNoSpace(s: string, i: nat)
    requires i <= |s|
    ensures NoSpace(s[i..WordEnd(s, i)])
    decreases |s| - i
  {
    if i < |s| && !IsSpace(s[i]) {
      WordEndNoSpace(s, i + 1);
      assert s[i..WordEnd(s, i)] == [s[i]] + s[i + 1..WordEnd(s, i)];
    }
  }

  /** CPython's whitespace split of `s[i..]` making at most `maxsplit` splits:
      runs of whitespace separate fields, and once maxsplit fields are cut the
      rest of `s` after the following whitespace is the last field, verbatim. */
  function SplitFrom(s: string, i: nat, maxsplit: nat): (parts: seq<string>)
    requires i <= |s|
    ensures |parts| <= maxsplit + 1
    ensures forall p :: 0 <= p < |parts| ==> |parts[p]| > 0 && !IsSpace(parts[p][0])
    decreases |s| - i
  {
    var j := SpaceEnd(s, i);
    if j == |s| then []
    else if maxsplit == 0 then [s[j..]]
    else
      var e := WordEnd(s, j);
      [s[j..e]] + SplitFrom(s, e, maxsplit - 1)
  }

  /** The maximal runs of non-whitespace in `s[i..]`, in order. */
  function TokensFrom(s: string, i: nat): (ts: seq<string>)
    requires i <= |s|
    ensures forall p :: 0 <= p < |ts| ==> |ts[p]| > 0 && NoSpace(ts[p])
    decreases |s| - i
  {
    var j := SpaceEnd(s, i);
    if j == |s| then []
    else
      var e := WordEnd(s, j);
      WordEndNoSpace(s, j);
      [s[j..e]] + TokensFrom(s, e)
  }

  /** Python's `s.split(maxsplit=n)` with no separator. */
  function Split(s: string, maxsplit: nat): (parts: seq<string>)
    ensures |parts| <= maxsplit + 1
    ensures forall p :: 0 <= p < |parts| ==> |parts[p]| > 0 && !IsSpace(parts[p][0])
  {
    SplitFrom(s, 0, maxsplit)
  }

  /** Python's `s.split()`: every maximal run of non-whitespace, in order. */
  function Tokens(s: string): (ts: seq<string>)
    ensures forall p :: 0 <= p < |ts| ==> |ts[p]| > 0 && NoSpace(ts[p])
  {
    TokensFrom(s, 0)
  }

  /** split(maxsplit=n) returns min(len(s.split()), n + 1) fields. */
  lemma {:induction false} SplitLengthFrom(s: string, i: nat, n: nat)
    requires i <= |s|
    ensures |SplitFrom(s, i, n)| == if |TokensFrom(s, i)| <= n then |TokensFrom(s, i)| else n + 1
    decreases |s| - i
  {
    var j := SpaceEnd(s, i);
    if j < |s| && n > 0 {
      SplitLengthFrom(s, WordEnd(s, j), n - 1);
    }
  }

  /** Field p < n of split(maxsplit=n) is the word split() finds at the same position. */
  lemma {:induction false} SplitFieldFrom(s: string, i: nat, n: nat, p: nat)
    requires i <= |s|
    requires p < |SplitFrom(s, i, n)| && p < n
    ensures p < |TokensFrom(s, i)| && SplitFrom(s, i, n)[p] == TokensFrom(s, i)[p]
    decreases p
  {
    var j := SpaceEnd(s, i);
    if p > 0 {
      SplitFieldFrom(s, WordEnd(s, j), n - 1, p - 1);
    }
  }

  /** One step of split(): skip whitespace, then stop or cut off one word. */
  lemma TokensFromStep(s: string, i: nat)
    requires i <= |s|
    ensures var j := SpaceEnd(s, i);
      && (j == |s| ==> TokensFrom(s, i) == [])
      && (j < |s| ==> TokensFrom(s, i) == [s[j..WordEnd(s, j)]] + TokensFrom(s, WordEnd(s, j)))
  {
  }

  lemma {:induction false} SpaceEndShift(p: string, u: string, q: nat)
    requires q <= |u|
    ensures SpaceEnd(p + u, |p| + q) == |p| + SpaceEnd(u, q)
    decreases |u| - q
  {
    if q < |u| {
      assert (p + u)[|p| + q] == u[q];
      if IsSpace(u[q]) {
        SpaceEndShift(p, u, q + 1);
      }
    }
  }

  lemma {:induction false} WordEndShift(p: string, u: string, q: nat)
    requires q <= |u|
    ensures WordEnd(p + u, |p| + q) == |p| + WordEnd(u, q)
    decreases |u| - q
  {
    if q < |u| {
      assert (p + u)[|p| + q] == u[q];
      if !IsSpace(u[q]) {
        WordEndShift(p, u, q + 1);
      }
    }
  }

  /** A slice of `p + u` past `p` is the matching slice of `u`. */
  lemma SliceShift(p: string, u: string, j: nat, e: nat)
    requires j <= e <= |u|
    ensures (p + u)[|p| + j..|p| + e] == u[j..e]
  {
    forall x | 0 <= x < e - j
      ensures (p + u)[|p| + j..|p| + e][x] == u[j..e][x]
    {
      assert (p + u)[|p| + j + x] == u[j + x];
    }
  }

  /** A suffix of `p + u` past `p` is the matching suffix of `u`. */
  lemma SuffixShift(p: string, u: string, j: nat)
    requires j <= |u|
    ensures (p + u)[|p| + j..] == u[j..]
  {
    SliceShift(p, u, j, |u|);
    assert (p + u)[|p| + j..] == (p + u)[|p| + j..|p| + |u|];
  }

  /** The words of a suffix of `s` are the words of `s` found from where the suffix starts. */
  lemma {:induction false} TokensShift(p: string, u: string, q: nat)
    requires q <= |u|
    ensures TokensFrom(p + u, |p| + q) == TokensFrom(u, q)
    decreases |u| - q
  {
    SpaceEndShift(p, u, q);
    var j := SpaceEnd(u, q);
    if j < |u| {
      WordEndShift(p, u, j);
      var e := WordEnd(u, j);
      SliceShift(p, u, j, e);
      TokensShift(p, u, e);
    }
  }

  /** split() of a suffix of `s` finds the words of `s` from where the suffix starts. */
  lemma TokensSuffix(s: string, k: nat)
    requires k <= |s|
    ensures Tokens(s[k..]) == TokensFrom(s, k)
  {
    var p, u := s[..k], s[k..];
    assert p + u == s;
    TokensShift(p, u, 0);
  }

  /** When there are more than n words, field n of split(maxsplit=n) is the
      suffix of `s` starting at some index k that holds exactly the words from
      word n on, and (for n > 0) follows a whitespace character. */
  lemma {:induction false} SplitRemainderFrom(s: string, i: nat, n: nat) returns (k: nat)
    requires i <= |s|
    requires |TokensFrom(s, i)| > n
    ensures i <= k < |s|
    ensures |SplitFrom(s, i, n)| == n + 1 && SplitFrom(s, i, n)[n] == s[k..]
    ensures TokensFrom(s, k) == TokensFrom(s, i)[n..]
    ensures n > 0 ==> i < k && IsSpace(s[k - 1])
    decreases n
  {
    SplitLengthFrom(s, i, n);
    var j := SpaceEnd(s, i);
    if n == 0 {
      k := j;
    } else {
      var e := WordEnd(s, j);
      k := SplitRemainderFrom(s, e, n - 1);
      if n == 1 {
        assert e < |s|;
        SpaceEndSpaces(s, e);
      }
    }
  }

  /** Positions of `s` past a prefix p are split exactly as in the rest of `s`. */
  lemma {:induction false} SplitShift(p: string, u: string, q: nat, n: nat)
    requires q <= |u|
    ensures SplitFrom(p + u, |p| + q, n) == SplitFrom(u, q, n)
    decreases |u| - q
  {
    SpaceEndShift(p, u, q);
    var j := SpaceEnd(u, q);
    if j < |u| {
      if n == 0 {
        SuffixShift(p, u, j);
      } else {
        WordEndShift(p, u, j);
        var e := WordEnd(u, j);
        SliceShift(p, u, j, e);
        SplitShift(p, u, e, n - 1);
      }
    }
  }

  /** A whitespace-only prefix changes nothing: split(maxsplit=n) skips it. */
  lemma {:induction false} SplitSkipsSpace(sep: string, rest: string, n: nat)
    requires forall q :: 0 <= q < |sep| ==> IsSpace(sep[q])
    ensures Split(sep + rest, n) == Split(rest, n)
    decreases |sep|
  {
    if |sep| > 0 {
      var s := sep + rest;
      assert s[0] == sep[0];
      assert SpaceEnd(s, 0) == SpaceEnd(s, 1);
      assert SplitFrom(s, 0, n) == SplitFrom(s, 1, n);
      assert s == [sep[0]] + (sep[1..] + rest);
      SplitShift([sep[0]], sep[1..] + rest, 0, n);
      SplitSkipsSpace(sep[1..], rest, n);
    } else {
      assert sep + rest == rest;
    }
  }

  /** WordEnd stops right after a run of n non-whitespace characters followed
      by whitespace or the end of `s`. */
  lemma {:induction false} WordEndAt(s: string, i: nat, n: nat)
    requires i + n <= |s|
    requires forall q :: i <= q < i + n ==> !IsSpace(s[q])
    requires i + n == |s| || IsSpace(s[i + n])
    ensures WordEnd(s, i) == i + n
    decreases n
  {
    if n > 0 {
      WordEndAt(s, i + 1, n - 1);
    }
  }

  /** A word followed by whitespace is the first field, and the fields after
      it are those of the rest with one split fewer. */
  lemma SplitWord(w: string, rest: string, n: nat)
    requires |w| > 0 && NoSpace(w)
    requires |rest| > 0 && IsSpace(rest[0])
    ensures Split(w + rest, n + 1) == [w] + Split(rest, n)
  {
    var s := w + rest;
    assert s[0] == w[0];
    assert SpaceEnd(s, 0) == 0;
    assert forall q :: 0 <= q < |w| ==> s[q] == w[q];
    WordEndAt(s, 0, |w|);
    assert s[0..|w|] == w;
    SplitShift(w, rest, 0, n);
  }

  /** With no split left, text not starting with whitespace is one field, verbatim. */
  lemma SplitWhole(d: string)
    requires |d| > 0 && !IsSpace(d[0])
    ensures Split(d, 0) == [d]
  {
    assert d[0..] == d;
  }

  /** A non-empty run of whitespace. */
  predicate IsGap(g: string) {
    |g| > 0 && forall q :: 0 <= q < |g| ==> IsSpace(g[q])
  }

  /** A non-empty run of non-whitespace, checked character by character. */
  predicate IsWord(w: string) {
    |w| > 0 && !IsSpace(w[0]) && (|w| == 1 || IsWord(w[1..]))
  }

  lemma {:induction false} IsWordNoSpace(w: string)
    ensures IsWord(w) <==> |w| > 0 && NoSpace(w)
  {
    if |w| > 1 {
      IsWordNoSpace(w[1..]);
      if NoSpace(w) {
        assert forall q :: 0 <= q < |w| - 1 ==> w[1..][q] == w[q + 1];
      }
    }
  }

  /** The words `words` laid out with the whitespace `gaps` after each of
      them, followed by `tail`. */
  function JoinFields(words: seq<string>, gaps: seq<string>, tail: string): string
    requires |gaps| == |words|
  {
    if |words| == 0 then tail
    else words[0] + (gaps[0] + JoinFields(words[1..], gaps[1..], tail))
  }

  /** split(maxsplit=n) undoes JoinFields for n words: it gives back the words
      and then the tail, verbatim, whatever whitespace separated them. */
  lemma {:induction false} SplitJoinFields(words: seq<string>, gaps: seq<string>, tail: string)
    requires |gaps| == |words|
    requires forall i :: 0 <= i < |words| ==> IsWord(words[i]) && IsGap(gaps[i])
    requires |tail| > 0 && !IsSpace(tail[0])
    ensures Split(JoinFields(words, gaps, tail), |words|) == words + [tail]
    decreases |words|
  {
    if |words| == 0 {
      SplitWhole(tail);
    } else {
      var rest := JoinFields(words[1..], gaps[1..], tail);
      IsWordNoSpace(words[0]);
      SplitWord(words[0], gaps[0] + rest, |words| - 1);
      SplitSkipsSpace(gaps[0], rest, |words| - 1);
      SplitJoinFields(words[1..], gaps[1..], tail);
      assert words == [words[0]] + words[1..];
    }
  }

  /** The length of the first line of `s`: the characters before the first line break. */
  function LineLength(s: string): (n: nat)
    ensures n <= |s| && NoLineBreak(s[..n])
    ensures n < |s| ==> IsLineBreak(s[n])
  {
    if |s| == 0 || IsLineBreak(s[0]) then 0
    else
      var n := 1 + LineLength(s[1..]);
      assert s[..n] == [s[0]] + s[1..][..n - 1];
      n
  }

  /** Python's `s.splitlines()`: the lines of `s` without their line breaks;
      "\r\n" is one break and a final line break does not start an empty line. */
  function SplitLines(s: string): (lines: seq<string>)
    ensures forall i :: 0 <= i < |lines| ==> NoLineBreak(lines[i])
    ensures |lines| == 0 <==> |s| == 0
    decreases |s|
  {
    if |s| == 0 then []
    else
      var n := LineLength(s);
      if n == |s| then [s]
      else
        var next := if s[n] == '\r' && n + 1 < |s| && s[n + 1] == '\n' then n + 2 else n + 1;
        [s[..n]] + SplitLines(s[next..])
  }

  /** The text whose lines are `lines`, each ended by "\n". */
  function JoinLines(lines: seq<string>): string {
    if |lines| == 0 then [] else lines[0] + "\n" + JoinLines(lines[1..])
  }

  /** A first line without line breaks, ended by "\n", is the first element of splitlines(). */
  lemma {:induction false} SplitLinesFirst(h: string, rest: string)
    requires NoLineBreak(h)
    ensures SplitLines(h + "\n" + rest) == [h] + SplitLines(rest)
  {
    var s := h + "\n" + rest;
    assert s == h + ("\n" + rest);
    LineLengthOfLine(h, "\n" + rest);
    assert s[|h|] == '\n';
    assert s[..|h|] == h;
    assert s[|h| + 1..] == rest;
  }

  lemma {:induction false} LineLengthOfLine(h: string, rest: string)
    requires NoLineBreak(h) && |rest| > 0 && IsLineBreak(rest[0])
    ensures LineLength(h + rest) == |h|
    decreases |h|
  {
    if |h| > 0 {
      assert (h + rest)[1..] == h[1..] + rest;
      LineLengthOfLine(h[1..], rest);
    } else {
      assert h + rest == rest;
    }
  }

  /** splitlines() undoes JoinLines for lines without line breaks. */
  lemma {:induction false} SplitJoinLines(lines: seq<string>)
    requires forall i :: 0 <= i < |lines| ==> NoLineBreak(lines[i])
    ensures SplitLines(JoinLines(lines)) == lines
  {
    if |lines| > 0 {
      SplitLinesFirst(lines[0], JoinLines(lines[1..]));
      SplitJoinLines(lines[1..]);
    }
  }

  /** A text without line breaks is a single line (or none at all when empty). */
  lemma SplitLinesOneLine(h: string)
    requires NoLineBreak(h)
    ensures SplitLines(h) == if |h| == 0 then [] else [h]
    ensures SplitLines(h + "\n") == [h]
  {
    if |h| > 0 {
      LineLengthAll(h);
    }
    SplitLinesFirst(h, "");
    assert h + "\n" + "" == h + "\n";
  }

  lemma {:induction false} LineLengthAll(h: string)
    requires NoLineBreak(h)
    ensures LineLength(h) == |h|
  {
    if |h| > 0 {
      LineLengthAll(h[1..]);
    }
  }

  /** Python's str.lower() on ASCII letters; every other character is kept. */
  function LowerChar(c: char): (r: char)
    ensures !('A' <= r <= 'Z')
  {
    if 'A' <= c <= 'Z' then (c as int + 32) as char else c
  }

  /** Python's str.lower() on ASCII letters: each character lowercased in
      place, so no upper-case ASCII letter is left. */
  function Lower(s: string): (r: string)
    ensures |r| == |s|
    ensures forall i :: 0 <= i < |s| ==> r[i] == LowerChar(s[i])
    ensures forall i :: 0 <= i < |r| ==> !('A' <= r[i] <= 'Z')
  {
    if |s| == 0 then []
    else
      var r := [LowerChar(s[0])] + Lower(s[1..]);
      assert forall i :: 1 <= i < |s| ==> r[i] == Lower(s[1..])[i - 1];
      r
  }

  /** Lowercasing twice is lowercasing once, so a lowercased search text matches itself. */
  lemma {:induction false} LowerIdempotent(s: string)
    ensures Lower(Lower(s)) == Lower(s)
  {
    if |s| > 0 {
      LowerIdempotent(s[1..]);
    }
  }

  predicate IsPrefix(p: string, s: string) {
    |p| <= |s| && s[..|p|] == p
  }

  /** Python's `needle in hay` for two strings. */
  predicate Contains(hay: string, needle: string)
    decreases |hay|
  {
    IsPrefix(needle, hay) || (|hay| > 0 && Contains(hay[1..], needle))
  }

  /** `needle` occurs in `hay` starting at index i. */
  predicate OccursAt(hay: string, needle: string, i: int) {
    0 <= i <= |hay| - |needle| && hay[i..i + |needle|] == needle
  }

  /** `needle in hay` holds exactly when needle occurs in hay at some position. */
  lemma {:induction false} ContainsAt(hay: string, needle: string)
    ensures Contains(hay, needle) <==> exists i :: OccursAt(hay, needle, i)
    decreases |hay|
  {
    if IsPrefix(needle, hay) {
      assert OccursAt(hay, needle, 0);
    }
    if |hay| > 0 {
      ContainsAt(hay[1..], needle);
      if exists i :: OccursAt(hay, needle, i) {
        var i :| OccursAt(hay, needle, i);
        if i > 0 {
          assert OccursAt(hay[1..], needle, i - 1) by {
            assert hay[1..][i - 1..i - 1 + |needle|] == hay[i..i + |needle|];
          }
        }
      }
      if Contains(hay[1..], needle) {
        var i :| OccursAt(hay[1..], needle, i);
        assert OccursAt(hay, needle, i + 1) by {
          assert hay[1..][i..i + |needle|] == hay[i + 1..i + 1 + |needle|];
        }
      }
    } else if exists i :: OccursAt(hay, needle, i) {
      var i :| OccursAt(hay, needle, i);
      assert i == 0;
    }
  }

  /** The empty string is in every string: an empty search text matches everything. */
  lemma ContainsEmpty(hay: string)
    ensures Contains(hay, "")
  {
  }
}
