/** `splitSentences`: newline runs become spaces, the text is cut at every
    whitespace run that follows `.`, `!` or `?`, and the pieces are trimmed
    and the empty ones dropped. The browser copy of the function is the same
    code, so this one definition stands for both. */
module Sentences {
  import opened Chars
  import opened Strings
  import opened Tokens

  /** The length of the longest prefix of `s` made of line feeds. */
  function NewlineRun(s: string): (n: nat)
    ensures n <= |s|
    ensures forall i :: 0 <= i < n ==> s[i] == '\n'
    ensures n < |s| ==> s[n] != '\n'
    decreases |s|
  {
    if s != [] && s[0] == '\n' then 1 + NewlineRun(s[1..]) else 0
  }

  /** `text.replace(/\n+/g, ' ')`. */
  function CollapseNewlines(s: string): (r: string)
    ensures '\n' !in r
    ensures |r| <= |s|
    decreases |s|
  {
    if s == [] then []
    else if s[0] == '\n' then [' '] + CollapseNewlines(s[NewlineRun(s)..])
    else [s[0]] + CollapseNewlines(s[1..])
  }

  /** Replacing line feeds by spaces keeps every non-whitespace character. */
  lemma {:induction false} CollapseNewlinesKeepsText(s: string)
    ensures Squeeze(CollapseNewlines(s)) == Squeeze(s)
    decreases |s|
  {
    if s != [] {
      if s[0] == '\n' {
        var n := NewlineRun(s);
        assert s == s[..n] + s[n..];
        assert AllSpace(s[..n]);
        SqueezeAppend(s[..n], s[n..]);
        SqueezeOfAllSpace(s[..n]);
        CollapseNewlinesKeepsText(s[n..]);
        SqueezeAppend([' '], CollapseNewlines(s[n..]));
      } else {
        CollapseNewlinesKeepsText(s[1..]);
        SqueezeAppend([s[0]], CollapseNewlines(s[1..]));
      }
    }
  }

  /** The separator `/(?<=[.!?])\s+/` matches when tried at position `q`: the
      character before `q` is terminal punctuation and the one at `q` is
      whitespace. */
  predicate CutsAt(s: string, q: int) {
    0 < q < |s| && IsTerminal(s[q - 1]) && IsSpace(s[q])
  }

  /** No position inside `t` would let the separator match. */
  predicate Unbroken(t: string) {
    forall q :: 0 < q < |t| ==> !CutsAt(t, q)
  }

  lemma UnbrokenSlice(s: string, p: nat, q: nat)
    requires p <= q <= |s|
    requires forall k :: p < k < q ==> !CutsAt(s, k)
    ensures Unbroken(s[p..q])
  {
    forall k | 0 < k < q - p ensures !CutsAt(s[p..q], k) {
      assert !CutsAt(s, p + k);
    }
  }

  lemma UnbrokenSubslice(t: string, a: nat, b: nat)
    requires a <= b <= |t|
    requires Unbroken(t)
    ensures Unbroken(t[a..b])
  {
    forall k | 0 < k < b - a ensures !CutsAt(t[a..b], k) {
      assert !CutsAt(t, a + k);
    }
  }

  /** `String.prototype.split` with the separator above, following the
      algorithm of the standard: `p` is where the current piece began, `q` the
      position where the separator is tried next. A match at `q` consumes the
      whole whitespace run (the quantifier is greedy) and the next piece starts
      after it. The piece after the last match is always emitted, even empty. */
  function Pieces(s: string, p: nat, q: nat): (r: seq<string>)
    requires p <= q <= |s|
    requires p == 0 || IsSpace(s[p - 1])
    requires forall k :: p < k < q ==> !CutsAt(s, k)
    ensures |r| >= 1
    ensures forall i :: 0 <= i < |r| - 1 ==> |r[i]| > 0 && IsTerminal(r[i][|r[i]| - 1])
    ensures forall i :: 0 <= i < |r| ==> Unbroken(r[i])
    ensures '\n' !in s ==> forall i :: 0 <= i < |r| ==> '\n' !in r[i]
    decreases |s| - q
  {
    if q == |s| then
      UnbrokenSlice(s, p, q);
      [s[p..q]]
    else if CutsAt(s, q) then
      var e := q + SpaceRun(s[q..]);
      SpaceRunEnd(s, q);
      var rest := Pieces(s, e, e);
      PiecesCons(s, p, q, rest);
      [s[p..q]] + rest
    else
      Pieces(s, p, q + 1)
  }

  /** The whitespace run at a cut is not empty and ends in whitespace. */
  lemma SpaceRunEnd(s: string, q: nat)
    requires q < |s| && IsSpace(s[q])
    ensures var e := q + SpaceRun(s[q..]); q < e <= |s| && IsSpace(s[e - 1])
  {
    var n := SpaceRun(s[q..]);
    assert s[q + n - 1] == s[q..][..n][n - 1];
  }

  /** The piece ending at a cut ends in terminal punctuation, so it may go
      in front of the pieces that follow. */
  lemma PiecesCons(s: string, p: nat, q: nat, rest: seq<string>)
    requires p <= q < |s| && CutsAt(s, q)
    requires p == 0 || IsSpace(s[p - 1])
    requires forall k :: p < k < q ==> !CutsAt(s, k)
    requires forall i :: 0 <= i < |rest| - 1 ==> |rest[i]| > 0 && IsTerminal(rest[i][|rest[i]| - 1])
    requires forall i :: 0 <= i < |rest| ==> Unbroken(rest[i])
    requires '\n' !in s ==> forall i :: 0 <= i < |rest| ==> '\n' !in rest[i]
    ensures var r := [s[p..q]] + rest;
      && (forall i :: 0 <= i < |r| - 1 ==> |r[i]| > 0 && IsTerminal(r[i][|r[i]| - 1]))
      && (forall i :: 0 <= i < |r| ==> Unbroken(r[i]))
      && ('\n' !in s ==> forall i :: 0 <= i < |r| ==> '\n' !in r[i])
  {
    var x := s[p..q];
    UnbrokenSlice(s, p, q);
    assert p < q;
    assert x[|x| - 1] == s[q - 1];
    if '\n' !in s {
      assert forall j :: 0 <= j < |x| ==> x[j] == s[p + j];
    }
  }

  /** The pieces together hold every non-whitespace character after `p`: the
      separators removed are whitespace only. */
  lemma {:induction false} PiecesKeepText(s: string, p: nat, q: nat)
    requires p <= q <= |s|
    requires p == 0 || IsSpace(s[p - 1])
    requires forall k :: p < k < q ==> !CutsAt(s, k)
    ensures SqueezeAll(Pieces(s, p, q)) == Squeeze(s[p..])
    decreases |s| - q
  {
    if q == |s| {
      assert s[p..q] == s[p..];
    } else if CutsAt(s, q) {
      var e := CutPieces(s, p, q);
      var rest := Pieces(s, e, e);
      assert ([s[p..q]] + rest)[1..] == rest;
      PiecesKeepText(s, e, e);
      SeparatorIsSpace(s, p, q, e);
    } else {
      PiecesKeepText(s, p, q + 1);
    }
  }

  /** At a cut the current piece ends and the next one starts after the
      whitespace run. */
  lemma CutPieces(s: string, p: nat, q: nat) returns (e: nat)
    requires p <= q < |s|
    requires p == 0 || IsSpace(s[p - 1])
    requires forall k :: p < k < q ==> !CutsAt(s, k)
    requires CutsAt(s, q)
    ensures q < e <= |s| && IsSpace(s[e - 1]) && AllSpace(s[q..e])
    ensures Pieces(s, p, q) == [s[p..q]] + Pieces(s, e, e)
  {
    var n := SpaceRun(s[q..]);
    e := q + n;
    CutPiecesAt(s, p, q, e);
    assert s[q..e] == s[q..][..n];
  }

  lemma SeparatorIsSpace(s: string, p: nat, q: nat, e: nat)
    requires p <= q <= e <= |s|
    requires AllSpace(s[q..e])
    ensures Squeeze(s[p..]) == Squeeze(s[p..q]) + Squeeze(s[e..])
  {
    assert s[p..] == s[p..q] + s[q..e] + s[e..];
    SqueezeAppend(s[p..q] + s[q..e], s[e..]);
    SqueezeAppend(s[p..q], s[q..e]);
    SqueezeOfAllSpace(s[q..e]);
  }

  /** `.map(s => s.trim())`. */
  function TrimAll(ps: seq<string>): (r: seq<string>)
    ensures |r| == |ps|
    ensures forall i :: 0 <= i < |ps| ==> r[i] == Trim(ps[i])
  {
    seq(|ps|, i requires 0 <= i < |ps| => Trim(ps[i]))
  }

  lemma {:induction false} TrimAllKeepsText(ps: seq<string>)
    ensures SqueezeAll(TrimAll(ps)) == SqueezeAll(ps)
    decreases |ps|
  {
    if ps != [] {
      var t := TrimAll(ps);
      assert t[1..] == TrimAll(ps[1..]);
      TrimAllKeepsText(ps[1..]);
      assert SqueezeAll(t) == Squeeze(t[0]) + SqueezeAll(t[1..]);
      assert SqueezeAll(ps) == Squeeze(ps[0]) + SqueezeAll(ps[1..]);
    }
  }

  /** `.filter(Boolean)` on strings: drops the empty ones. */
  function DropEmpty(ps: seq<string>): (r: seq<string>)
    ensures forall i :: 0 <= i < |r| ==> r[i] != []
    decreases |ps|
  {
    if ps == [] then []
    else
      var rest := DropEmpty(ps[1..]);
      if ps[0] == [] then rest else [ps[0]] + rest
  }

  lemma {:induction false} DropEmptyKeepsText(ps: seq<string>)
    ensures SqueezeAll(DropEmpty(ps)) == SqueezeAll(ps)
    decreases |ps|
  {
    if ps != [] {
      DropEmptyKeepsText(ps[1..]);
    }
  }

  /** When only the last piece can be empty, `DropEmpty` removes at most that one. */
  lemma {:induction false} DropEmptyOnlyLast(ps: seq<string>)
    requires |ps| >= 1
    requires forall i :: 0 <= i < |ps| - 1 ==> ps[i] != []
    ensures DropEmpty(ps) == if ps[|ps| - 1] == [] then ps[..|ps| - 1] else ps
    decreases |ps|
  {
    if |ps| > 1 {
      DropEmptyOnlyLast(ps[1..]);
      assert ps[1..][..|ps| - 2] == ps[1..|ps| - 1];
      assert ps[..|ps| - 1] == [ps[0]] + ps[1..|ps| - 1];
    }
  }

  /** Trimming a string that ends in a non-whitespace character keeps that
      character at the end. */
  lemma TrimKeepsLast(x: string)
    requires |x| > 0 && !IsSpace(x[|x| - 1])
    ensures |Trim(x)| > 0 && Trim(x)[|Trim(x)| - 1] == x[|x| - 1]
  {
    SpaceRunStopsAt(x, |x| - 1);
    var t := TrimStart(x);
    assert t[|t| - 1] == x[|x| - 1];
  }

  /** A well-formed sentence: non-empty, trimmed, with no line feed (`\n`),
      and without a place where the splitter could have cut. A `\r`, U+2028
      or U+2029 can remain inside a sentence, as the newline pass replaces
      line feeds only. */
  predicate IsSentence(t: string) {
    && |t| > 0 && !IsSpace(t[0]) && !IsSpace(t[|t| - 1])
    && '\n' !in t
    && Unbroken(t)
  }

  /** Trimming a piece keeps it unbroken and free of line feeds (`\n`). */
  lemma TrimPiece(x: string)
    requires Unbroken(x) && '\n' !in x
    ensures Trim(x) == [] || IsSentence(Trim(x))
  {
    var a := TrimIsSlice(x);
    UnbrokenSubslice(x, a, a + |Trim(x)|);
  }

  /** Only the trailing piece of a split is terminal-free, so only it can trim to nothing. */
  predicate PiecesShape(ps: seq<string>) {
    && |ps| >= 1
    && (forall i :: 0 <= i < |ps| - 1 ==> |ps[i]| > 0 && IsTerminal(ps[i][|ps[i]| - 1]))
  }

  /** The sentences are `ps` without the empty trailing piece. */
  predicate SentencesShape(r: seq<string>) {
    && (forall i :: 0 <= i < |r| ==> IsSentence(r[i]))
    && (forall i :: 0 <= i < |r| - 1 ==> |r[i]| > 0 && IsTerminal(r[i][|r[i]| - 1]))
  }

  lemma TrimPieces(ps: seq<string>)
    requires PiecesShape(ps)
    requires forall i :: 0 <= i < |ps| ==> Unbroken(ps[i]) && '\n' !in ps[i]
    ensures PiecesShape(TrimAll(ps))
    ensures forall i :: 0 <= i < |ps| ==> TrimAll(ps)[i] == [] || IsSentence(TrimAll(ps)[i])
  {
    var ts := TrimAll(ps);
    forall i | 0 <= i < |ps| - 1
      ensures |ts[i]| > 0 && IsTerminal(ts[i][|ts[i]| - 1])
    {
      TrimKeepsLast(ps[i]);
    }
    forall i | 0 <= i < |ps| ensures ts[i] == [] || IsSentence(ts[i]) {
      TrimPiece(ps[i]);
    }
  }

  /** Dropping only a trailing empty entry leaves a prefix. */
  lemma DropEmptyPrefix(ps: seq<string>)
    requires |ps| >= 1
    requires forall i :: 0 <= i < |ps| - 1 ==> ps[i] != []
    ensures |DropEmpty(ps)| <= |ps|
    ensures forall i :: 0 <= i < |DropEmpty(ps)| ==> DropEmpty(ps)[i] == ps[i]
  {
    DropEmptyOnlyLast(ps);
  }

  lemma KeepSentences(ts: seq<string>)
    requires PiecesShape(ts)
    requires forall i :: 0 <= i < |ts| ==> ts[i] == [] || IsSentence(ts[i])
    ensures SentencesShape(DropEmpty(ts))
  {
    var r := DropEmpty(ts);
    DropEmptyPrefix(ts);
    forall i | 0 <= i < |r| ensures IsSentence(r[i]) {
      assert r[i] == ts[i] && r[i] != [];
    }
    forall i | 0 <= i < |r| - 1 ensures |r[i]| > 0 && IsTerminal(r[i][|r[i]| - 1]) {
      assert r[i] == ts[i];
    }
  }

  /** `splitSentences(text)`. Every sentence is well formed and every sentence
      but the last ends in terminal punctuation. */
  function SplitSentences(text: string): (r: seq<string>)
    ensures forall i :: 0 <= i < |r| ==> IsSentence(r[i])
    ensures forall i :: 0 <= i < |r| - 1 ==> |r[i]| > 0 && IsTerminal(r[i][|r[i]| - 1])
  {
    var ps := Pieces(CollapseNewlines(text), 0, 0);
    TrimPieces(ps);
    KeepSentences(TrimAll(ps));
    DropEmpty(TrimAll(ps))
  }

  /** Splitting loses no non-whitespace character of the text and invents none. */
  lemma SplitSentencesKeepsText(text: string)
    ensures SqueezeAll(SplitSentences(text)) == Squeeze(text)
  {
    var s := CollapseNewlines(text);
    CollapseNewlinesKeepsText(text);
    PiecesKeepText(s, 0, 0);
    TrimAllKeepsText(Pieces(s, 0, 0));
    DropEmptyKeepsText(TrimAll(Pieces(s, 0, 0)));
  }

  /** There are no sentences exactly when the text is whitespace only. */
  lemma SplitSentencesEmptyIff(text: string)
    ensures SplitSentences(text) == [] <==> AllSpace(text)
  {
    var r := SplitSentences(text);
    SplitSentencesKeepsText(text);
    SqueezeOfAllSpace(text);
    if r != [] {
      assert Squeeze(r[0]) != [] by {
        SqueezeOfAllSpace(r[0]);
      }
      assert SqueezeAll(r) == Squeeze(r[0]) + SqueezeAll(r[1..]);
    }
  }

  /** Text without a line feed is left alone by the newline pass. */
  lemma {:induction false} CollapseNewlinesWithoutNewline(s: string)
    requires '\n' !in s
    ensures CollapseNewlines(s) == s
    decreases |s|
  {
    if s != [] {
      assert '\n' !in s[1..] by {
        forall k | 0 <= k < |s[1..]| ensures s[1..][k] != '\n' {
          assert s[1..][k] == s[k + 1];
        }
      }
      CollapseNewlinesWithoutNewline(s[1..]);
    }
  }

  /** With no cut left from `q` on, the rest of the text is one piece. */
  lemma {:induction false} PiecesWithoutCut(s: string, p: nat, q: nat)
    requires p <= q <= |s|
    requires p == 0 || IsSpace(s[p - 1])
    requires forall k :: p < k < q ==> !CutsAt(s, k)
    requires forall k :: q <= k < |s| ==> !CutsAt(s, k)
    ensures Pieces(s, p, q) == [s[p..]]
    decreases |s| - q
  {
    if q < |s| {
      assert !CutsAt(s, q);
      PiecesWithoutCut(s, p, q + 1);
    } else {
      assert s[p..q] == s[p..];
    }
  }

  /** A well-formed sentence splits into exactly itself, so splitting is
      idempotent on its own output. */
  lemma SplitSentencesOfSentence(t: string)
    requires IsSentence(t)
    ensures SplitSentences(t) == [t]
  {
    CollapseNewlinesWithoutNewline(t);
    PiecesWithoutCut(t, 0, 0);
    assert t[0..] == t;
    assert TrimStart(t) == t by {
      SpaceRunStopsAt(t, 0);
    }
    assert TrailSpace(t) == 0;
    assert Trim(t) == t;
    var ps := Pieces(CollapseNewlines(t), 0, 0);
    assert ps == [t];
    assert TrimAll(ps) == [t];
    assert [t][1..] == [];
    assert DropEmpty([t]) == [t];
  }

  /** A carriage return from CRLF text survives the newline pass and stays
      inside its sentence: `"ab\r\ncd"` becomes `"ab\r cd"`, one sentence. */
  lemma SplitSentencesKeepsCarriageReturn()
    ensures SplitSentences("ab\r cd") == ["ab\r cd"]
  {
    var t := "ab\r cd";
    assert !IsTerminal(t[1]) && !IsTerminal(t[2]) && !IsTerminal(t[3]);
    SplitSentencesOfSentence(t);
  }

  /** Positions where the separator cannot match are stepped over. */
  lemma {:induction false} PiecesSkip(s: string, p: nat, q: nat, r: nat)
    requires p <= q <= r <= |s|
    requires p == 0 || IsSpace(s[p - 1])
    requires forall k :: p < k < r ==> !CutsAt(s, k)
    ensures Pieces(s, p, q) == Pieces(s, p, r)
    decreases r - q
  {
    if q < r {
      assert !CutsAt(s, q);
      PiecesSkip(s, p, q + 1, r);
    }
  }

  /** `CutPieces` for a known end of the separator. */
  lemma CutPiecesAt(s: string, p: nat, q: nat, e: nat)
    requires p <= q < |s|
    requires p == 0 || IsSpace(s[p - 1])
    requires forall k :: p < k < q ==> !CutsAt(s, k)
    requires CutsAt(s, q)
    requires e == q + SpaceRun(s[q..])
    ensures q < e <= |s| && IsSpace(s[e - 1])
    ensures Pieces(s, p, q) == [s[p..q]] + Pieces(s, e, e)
  {
    var n := SpaceRun(s[q..]);
    assert s[e - 1] == s[q..][..n][e - 1 - q];
  }

  /** A sentence placed at `p` in a text holds no separator match. */
  lemma NoCutsInSentence(s: string, p: nat, x: string)
    requires IsSentence(x) && p + |x| <= |s| && s[p..p + |x|] == x
    ensures forall k :: p < k < p + |x| ==> !CutsAt(s, k)
  {
    forall k | p < k < p + |x| ensures !CutsAt(s, k) {
      assert s[k - 1] == x[k - p - 1] && s[k] == x[k - p];
      assert !CutsAt(x, k - p);
    }
  }

  /** Where a sentence ending in terminal punctuation is followed by one
      space and a non-space, the separator matches at that space and
      takes it alone. */
  lemma CutAfterSentence(s: string, p: nat, x: string)
    requires IsSentence(x) && IsTerminal(x[|x| - 1])
    requires p + |x| + 1 < |s| && s[p..p + |x|] == x
    requires s[p + |x|] == ' ' && !IsSpace(s[p + |x| + 1])
    ensures CutsAt(s, p + |x|)
    ensures SpaceRun(s[p + |x|..]) == 1
  {
    var n := |x|;
    assert s[p + n - 1] == x[n - 1];
    assert s[p + n..][1] == s[p + n + 1];
    SpaceRunStopsAt(s[p + n..], 1);
  }

  /** Where the join of sentences fills a text from `p` to its end: the first
      sentence, then either the end of the text or one space and the join of
      the others. */
  lemma JoinAt(s: string, ss: seq<string>, p: nat)
    requires |ss| >= 1 && forall i :: 0 <= i < |ss| ==> |ss[i]| > 0
    requires p <= |s| && s[p..] == JoinWith(ss, " ")
    ensures p + |ss[0]| <= |s| && s[p..p + |ss[0]|] == ss[0]
    ensures |ss| == 1 ==> |s| == p + |ss[0]|
    ensures |ss| > 1 ==> var n := p + |ss[0]|;
      && n + 1 < |s| && s[n] == ' ' && s[n + 1] == ss[1][0]
      && s[n + 1..] == JoinWith(ss[1..], " ")
  {
    var x := ss[0];
    var n := |x|;
    JoinWithHead(ss, " ");
    assert s[p..p + n] == s[p..][..n];
    if |ss| > 1 {
      var rest := JoinWith(ss[1..], " ");
      assert s[p..] == x + " " + rest;
      assert s[p + n] == s[p..][n];
      assert s[p + n + 1..] == rest;
      JoinWithHead(ss[1..], " ");
      assert s[p + n + 1] == rest[0];
    }
  }

  /** The first sentence of a join, followed by more, is cut off together
      with the one space after it. */
  lemma PiecesFromStep(s: string, ss: seq<string>, p: nat)
    requires |ss| > 1 && SentencesShape(ss)
    requires p <= |s| && s[p..] == JoinWith(ss, " ")
    requires p == 0 || IsSpace(s[p - 1])
    ensures var e := p + |ss[0]| + 1;
      && e <= |s| && IsSpace(s[e - 1]) && s[e..] == JoinWith(ss[1..], " ")
      && Pieces(s, p, p) == [ss[0]] + Pieces(s, e, e)
  {
    var x := ss[0];
    var n := |x|;
    JoinAt(s, ss, p);
    NoCutsInSentence(s, p, x);
    CutAfterSentence(s, p, x);
    PiecesSkip(s, p, p, p + n);
    CutPiecesAt(s, p, p + n, p + n + 1);
  }

  lemma SentencesShapeTail(ss: seq<string>)
    requires |ss| > 0 && SentencesShape(ss)
    ensures SentencesShape(ss[1..])
  {
    var tail := ss[1..];
    assert forall i :: 0 <= i < |tail| ==> tail[i] == ss[i + 1];
  }

  /** A lone sentence that ends the text is the last piece. */
  lemma PiecesFromLast(s: string, x: string, p: nat)
    requires IsSentence(x)
    requires p <= |s| && s[p..] == x
    requires p == 0 || IsSpace(s[p - 1])
    ensures Pieces(s, p, p) == [x]
  {
    JoinAt(s, [x], p);
    NoCutsInSentence(s, p, x);
    PiecesSkip(s, p, p, |s|);
  }

  /** Puts the first piece back in front of the rest. */
  lemma PiecesPrepend(s: string, p: nat, e: nat, ss: seq<string>)
    requires p < e <= |s| && ss != []
    requires p == 0 || IsSpace(s[p - 1])
    requires IsSpace(s[e - 1])
    requires Pieces(s, p, p) == [ss[0]] + Pieces(s, e, e)
    requires Pieces(s, e, e) == ss[1..]
    ensures Pieces(s, p, p) == ss
  {
    assert ss == [ss[0]] + ss[1..];
  }

  /** The join of sentences, placed from a piece start `p` to the end of a
      text, is cut back into those sentences. */
  lemma {:induction false} PiecesFrom(s: string, ss: seq<string>, p: nat)
    requires |ss| >= 1 && SentencesShape(ss)
    requires p <= |s| && s[p..] == JoinWith(ss, " ")
    requires p == 0 || IsSpace(s[p - 1])
    ensures Pieces(s, p, p) == ss
    decreases |ss|
  {
    if |ss| == 1 {
      PiecesFromLast(s, ss[0], p);
      assert ss == [ss[0]];
    } else {
      var e := p + |ss[0]| + 1;
      var tail := ss[1..];
      PiecesFromStep(s, ss, p);
      SentencesShapeTail(ss);
      PiecesFrom(s, tail, e);
      PiecesPrepend(s, p, e, ss);
    }
  }

  /** A well-formed sentence is its own `trim`. */
  lemma TrimSentence(t: string)
    requires IsSentence(t)
    ensures Trim(t) == t
  {
    assert TrimStart(t) == t by {
      SpaceRunStopsAt(t, 0);
    }
    assert TrailSpace(t) == 0;
  }

  /** A space-join of sentences has a line feed only if a sentence has one. */
  lemma {:induction false} JoinOfSentencesNoLineFeed(ss: seq<string>)
    requires forall i :: 0 <= i < |ss| ==> '\n' !in ss[i]
    ensures '\n' !in JoinWith(ss, " ")
    decreases |ss|
  {
    if |ss| > 1 {
      JoinOfSentencesNoLineFeed(ss[1..]);
      assert JoinWith(ss, " ") == ss[0] + " " + JoinWith(ss[1..], " ");
    }
  }

  /** Well-formed sentences are left alone by the trimming step. */
  lemma TrimAllSentences(ss: seq<string>)
    requires forall i :: 0 <= i < |ss| ==> IsSentence(ss[i])
    ensures TrimAll(ss) == ss
  {
    forall i | 0 <= i < |ss| ensures TrimAll(ss)[i] == ss[i] {
      TrimSentence(ss[i]);
    }
  }

  /** Round trip: joining well-formed sentences, all but the last ending in
      `.`, `!` or `?`, with single spaces and splitting the result gives the
      same sentences back. */
  lemma SplitSentencesOfJoin(ss: seq<string>)
    requires SentencesShape(ss)
    ensures SplitSentences(JoinWith(ss, " ")) == ss
  {
    var text := JoinWith(ss, " ");
    if ss == [] {
      SplitSentencesEmptyIff(text);
    } else {
      JoinOfSentencesNoLineFeed(ss);
      CollapseNewlinesWithoutNewline(text);
      assert text[0..] == text;
      PiecesFrom(text, ss, 0);
      TrimAllSentences(ss);
      DropEmptyOnlyLast(ss);
    }
  }


  /** Text without line feeds at the front is left as it is. */
  lemma {:induction false} CollapseNewlinesAfter(w: string, rest: string)
    requires '\n' !in w
    ensures CollapseNewlines(w + rest) == w + CollapseNewlines(rest)
    decreases |w|
  {
    if w == [] {
      assert w + rest == rest;
    } else {
      assert (w + rest)[1..] == w[1..] + rest;
      CollapseNewlinesAfter(w[1..], rest);
      AppendAssoc([w[0]], w[1..], CollapseNewlines(rest));
      assert w == [w[0]] + w[1..];
    }
  }

  /** The collapsed text is empty, or starts with whitespace, exactly when
      the text is or does. */
  lemma CollapseNewlinesHead(s: string)
    ensures CollapseNewlines(s) == [] <==> s == []
    ensures s != [] ==> (IsSpace(CollapseNewlines(s)[0]) <==> IsSpace(s[0]))
  {
  }

  /** Turning line-feed runs into spaces keeps the words. */
  lemma {:induction false} WordsOfCollapseNewlines(s: string)
    ensures Words(CollapseNewlines(s)) == Words(s)
    decreases |s|
  {
    if s != [] {
      if s[0] == '\n' {
        var n := NewlineRun(s);
        var c := CollapseNewlines(s[n..]);
        WordsOfCollapseNewlines(s[n..]);
        assert ([' '] + c)[1..] == c;
        assert AllSpace(s[..n]);
        WordsSkipSpace(s, n);
      } else if IsSpace(s[0]) {
        var c := CollapseNewlines(s[1..]);
        WordsOfCollapseNewlines(s[1..]);
        assert ([s[0]] + c)[1..] == c;
      } else {
        var m := WordRun(s);
        var w, r := s[..m], s[m..];
        WordsOfCollapseNewlines(r);
        WordsOfCollapseNewlinesWord(s, w, r);
      }
    }
  }

  /** The step of `WordsOfCollapseNewlines` for a text that starts with a word. */
  lemma WordsOfCollapseNewlinesWord(s: string, w: string, r: string)
    requires s == w + r && |w| > 0 && NoSpace(w)
    requires r == [] || IsSpace(r[0])
    requires Words(CollapseNewlines(r)) == Words(r)
    ensures Words(CollapseNewlines(s)) == Words(s)
  {
    assert '\n' !in w by {
      forall i | 0 <= i < |w| ensures w[i] != '\n' {
        assert !IsSpace(w[i]);
      }
    }
    CollapseNewlinesAfter(w, r);
    CollapseNewlinesHead(r);
    WordsAppend(w, CollapseNewlines(r));
    WordsAppend(w, r);
  }

  /** The pieces hold the text's words in order: a cut removes whitespace
      only, so no word is split or merged. */
  lemma {:induction false} PiecesWords(s: string, p: nat)
    requires p <= |s|
    requires p == 0 || IsSpace(s[p - 1])
    ensures WordsAll(Pieces(s, p, p)) == Words(s[p..])
    decreases |s| - p
  {
    var q := NextCut(s, p, p);
    PiecesSkip(s, p, p, q);
    if q == |s| {
      PiecesWordsEnd(s, p, q);
    } else {
      var e := CutPieces(s, p, q);
      PiecesWords(s, e);
      PiecesWordsCut(s, p, q, e);
    }
  }

  /** The first cut at or after `q`, or the end of the text. */
  lemma {:induction false} NextCut(s: string, p: nat, q: nat) returns (r: nat)
    requires p <= q <= |s|
    requires forall k :: p < k < q ==> !CutsAt(s, k)
    ensures q <= r <= |s| && (r == |s| || CutsAt(s, r))
    ensures forall k :: p < k < r ==> !CutsAt(s, k)
    decreases |s| - q
  {
    if q == |s| || CutsAt(s, q) {
      r := q;
    } else {
      r := NextCut(s, p, q + 1);
    }
  }

  /** The last piece carries the words of the rest of the text. */
  lemma PiecesWordsEnd(s: string, p: nat, q: nat)
    requires p <= q == |s|
    requires p == 0 || IsSpace(s[p - 1])
    requires forall k :: p < k < q ==> !CutsAt(s, k)
    ensures WordsAll(Pieces(s, p, q)) == Words(s[p..])
  {
    assert s[p..q] == s[p..];
    assert Pieces(s, p, q) == [s[p..]];
    WordsAllOne(s[p..]);
  }

  /** A cut splits the words between the piece before it and the rest. */
  lemma PiecesWordsCut(s: string, p: nat, q: nat, e: nat)
    requires p <= q < e <= |s| && IsSpace(s[e - 1])
    requires p == 0 || IsSpace(s[p - 1])
    requires forall k :: p < k < q ==> !CutsAt(s, k)
    requires AllSpace(s[q..e])
    requires Pieces(s, p, q) == [s[p..q]] + Pieces(s, e, e)
    requires WordsAll(Pieces(s, e, e)) == Words(s[e..])
    ensures WordsAll(Pieces(s, p, q)) == Words(s[p..])
  {
    SliceThree(s, p, q, e);
    WordsOfCut(s[p..], s[p..q], s[q..e], s[e..], Pieces(s, p, q), Pieces(s, e, e));
  }

  lemma WordsAllOne(t: string)
    ensures WordsAll([t]) == Words(t)
  {
    WordsAllCons(t, []);
    assert [t] + [] == [t];
  }

  lemma SliceThree(s: string, p: nat, q: nat, e: nat)
    requires p <= q <= e <= |s|
    ensures s[p..] == s[p..q] + s[q..e] + s[e..]
  {
  }

  /** The step of `PiecesWords` at a cut: the piece `a` before the gap `g`,
      and the pieces `rest` of the text `b` after it. */
  lemma WordsOfCut(whole: string, a: string, g: string, b: string, ps: seq<string>, rest: seq<string>)
    requires whole == a + g + b && g != [] && AllSpace(g)
    requires ps == [a] + rest && WordsAll(rest) == Words(b)
    ensures WordsAll(ps) == Words(whole)
  {
    WordsAcrossGap(a, g, b);
    WordsAllCons(a, rest);
  }

  /** A whitespace gap between two texts separates their words. */
  lemma WordsAcrossGap(a: string, g: string, b: string)
    requires g != [] && AllSpace(g)
    ensures Words(a + g + b) == Words(a) + Words(b)
  {
    AppendAssoc(a, g, b);
    assert (g + b)[0] == g[0];
    WordsAppend(a, g + b);
    assert (g + b)[..|g|] == g && (g + b)[|g|..] == b;
    WordsSkipSpace(g + b, |g|);
  }

  /** Trimming each text keeps the words. */
  lemma {:induction false} WordsAllTrimAll(ts: seq<string>)
    ensures WordsAll(TrimAll(ts)) == WordsAll(ts)
    decreases |ts|
  {
    if ts != [] {
      var t := TrimAll(ts);
      assert t[1..] == TrimAll(ts[1..]);
      WordsAllTrimAll(ts[1..]);
      WordsOfTrim(ts[0]);
    }
  }

  /** Dropping empty texts keeps the words. */
  lemma {:induction false} WordsAllDropEmpty(ts: seq<string>)
    ensures WordsAll(DropEmpty(ts)) == WordsAll(ts)
    decreases |ts|
  {
    if ts != [] {
      WordsAllDropEmpty(ts[1..]);
      if ts[0] != [] {
        WordsAllCons(ts[0], DropEmpty(ts[1..]));
      }
    }
  }

  /** The sentences hold the text's words, in order, each word whole: no
      word is cut in two or glued to its neighbour. */
  lemma SplitSentencesKeepsWords(text: string)
    ensures WordsAll(SplitSentences(text)) == Words(text)
    ensures Words(JoinWith(SplitSentences(text), " ")) == Words(text)
  {
    var s := CollapseNewlines(text);
    var ps := Pieces(s, 0, 0);
    assert s[0..] == s;
    PiecesWords(s, 0);
    WordsAllTrimAll(ps);
    WordsAllDropEmpty(TrimAll(ps));
    WordsOfCollapseNewlines(text);
    WordsOfJoinWith(SplitSentences(text));
  }
}
