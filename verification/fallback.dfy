/** The browser's own path: `cleanTextForAI`, which tidies a captured
    transcript, and `localSummarize`, the reduced summariser used when the
    remote one cannot be reached. The splitter, tokeniser, stopwords and
    scorer it calls are the shared definitions of the other modules. */
module Fallback {
  import opened Chars
  import opened Strings
  import opened Sentences
  import opened Scoring
  import opened Ranking
  import opened Format
  import opened Summary

  /** `---` starts at position `k` of `u`. */
  predicate DashesAt(u: string, k: nat) {
    k + 3 <= |u| && u[k..k + 3] == "---"
  }

  /** No character of `s` is one a regular-expression `.` refuses. */
  predicate OnOneLine(s: string) {
    forall i :: 0 <= i < |s| ==> !IsLineTerminator(s[i])
  }

  /** The lazy tail `.*?---` of the marker pattern, matched at the start of
      `u`: the length up to and including the first `---`, provided no line
      terminator comes before it; 0 when there is no such `---`. */
  function Closer(u: string): (n: nat)
    ensures n == 0 || 3 <= n <= |u|
    decreases |u|
  {
    if DashesAt(u, 0) then 3
    else if u != [] && !IsLineTerminator(u[0]) then
      var m := Closer(u[1..]);
      if m == 0 then 0 else m + 1
    else 0
  }

  /** When `Closer` finds an end, it lies just after the first `---` of `u`,
      and no line terminator comes before that `---`. */
  lemma {:induction false} CloserFound(u: string)
    requires Closer(u) > 0
    ensures DashesAt(u, Closer(u) - 3)
    ensures OnOneLine(u[..Closer(u) - 3])
    ensures forall k :: 0 <= k < Closer(u) - 3 ==> !DashesAt(u, k)
    decreases |u|
  {
    if !DashesAt(u, 0) {
      var v := u[1..];
      var n := Closer(v);
      assert Closer(u) == n + 1 && !IsLineTerminator(u[0]);
      CloserFound(v);
      DashesShift(u, n - 3);
      OnOneLineCons(u, n - 3);
      NoDashesShift(u, n - 3);
    }
  }

  lemma DashesShift(u: string, j: nat)
    requires u != [] && DashesAt(u[1..], j)
    ensures DashesAt(u, j + 1)
  {
    assert u[j + 1..j + 4] == u[1..][j..j + 3];
  }

  lemma OnOneLineCons(u: string, j: nat)
    requires j < |u| && !IsLineTerminator(u[0]) && OnOneLine(u[1..][..j])
    ensures OnOneLine(u[..j + 1])
  {
    forall i | 0 <= i < j + 1 ensures !IsLineTerminator(u[i]) {
      if i > 0 {
        assert u[i] == u[1..][..j][i - 1];
      }
    }
  }

  lemma NoDashesShift(u: string, j: nat)
    requires u != [] && !DashesAt(u, 0)
    requires forall k :: 0 <= k < j ==> !DashesAt(u[1..], k)
    ensures forall k :: 0 <= k < j + 1 ==> !DashesAt(u, k)
  {
    forall k | 1 <= k < j + 1 ensures !DashesAt(u, k) {
      assert !DashesAt(u[1..], k - 1);
      if k + 3 <= |u| {
        assert u[k..k + 3] == u[1..][k - 1..k + 2];
      }
    }
  }

  /** Conversely, the first `---` reachable without crossing a line is
      where `Closer` ends. */
  lemma {:induction false} CloserFinds(u: string, k: nat)
    requires DashesAt(u, k) && OnOneLine(u[..k])
    requires forall j :: 0 <= j < k ==> !DashesAt(u, j)
    ensures Closer(u) == k + 3
    decreases k
  {
    if k > 0 {
      var v := u[1..];
      assert !DashesAt(u, 0);
      assert u[..k][0] == u[0];
      assert v[k - 1..k + 2] == u[k..k + 3];
      forall i | 0 <= i < k - 1 ensures !IsLineTerminator(v[i]) {
        assert v[i] == u[..k][i + 1];
      }
      assert OnOneLine(v[..k - 1]);
      forall j | 0 <= j < k - 1 ensures !DashesAt(v, j) {
        assert !DashesAt(u, j + 1);
        if j + 3 <= |v| {
          assert v[j..j + 3] == u[j + 1..j + 4];
        }
      }
      CloserFinds(v, k - 1);
    }
  }

  /** When `Closer` finds no end, every `---` of `u` lies past a line break. */
  lemma {:induction false} CloserNone(u: string, k: nat)
    requires Closer(u) == 0 && DashesAt(u, k)
    ensures !OnOneLine(u[..k])
    decreases |u|
  {
    if !IsLineTerminator(u[0]) {
      var v := u[1..];
      assert v[k - 1..k + 2] == u[k..k + 3];
      CloserNone(v, k - 1);
      var i :| 0 <= i < k - 1 && IsLineTerminator(v[..k - 1][i]);
      assert u[..k][i + 1] == v[..k - 1][i];
    } else {
      assert u[..k][0] == u[0];
    }
  }

  /** `--- captured` with the word in any letter case, at the start of `s`. */
  predicate Opens(s: string) {
    |s| >= 12 && s[..4] == "--- " && Lower(s[4..12]) == "captured"
  }

  /** The length of the `/--- captured.*?---/i` match at the start of `s`, or
      0 when the pattern does not match there. */
  function MarkerLen(s: string): (n: nat)
    ensures n == 0 || 15 <= n <= |s|
  {
    if Opens(s) && Closer(s[12..]) > 0 then 12 + Closer(s[12..]) else 0
  }

  /** `text.replace(/--- captured.*?---/gi, "")`: scanning from the left,
      every match is deleted and the scan resumes after it; where the pattern
      does not match, one character is kept and the scan moves on. */
  function StripMarkers(s: string): (r: string)
    ensures |r| <= |s|
    decreases |s|
  {
    if s == [] then []
    else
      var m := MarkerLen(s);
      if m > 0 then StripMarkers(s[m..]) else [s[0]] + StripMarkers(s[1..])
  }

  /** No position of `s` before `n` starts a match. */
  predicate NoMatchBefore(s: string, n: nat) {
    forall i :: 0 <= i < n && i <= |s| ==> MarkerLen(s[i..]) == 0
  }

  /** No position of `s` starts a match. */
  predicate NoMarker(s: string) {
    NoMatchBefore(s, |s|)
  }

  /** A transcript without a marker passes through unchanged. */
  lemma {:induction false} StripMarkersNoMarker(s: string)
    requires NoMarker(s)
    ensures StripMarkers(s) == s
    decreases |s|
  {
    if s != [] {
      assert MarkerLen(s[0..]) == 0 && s[0..] == s;
      forall i | 0 <= i < |s[1..]| ensures MarkerLen(s[1..][i..]) == 0 {
        assert s[1..][i..] == s[i + 1..];
      }
      StripMarkersNoMarker(s[1..]);
    }
  }

  lemma NoMatchBeforeTail(c: char, t: string, n: nat)
    requires NoMatchBefore([c] + t, n + 1)
    ensures NoMatchBefore(t, n)
  {
    forall i | 0 <= i < n && i <= |t| ensures MarkerLen(t[i..]) == 0 {
      assert t[i..] == ([c] + t)[i + 1..];
    }
  }

  /** A match at the front is deleted whole. */
  lemma StripMarkersAtMatch(m: string, q: string)
    requires MarkerLen(m + q) == |m|
    ensures StripMarkers(m + q) == StripMarkers(q)
  {
    assert (m + q)[|m|..] == q;
  }

  /** Where no match starts, the front character is kept. */
  lemma StripMarkersKeepsFront(c: char, t: string)
    requires MarkerLen([c] + t) == 0
    ensures StripMarkers([c] + t) == [c] + StripMarkers(t)
  {
    assert ([c] + t)[1..] == t;
  }

  /** Text before the first match is kept as it is, the match itself is
      deleted, and the scan goes on with what follows it. */
  lemma {:induction false} StripMarkersFirstMatch(p: string, m: string, q: string)
    requires MarkerLen(m + q) == |m|
    requires NoMatchBefore(p + m + q, |p|)
    ensures StripMarkers(p + m + q) == p + StripMarkers(q)
    decreases |p|
  {
    if p == [] {
      assert p + m + q == m + q;
      StripMarkersAtMatch(m, q);
    } else {
      var t := p[1..] + m + q;
      StripMarkersSplitFront(p, m, q);
      StripMarkersKeepsFront(p[0], t);
      StripMarkersFirstMatch(p[1..], m, q);
      ConsAppend(p, StripMarkers(p + m + q), StripMarkers(t), StripMarkers(q));
    }
  }

  lemma ConsAppend(p: string, x: string, y: string, z: string)
    requires p != [] && x == [p[0]] + y && y == p[1..] + z
    ensures x == p + z
  {
    assert p == [p[0]] + p[1..];
  }

  lemma StripMarkersSplitFront(p: string, m: string, q: string)
    requires p != [] && NoMatchBefore(p + m + q, |p|)
    ensures p + m + q == [p[0]] + (p[1..] + m + q)
    ensures MarkerLen([p[0]] + (p[1..] + m + q)) == 0
    ensures NoMatchBefore(p[1..] + m + q, |p| - 1)
  {
    var s := p + m + q;
    var t := p[1..] + m + q;
    assert s == [p[0]] + t;
    assert s[0..] == s;
    NoMatchBeforeTail(p[0], t, |p| - 1);
  }

  lemma ExampleCloser(u: string)
    requires u == " 9 --- there"
    ensures Closer(u) == 6
  {
    assert u[..3] == " 9 ";
    forall j | 0 <= j < 3 ensures !DashesAt(u, j) {
      assert u[j..j + 3][0] == u[..3][j] != '-';
    }
    assert u[3..6] == "---";
    CloserFinds(u, 3);
  }

  lemma ExampleOpens(s: string, w: string, rest: string)
    requires w == "Captured" && s == "--- " + w + rest
    ensures Opens(s)
  {
    assert s[..4] == "--- ";
    assert s[4..12] == w;
    assert Lower(w) == "captured";
  }

  lemma ExampleMatch(m: string, q: string)
    requires m == "--- Captured 9 ---" && q == " there"
    ensures MarkerLen(m + q) == |m|
  {
    var w, rest := "Captured", " 9 --- there";
    var s := m + q;
    assert s == "--- " + w + rest;
    assert s[12..] == rest;
    ExampleOpens(s, w, rest);
    ExampleCloser(rest);
  }

  lemma ExampleBefore(p: string, t: string)
    requires p == "Hi "
    ensures NoMatchBefore(p + t, |p|)
  {
    var s := p + t;
    forall i | 0 <= i < |p| && i <= |s| ensures MarkerLen(s[i..]) == 0 {
      assert s[i..][0] == p[i] != '-';
    }
  }

  lemma ExampleAfter(q: string)
    requires q == " there"
    ensures StripMarkers(q) == q
  {
    forall i | 0 <= i < |q| && i <= |q| ensures MarkerLen(q[i..]) == 0 {
      assert |q[i..]| < 12;
    }
    StripMarkersNoMarker(q);
  }

  /** A marker and its time stamp vanish from the middle of a line. */
  lemma StripMarkersExample(s: string)
    requires s == "Hi --- Captured 9 --- there"
    ensures StripMarkers(s) == "Hi  there"
  {
    var p, m, q := "Hi ", "--- Captured 9 ---", " there";
    assert p + m + q == s;
    assert p + q == "Hi  there";
    ExampleMatch(m, q);
    ExampleBefore(p, m + q);
    assert p + m + q == p + (m + q);
    ExampleAfter(q);
    StripMarkersFirstMatch(p, m, q);
  }

  /** The pattern's `.` does not cross a line break, so a marker whose closing
      dashes sit on the next line is kept. */
  lemma StripMarkersKeepsBrokenMarker()
    ensures StripMarkers("--- captured\n---") == "--- captured\n---"
  {
    var s := "--- captured\n---";
    var u := s[12..];
    assert u == "\n---";
    assert u[..3] != "---" by {
      assert u[..3][0] == '\n';
    }
    assert Closer(u) == 0;
    forall i | 0 <= i < |s| && i <= |s| ensures MarkerLen(s[i..]) == 0 {
      if 0 < i <= 4 {
        assert s[i..][..4][3] == s[i + 3] != ' ';
      }
    }
    StripMarkersNoMarker(s);
  }

  /** `cleanTextForAI(text)`: markers removed, newline runs turned into
      spaces, whitespace runs collapsed to one space, the ends trimmed. */
  function CleanTextForAI(text: string): (r: string)
    ensures r == [] || (!IsSpace(r[0]) && !IsSpace(r[|r| - 1]))
  {
    Trim(Collapse(CollapseNewlines(StripMarkers(text))))
  }

  lemma {:induction false} SpaceRunAfterSpace(a: string, t: string)
    requires AllSpace(a)
    ensures SpaceRun(a + t) == |a| + SpaceRun(t)
    decreases |a|
  {
    if a != [] {
      assert (a + t)[0] == a[0];
      assert (a + t)[1..] == a[1..] + t;
      SpaceRunAfterSpace(a[1..], t);
    } else {
      assert a + t == t;
    }
  }

  /** Collapsing a text that starts with a whitespace run. */
  lemma CollapseAfterSpace(a: string, t: string)
    requires a != [] && AllSpace(a)
    ensures Collapse(a + t) == if t != [] && IsSpace(t[0]) then Collapse(t) else [' '] + Collapse(t)
  {
    CollapseSpacePrefix(a, t);
    if t != [] && IsSpace(t[0]) {
      CollapseSpaceHead(t);
    } else {
      assert t[SpaceRun(t)..] == t;
    }
  }

  /** A whitespace prefix and the run that follows it become one space. */
  lemma CollapseSpacePrefix(a: string, t: string)
    requires a != [] && AllSpace(a)
    ensures Collapse(a + t) == [' '] + Collapse(t[SpaceRun(t)..])
  {
    SpaceRunAfterSpace(a, t);
    assert (a + t)[0] == a[0];
    DropAfterPrefix(a, t, SpaceRun(t));
    CollapseSkipRun(a + t, |a| + SpaceRun(t), t[SpaceRun(t)..]);
  }

  /** A leading whitespace run of length `k` collapses to one space. */
  lemma CollapseSkipRun(u: string, k: nat, v: string)
    requires u != [] && IsSpace(u[0]) && k == SpaceRun(u) && k <= |u| && u[k..] == v
    ensures Collapse(u) == [' '] + Collapse(v)
  {
  }

  lemma DropAfterPrefix(a: string, t: string, n: nat)
    requires n <= |t|
    ensures (a + t)[|a| + n..] == t[n..]
  {
  }

  /** A leading whitespace run collapses to one space. */
  lemma CollapseSpaceHead(s: string)
    requires s != [] && IsSpace(s[0])
    ensures Collapse(s) == [' '] + Collapse(s[SpaceRun(s)..])
  {
  }

  /** Collapsing after a run of whitespace depends only on the collapse of
      what follows and on whether that starts with whitespace. */
  lemma CollapseAfterSpaceSame(a: string, x: string, b: string, y: string)
    requires a != [] && AllSpace(a) && b != [] && AllSpace(b)
    requires Collapse(x) == Collapse(y)
    requires (x != [] && IsSpace(x[0])) <==> (y != [] && IsSpace(y[0]))
    ensures Collapse(a + x) == Collapse(b + y)
  {
    CollapseAfterSpace(a, x);
    CollapseAfterSpace(b, y);
  }

  /** A character other than whitespace is kept in front of the collapse. */
  lemma CollapseKeepsWord(c: char, x: string)
    requires !IsSpace(c)
    ensures Collapse([c] + x) == [c] + Collapse(x)
  {
    assert ([c] + x)[1..] == x;
  }

  /** The newline pass does not change whether a text starts with whitespace. */
  lemma CollapseNewlinesHead(s: string)
    ensures (CollapseNewlines(s) != [] && IsSpace(CollapseNewlines(s)[0])) <==> (s != [] && IsSpace(s[0]))
  {
  }

  /** The newline pass of `cleanTextForAI` changes nothing that the
      whitespace collapse after it would not change anyway. */
  lemma {:induction false} NewlinePassRedundant(s: string)
    ensures Collapse(CollapseNewlines(s)) == Collapse(s)
    decreases |s|
  {
    if s != [] {
      if s[0] == '\n' {
        var a, t := NewlineSplit(s);
        NewlinePassRedundant(t);
        NewlineRunStep(s, a, t);
      } else {
        var c, t := OtherCharSplit(s);
        NewlinePassRedundant(t);
        OtherCharStep(s, c, t);
      }
    }
  }

  lemma NewlineRunStep(s: string, a: string, t: string)
    requires s == a + t && a != [] && AllSpace(a)
    requires CollapseNewlines(s) == [' '] + CollapseNewlines(t)
    requires Collapse(CollapseNewlines(t)) == Collapse(t)
    ensures Collapse(CollapseNewlines(s)) == Collapse(s)
  {
    CollapseNewlinesHead(t);
    CollapseAfterSpaceSame([' '], CollapseNewlines(t), a, t);
  }

  /** A run of line feeds is whitespace, and the newline pass puts one space
      for it. */
  lemma NewlineSplit(s: string) returns (a: string, t: string)
    requires s != [] && s[0] == '\n'
    ensures s == a + t && a != [] && AllSpace(a) && |t| < |s|
    ensures CollapseNewlines(s) == [' '] + CollapseNewlines(t)
  {
    var n := NewlineRun(s);
    a, t := s[..n], s[n..];
    assert forall i :: 0 <= i < n ==> a[i] == s[i];
    assert s == a + t;
  }

  lemma OtherCharStep(s: string, c: char, t: string)
    requires s == [c] + t && c != '\n'
    requires CollapseNewlines(s) == [c] + CollapseNewlines(t)
    requires Collapse(CollapseNewlines(t)) == Collapse(t)
    ensures Collapse(CollapseNewlines(s)) == Collapse(s)
  {
    var ct := CollapseNewlines(t);
    if IsSpace(c) {
      CollapseNewlinesHead(t);
      CollapseAfterSpaceSame([c], ct, [c], t);
    } else {
      CollapseKeepsWord(c, ct);
      CollapseKeepsWord(c, t);
    }
  }

  /** Any other character is copied by the newline pass. */
  lemma OtherCharSplit(s: string) returns (c: char, t: string)
    requires s != [] && s[0] != '\n'
    ensures s == [c] + t && c != '\n' && |t| < |s|
    ensures CollapseNewlines(s) == [c] + CollapseNewlines(t)
  {
    c, t := s[0], s[1..];
    assert s == [c] + t;
  }

  /** Whitespace occurs only as single spaces. */
  predicate Collapsed(s: string) {
    && (forall i :: 0 <= i < |s| && IsSpace(s[i]) ==> s[i] == ' ')
    && SingleSpaced(s)
  }

  /** A slice of a collapsed string is still collapsed. */
  lemma CollapsedSlice(s: string, a: nat, b: nat)
    requires a <= b <= |s| && Collapsed(s)
    ensures Collapsed(s[a..b])
  {
    forall i | 0 <= i < b - a - 1 ensures !(IsSpace(s[a..b][i]) && IsSpace(s[a..b][i + 1])) {
      assert s[a..b][i] == s[a + i] && s[a..b][i + 1] == s[a + i + 1];
    }
  }

  /** A collapsed text has no line feed. */
  lemma CollapsedOneLine(r: string)
    requires Collapsed(r)
    ensures '\n' !in r
  {
    assert IsSpace('\n');
  }

  /** Trimming a collapsed text leaves it collapsed. */
  lemma TrimCollapsed(c: string)
    requires Collapsed(c)
    ensures Collapsed(Trim(c))
  {
    var a := TrimIsSlice(c);
    CollapsedSlice(c, a, a + |Trim(c)|);
  }

  /** Trimming a collapsed text leaves only single spaces. */
  lemma TrimCollapseShape(s: string)
    ensures Collapsed(Trim(Collapse(s)))
  {
    assert Collapsed(Collapse(s));
    TrimCollapsed(Collapse(s));
  }

  /** Trimming a collapsed text keeps every non-whitespace character. */
  lemma TrimCollapseKeepsText(s: string)
    ensures Squeeze(Trim(Collapse(s))) == Squeeze(s)
  {
    CollapseKeepsText(s);
  }

  /** The cleaned transcript has no whitespace at either end, no line break,
      no whitespace other than single spaces, and keeps every other
      character of the marker-free text in order; the newline pass could be
      dropped without changing it. */
  lemma CleanTextShape(text: string)
    ensures var r := CleanTextForAI(text);
      && (r == [] || (!IsSpace(r[0]) && !IsSpace(r[|r| - 1])))
      && Collapsed(r)
      && '\n' !in r
      && Squeeze(r) == Squeeze(StripMarkers(text))
      && r == Trim(Collapse(StripMarkers(text)))
  {
    var s := StripMarkers(text);
    NewlinePassRedundant(s);
    TrimCollapseShape(s);
    CollapsedOneLine(Trim(Collapse(s)));
    TrimCollapseKeepsText(s);
  }

  /** `scored.sort(...).slice(0, 3).map(x => x.s)`: the texts of the first
      three entries of the score ranking. */
  function LocalBest(sentences: seq<string>): (r: seq<string>)
    ensures |r| == Min(3, |sentences|)
  {
    Texts(Take(Ranked(sentences), 3))
  }

  /** `localSummarize(text)`: the three best-scoring sentences (fewer when the
      text has fewer), in score order, joined by single spaces. */
  function LocalSummarize(text: string): string {
    var sentences := SplitSentences(text);
    if |sentences| == 0 then "" else JoinWith(LocalBest(sentences), " ")
  }

  /** Picks from well-formed sentences join to a non-empty text. */
  lemma LocalJoinNonEmpty(sentences: seq<string>)
    requires AllSentences(sentences) && |sentences| >= 1
    ensures JoinWith(LocalBest(sentences), " ") != ""
  {
    RankedTextIsSentence(sentences, 0);
    JoinOfNonEmpty(LocalBest(sentences), " ");
  }

  /** The fallback says nothing exactly when the text is blank. */
  lemma LocalSummarizeEmptyIff(text: string)
    ensures LocalSummarize(text) == "" <==> AllSpace(text)
    ensures LocalSummarize(text) == "" <==> SplitSentences(text) == []
  {
    SplitSentencesEmptyIff(text);
    if SplitSentences(text) != [] {
      SplitIsSentences(text);
      LocalJoinNonEmpty(SplitSentences(text));
    }
  }

  /** The picks are the first `min(3, #sentences)` entries of a ranking of
      the scored sentences (best score first, ties in document order), and
      of any such ranking, since there is only one. So each pick is one of
      the sentences, and every sentence left out scores no higher than every
      pick. */
  lemma LocalBestRanks(sentences: seq<string>)
    ensures RankingOf(Ranked(sentences), ScoreSentences(sentences))
    ensures var m := Min(3, |sentences|);
      forall ranked: seq<Scored> :: RankingOf(ranked, ScoreSentences(sentences)) ==>
        && LocalBest(sentences) == Texts(ranked[..m])
        && (forall i, j :: 0 <= i < m <= j < |ranked| ==> AtLeast(ranked[i].score, ranked[j].score))
    ensures forall i :: 0 <= i < Min(3, |sentences|) ==> LocalBest(sentences)[i] in sentences
  {
    var scored := ScoreSentences(sentences);
    TopByScoreRanks(sentences);
    forall ranked | RankingOf(ranked, scored)
      ensures ranked == Ranked(sentences)
    {
      RankingUnique(ranked, Ranked(sentences), scored);
    }
    forall i | 0 <= i < Min(3, |sentences|) ensures LocalBest(sentences)[i] in sentences {
      RankedTextIsSentence(sentences, i);
    }
  }

  /** For a text with sentences, the fallback's output is the first
      `min(3, #sentences)` entries of the ranking of its scored sentences,
      joined by single spaces and otherwise unchanged: not cleaned, not
      capitalised. */
  lemma LocalPicks(text: string)
    requires !AllSpace(text)
    ensures var sentences := SplitSentences(text);
      && |sentences| >= 1
      && (forall ranked: seq<Scored> :: RankingOf(ranked, ScoreSentences(sentences)) ==>
            LocalSummarize(text) == JoinWith(Texts(ranked[..Min(3, |sentences|)]), " "))
  {
    SplitSentencesEmptyIff(text);
    LocalBestRanks(SplitSentences(text));
  }

  /** The fallback chooses the same sentences, counted with multiplicity, as
      the server's default style at the default length; only the order and
      the line formatting differ. */
  lemma LocalPicksServerSelection(sentences: seq<string>)
    requires |sentences| >= 1
    ensures Min(3, |sentences|) == SelectionCount("medium", |sentences|)
    ensures multiset(LocalBest(sentences)) == multiset(Chosen(sentences, Min(3, |sentences|)))
  {
    var m := Min(3, |sentences|);
    assert LengthCount("medium") == 3;
    assert LocalBest(sentences) == Texts(Ranked(sentences)[..m]);
    ChosenMultiset(sentences, m);
  }

  /** `topSentences(n)` holds the texts of the first `n` ranked entries. */
  lemma ChosenMultiset(sentences: seq<string>, n: nat)
    requires n <= |sentences|
    ensures multiset(Chosen(sentences, n)) == multiset(Texts(Ranked(sentences)[..n]))
  {
    var ranked := Ranked(sentences);
    assert |ranked| == |sentences|;
    TopSentencesSelect(sentences, ranked, n);
  }

  /** With a single sentence both summarisers choose it, but only the server
      capitalises it, so a sentence starting in lower case tells them apart. */
  lemma LocalDiffersForOneSentence(sentences: seq<string>)
    requires |sentences| == 1 && IsSentence(sentences[0])
    requires IsLowerLetter(sentences[0][0])
    ensures JoinWith(LocalBest(sentences), " ") != ConciseSummary(sentences, 1)
  {
    var s := sentences[0];
    assert LocalBest(sentences) == [s] by {
      RankedTextIsSentence(sentences, 0);
    }
    assert Chosen(sentences, 1) == [s] by {
      ChosenAreSentences(sentences, 1);
      ChosenCount(sentences, 1);
    }
    SentenceToLineIsClean(s);
    assert ConciseSummary(sentences, 1) == SentenceToLine(s);
  }

  /** The same for the two entry points: a single well-formed sentence
      that starts in lower case, such as `ok.`, is summarised differently. */
  lemma LocalDiffersFromServer(text: string)
    requires IsSentence(text) && IsLowerLetter(text[0])
    ensures LocalSummarize(text) != MakeSummary(text, "concise", "medium")
  {
    SplitSentencesOfSentence(text);
    var sentences := SplitSentences(text);
    assert SelectionCount("medium", 1) == 1;
    assert MakeSummary(text, "concise", "medium") == ConciseSummary(sentences, 1);
    LocalDiffersForOneSentence(sentences);
  }

  /** The summarize button: the canvas text is trimmed and cleaned, and when
      anything is left the fallback always produces a non-empty summary. */
  lemma FallbackAnswersCleanedText(raw: string)
    ensures var text := CleanTextForAI(Trim(raw));
      text != "" ==> LocalSummarize(text) != ""
  {
    var text := CleanTextForAI(Trim(raw));
    LocalSummarizeEmptyIff(text);
    if text != "" {
      assert !IsSpace(text[0]);
    }
  }
}
