/** Ordering sentences: the stable sort behind both `sort` calls of the
    server (by score, then by position) and the one of the browser fallback,
    and `topSentences`, which keeps the best `n` and puts them back into
    document order. */
module Ranking {
  import opened Strings
  import opened Scoring

  /** Puts `x` in front of the first element of `ys` it may precede. */
  function Insert(x: Scored, ys: seq<Scored>, before: (Scored, Scored) -> bool): (r: seq<Scored>)
    ensures |r| == |ys| + 1
    ensures multiset(r) == multiset(ys) + multiset{x}
    decreases |ys|
  {
    if ys == [] || before(x, ys[0]) then [x] + ys
    else
      assert ys == [ys[0]] + ys[1..];
      [ys[0]] + Insert(x, ys[1..], before)
  }

  /** `Array.prototype.sort` with comparator `before`, which is stable: an
      insertion sort that inserts each element ahead of all later elements it
      may precede. */
  function SortBy(xs: seq<Scored>, before: (Scored, Scored) -> bool): (r: seq<Scored>)
    ensures |r| == |xs|
    ensures multiset(r) == multiset(xs)
    decreases |xs|
  {
    if xs == [] then []
    else
      assert xs == [xs[0]] + xs[1..];
      Insert(xs[0], SortBy(xs[1..], before), before)
  }

  /** A comparator any two values satisfy one way or the other, transitively. */
  ghost predicate TotalPreorder(before: (Scored, Scored) -> bool) {
    && (forall a, b :: before(a, b) || before(b, a))
    && (forall a, b, c :: before(a, b) && before(b, c) ==> before(a, c))
  }

  ghost predicate SortedBy(xs: seq<Scored>, before: (Scored, Scored) -> bool) {
    forall i, j :: 0 <= i < j < |xs| ==> before(xs[i], xs[j])
  }

  /** Tied elements keep their original relative order, as `index` records it. */
  ghost predicate StableBy(xs: seq<Scored>, before: (Scored, Scored) -> bool) {
    forall i, j :: 0 <= i < j < |xs| && before(xs[j], xs[i]) ==> xs[i].index < xs[j].index
  }

  ghost predicate IndexOrdered(xs: seq<Scored>) {
    forall i, j :: 0 <= i < j < |xs| ==> xs[i].index < xs[j].index
  }

  lemma InsertMember(x: Scored, ys: seq<Scored>, before: (Scored, Scored) -> bool, e: Scored)
    requires e in Insert(x, ys, before)
    ensures e == x || e in ys
  {
    assert e in multiset(Insert(x, ys, before));
  }

  lemma SortMember(xs: seq<Scored>, before: (Scored, Scored) -> bool, e: Scored)
    requires e in SortBy(xs, before)
    ensures e in xs
  {
    assert e in multiset(SortBy(xs, before));
  }

  lemma {:induction false} InsertSorted(x: Scored, ys: seq<Scored>, before: (Scored, Scored) -> bool)
    requires TotalPreorder(before)
    requires SortedBy(ys, before)
    ensures SortedBy(Insert(x, ys, before), before)
    decreases |ys|
  {
    if ys != [] && !before(x, ys[0]) {
      var rest := Insert(x, ys[1..], before);
      InsertSorted(x, ys[1..], before);
      forall k | 0 <= k < |rest| ensures before(ys[0], rest[k]) {
        InsertMember(x, ys[1..], before, rest[k]);
      }
      assert Insert(x, ys, before) == [ys[0]] + rest;
    }
  }

  /** With a total preorder as comparator, the sort's result is ordered by it. */
  lemma {:induction false} SortSorted(xs: seq<Scored>, before: (Scored, Scored) -> bool)
    requires TotalPreorder(before)
    ensures SortedBy(SortBy(xs, before), before)
    decreases |xs|
  {
    if xs != [] {
      SortSorted(xs[1..], before);
      InsertSorted(xs[0], SortBy(xs[1..], before), before);
    }
  }

  lemma {:induction false} InsertStable(x: Scored, ys: seq<Scored>, before: (Scored, Scored) -> bool)
    requires StableBy(ys, before)
    requires forall k :: 0 <= k < |ys| ==> x.index < ys[k].index
    ensures StableBy(Insert(x, ys, before), before)
    decreases |ys|
  {
    if ys != [] && !before(x, ys[0]) {
      var rest := Insert(x, ys[1..], before);
      InsertStable(x, ys[1..], before);
      forall k | 0 <= k < |rest| && before(rest[k], ys[0]) ensures ys[0].index < rest[k].index {
        InsertMember(x, ys[1..], before, rest[k]);
        if rest[k] != x {
          var m :| 0 <= m < |ys[1..]| && ys[1..][m] == rest[k];
          assert ys[m + 1] == rest[k];
        }
      }
      assert Insert(x, ys, before) == [ys[0]] + rest;
    }
  }

  /** Sorting a list given in `index` order keeps tied elements in that order. */
  lemma {:induction false} SortStable(xs: seq<Scored>, before: (Scored, Scored) -> bool)
    requires IndexOrdered(xs)
    ensures StableBy(SortBy(xs, before), before)
    decreases |xs|
  {
    if xs != [] {
      var rest := SortBy(xs[1..], before);
      SortStable(xs[1..], before);
      forall k | 0 <= k < |rest| ensures xs[0].index < rest[k].index {
        SortMember(xs[1..], before, rest[k]);
      }
      InsertStable(xs[0], rest, before);
    }
  }

  lemma {:induction false} SortNoDuplicates(xs: seq<Scored>, before: (Scored, Scored) -> bool)
    requires NoDuplicates(xs)
    ensures NoDuplicates(SortBy(xs, before))
    decreases |xs|
  {
    if xs != [] {
      var rest := SortBy(xs[1..], before);
      SortNoDuplicates(xs[1..], before);
      forall e | e in rest ensures e in xs[1..] {
        SortMember(xs[1..], before, e);
      }
      forall m | 0 <= m < |xs[1..]| ensures xs[1..][m] != xs[0] {
        assert xs[1..][m] == xs[m + 1];
      }
      InsertNoDuplicates(xs[0], rest, before);
    }
  }

  lemma {:induction false} InsertNoDuplicates(x: Scored, ys: seq<Scored>, before: (Scored, Scored) -> bool)
    requires NoDuplicates(ys) && x !in ys
    ensures NoDuplicates(Insert(x, ys, before))
    decreases |ys|
  {
    if ys != [] && !before(x, ys[0]) {
      var rest := Insert(x, ys[1..], before);
      InsertNoDuplicates(x, ys[1..], before);
      forall e | e in rest ensures e == x || e in ys[1..] {
        InsertMember(x, ys[1..], before, e);
      }
      forall m | 0 <= m < |ys[1..]| ensures ys[1..][m] != ys[0] {
        assert ys[1..][m] == ys[m + 1];
      }
      assert ys[0] !in rest;
      assert Insert(x, ys, before) == [ys[0]] + rest;
    }
  }

  /** The texts of a list of scored sentences (`.map(x => x.s)`). */
  function Texts(xs: seq<Scored>): (r: seq<string>)
    ensures |r| == |xs|
    ensures forall i :: 0 <= i < |xs| ==> r[i] == xs[i].text
    decreases |xs|
  {
    if xs == [] then [] else [xs[0].text] + Texts(xs[1..])
  }

  lemma {:induction false} InsertTexts(x: Scored, ys: seq<Scored>, before: (Scored, Scored) -> bool)
    ensures multiset(Texts(Insert(x, ys, before))) == multiset(Texts(ys)) + multiset{x.text}
    decreases |ys|
  {
    if ys == [] || before(x, ys[0]) {
      assert ([x] + ys)[1..] == ys;
    } else {
      InsertTexts(x, ys[1..], before);
      assert ([ys[0]] + Insert(x, ys[1..], before))[1..] == Insert(x, ys[1..], before);
    }
  }

  /** Sorting permutes the texts too. */
  lemma {:induction false} SortTexts(xs: seq<Scored>, before: (Scored, Scored) -> bool)
    ensures multiset(Texts(SortBy(xs, before))) == multiset(Texts(xs))
    decreases |xs|
  {
    if xs != [] {
      SortTexts(xs[1..], before);
      InsertTexts(xs[0], SortBy(xs[1..], before), before);
    }
  }

  /** The comparator `(a, b) => b.score - a.score`: `a` may stay ahead of `b`
      when its score is at least `b`'s. */
  const ByScore: (Scored, Scored) -> bool := (a: Scored, b: Scored) => AtLeast(a.score, b.score)

  lemma ByScoreTotalPreorder()
    ensures TotalPreorder(ByScore)
  {
    AtLeastTotalPreorder();
  }

  /** `scored.slice().sort((a, b) => b.score - a.score)`: `topByScore`. */
  function TopByScore(scored: seq<Scored>): seq<Scored> {
    SortBy(scored, ByScore)
  }

  /** A ranking of `scored`: a permutation of it, best score first, tied
      scores in document order. */
  ghost predicate RankingOf(ranked: seq<Scored>, scored: seq<Scored>) {
    && |ranked| == |scored|
    && multiset(ranked) == multiset(scored)
    && SortedBy(ranked, ByScore)
    && StableBy(ranked, ByScore)
  }

  /** `topByScore` is a permutation of the scored sentences, non-increasing by
      score, with ties in document order. */
  lemma TopByScoreRanks(sentences: seq<string>)
    ensures RankingOf(TopByScore(ScoreSentences(sentences)), ScoreSentences(sentences))
  {
    var scored := ScoreSentences(sentences);
    ByScoreTotalPreorder();
    SortSorted(scored, ByScore);
    SortStable(scored, ByScore);
  }

  /** `x` comes before `y` in every ranking: its score is at least `y`'s,
      and when the scores tie, its index is the smaller. */
  predicate Precedes(x: Scored, y: Scored) {
    AtLeast(x.score, y.score) && (AtLeast(y.score, x.score) ==> x.index < y.index)
  }

  ghost predicate StrictlyRanked(xs: seq<Scored>) {
    forall i, j :: 0 <= i < j < |xs| ==> Precedes(xs[i], xs[j])
  }

  /** No two entries precede each other, and none precedes itself. */
  lemma PrecedesAsymmetric(x: Scored, y: Scored)
    ensures !(Precedes(x, y) && Precedes(y, x))
    ensures !Precedes(x, x)
  {
  }

  /** In a ranking, each entry precedes every later one. */
  lemma RankingStrict(ranked: seq<Scored>, scored: seq<Scored>)
    requires RankingOf(ranked, scored)
    ensures StrictlyRanked(ranked)
  {
  }

  /** The head of a strictly ranked list precedes every other member. */
  lemma HeadPrecedes(xs: seq<Scored>, t: Scored)
    requires StrictlyRanked(xs) && t in xs
    ensures t == xs[0] || Precedes(xs[0], t)
  {
    var k :| 0 <= k < |xs| && xs[k] == t;
    if k > 0 {
      assert Precedes(xs[0], xs[k]);
    }
  }

  lemma StrictTail(xs: seq<Scored>)
    requires StrictlyRanked(xs) && xs != []
    ensures StrictlyRanked(xs[1..])
  {
    var t := xs[1..];
    forall i, j | 0 <= i < j < |t| ensures Precedes(t[i], t[j]) {
      assert t[i] == xs[i + 1] && t[j] == xs[j + 1];
    }
  }

  /** Two strictly ranked lists of the same entries are the same list. */
  lemma {:induction false} StrictlyRankedUnique(a: seq<Scored>, b: seq<Scored>)
    requires multiset(a) == multiset(b)
    requires StrictlyRanked(a) && StrictlyRanked(b)
    ensures a == b
    decreases |a|
  {
    if a != [] {
      SameHeadRanked(a, b);
      assert multiset(a[1..]) == multiset(a) - multiset{a[0]} by {
        assert a == [a[0]] + a[1..];
      }
      assert multiset(b[1..]) == multiset(b) - multiset{b[0]} by {
        assert b == [b[0]] + b[1..];
      }
      StrictTail(a);
      StrictTail(b);
      StrictlyRankedUnique(a[1..], b[1..]);
      assert a == [a[0]] + a[1..] && b == [b[0]] + b[1..];
    }
  }

  /** Two strictly ranked lists of the same entries start alike. */
  lemma SameHeadRanked(a: seq<Scored>, b: seq<Scored>)
    requires multiset(a) == multiset(b) && a != []
    requires StrictlyRanked(a) && StrictlyRanked(b)
    ensures b != [] && a[0] == b[0]
  {
    assert |b| == |multiset(b)| == |multiset(a)| == |a|;
    assert a[0] in multiset(b) && b[0] in multiset(a);
    HeadPrecedes(b, a[0]);
    HeadPrecedes(a, b[0]);
    PrecedesAsymmetric(a[0], b[0]);
  }

  /** A list of scored sentences has one ranking only: sorting by score with
      ties in document order leaves no choice. */
  lemma RankingUnique(a: seq<Scored>, b: seq<Scored>, scored: seq<Scored>)
    requires RankingOf(a, scored) && RankingOf(b, scored)
    ensures a == b
  {
    RankingStrict(a, scored);
    RankingStrict(b, scored);
    StrictlyRankedUnique(a, b);
  }

  /** The comparator `(a, b) => sentences.indexOf(a.s) - sentences.indexOf(b.s)`. */
  function ByPosition(sentences: seq<string>): (Scored, Scored) -> bool {
    (a: Scored, b: Scored) => FirstIndex(sentences, a.text) <= FirstIndex(sentences, b.text)
  }

  lemma ByPositionTotalPreorder(sentences: seq<string>)
    ensures TotalPreorder(ByPosition(sentences))
  {
  }

  function Min(a: int, b: int): int {
    if a <= b then a else b
  }

  /** `topSentences(n)`: the first `n` entries of `ranked`, re-sorted by the
      position `indexOf` gives their text, as texts. */
  function TopSentences(sentences: seq<string>, ranked: seq<Scored>, n: nat): seq<string> {
    Texts(SortBy(ranked[..Min(n, |ranked|)], ByPosition(sentences)))
  }

  /** `topSentences(n)` returns the texts of the first `min(n, |ranked|)`
      entries of the ranking, ordered by the first position of each text in the
      document. */
  lemma TopSentencesSelect(sentences: seq<string>, ranked: seq<Scored>, n: nat)
    ensures |TopSentences(sentences, ranked, n)| == Min(n, |ranked|)
    ensures multiset(TopSentences(sentences, ranked, n)) == multiset(Texts(ranked[..Min(n, |ranked|)]))
    ensures forall i, j :: 0 <= i < j < |TopSentences(sentences, ranked, n)| ==>
      FirstIndex(sentences, TopSentences(sentences, ranked, n)[i]) <= FirstIndex(sentences, TopSentences(sentences, ranked, n)[j])
  {
    var chosen := ranked[..Min(n, |ranked|)];
    ByPositionTotalPreorder(sentences);
    SortSorted(chosen, ByPosition(sentences));
    SortTexts(chosen, ByPosition(sentences));
  }

  /** `xs` is `ys` with some entries left out, `idx` naming the positions kept. */
  predicate IsSubsequenceAt(xs: seq<string>, ys: seq<string>, idx: seq<int>) {
    && |idx| == |xs|
    && (forall k :: 0 <= k < |idx| ==> 0 <= idx[k] < |ys| && xs[k] == ys[idx[k]])
    && (forall k, l :: 0 <= k < l < |idx| ==> idx[k] < idx[l])
  }

  function Positions(sentences: seq<string>, xs: seq<string>): (r: seq<int>)
    ensures |r| == |xs|
    ensures forall k :: 0 <= k < |xs| ==> r[k] == FirstIndex(sentences, xs[k])
  {
    seq(|xs|, k requires 0 <= k < |xs| => FirstIndex(sentences, xs[k]))
  }

  /** Every element of a ranking of `scoreSentences(sentences)` is the entry
      for the sentence at its index. */
  lemma RankedEntries(sentences: seq<string>, ranked: seq<Scored>, k: nat)
    requires multiset(ranked) == multiset(ScoreSentences(sentences))
    requires k < |ranked|
    ensures ranked[k].index < |sentences|
    ensures ranked[k] == ScoreSentences(sentences)[ranked[k].index]
    ensures ranked[k].text == sentences[ranked[k].index]
  {
    assert ranked[k] in multiset(ScoreSentences(sentences));
  }

  lemma ScoreSentencesNoDuplicates(sentences: seq<string>)
    ensures NoDuplicates(ScoreSentences(sentences))
  {
  }

  /** An entry of `scoreSentences(sentences)` is determined by its index. */
  lemma EntryOf(sentences: seq<string>, e: Scored)
    requires e in ScoreSentences(sentences)
    ensures e.index < |sentences| && e.text == sentences[e.index]
    ensures e == ScoreSentences(sentences)[e.index]
  {
  }

  lemma SameIndexSameEntry(sentences: seq<string>, a: Scored, b: Scored)
    requires a in ScoreSentences(sentences) && b in ScoreSentences(sentences)
    requires a.index == b.index
    ensures a == b
  {
    EntryOf(sentences, a);
    EntryOf(sentences, b);
  }

  /** In a duplicate-free document, `indexOf` finds an entry's text at the
      entry's index. */
  lemma EntriesAtIndex(sentences: seq<string>, xs: seq<Scored>)
    requires NoDuplicates(sentences)
    requires forall k :: 0 <= k < |xs| ==> xs[k] in ScoreSentences(sentences)
    ensures forall k :: 0 <= k < |xs| ==>
      xs[k].index < |sentences| && xs[k].text == sentences[xs[k].index]
      && FirstIndex(sentences, xs[k].text) == xs[k].index
  {
    forall k | 0 <= k < |xs|
      ensures xs[k].index < |sentences| && xs[k].text == sentences[xs[k].index]
      ensures FirstIndex(sentences, xs[k].text) == xs[k].index
    {
      EntryOf(sentences, xs[k]);
      DistinctFirstIndex(sentences, xs[k].index);
    }
  }

  /** Sorted by position, distinct entries of a duplicate-free document sit at
      strictly increasing indices. */
  lemma EntriesByPosition(sentences: seq<string>, sorted: seq<Scored>)
    requires NoDuplicates(sentences)
    requires forall k :: 0 <= k < |sorted| ==> sorted[k] in ScoreSentences(sentences)
    requires NoDuplicates(sorted)
    requires SortedBy(sorted, ByPosition(sentences))
    ensures forall k, l :: 0 <= k < l < |sorted| ==> sorted[k].index < sorted[l].index
  {
    EntriesAtIndex(sentences, sorted);
    forall k, l | 0 <= k < l < |sorted| ensures sorted[k].index < sorted[l].index {
      var a, b := sorted[k], sorted[l];
      assert a.index <= b.index by {
        assert ByPosition(sentences)(a, b);
      }
      if a.index == b.index {
        SameIndexSameEntry(sentences, a, b);
      }
    }
  }

  /** When the sentences are pairwise distinct, `topSentences(n)` is a
      subsequence of them: the chosen sentences in document order. */
  lemma TopSentencesInDocumentOrder(sentences: seq<string>, ranked: seq<Scored>, n: nat)
    requires NoDuplicates(sentences)
    requires multiset(ranked) == multiset(ScoreSentences(sentences))
    ensures IsSubsequenceAt(TopSentences(sentences, ranked, n), sentences,
                            Positions(sentences, TopSentences(sentences, ranked, n)))
  {
    var chosen := ranked[..Min(n, |ranked|)];
    var sorted := SortBy(chosen, ByPosition(sentences));
    ScoreSentencesNoDuplicates(sentences);
    PermutationNoDuplicates(ranked, ScoreSentences(sentences));
    assert NoDuplicates(chosen);
    SortNoDuplicates(chosen, ByPosition(sentences));
    ByPositionTotalPreorder(sentences);
    SortSorted(chosen, ByPosition(sentences));
    forall k | 0 <= k < |sorted| ensures sorted[k] in ScoreSentences(sentences) {
      SortMember(chosen, ByPosition(sentences), sorted[k]);
      assert sorted[k] in multiset(ranked);
    }
    EntriesAtIndex(sentences, sorted);
    EntriesByPosition(sentences, sorted);
  }

  /** Two equal entries make an element occur twice. */
  lemma TwoOccurrences(xs: seq<Scored>, i: nat, j: nat)
    requires i < j < |xs| && xs[i] == xs[j]
    ensures multiset(xs)[xs[i]] >= 2
  {
    assert xs == xs[..j] + xs[j..];
    assert xs[..j][i] == xs[i];
    assert xs[j..][0] == xs[j];
  }

  /** A permutation of a duplicate-free list is duplicate-free. */
  lemma PermutationNoDuplicates(xs: seq<Scored>, ys: seq<Scored>)
    requires multiset(xs) == multiset(ys) && NoDuplicates(ys)
    ensures NoDuplicates(xs)
  {
    forall i, j | 0 <= i < j < |xs| ensures xs[i] != xs[j] {
      if xs[i] == xs[j] {
        TwoOccurrences(xs, i, j);
        MultisetAtMostOnce(ys, xs[i]);
      }
    }
  }

  lemma MultisetAtMostOnce(xs: seq<Scored>, e: Scored)
    requires NoDuplicates(xs)
    ensures multiset(xs)[e] <= 1
    decreases |xs|
  {
    if xs != [] {
      assert xs == [xs[0]] + xs[1..];
      MultisetAtMostOnce(xs[1..], e);
      if xs[0] == e {
        assert e !in xs[1..];
      }
    }
  }

  lemma DistinctFirstIndex(sentences: seq<string>, i: nat)
    requires NoDuplicates(sentences)
    requires i < |sentences|
    ensures FirstIndex(sentences, sentences[i]) == i
  {
  }
}
