/** `scoreSentences`: a document-wide frequency table of the non-stopword
    tokens, then for each sentence the sum of its tokens' frequencies divided
    by the square root of its token count. The browser copy is the same
    computation. */
module Scoring {
  import opened Strings
  import opened Tokens

  type Pos = n: nat | 1 <= n witness 1

  /** The score `weight / Math.sqrt(words)`, kept exact as its two parts. */
  datatype Score = Score(weight: nat, words: Pos)

  /** One entry of `scoreSentences`: a sentence and its score. `index` is the
      sentence's position in the list that was scored; the summariser never
      reads it, it lets the contracts speak about document order. */
  datatype Scored = Scored(text: string, index: nat, score: Score)

  /** `a >= b` on scores. Both are non-negative, so comparing their squares
      decides it, and cross-multiplying removes the division. */
  predicate AtLeast(a: Score, b: Score) {
    a.weight * a.weight * b.words >= b.weight * b.weight * a.words
  }

  /** The square of the score, as an exact real number. */
  function Squared(a: Score): real {
    (a.weight * a.weight) as real / a.words as real
  }

  lemma ScaleOrder(u: real, v: real, k: real)
    requires k > 0.0
    ensures u >= v <==> u * k >= v * k
  {
  }

  /** The integer comparison is the comparison of the squared scores
      `weight² / words`, hence of the scores `weight / √words` themselves. */
  lemma AtLeastIsSquaredOrder(a: Score, b: Score)
    ensures AtLeast(a, b) <==> Squared(a) >= Squared(b)
  {
    var x := a.words as real;
    var y := b.words as real;
    var wa := (a.weight * a.weight) as real;
    var wb := (b.weight * b.weight) as real;
    assert Squared(a) * x == wa;
    assert Squared(b) * y == wb;
    ScaleOrder(Squared(a), Squared(b), x * y);
    assert Squared(a) * (x * y) == wa * y;
    assert Squared(b) * (x * y) == wb * x;
    assert (a.weight * a.weight * b.words) as real == wa * y;
    assert (b.weight * b.weight * a.words) as real == wb * x;
  }

  /** Any two scores are comparable and the comparison is transitive, so
      `AtLeast` is a total preorder, as a sort comparator must be. */
  lemma AtLeastTotalPreorder()
    ensures forall a: Score, b: Score :: AtLeast(a, b) || AtLeast(b, a)
    ensures forall a: Score, b: Score, c: Score :: AtLeast(a, b) && AtLeast(b, c) ==> AtLeast(a, c)
  {
    forall a: Score, b: Score ensures AtLeast(a, b) || AtLeast(b, a) {
      AtLeastIsSquaredOrder(a, b);
      AtLeastIsSquaredOrder(b, a);
    }
    forall a: Score, b: Score, c: Score | AtLeast(a, b) && AtLeast(b, c) ensures AtLeast(a, c) {
      AtLeastIsSquaredOrder(a, b);
      AtLeastIsSquaredOrder(b, c);
      AtLeastIsSquaredOrder(a, c);
    }
  }

  /** `freq[w] || 0`: an absent key reads as zero. */
  function Lookup(freq: map<string, nat>, w: string): nat {
    if w in freq then freq[w] else 0
  }

  /** The inner loop of the first pass: every non-stopword token adds one to its entry. */
  function Tally(freq: map<string, nat>, ws: seq<string>): map<string, nat>
    decreases |ws|
  {
    if ws == [] then freq
    else if IsStopword(ws[0]) then Tally(freq, ws[1..])
    else Tally(freq[ws[0] := Lookup(freq, ws[0]) + 1], ws[1..])
  }

  /** The outer loop of the first pass, over the sentences in order. */
  function TallyAll(freq: map<string, nat>, sentences: seq<string>): map<string, nat>
    decreases |sentences|
  {
    if sentences == [] then freq
    else TallyAll(Tally(freq, Tokenize(sentences[0])), sentences[1..])
  }

  /** The frequency table `freq`, built fresh for one document. */
  function Frequencies(sentences: seq<string>): map<string, nat> {
    TallyAll(map[], sentences)
  }

  /** How many times `w` occurs as a token anywhere in the document. */
  function Occurrences(sentences: seq<string>, w: string): nat
    decreases |sentences|
  {
    if sentences == [] then 0
    else Count(Tokenize(sentences[0]), w) + Occurrences(sentences[1..], w)
  }

  lemma {:induction false} TallyCounts(freq: map<string, nat>, ws: seq<string>, w: string)
    ensures Lookup(Tally(freq, ws), w) == Lookup(freq, w) + (if IsStopword(w) then 0 else Count(ws, w))
    decreases |ws|
  {
    if ws != [] {
      if IsStopword(ws[0]) {
        TallyCounts(freq, ws[1..], w);
      } else {
        TallyCounts(freq[ws[0] := Lookup(freq, ws[0]) + 1], ws[1..], w);
      }
    }
  }

  lemma {:induction false} TallyAllCounts(freq: map<string, nat>, sentences: seq<string>, w: string)
    ensures Lookup(TallyAll(freq, sentences), w)
         == Lookup(freq, w) + (if IsStopword(w) then 0 else Occurrences(sentences, w))
    decreases |sentences|
  {
    if sentences != [] {
      TallyCounts(freq, Tokenize(sentences[0]), w);
      TallyAllCounts(Tally(freq, Tokenize(sentences[0])), sentences[1..], w);
    }
  }

  /** The table holds, for each non-stopword, its number of occurrences in the
      whole document, and nothing for stopwords. */
  lemma FrequenciesCount(sentences: seq<string>, w: string)
    ensures Lookup(Frequencies(sentences), w) == if IsStopword(w) then 0 else Occurrences(sentences, w)
  {
    TallyAllCounts(map[], sentences, w);
  }

  /** A document's count of `w` is at least its count in any one sentence. */
  lemma {:induction false} OccurrencesCoverSentence(sentences: seq<string>, i: nat, w: string)
    requires i < |sentences|
    ensures Occurrences(sentences, w) >= Count(Tokenize(sentences[i]), w)
    decreases |sentences|
  {
    if i > 0 {
      OccurrencesCoverSentence(sentences[1..], i - 1, w);
    }
  }

  /** The second pass: `if (freq[w]) score += freq[w]` for every token of the sentence. */
  function Weight(freq: map<string, nat>, ws: seq<string>): nat
    decreases |ws|
  {
    if ws == [] then 0 else Lookup(freq, ws[0]) + Weight(freq, ws[1..])
  }

  /** The weight a sentence with tokens `ws` deserves: the document-wide count
      of each of its non-stopword tokens, summed; stopwords add nothing. */
  function DocumentWeight(sentences: seq<string>, ws: seq<string>): nat
    decreases |ws|
  {
    if ws == [] then 0
    else (if IsStopword(ws[0]) then 0 else Occurrences(sentences, ws[0])) + DocumentWeight(sentences, ws[1..])
  }

  /** `tokenizeWords(s).length || 1`. */
  function WordCount(s: string): Pos {
    var n := |Tokenize(s)|;
    if n == 0 then 1 else n
  }

  function ScoreOf(freq: map<string, nat>, s: string): Score {
    Score(Weight(freq, Tokenize(s)), WordCount(s))
  }

  /** `scoreSentences(sentences)`: one entry per sentence, in the given order. */
  function ScoreSentences(sentences: seq<string>): (r: seq<Scored>)
    ensures |r| == |sentences|
    ensures forall i :: 0 <= i < |r| ==> r[i].text == sentences[i] && r[i].index == i
  {
    var freq := Frequencies(sentences);
    seq(|sentences|, i requires 0 <= i < |sentences| => Scored(sentences[i], i, ScoreOf(freq, sentences[i])))
  }

  lemma {:induction false} WeightIsDocumentWeight(sentences: seq<string>, ws: seq<string>)
    ensures Weight(Frequencies(sentences), ws) == DocumentWeight(sentences, ws)
    decreases |ws|
  {
    if ws != [] {
      FrequenciesCount(sentences, ws[0]);
      WeightIsDocumentWeight(sentences, ws[1..]);
    }
  }

  /** A sentence's score is the document-wide frequency of its non-stopword
      tokens, summed, over the square root of its token count (at least 1). */
  lemma ScoreMeaning(sentences: seq<string>, i: nat)
    requires i < |sentences|
    ensures ScoreSentences(sentences)[i].score.weight == DocumentWeight(sentences, Tokenize(sentences[i]))
    ensures ScoreSentences(sentences)[i].score.words == if |Tokenize(sentences[i])| == 0 then 1 else |Tokenize(sentences[i])|
  {
    WeightIsDocumentWeight(sentences, Tokenize(sentences[i]));
  }

  lemma {:induction false} DocumentWeightPositive(sentences: seq<string>, ws: seq<string>)
    requires forall k :: 0 <= k < |ws| && !IsStopword(ws[k]) ==> Occurrences(sentences, ws[k]) >= 1
    ensures DocumentWeight(sentences, ws) > 0 <==> exists k :: 0 <= k < |ws| && !IsStopword(ws[k])
    decreases |ws|
  {
    if ws != [] {
      DocumentWeightPositive(sentences, ws[1..]);
      if exists k :: 0 <= k < |ws[1..]| && !IsStopword(ws[1..][k]) {
        var k :| 0 <= k < |ws[1..]| && !IsStopword(ws[1..][k]);
        assert ws[k + 1] == ws[1..][k];
      }
      if exists k :: 0 <= k < |ws| && !IsStopword(ws[k]) {
        var k :| 0 <= k < |ws| && !IsStopword(ws[k]);
        if k > 0 {
          assert ws[1..][k - 1] == ws[k];
        }
      }
    }
  }

  /** A sentence scores above zero exactly when it has a token that is not a stopword. */
  lemma ScorePositiveIff(sentences: seq<string>, i: nat)
    requires i < |sentences|
    ensures ScoreSentences(sentences)[i].score.weight > 0
        <==> exists k :: 0 <= k < |Tokenize(sentences[i])| && !IsStopword(Tokenize(sentences[i])[k])
  {
    var ws := Tokenize(sentences[i]);
    ScoreMeaning(sentences, i);
    forall k | 0 <= k < |ws| && !IsStopword(ws[k]) ensures Occurrences(sentences, ws[k]) >= 1 {
      CountPositive(ws, k);
      OccurrencesCoverSentence(sentences, i, ws[k]);
    }
    DocumentWeightPositive(sentences, ws);
  }
}
