/** `makeSummary(text, style, lengthKey)`: split, score and rank the
    sentences, then render them in one of the styles `concise`, `executive`,
    `action`, `detailed`, or the plain default. */
module Summary {
  import opened Chars
  import opened Strings
  import opened Sentences
  import opened Scoring
  import opened Ranking
  import opened Format

  function Max(a: int, b: int): int {
    if a >= b then a else b
  }

  /** `xs.slice(0, n)`. */
  function Take<T>(xs: seq<T>, n: nat): (r: seq<T>)
    ensures |r| == Min(n, |xs|)
    ensures forall i :: 0 <= i < |r| ==> r[i] == xs[i]
  {
    xs[..Min(n, |xs|)]
  }

  /** The number of sentences a length class asks for. */
  function LengthCount(lengthKey: string): nat {
    if lengthKey == "short" then 1 else if lengthKey == "long" then 6 else 3
  }

  /** `count`, clamped to at least one and at most the number of sentences. */
  function SelectionCount(lengthKey: string, available: nat): nat {
    Min(Max(1, LengthCount(lengthKey)), available)
  }

  /** `parts.map(sentenceToLine)`. */
  function Lines(parts: seq<string>): (r: seq<string>)
    ensures |r| == |parts|
    ensures forall i :: 0 <= i < |parts| ==> r[i] == SentenceToLine(parts[i])
  {
    seq(|parts|, i requires 0 <= i < |parts| => SentenceToLine(parts[i]))
  }

  /** The concise branch: the first line, then the others joined by spaces if
      that join is not empty. */
  function ConciseText(parts: seq<string>): string
    requires |parts| >= 1
  {
    if |parts| == 1 then SentenceToLine(parts[0])
    else
      var first := SentenceToLine(parts[0]);
      var follow := JoinWith(Lines(parts[1..]), " ");
      first + (if follow != "" then " " + follow else "")
  }

  /** `'• ' + line`, the line cut to 120 characters. */
  function ExecutiveItem(s: string): string {
    "\U{2022} " + FitBullet(SentenceToLine(s))
  }

  function ExecutiveItems(parts: seq<string>): (r: seq<string>)
    ensures |r| == |parts|
    ensures forall i :: 0 <= i < |parts| ==> r[i] == ExecutiveItem(parts[i])
  {
    seq(|parts|, i requires 0 <= i < |parts| => ExecutiveItem(parts[i]))
  }

  /** `topByScore.filter(t => actionKeywords.some(...))`. */
  function ActionCandidates(ranked: seq<Scored>): (r: seq<Scored>)
    ensures |r| <= |ranked|
    ensures forall i :: 0 <= i < |r| ==> r[i] in ranked && IsActionSentence(r[i].text)
    decreases |ranked|
  {
    if ranked == [] then []
    else (if IsActionSentence(ranked[0].text) then [ranked[0]] else []) + ActionCandidates(ranked[1..])
  }

  /** The sentences the action bullets are made from. */
  function ActionSeeds(ranked: seq<Scored>, count: nat): seq<Scored> {
    var candidates := ActionCandidates(ranked);
    var k := Max(1, count);
    Take(if |candidates| > 0 then candidates else Take(ranked, k), k)
  }

  function ActionBullets(seeds: seq<Scored>): (r: seq<string>)
    ensures |r| == |seeds|
    ensures forall i :: 0 <= i < |seeds| ==> r[i] == "- " + SentenceToLine(seeds[i].text)
  {
    seq(|seeds|, i requires 0 <= i < |seeds| => "- " + SentenceToLine(seeds[i].text))
  }

  /** The next-step lines: one per sentence of the top three by score, repeats
      removed, at most three. */
  function ActionSteps(ranked: seq<Scored>, available: nat): seq<string> {
    Take(Dedup(NextSteps(ranked, available)), 3)
  }

  /** `stepBase`, each sentence turned into its step. */
  function StepList(base: seq<string>): (r: seq<string>)
    ensures |r| == |base|
    ensures forall i :: 0 <= i < |base| ==> r[i] == StepFor(SentenceToLine(base[i]))
  {
    seq(|base|, i requires 0 <= i < |base| => StepFor(SentenceToLine(base[i])))
  }

  const StepsHeading: string := "Suggested next steps:"

  function ActionLines(ranked: seq<Scored>, count: nat, available: nat): seq<string> {
    ActionBullets(ActionSeeds(ranked, count)) + ["", StepsHeading] + ActionSteps(ranked, available)
  }

  /** The sentences of `text` ranked by score, as `topByScore` holds them. */
  function Ranked(sentences: seq<string>): seq<Scored> {
    TopByScore(ScoreSentences(sentences))
  }

  /** `topSentences(n)` for the sentences of one text. */
  function Chosen(sentences: seq<string>, n: nat): seq<string> {
    TopSentences(sentences, Ranked(sentences), n)
  }

  /** `topSentences(n)` has `min(n, #sentences)` entries. */
  lemma ChosenCount(sentences: seq<string>, n: nat)
    ensures |Chosen(sentences, n)| == Min(n, |sentences|)
  {
    TopSentencesSelect(sentences, Ranked(sentences), n);
  }

  function ConciseSummary(sentences: seq<string>, count: nat): string
    requires 1 <= count <= |sentences|
  {
    var n := Min(count, Max(1, count));
    ChosenCount(sentences, n);
    ConciseText(Chosen(sentences, n))
  }

  function ExecutiveSummary(sentences: seq<string>, count: nat): string {
    JoinWith(ExecutiveItems(Chosen(sentences, count)), "\n")
  }

  function ActionSummary(sentences: seq<string>, count: nat): string {
    JoinWith(ActionLines(Ranked(sentences), count, |sentences|), "\n")
  }

  function DetailedSummary(sentences: seq<string>, count: nat): string {
    JoinWith(Lines(Chosen(sentences, Min(5, Max(3, count)))), " ")
  }

  function PlainSummary(sentences: seq<string>, count: nat): string {
    JoinWith(Lines(Chosen(sentences, count)), " ")
  }

  /** The style dispatch of `makeSummary`; an unrecognised style is plain. */
  function Render(sentences: seq<string>, style: string, count: nat): string
    requires 1 <= count <= |sentences|
  {
    if style == "concise" then ConciseSummary(sentences, count)
    else if style == "executive" then ExecutiveSummary(sentences, count)
    else if style == "action" then ActionSummary(sentences, count)
    else if style == "detailed" then DetailedSummary(sentences, count)
    else PlainSummary(sentences, count)
  }

  /** `makeSummary(text, style, lengthKey)`. An omitted `style` is `"concise"`
      and an omitted `lengthKey` is `"medium"`. */
  function MakeSummary(text: string, style: string, lengthKey: string): string {
    var sentences := SplitSentences(text);
    if sentences == [] then ""
    else Render(sentences, style, SelectionCount(lengthKey, |sentences|))
  }

  /** The chosen count is at least one and at most the number of sentences;
      within that bound it is 1 for `short`, 6 for `long` and 3 for any other
      length key. */
  lemma SelectionCountBounds(lengthKey: string, available: nat)
    requires available >= 1
    ensures 1 <= SelectionCount(lengthKey, available) <= available
    ensures lengthKey == "short" ==> SelectionCount(lengthKey, available) == 1
    ensures lengthKey == "long" ==> SelectionCount(lengthKey, available) == Min(6, available)
    ensures lengthKey != "short" && lengthKey != "long" ==> SelectionCount(lengthKey, available) == Min(3, available)
  {
  }

  /** Every text in the ranking is one of the sentences. */
  lemma RankedTextIsSentence(sentences: seq<string>, j: nat)
    requires j < |Ranked(sentences)|
    ensures Ranked(sentences)[j].text in sentences
  {
    TopByScoreRanks(sentences);
    RankedEntries(sentences, Ranked(sentences), j);
  }

  /** `topSentences(n)` returns sentences of the text. */
  lemma ChosenAreSentences(sentences: seq<string>, n: nat)
    ensures forall i :: 0 <= i < |Chosen(sentences, n)| ==>
      Chosen(sentences, n)[i] in sentences
  {
    var ranked := Ranked(sentences);
    var chosen := Texts(ranked[..Min(n, |ranked|)]);
    TopSentencesSelect(sentences, ranked, n);
    forall j | 0 <= j < |chosen| ensures chosen[j] in sentences {
      RankedTextIsSentence(sentences, j);
    }
    SameMembers(Chosen(sentences, n), chosen, sentences);
  }

  /** A rearrangement of members of `pool` holds only members of `pool`. */
  lemma SameMembers(out: seq<string>, chosen: seq<string>, pool: seq<string>)
    requires multiset(out) == multiset(chosen)
    requires forall j :: 0 <= j < |chosen| ==> chosen[j] in pool
    ensures forall i :: 0 <= i < |out| ==> out[i] in pool
  {
    forall i | 0 <= i < |out| ensures out[i] in pool {
      assert out[i] in multiset(chosen);
    }
  }

  /** Every entry is a well-formed sentence, as the splitter guarantees. */
  predicate AllSentences(sentences: seq<string>) {
    forall i :: 0 <= i < |sentences| ==> IsSentence(sentences[i])
  }

  /** A well-formed sentence gives a non-empty line. */
  lemma SentenceLineNonEmpty(s: string)
    requires IsSentence(s)
    ensures SentenceToLine(s) != []
  {
    SentenceToLineIsClean(s);
  }

  /** Lines of chosen sentences are never empty. */
  lemma ChosenLinesNonEmpty(sentences: seq<string>, n: nat)
    requires AllSentences(sentences)
    ensures forall i :: 0 <= i < |Chosen(sentences, n)| ==> SentenceToLine(Chosen(sentences, n)[i]) != []
  {
    var parts := Chosen(sentences, n);
    ChosenAreSentences(sentences, n);
    forall i | 0 <= i < |parts| ensures SentenceToLine(parts[i]) != [] {
      SentenceLineNonEmpty(parts[i]);
    }
  }

  lemma JoinOfNonEmpty(xs: seq<string>, sep: string)
    requires |xs| >= 1 && xs[0] != []
    ensures JoinWith(xs, sep) != []
  {
    JoinWithHead(xs, sep);
  }

  lemma JoinCons(xs: seq<string>, sep: string, follow: string)
    requires |xs| > 1 && follow == JoinWith(xs[1..], sep)
    ensures JoinWith(xs, sep) == xs[0] + sep + follow
  {
  }

  /** With non-empty lines, the concise rendering is the lines joined by
      single spaces. */
  lemma ConciseIsJoin(parts: seq<string>)
    requires |parts| >= 1
    requires forall i :: 0 <= i < |parts| ==> SentenceToLine(parts[i]) != []
    ensures ConciseText(parts) == JoinWith(Lines(parts), " ")
  {
    var lines := Lines(parts);
    assert lines[0] == SentenceToLine(parts[0]);
    if |parts| > 1 {
      var rest := Lines(parts[1..]);
      assert lines[1..] == rest;
      JoinOfNonEmpty(rest, " ");
      JoinCons(lines, " ", JoinWith(rest, " "));
    }
  }

  lemma ConciseIsPlain(sentences: seq<string>, count: nat)
    requires AllSentences(sentences) && 1 <= count <= |sentences|
    ensures ConciseSummary(sentences, count) == PlainSummary(sentences, count)
  {
    ChosenCount(sentences, count);
    ChosenLinesNonEmpty(sentences, count);
    ConciseIsJoin(Chosen(sentences, count));
  }

  /** The splitter's output is well formed. */
  lemma SplitIsSentences(text: string)
    ensures AllSentences(SplitSentences(text))
  {
  }

  /** The concise style renders exactly what the default style renders. */
  lemma ConciseIsDefault(text: string, style: string, lengthKey: string)
    requires style != "concise" && style != "executive" && style != "action" && style != "detailed"
    ensures MakeSummary(text, "concise", lengthKey) == MakeSummary(text, style, lengthKey)
  {
    var sentences := SplitSentences(text);
    if sentences != [] {
      var count := SelectionCount(lengthKey, |sentences|);
      SplitIsSentences(text);
      ConciseIsPlain(sentences, count);
      assert MakeSummary(text, "concise", lengthKey) == ConciseSummary(sentences, count);
      assert MakeSummary(text, style, lengthKey) == PlainSummary(sentences, count);
    }
  }

  /** Every style renders something when there is a sentence. */
  lemma RenderNonEmpty(sentences: seq<string>, style: string, count: nat)
    requires AllSentences(sentences) && 1 <= count <= |sentences|
    ensures Render(sentences, style, count) != ""
  {
    if style == "concise" {
      ConciseIsPlain(sentences, count);
      ChosenCount(sentences, count);
      ChosenLinesNonEmpty(sentences, count);
      JoinOfNonEmpty(Lines(Chosen(sentences, count)), " ");
    } else if style == "executive" {
      ChosenCount(sentences, count);
      JoinOfNonEmpty(ExecutiveItems(Chosen(sentences, count)), "\n");
    } else if style == "action" {
      var ls := ActionLines(Ranked(sentences), count, |sentences|);
      assert JoinWith(ls, "\n") == ls[0] + "\n" + JoinWith(ls[1..], "\n");
    } else if style == "detailed" {
      var desired := Min(5, Max(3, count));
      ChosenCount(sentences, desired);
      ChosenLinesNonEmpty(sentences, desired);
      JoinOfNonEmpty(Lines(Chosen(sentences, desired)), " ");
    } else {
      ChosenCount(sentences, count);
      ChosenLinesNonEmpty(sentences, count);
      JoinOfNonEmpty(Lines(Chosen(sentences, count)), " ");
    }
  }

  /** `makeSummary` returns the empty string exactly when the text has no
      sentence, that is when it is whitespace only, whatever the style. */
  lemma MakeSummaryEmptyIff(text: string, style: string, lengthKey: string)
    ensures MakeSummary(text, style, lengthKey) == "" <==> AllSpace(text)
  {
    var sentences := SplitSentences(text);
    SplitSentencesEmptyIff(text);
    if sentences != [] {
      SplitIsSentences(text);
      var count := SelectionCount(lengthKey, |sentences|);
      SelectionCountBounds(lengthKey, |sentences|);
      RenderNonEmpty(sentences, style, count);
      assert MakeSummary(text, style, lengthKey) == Render(sentences, style, count);
    }
  }

  /** The detailed style renders `min(5, max(3, count))` sentences, or all of
      them when the text has fewer: fewer than three exactly when the text has
      fewer than three. The first clause only names the rendered parts; the
      count is what the others promise. */
  lemma DetailedCount(text: string, lengthKey: string)
    requires !AllSpace(text)
    ensures var sentences := SplitSentences(text);
      var count := SelectionCount(lengthKey, |sentences|);
      var parts := Chosen(sentences, Min(5, Max(3, count)));
      && MakeSummary(text, "detailed", lengthKey) == JoinWith(Lines(parts), " ")
      && |parts| == Min(Min(5, Max(3, count)), |sentences|)
      && (|parts| < 3 <==> |sentences| < 3)
      && |parts| <= 5
  {
    var sentences := SplitSentences(text);
    SplitSentencesEmptyIff(text);
    var count := SelectionCount(lengthKey, |sentences|);
    ChosenCount(sentences, Min(5, Max(3, count)));
  }

  /** An executive item of a sentence contains no line feed. */
  lemma ExecutiveItemOneLine(s: string)
    ensures '\n' !in ExecutiveItem(s)
  {
    SentenceToLineIsClean(s);
    CleanHasNoNewline(SentenceToLine(s));
    FitBulletNoNewline(SentenceToLine(s));
  }

  /** The executive rendering splits on line breaks into one item per chosen
      sentence. */
  lemma ExecutiveLines(sentences: seq<string>, count: nat)
    requires 1 <= count <= |sentences|
    ensures SplitOn(ExecutiveSummary(sentences, count), '\n') == ExecutiveItems(Chosen(sentences, count))
    ensures |ExecutiveItems(Chosen(sentences, count))| == count
  {
    var items := ExecutiveItems(Chosen(sentences, count));
    ChosenCount(sentences, count);
    forall i | 0 <= i < |items| ensures '\n' !in items[i] {
      ExecutiveItemOneLine(Chosen(sentences, count)[i]);
    }
    SplitOnJoin(items, '\n');
  }

  /** `lines` are one bullet per part: `'• '` and the part's line, cut to at
      most 120 characters with an ellipsis. */
  ghost predicate BulletLines(lines: seq<string>, parts: seq<string>) {
    && |lines| == |parts|
    && forall i :: 0 <= i < |lines| ==>
         && lines[i] == "\U{2022} " + FitBullet(SentenceToLine(parts[i]))
         && 3 <= |lines[i]| <= 122
  }

  /** The executive style gives exactly `count` lines, each a bullet `'• '`
      followed by a body of at most 120 characters: the line of a chosen
      sentence, cut with an ellipsis when it is longer. */
  lemma ExecutiveShape(text: string, lengthKey: string)
    requires !AllSpace(text)
    ensures var sentences := SplitSentences(text);
      var count := SelectionCount(lengthKey, |sentences|);
      var lines := SplitOn(MakeSummary(text, "executive", lengthKey), '\n');
      && |lines| == count
      && BulletLines(lines, Chosen(sentences, count))
  {
    var sentences := SplitSentences(text);
    SplitSentencesEmptyIff(text);
    SplitIsSentences(text);
    var count := SelectionCount(lengthKey, |sentences|);
    SelectionCountBounds(lengthKey, |sentences|);
    assert MakeSummary(text, "executive", lengthKey) == ExecutiveSummary(sentences, count);
    ExecutiveItemsShape(sentences, count);
  }

  /** The executive lines of well-formed sentences. */
  lemma ExecutiveItemsShape(sentences: seq<string>, count: nat)
    requires AllSentences(sentences) && 1 <= count <= |sentences|
    ensures var lines := SplitOn(ExecutiveSummary(sentences, count), '\n');
      && |lines| == count
      && BulletLines(lines, Chosen(sentences, count))
  {
    var parts := Chosen(sentences, count);
    ExecutiveLines(sentences, count);
    ChosenLinesNonEmpty(sentences, count);
    var items := ExecutiveItems(parts);
    forall i | 0 <= i < |items|
      ensures items[i] == "\U{2022} " + FitBullet(SentenceToLine(parts[i])) && 3 <= |items[i]| <= 122
    {
      ExecutiveItemLength(parts[i]);
    }
  }

  /** A bullet of a non-empty line is three to 122 characters long. */
  lemma ExecutiveItemLength(s: string)
    requires SentenceToLine(s) != []
    ensures ExecutiveItem(s) == "\U{2022} " + FitBullet(SentenceToLine(s))
    ensures 3 <= |ExecutiveItem(s)| <= 122
  {
    var body := FitBullet(SentenceToLine(s));
    assert 1 <= |body| <= 120;
    assert |ExecutiveItem(s)| == 2 + |body|;
  }

  /** The filter keeps every action sentence of the ranking. */
  lemma {:induction false} CandidatesComplete(ranked: seq<Scored>, i: nat)
    requires i < |ranked| && IsActionSentence(ranked[i].text)
    ensures ranked[i] in ActionCandidates(ranked)
    decreases |ranked|
  {
    if i > 0 {
      CandidatesComplete(ranked[1..], i - 1);
    }
  }

  /** Filtering keeps the order of the ranking, so the candidates are still
      best score first. */
  lemma {:induction false} CandidatesSorted(ranked: seq<Scored>)
    requires SortedBy(ranked, ByScore)
    ensures SortedBy(ActionCandidates(ranked), ByScore)
    decreases |ranked|
  {
    if ranked != [] {
      var x, tail := ranked[0], ranked[1..];
      SortedSplit(ranked);
      CandidatesSorted(tail);
      var rest := ActionCandidates(tail);
      if IsActionSentence(x.text) {
        forall k | 0 <= k < |rest| ensures ByScore(x, rest[k]) {
          var m :| 0 <= m < |tail| && tail[m] == rest[k];
        }
        SortedCons(x, rest);
        assert ActionCandidates(ranked) == [x] + rest;
      } else {
        assert ActionCandidates(ranked) == rest;
      }
    }
  }

  /** The head of a ranking by score outranks the rest, which stays ranked. */
  lemma SortedSplit(xs: seq<Scored>)
    requires xs != [] && SortedBy(xs, ByScore)
    ensures SortedBy(xs[1..], ByScore)
    ensures forall m :: 0 <= m < |xs| - 1 ==> ByScore(xs[0], xs[1..][m])
  {
    forall m | 0 <= m < |xs| - 1 ensures ByScore(xs[0], xs[1..][m]) {
      assert xs[1..][m] == xs[m + 1];
    }
  }

  lemma SortedCons(x: Scored, ys: seq<Scored>)
    requires SortedBy(ys, ByScore)
    requires forall k :: 0 <= k < |ys| ==> ByScore(x, ys[k])
    ensures SortedBy([x] + ys, ByScore)
  {
    forall i, j | 0 <= i < j < |ys| + 1 ensures ByScore(([x] + ys)[i], ([x] + ys)[j]) {
      assert ([x] + ys)[j] == ys[j - 1];
      if i > 0 {
        assert ([x] + ys)[i] == ys[i - 1];
      }
    }
  }

  predicate HasActionSentence(ranked: seq<Scored>) {
    exists i :: 0 <= i < |ranked| && IsActionSentence(ranked[i].text)
  }

  lemma SeedsBounds(ranked: seq<Scored>, count: nat)
    requires 1 <= count && |ranked| >= 1
    ensures 1 <= |ActionSeeds(ranked, count)| <= count
    ensures forall j :: 0 <= j < |ActionSeeds(ranked, count)| ==> ActionSeeds(ranked, count)[j] in ranked
  {
    var candidates := ActionCandidates(ranked);
    var seeds := ActionSeeds(ranked, count);
    if |candidates| > 0 {
      assert seeds == candidates[..Min(count, |candidates|)];
      forall j | 0 <= j < |seeds| ensures seeds[j] in ranked {
        assert seeds[j] == candidates[j];
      }
    } else {
      assert seeds == ranked[..Min(count, |ranked|)];
    }
  }

  lemma SeedsSorted(ranked: seq<Scored>, count: nat)
    requires SortedBy(ranked, ByScore)
    ensures SortedBy(ActionSeeds(ranked, count), ByScore)
  {
    var candidates := ActionCandidates(ranked);
    CandidatesSorted(ranked);
  }

  lemma SeedsFromCandidates(ranked: seq<Scored>, count: nat)
    requires 1 <= count && HasActionSentence(ranked)
    ensures |ActionSeeds(ranked, count)| == Min(count, |ActionCandidates(ranked)|)
    ensures forall j :: 0 <= j < |ActionSeeds(ranked, count)| ==> IsActionSentence(ActionSeeds(ranked, count)[j].text)
  {
    var i :| 0 <= i < |ranked| && IsActionSentence(ranked[i].text);
    CandidatesComplete(ranked, i);
  }

  lemma SeedsWithoutCandidates(ranked: seq<Scored>, count: nat)
    requires 1 <= count && !HasActionSentence(ranked)
    ensures ActionSeeds(ranked, count) == ranked[..Min(count, |ranked|)]
  {
    CandidatesNone(ranked);
  }

  lemma {:induction false} CandidatesNone(ranked: seq<Scored>)
    requires forall i :: 0 <= i < |ranked| ==> !IsActionSentence(ranked[i].text)
    ensures ActionCandidates(ranked) == []
    decreases |ranked|
  {
    if ranked != [] {
      CandidatesNone(ranked[1..]);
    }
  }

  /** A ranking without repeats has candidates without repeats. */
  lemma {:induction false} CandidatesNoDuplicates(ranked: seq<Scored>)
    requires NoDuplicates(ranked)
    ensures NoDuplicates(ActionCandidates(ranked))
    decreases |ranked|
  {
    if ranked != [] {
      var x, tail := ranked[0], ranked[1..];
      forall i, j | 0 <= i < j < |tail| ensures tail[i] != tail[j] {
        assert tail[i] == ranked[i + 1] && tail[j] == ranked[j + 1];
      }
      CandidatesNoDuplicates(tail);
      var rest := ActionCandidates(tail);
      if IsActionSentence(x.text) {
        forall k | 0 <= k < |rest| ensures rest[k] != x {
          var m :| 0 <= m < |tail| && tail[m] == rest[k];
          assert tail[m] == ranked[m + 1];
        }
        ConsNoDuplicates(x, rest);
        assert ActionCandidates(ranked) == [x] + rest;
      } else {
        assert ActionCandidates(ranked) == rest;
      }
    }
  }

  lemma ConsNoDuplicates(x: Scored, ys: seq<Scored>)
    requires NoDuplicates(ys)
    requires forall k :: 0 <= k < |ys| ==> ys[k] != x
    ensures NoDuplicates([x] + ys)
  {
    var zs := [x] + ys;
    forall i, j | 0 <= i < j < |zs| ensures zs[i] != zs[j] {
      assert zs[j] == ys[j - 1];
      if i > 0 {
        assert zs[i] == ys[i - 1];
      }
    }
  }

  /** The first `n` entries of a list without repeats have none. */
  lemma TakeNoDuplicates<T>(xs: seq<T>, n: nat)
    requires NoDuplicates(xs)
    ensures NoDuplicates(Take(xs, n))
  {
    var t := Take(xs, n);
    forall i, j | 0 <= i < j < |t| ensures t[i] != t[j] {
      assert t[i] == xs[i] && t[j] == xs[j];
    }
  }

  /** An entry left out of the first `n` comes at position `n` or later. */
  lemma LeftOutComesLater<T>(xs: seq<T>, n: nat, m: nat)
    requires m < |xs| && xs[m] !in Take(xs, n)
    ensures m >= n
  {
  }

  /** No action sentence left out of the seeds outranks a seed. */
  lemma SeedsOutrankRest(ranked: seq<Scored>, count: nat)
    requires 1 <= count && SortedBy(ranked, ByScore)
    ensures forall i, j ::
      (0 <= i < |ranked| && IsActionSentence(ranked[i].text)
       && ranked[i] !in ActionSeeds(ranked, count) && 0 <= j < |ActionSeeds(ranked, count)|)
      ==> ByScore(ActionSeeds(ranked, count)[j], ranked[i])
  {
    var candidates := ActionCandidates(ranked);
    var seeds := ActionSeeds(ranked, count);
    CandidatesSorted(ranked);
    forall i, j | 0 <= i < |ranked| && IsActionSentence(ranked[i].text)
      && ranked[i] !in seeds && 0 <= j < |seeds|
      ensures ByScore(seeds[j], ranked[i])
    {
      CandidatesComplete(ranked, i);
      var m :| 0 <= m < |candidates| && candidates[m] == ranked[i];
      assert seeds == Take(candidates, count);
      LeftOutComesLater(candidates, count, m);
      assert seeds[j] == candidates[j];
    }
  }

  /** What the action bullets are made from: between one and `count`
      sentences in score order, no sentence twice; when some sentence has an
      action keyword, the best `count` of those, so no action sentence left
      out outranks one kept; otherwise the best `count` of all. */
  ghost predicate SeedsChosen(ranked: seq<Scored>, count: nat, seeds: seq<Scored>) {
    && 1 <= |seeds| <= count
    && SortedBy(seeds, ByScore)
    && (forall j :: 0 <= j < |seeds| ==> seeds[j] in ranked)
    && (NoDuplicates(ranked) ==> NoDuplicates(seeds))
    && (HasActionSentence(ranked) ==>
          && seeds == Take(ActionCandidates(ranked), count)
          && |seeds| == Min(count, |ActionCandidates(ranked)|)
          && (forall j :: 0 <= j < |seeds| ==> IsActionSentence(seeds[j].text))
          && (forall i, j ::
                (0 <= i < |ranked| && IsActionSentence(ranked[i].text)
                 && ranked[i] !in seeds && 0 <= j < |seeds|)
                ==> ByScore(seeds[j], ranked[i])))
    && (!HasActionSentence(ranked) ==> seeds == Take(ranked, count))
  }

  lemma ActionSeedsMeaning(ranked: seq<Scored>, count: nat)
    requires 1 <= count && |ranked| >= 1
    requires SortedBy(ranked, ByScore)
    ensures SeedsChosen(ranked, count, ActionSeeds(ranked, count))
  {
    var seeds := ActionSeeds(ranked, count);
    SeedsBounds(ranked, count);
    SeedsSorted(ranked, count);
    if NoDuplicates(ranked) {
      if HasActionSentence(ranked) {
        CandidatesNoDuplicates(ranked);
        TakeNoDuplicates(ActionCandidates(ranked), count);
      } else {
        TakeNoDuplicates(ranked, count);
        SeedsWithoutCandidates(ranked, count);
      }
    }
    if HasActionSentence(ranked) {
      SeedsFromCandidates(ranked, count);
      SeedsOutrankRest(ranked, count);
      assert seeds == Take(ActionCandidates(ranked), count);
    } else {
      SeedsWithoutCandidates(ranked, count);
    }
  }

  lemma StepsBounds(ranked: seq<Scored>, available: nat)
    requires |ranked| >= 1 && available >= 1
    ensures 1 <= |ActionSteps(ranked, available)| <= 3
    ensures NoDuplicates(ActionSteps(ranked, available))
    ensures ActionSteps(ranked, available)[0] == StepFor(SentenceToLine(ranked[0].text))
  {
    var all := NextSteps(ranked, available);
    TakeDedup(all, 3);
    NextStepsMeaning(ranked, available, 0);
  }

  /** The first `n` distinct values keep the first value first. */
  lemma TakeDedup(xs: seq<string>, n: nat)
    requires xs != [] && n >= 1
    ensures var r := Take(Dedup(xs), n);
      1 <= |r| <= n && NoDuplicates(r) && r[0] == xs[0]
  {
    var d := Dedup(xs);
    DedupKeepsFirst(xs);
    var r := Take(d, n);
    forall i, j | 0 <= i < j < |r| ensures r[i] != r[j] {
      assert r[i] == d[i] && r[j] == d[j];
    }
  }

  /** `nextSteps`: the step lines, one per sentence of the best three, before
      repeats are removed. */
  function NextSteps(ranked: seq<Scored>, available: nat): (r: seq<string>)
    ensures |r| == Min(Min(3, available), |ranked|)
  {
    StepList(Texts(Take(ranked, Min(3, available))))
  }

  /** The `i`-th step line is the step of the `i`-th best sentence. */
  lemma NextStepsMeaning(ranked: seq<Scored>, available: nat, i: nat)
    requires i < |NextSteps(ranked, available)|
    ensures NextSteps(ranked, available)[i] == StepFor(SentenceToLine(ranked[i].text))
  {
  }

  lemma StepsFromBest(ranked: seq<Scored>, available: nat)
    ensures forall j :: 0 <= j < |ActionSteps(ranked, available)| ==> ActionSteps(ranked, available)[j] in NextSteps(ranked, available)
  {
    var d := Dedup(NextSteps(ranked, available));
    assert ActionSteps(ranked, available) == d[..Min(3, |d|)];
  }

  /** There are at most three step candidates, so the cut to three never
      drops one: the steps are every distinct candidate once, in the order
      of its first appearance. */
  lemma StepsAllCandidates(ranked: seq<Scored>, available: nat)
    ensures FirstOccurrences(NextSteps(ranked, available), ActionSteps(ranked, available))
  {
    var base := NextSteps(ranked, available);
    DedupFirstOccurrences(base);
    assert ActionSteps(ranked, available) == Dedup(base);
  }

  /** What the next-step lines are: one to three of them, the step of the
      best sentence first, and exactly the distinct steps of the best three
      sentences, each once, in the order of their first appearance. */
  ghost predicate StepsChosen(ranked: seq<Scored>, available: nat, steps: seq<string>) {
    && 1 <= |steps| <= 3
    && NoDuplicates(steps)
    && ranked != [] && steps[0] == StepFor(SentenceToLine(ranked[0].text))
    && (forall j :: 0 <= j < |steps| ==> steps[j] in NextSteps(ranked, available))
    && FirstOccurrences(NextSteps(ranked, available), steps)
  }

  lemma ActionStepsMeaning(ranked: seq<Scored>, available: nat)
    requires |ranked| >= 1 && available >= 1
    ensures StepsChosen(ranked, available, ActionSteps(ranked, available))
  {
    StepsBounds(ranked, available);
    StepsFromBest(ranked, available);
    StepsAllCandidates(ranked, available);
  }

  lemma BulletsOneLine(seeds: seq<Scored>)
    ensures forall k :: 0 <= k < |seeds| ==> '\n' !in ActionBullets(seeds)[k]
  {
    var bullets := ActionBullets(seeds);
    forall k | 0 <= k < |seeds| ensures '\n' !in bullets[k] {
      var line := SentenceToLine(seeds[k].text);
      SentenceToLineOneLine(seeds[k].text);
      AppendOneLine("- ", line);
      assert bullets[k] == "- " + line;
    }
  }

  lemma StepsOneLine(ranked: seq<Scored>, available: nat, k: nat)
    requires k < |ActionSteps(ranked, available)|
    ensures '\n' !in ActionSteps(ranked, available)[k]
  {
    var all := NextSteps(ranked, available);
    StepsFromBest(ranked, available);
    var i :| 0 <= i < |all| && all[i] == ActionSteps(ranked, available)[k];
    NextStepsMeaning(ranked, available, i);
    SentenceToLineIsClean(ranked[i].text);
    StepOneLine(SentenceToLine(ranked[i].text));
  }

  /** Bullets and steps without line breaks give lines without line breaks. */
  lemma ActionLinesOneLine(bullets: seq<string>, steps: seq<string>)
    requires forall k :: 0 <= k < |bullets| ==> '\n' !in bullets[k]
    requires forall k :: 0 <= k < |steps| ==> '\n' !in steps[k]
    ensures forall k :: 0 <= k < |bullets + ["", StepsHeading] + steps| ==>
      '\n' !in (bullets + ["", StepsHeading] + steps)[k]
  {
    forall k | 0 <= k < |bullets + ["", StepsHeading] + steps|
      ensures '\n' !in (bullets + ["", StepsHeading] + steps)[k]
    {
      ThreePartIndex(bullets, steps, k);
    }
  }

  lemma ThreePartIndex(bullets: seq<string>, steps: seq<string>, k: nat)
    requires k < |bullets| + 2 + |steps|
    ensures k < |bullets| ==> (bullets + ["", StepsHeading] + steps)[k] == bullets[k]
    ensures k == |bullets| ==> (bullets + ["", StepsHeading] + steps)[k] == ""
    ensures k == |bullets| + 1 ==> (bullets + ["", StepsHeading] + steps)[k] == StepsHeading
    ensures k >= |bullets| + 2 ==> (bullets + ["", StepsHeading] + steps)[k] == steps[k - |bullets| - 2]
  {
  }

  /** A step of a clean line holds no line break. */
  lemma StepOneLine(line: string)
    requires IsClean(line)
    ensures '\n' !in StepFor(line)
  {
    CleanHasNoNewline(line);
    var short := StripFinalPeriod(line);
    assert '\n' !in short by {
      assert line == short || line == short + ".";
      assert forall k :: 0 <= k < |short| ==> short[k] == line[k];
    }
    StepForShape(line);
    var p :| IsAnyStepPrefix(p) && StepFor(line) == p + short + ".";
    StepPrefixOneLine(p, short);
  }

  /** Prefix, line and full stop together hold no line break. */
  lemma StepPrefixOneLine(p: string, short: string)
    requires IsAnyStepPrefix(p) && '\n' !in short
    ensures '\n' !in p + short + "."
  {
    assert '\n' !in p;
  }

  /** The action rendering splits on line breaks into the bullets, an empty
      line, the heading and the steps. */
  lemma ActionRenderLines(sentences: seq<string>, count: nat)
    requires 1 <= count <= |sentences|
    ensures var ranked := Ranked(sentences);
      SplitOn(ActionSummary(sentences, count), '\n')
        == ActionBullets(ActionSeeds(ranked, count)) + ["", StepsHeading] + ActionSteps(ranked, |sentences|)
  {
    var ranked := Ranked(sentences);
    var bullets := ActionBullets(ActionSeeds(ranked, count));
    var steps := ActionSteps(ranked, |sentences|);
    BulletsOneLine(ActionSeeds(ranked, count));
    forall k | 0 <= k < |steps| ensures '\n' !in steps[k] {
      StepsOneLine(ranked, |sentences|, k);
    }
    ActionLinesOneLine(bullets, steps);
    assert ActionLines(ranked, count, |sentences|) == bullets + ["", StepsHeading] + steps;
    SplitOnJoin(bullets + ["", StepsHeading] + steps, '\n');
  }

  /** The action style: one to `count` bullets `'- '` + line, made from the
      best `count` action sentences in score order, no sentence twice (or the
      best `count` when no sentence has an action keyword), then an empty
      line, the heading, and the distinct steps of the best three sentences. */
  lemma ActionShape(text: string, lengthKey: string)
    requires !AllSpace(text)
    ensures var sentences := SplitSentences(text);
      var count := SelectionCount(lengthKey, |sentences|);
      var ranked := Ranked(sentences);
      var seeds := ActionSeeds(ranked, count);
      var steps := ActionSteps(ranked, |sentences|);
      var lines := SplitOn(MakeSummary(text, "action", lengthKey), '\n');
      && lines == ActionBullets(seeds) + ["", StepsHeading] + steps
      && SeedsChosen(ranked, count, seeds)
      && NoDuplicates(seeds)
      && StepsChosen(ranked, |sentences|, steps)
  {
    var sentences := SplitSentences(text);
    SplitSentencesEmptyIff(text);
    var count := SelectionCount(lengthKey, |sentences|);
    var ranked := Ranked(sentences);
    TopByScoreRanks(sentences);
    assert |ranked| == |sentences|;
    ActionRenderLines(sentences, count);
    ActionSeedsMeaning(ranked, count);
    ScoreSentencesNoDuplicates(sentences);
    PermutationNoDuplicates(ranked, ScoreSentences(sentences));
    ActionStepsMeaning(ranked, |sentences|);
    assert MakeSummary(text, "action", lengthKey) == ActionSummary(sentences, count);
  }
}
