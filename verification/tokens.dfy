/** `tokenizeWords` and the stopword set. The browser fallback carries its own
    copy of both; the tokeniser is the same code and is shared here, and the
    two stopword lists are written out separately and shown to be one set. */
module Tokens {
  import opened Chars
  import opened Strings

  /** `STOPWORDS` of the summarisation server, in the order it is written. */
  const StopwordList: seq<string> := [
    "a", "an", "and", "are", "as", "at", "be", "by", "for", "from", "in", "is", "it", "of", "on",
    "or", "that", "the", "this", "to", "was", "with", "will", "we", "you", "i", "they", "he",
    "she", "but", "if", "so", "than", "then", "their", "there", "these", "those"
  ]

  /** `STOPWORDS` of the browser fallback, in the order it is written. */
  const BrowserStopwordList: seq<string> := [
    "a", "an", "and", "are", "as", "at", "be", "by", "for", "from", "in", "is", "it", "of", "on",
    "or", "that", "the", "this", "to", "was", "with", "will", "we", "you", "i", "they", "he",
    "she", "but", "if", "so", "than", "then", "their", "there", "these", "those"
  ]

  /** The two copies of the stopword list are the same 38 words in the same order. */
  lemma BrowserStopwordsAgree()
    ensures BrowserStopwordList == StopwordList
    ensures |StopwordList| == 38
  {
  }

  /** `STOPWORDS.has(w)`. */
  predicate IsStopword(w: string) {
    w in StopwordList
  }

  /** `toLowerCase()` followed by `replace(/[^a-z0-9\s']/g, ' ')`, on one character. */
  function NormalizeChar(c: char): (r: char)
    ensures IsTokenChar(r) || IsSpace(r)
    ensures IsTokenChar(LowerChar(c)) ==> r == LowerChar(c)
    ensures IsSpace(c) ==> r == c
    ensures !IsTokenChar(LowerChar(c)) && !IsSpace(c) ==> r == ' '
  {
    var l := LowerChar(c);
    if IsTokenChar(l) || IsSpace(l) then l else ' '
  }

  function Normalize(s: string): (r: string)
    ensures |r| == |s|
    ensures forall i :: 0 <= i < |s| ==> r[i] == NormalizeChar(s[i])
  {
    seq(|s|, i requires 0 <= i < |s| => NormalizeChar(s[i]))
  }

  /** `s.split(/\s+/).filter(Boolean)`: the maximal whitespace-free runs of `s`. */
  function Words(s: string): (r: seq<string>)
    ensures forall i :: 0 <= i < |r| ==> |r[i]| > 0 && NoSpace(r[i])
    ensures forall i, j :: 0 <= i < |r| && 0 <= j < |r[i]| ==> r[i][j] in s
    decreases |s|
  {
    if s == [] then []
    else if IsSpace(s[0]) then
      var rest := Words(s[1..]);
      assert forall i, j :: 0 <= i < |rest| && 0 <= j < |rest[i]| ==> rest[i][j] in s by {
        forall c | c in s[1..] ensures c in s {
          var k :| 0 <= k < |s[1..]| && s[1..][k] == c;
          assert s[k + 1] == c;
        }
      }
      rest
    else
      var n := WordRun(s);
      var rest := Words(s[n..]);
      assert forall i, j :: 0 <= i < |rest| && 0 <= j < |rest[i]| ==> rest[i][j] in s by {
        forall c | c in s[n..] ensures c in s {
          var k :| 0 <= k < |s[n..]| && s[n..][k] == c;
          assert s[k + n] == c;
        }
      }
      assert forall j :: 0 <= j < n ==> s[..n][j] == s[j];
      [s[..n]] + rest
  }

  /** The words hold exactly the non-whitespace characters of `s`, in order. */
  lemma {:induction false} WordsKeepText(s: string)
    ensures Concat(Words(s)) == Squeeze(s)
    decreases |s|
  {
    if s != [] {
      if IsSpace(s[0]) {
        WordsKeepText(s[1..]);
      } else {
        var n := WordRun(s);
        WordsKeepText(s[n..]);
        assert s == s[..n] + s[n..];
        SqueezeAppend(s[..n], s[n..]);
        SqueezeOfNoSpace(s[..n]);
        assert Words(s)[1..] == Words(s[n..]);
      }
    }
  }

  lemma {:induction false} WordRunOfWord(w: string, rest: string)
    requires NoSpace(w)
    requires rest == [] || IsSpace(rest[0])
    ensures WordRun(w + rest) == |w|
    decreases |w|
  {
    if w == [] {
      assert w + rest == rest;
    } else {
      assert (w + rest)[1..] == w[1..] + rest;
      WordRunOfWord(w[1..], rest);
    }
  }

  /** Splitting a space-joined list of words gives the words back. */
  lemma {:induction false} WordsOfJoin(ws: seq<string>)
    requires forall i :: 0 <= i < |ws| ==> |ws[i]| > 0 && NoSpace(ws[i])
    ensures Words(JoinWith(ws, " ")) == ws
    decreases |ws|
  {
    if |ws| == 1 {
      WordRunOfWord(ws[0], []);
      assert ws[0] + [] == ws[0];
      assert ws[0][|ws[0]|..] == [];
    } else if |ws| > 1 {
      var rest := JoinWith(ws[1..], " ");
      var s := ws[0] + (" " + rest);
      assert JoinWith(ws, " ") == s;
      WordRunOfWord(ws[0], " " + rest);
      assert s[..|ws[0]|] == ws[0];
      assert s[|ws[0]|..] == " " + rest;
      assert (" " + rest)[1..] == rest;
      WordsOfJoin(ws[1..]);
    }
  }

  /** A whole word followed by nothing or by whitespace is the first word. */
  lemma WordsOfWordThen(w: string, rest: string)
    requires |w| > 0 && NoSpace(w)
    requires rest == [] || IsSpace(rest[0])
    ensures Words(w + rest) == [w] + Words(rest)
  {
    WordRunOfWord(w, rest);
    var s := w + rest;
    assert s[..|w|] == w;
    assert s[|w|..] == rest;
  }

  /** Leading whitespace separates nothing. */
  lemma {:induction false} WordsSkipSpace(s: string, n: nat)
    requires n <= |s| && AllSpace(s[..n])
    ensures Words(s) == Words(s[n..])
    decreases n
  {
    if n > 0 {
      assert IsSpace(s[..n][0]);
      var t := s[1..];
      var u := t[..n - 1];
      forall i | 0 <= i < |u| ensures IsSpace(u[i]) {
        assert u[i] == s[..n][i + 1];
      }
      WordsSkipSpace(t, n - 1);
      assert t[n - 1..] == s[n..];
    }
  }

  /** Trailing whitespace separates nothing. */
  lemma {:induction false} WordsDropTrailingSpace(x: string, q: string)
    requires AllSpace(q)
    ensures Words(x + q) == Words(x)
    decreases |x|
  {
    if x == [] {
      assert x + q == q && q[..|q|] == q && q[|q|..] == [];
      WordsSkipSpace(q, |q|);
    } else if IsSpace(x[0]) {
      assert (x + q)[1..] == x[1..] + q;
      WordsDropTrailingSpace(x[1..], q);
    } else {
      var m := WordRun(x);
      assert x + q == x[..m] + (x[m..] + q);
      WordsOfWordThen(x[..m], x[m..] + q);
      WordsDropTrailingSpace(x[m..], q);
    }
  }

  /** A text followed by one that starts with whitespace has the words of the
      first, then those of the second: no word spans the seam. */
  lemma {:induction false} WordsAppend(x: string, y: string)
    requires y == [] || IsSpace(y[0])
    ensures Words(x + y) == Words(x) + Words(y)
    decreases |x|
  {
    if x == [] {
      assert x + y == y;
    } else if IsSpace(x[0]) {
      WordsAppend(x[1..], y);
      WordsAppendSpace(x, y);
    } else {
      var m := WordRun(x);
      var w, r := x[..m], x[m..];
      WordsAppend(r, y);
      WordsAppendWord(w, r, y);
      assert x == w + r;
    }
  }

  /** The step of `WordsAppend` for a text that starts with whitespace. */
  lemma WordsAppendSpace(x: string, y: string)
    requires x != [] && IsSpace(x[0])
    requires Words(x[1..] + y) == Words(x[1..]) + Words(y)
    ensures Words(x + y) == Words(x) + Words(y)
  {
    assert (x + y)[1..] == x[1..] + y;
  }

  /** The step of `WordsAppend` for a text that starts with a word `w`. */
  lemma WordsAppendWord(w: string, r: string, y: string)
    requires |w| > 0 && NoSpace(w)
    requires r == [] || IsSpace(r[0])
    requires y == [] || IsSpace(y[0])
    requires Words(r + y) == Words(r) + Words(y)
    ensures Words(w + r + y) == Words(w + r) + Words(y)
  {
    AppendAssoc(w, r, y);
    WordsOfWordThen(w, r + y);
    WordsOfWordThen(w, r);
    AppendAssoc([w], Words(r), Words(y));
  }

  lemma AppendAssoc<T>(a: seq<T>, b: seq<T>, c: seq<T>)
    ensures a + (b + c) == (a + b) + c
  {
  }

  /** The words of each text in turn. */
  function WordsAll(ts: seq<string>): seq<string>
    decreases |ts|
  {
    if ts == [] then [] else Words(ts[0]) + WordsAll(ts[1..])
  }

  lemma WordsAllCons(t: string, ts: seq<string>)
    ensures WordsAll([t] + ts) == Words(t) + WordsAll(ts)
  {
    assert ([t] + ts)[1..] == ts;
  }

  /** Joining texts with single spaces neither merges nor splits their words. */
  lemma {:induction false} WordsOfJoinWith(ts: seq<string>)
    ensures Words(JoinWith(ts, " ")) == WordsAll(ts)
    decreases |ts|
  {
    if |ts| == 1 {
      assert ts == [ts[0]] + [];
      WordsAllCons(ts[0], []);
    } else if |ts| > 1 {
      var rest := JoinWith(ts[1..], " ");
      assert JoinWith(ts, " ") == ts[0] + (" " + rest);
      WordsAppend(ts[0], " " + rest);
      assert (" " + rest)[1..] == rest;
      WordsOfJoinWith(ts[1..]);
      assert ts == [ts[0]] + ts[1..];
      WordsAllCons(ts[0], ts[1..]);
    }
  }

  /** `trim` does not change the words. */
  lemma WordsOfTrim(s: string)
    ensures Words(Trim(s)) == Words(s)
  {
    var a := TrimIsSlice(s);
    var t := Trim(s);
    var q := s[a + |t|..];
    calc {
      Words(s);
      { WordsSkipSpace(s, a); }
      Words(s[a..]);
      { assert s[a..] == t + q; }
      Words(t + q);
      { WordsDropTrailingSpace(t, q); }
      Words(t);
    }
  }

  lemma CollapseCons(c: char, x: string)
    requires !IsSpace(c)
    ensures Collapse([c] + x) == [c] + Collapse(x)
  {
    var s := [c] + x;
    assert s[0] == c && s[1..] == x;
  }

  /** Collapsing passes text without whitespace through unchanged. */
  lemma {:induction false} CollapseWord(w: string, x: string)
    requires NoSpace(w)
    ensures Collapse(w + x) == w + Collapse(x)
    decreases |w|
  {
    if w == [] {
      assert w + x == x;
    } else {
      var c, u := w[0], w[1..];
      NoSpaceTail(w);
      assert w + x == [c] + (u + x);
      CollapseCons(c, u + x);
      CollapseWord(u, x);
      assert w == [c] + u;
    }
  }

  /** `replace(/\s+/g, ' ')` does not change the words. */
  lemma {:induction false} WordsOfCollapse(s: string)
    ensures Words(Collapse(s)) == Words(s)
    decreases |s|
  {
    if s != [] {
      if IsSpace(s[0]) {
        var n := SpaceRun(s);
        var c := Collapse(s[n..]);
        WordsOfCollapse(s[n..]);
        assert ([' '] + c)[1..] == c;
        WordsSkipSpace(s, n);
      } else {
        var m := WordRun(s);
        assert s == s[..m] + s[m..];
        CollapseWord(s[..m], s[m..]);
        WordsOfCollapse(s[m..]);
        WordsOfWordThen(s[..m], Collapse(s[m..]));
      }
    }
  }

  /** No whitespace at either end, and every whitespace character a single
      plain space: what `s.trim().replace(/\s+/g, ' ')` leaves. */
  predicate SingleSpacedTrimmed(t: string) {
    && (t == [] || (!IsSpace(t[0]) && !IsSpace(t[|t| - 1])))
    && (forall i :: 0 <= i < |t| && IsSpace(t[i]) ==> t[i] == ' ')
    && (forall i :: 0 <= i < |t| - 1 ==> !(IsSpace(t[i]) && IsSpace(t[i + 1])))
  }

  /** What follows a space inside such a string is again such a string. */
  lemma SingleSpacedTrimmedAfter(t: string, k: nat)
    requires SingleSpacedTrimmed(t) && 0 < k < |t| && IsSpace(t[k - 1])
    ensures t[k..] != [] && SingleSpacedTrimmed(t[k..])
  {
    var r := t[k..];
    assert !IsSpace(t[k]);
    forall i | 0 <= i < |r| && IsSpace(r[i]) ensures r[i] == ' ' {
      assert r[i] == t[k + i];
    }
    forall i | 0 <= i < |r| - 1 ensures !(IsSpace(r[i]) && IsSpace(r[i + 1])) {
      assert r[i] == t[k + i] && r[i + 1] == t[k + i + 1];
    }
    assert r[|r| - 1] == t[|t| - 1];
  }

  /** A word, one space, and more words. */
  lemma WordsAfterGap(t: string, m: nat)
    requires 0 < m < |t| - 1 && NoSpace(t[..m]) && IsSpace(t[m]) && !IsSpace(t[m + 1])
    ensures Words(t) == [t[..m]] + Words(t[m + 1..])
    ensures Words(t[m + 1..]) != []
  {
    assert t == t[..m] + t[m..];
    WordsOfWordThen(t[..m], t[m..]);
    assert t[m..][1..] == t[m + 1..];
    var r := t[m + 1..];
    assert r[0] == t[m + 1];
  }

  lemma SplitAround(t: string, m: nat)
    requires m < |t| && t[m] == ' '
    ensures t[..m] + " " + t[m + 1..] == t
  {
  }

  lemma JoinWithCons(w: string, ws: seq<string>)
    requires ws != []
    ensures JoinWith([w] + ws, " ") == w + " " + JoinWith(ws, " ")
  {
    assert ([w] + ws)[1..] == ws;
  }

  /** Such a string is its words joined by single spaces. */
  lemma {:induction false} JoinOfSingleSpaced(t: string)
    requires SingleSpacedTrimmed(t)
    ensures JoinWith(Words(t), " ") == t
    decreases |t|
  {
    if t != [] {
      var m := WordRun(t);
      var w := t[..m];
      if m == |t| {
        assert t + [] == t;
        WordsOfWordThen(t, []);
      } else {
        var rest := t[m + 1..];
        assert t[m] == ' ' && m + 1 < |t| && !IsSpace(t[m + 1]);
        SingleSpacedTrimmedAfter(t, m + 1);
        WordsAfterGap(t, m);
        calc {
          JoinWith(Words(t), " ");
          JoinWith([w] + Words(rest), " ");
          { JoinWithCons(w, Words(rest)); }
          w + " " + JoinWith(Words(rest), " ");
          { JoinOfSingleSpaced(rest); }
          w + " " + rest;
          { SplitAround(t, m); }
          t;
        }
      }
    }
  }

  /** `s.trim().replace(/\s+/g, ' ')` is the words of `s` joined by single
      spaces. */
  lemma CollapseTrimIsJoin(s: string)
    ensures Collapse(Trim(s)) == JoinWith(Words(s), " ")
  {
    var t := Trim(s);
    JoinOfSingleSpaced(Collapse(t));
    WordsOfCollapse(t);
    WordsOfTrim(s);
  }

  /** `tokenizeWords(text)`: lower-case words made of letters, digits and
      apostrophes, everything else acting as a separator. */
  function Tokenize(text: string): (r: seq<string>)
    ensures forall i :: 0 <= i < |r| ==> |r[i]| > 0
    ensures forall i, j :: 0 <= i < |r| && 0 <= j < |r[i]| ==> IsTokenChar(r[i][j])
  {
    var s := Normalize(text);
    var r := Words(s);
    assert forall i, j :: 0 <= i < |r| && 0 <= j < |r[i]| ==> IsTokenChar(r[i][j]) by {
      forall i, j | 0 <= i < |r| && 0 <= j < |r[i]| ensures IsTokenChar(r[i][j]) {
        assert r[i][j] in s;
        assert !IsSpace(r[i][j]);
      }
    }
    r
  }

  /** Tokenising keeps every letter, digit and apostrophe of the text, lower-cased. */
  lemma TokenizeKeepsText(text: string)
    ensures Concat(Tokenize(text)) == Squeeze(Normalize(text))
  {
    WordsKeepText(Normalize(text));
  }

  /** The number of occurrences of `w` in `ws`. */
  function Count(ws: seq<string>, w: string): nat
    decreases |ws|
  {
    if ws == [] then 0 else (if ws[0] == w then 1 else 0) + Count(ws[1..], w)
  }

  lemma {:induction false} CountPositive(ws: seq<string>, k: nat)
    requires k < |ws|
    ensures Count(ws, ws[k]) >= 1
    decreases |ws|
  {
    if k > 0 {
      CountPositive(ws[1..], k - 1);
    }
  }
}
