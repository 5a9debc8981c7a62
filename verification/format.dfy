/** The line formatting of `makeSummary`: `clean`, `sentenceToLine`, the
    120-character limit of an executive bullet, and the keyword rules that
    turn a sentence into a suggested next step. */
module Format {
  import opened Chars
  import opened Strings
  import opened Tokens

  /** `s.replace(/\s+([,.!?])/g, '$1')`: a whitespace run directly followed by
      `,`, `.`, `!` or `?` is removed; every other run is kept whole. */
  function DropSpaceBeforePunct(s: string): (r: string)
    ensures |s| > 0 && !IsSpace(s[0]) ==> |r| > 0 && r[0] == s[0]
    ensures |s| > 0 && !IsSpace(s[|s| - 1]) ==> |r| > 0 && r[|r| - 1] == s[|s| - 1]
    decreases |s|
  {
    if s == [] then []
    else if !IsSpace(s[0]) then [s[0]] + DropSpaceBeforePunct(s[1..])
    else
      var n := SpaceRun(s);
      if n < |s| && IsClosingPunct(s[n]) then [s[n]] + DropSpaceBeforePunct(s[n + 1..])
      else s[..n] + DropSpaceBeforePunct(s[n..])
  }

  /** Every character of the result comes from the input. */
  lemma {:induction false} DropSpaceBeforePunctChars(s: string)
    ensures forall i :: 0 <= i < |DropSpaceBeforePunct(s)| ==> DropSpaceBeforePunct(s)[i] in s
    decreases |s|
  {
    if s != [] {
      if !IsSpace(s[0]) {
        DropSpaceBeforePunctChars(s[1..]);
      } else {
        var n := SpaceRun(s);
        if n < |s| && IsClosingPunct(s[n]) {
          DropSpaceBeforePunctChars(s[n + 1..]);
        } else {
          DropSpaceBeforePunctChars(s[n..]);
        }
      }
    }
  }

  /** Only whitespace is removed. */
  lemma {:induction false} DropSpaceBeforePunctKeepsText(s: string)
    ensures Squeeze(DropSpaceBeforePunct(s)) == Squeeze(s)
    decreases |s|
  {
    if s != [] {
      if !IsSpace(s[0]) {
        DropSpaceBeforePunctKeepsText(s[1..]);
        SqueezeAppend([s[0]], DropSpaceBeforePunct(s[1..]));
      } else {
        var n := SpaceRun(s);
        assert s == s[..n] + s[n..];
        SqueezeAppend(s[..n], s[n..]);
        SqueezeOfAllSpace(s[..n]);
        if n < |s| && IsClosingPunct(s[n]) {
          DropSpaceBeforePunctKeepsText(s[n + 1..]);
          SqueezeAppend([s[n]], DropSpaceBeforePunct(s[n + 1..]));
          assert s[n..] == [s[n]] + s[n + 1..];
          SqueezeAppend([s[n]], s[n + 1..]);
        } else {
          DropSpaceBeforePunctKeepsText(s[n..]);
          SqueezeAppend(s[..n], DropSpaceBeforePunct(s[n..]));
        }
      }
    }
  }

  /** No space is left in front of `, . ! ?`. */
  predicate NoSpaceBeforePunct(t: string) {
    forall i :: 0 <= i < |t| - 1 && IsSpace(t[i]) ==> !IsClosingPunct(t[i + 1])
  }

  lemma {:induction false} DropSpaceBeforePunctDone(s: string)
    ensures NoSpaceBeforePunct(DropSpaceBeforePunct(s))
    decreases |s|
  {
    if s != [] {
      if !IsSpace(s[0]) {
        DropSpaceBeforePunctDone(s[1..]);
      } else {
        var n := SpaceRun(s);
        if n < |s| && IsClosingPunct(s[n]) {
          DropSpaceBeforePunctDone(s[n + 1..]);
        } else {
          var rest := DropSpaceBeforePunct(s[n..]);
          DropSpaceBeforePunctDone(s[n..]);
          var r := s[..n] + rest;
          forall i | 0 <= i < |r| - 1 && IsSpace(r[i]) ensures !IsClosingPunct(r[i + 1]) {
            if i + 1 < n {
              assert IsSpace(r[i + 1]);
            } else if i + 1 == n {
              assert r[i + 1] == s[n];
            } else {
              assert r[i + 1] == rest[i + 1 - n] && r[i] == rest[i - n];
            }
          }
        }
      }
    }
  }

  /** No two whitespace characters side by side. */
  predicate SingleSpaced(s: string) {
    forall i :: 0 <= i < |s| - 1 ==> !(IsSpace(s[i]) && IsSpace(s[i + 1]))
  }

  /** Dropping runs before punctuation does not bring two runs together. */
  lemma {:induction false} DropSpaceBeforePunctSingleSpaced(s: string)
    requires SingleSpaced(s)
    ensures SingleSpaced(DropSpaceBeforePunct(s))
    decreases |s|
  {
    if s != [] {
      var r := DropSpaceBeforePunct(s);
      if !IsSpace(s[0]) {
        DropSpaceBeforePunctSingleSpaced(s[1..]);
      } else {
        var n := SpaceRun(s);
        assert n == 1 by {
          if |s| > 1 { SpaceRunStopsAt(s, 1); }
        }
        if n < |s| && IsClosingPunct(s[n]) {
          DropSpaceBeforePunctSingleSpaced(s[n + 1..]);
        } else {
          DropSpaceBeforePunctSingleSpaced(s[n..]);
        }
      }
    }
  }

  /** A string with nothing left for `clean` to do. */
  predicate IsClean(t: string) {
    && (t == [] || (!IsSpace(t[0]) && !IsSpace(t[|t| - 1])))
    && (forall i :: 0 <= i < |t| && IsSpace(t[i]) ==> t[i] == ' ')
    && SingleSpaced(t)
    && NoSpaceBeforePunct(t)
  }

  /** `clean(s)`: trim, collapse whitespace runs to one space, and pull
      `, . ! ?` back onto the preceding word. */
  function Clean(s: string): string {
    DropSpaceBeforePunct(Collapse(Trim(s)))
  }

  /** `clean` leaves no leading or trailing whitespace, no whitespace other than
      single spaces and no space before closing punctuation. */
  lemma CleanIsClean(s: string)
    ensures IsClean(Clean(s))
  {
    var c := Collapse(Trim(s));
    var r := DropSpaceBeforePunct(c);
    DropSpaceBeforePunctChars(c);
    OnlyPlainSpaces(c, r);
    DropSpaceBeforePunctSingleSpaced(c);
    DropSpaceBeforePunctDone(c);
  }

  /** Characters drawn from a text whose only whitespace is the plain space
      include no other whitespace. */
  lemma OnlyPlainSpaces(c: string, r: string)
    requires forall i :: 0 <= i < |c| && IsSpace(c[i]) ==> c[i] == ' '
    requires forall i :: 0 <= i < |r| ==> r[i] in c
    ensures forall i :: 0 <= i < |r| && IsSpace(r[i]) ==> r[i] == ' '
  {
    forall i | 0 <= i < |r| && IsSpace(r[i]) ensures r[i] == ' ' {
      var j :| 0 <= j < |c| && c[j] == r[i];
    }
  }

  /** `clean` removes and rewrites whitespace only. */
  lemma CleanKeepsText(s: string)
    ensures Squeeze(Clean(s)) == Squeeze(s)
  {
    CollapseKeepsText(Trim(s));
    DropSpaceBeforePunctKeepsText(Collapse(Trim(s)));
  }

  /** The words of a line put back together the way `clean` leaves them:
      one space between words, none in front of a word that begins with
      `, . ! ?`. */
  function Glue(ws: seq<string>): string
    decreases |ws|
  {
    if |ws| == 0 then ""
    else if |ws| == 1 then ws[0]
    else ws[0] + (if ws[1] != [] && IsClosingPunct(ws[1][0]) then "" else " ") + Glue(ws[1..])
  }

  lemma DropSpaceBeforePunctCons(c: char, x: string)
    requires !IsSpace(c)
    ensures DropSpaceBeforePunct([c] + x) == [c] + DropSpaceBeforePunct(x)
  {
    var s := [c] + x;
    assert s[0] == c && s[1..] == x;
  }

  /** Text without whitespace passes through unchanged. */
  lemma {:induction false} DropSpaceBeforePunctWord(w: string, x: string)
    requires NoSpace(w)
    ensures DropSpaceBeforePunct(w + x) == w + DropSpaceBeforePunct(x)
    decreases |w|
  {
    if w == [] {
      assert w + x == x;
    } else {
      var c, u := w[0], w[1..];
      NoSpaceTail(w);
      calc {
        DropSpaceBeforePunct(w + x);
        { assert w + x == [c] + (u + x); }
        DropSpaceBeforePunct([c] + (u + x));
        { DropSpaceBeforePunctCons(c, u + x); }
        [c] + DropSpaceBeforePunct(u + x);
        { DropSpaceBeforePunctWord(u, x); }
        [c] + (u + DropSpaceBeforePunct(x));
        { assert w == [c] + u; }
        w + DropSpaceBeforePunct(x);
      }
    }
  }

  /** One space in front of a word is dropped exactly when the word starts
      with closing punctuation. */
  lemma DropSpaceBeforePunctSpace(rest: string)
    requires rest != [] && !IsSpace(rest[0])
    ensures DropSpaceBeforePunct(" " + rest)
      == (if IsClosingPunct(rest[0]) then "" else " ") + DropSpaceBeforePunct(rest)
  {
    var s := " " + rest;
    assert s[1] == rest[0];
    SpaceRunStopsAt(s, 1);
    assert SpaceRun(s) == 1;
    assert s[..1] == " " && s[1..] == rest && s[2..] == rest[1..];
  }

  /** A word, a space and more text: the space goes exactly when the text
      starts with closing punctuation. */
  lemma DropSpaceBeforePunctGap(w: string, rest: string)
    requires NoSpace(w) && rest != [] && !IsSpace(rest[0])
    ensures DropSpaceBeforePunct(w + (" " + rest))
      == w + (if IsClosingPunct(rest[0]) then "" else " ") + DropSpaceBeforePunct(rest)
  {
    DropSpaceBeforePunctWord(w, " " + rest);
    DropSpaceBeforePunctSpace(rest);
  }

  lemma JoinStep(ws: seq<string>)
    requires |ws| > 1
    ensures JoinWith(ws, " ") == ws[0] + (" " + JoinWith(ws[1..], " "))
  {
  }

  /** Pulling punctuation back onto the words of a space-joined list glues
      them. */
  lemma {:induction false} DropSpaceBeforePunctJoin(ws: seq<string>)
    requires forall i :: 0 <= i < |ws| ==> |ws[i]| > 0 && NoSpace(ws[i])
    ensures DropSpaceBeforePunct(JoinWith(ws, " ")) == Glue(ws)
    decreases |ws|
  {
    if |ws| == 1 {
      assert ws[0] + [] == ws[0];
      DropSpaceBeforePunctWord(ws[0], []);
    } else if |ws| > 1 {
      var tail := ws[1..];
      var rest := JoinWith(tail, " ");
      DropSpaceBeforePunctJoin(tail);
      JoinWithHead(tail, " ");
      assert rest[0] == ws[1][0];
      JoinStep(ws);
      DropSpaceBeforePunctGap(ws[0], rest);
    }
  }

  /** `clean(s)` is the whitespace-separated words of `s` glued back
      together: one space between words, none before `, . ! ?`. */
  lemma CleanIsGlue(s: string)
    ensures Clean(s) == Glue(Words(s))
  {
    CollapseTrimIsJoin(s);
    DropSpaceBeforePunctJoin(Words(s));
  }

  lemma {:induction false} DropSpaceBeforePunctFixesClean(t: string)
    requires SingleSpaced(t) && NoSpaceBeforePunct(t)
    ensures DropSpaceBeforePunct(t) == t
    decreases |t|
  {
    if t != [] {
      if !IsSpace(t[0]) {
        DropSpaceBeforePunctFixesClean(t[1..]);
      } else {
        var n := SpaceRun(t);
        assert n == 1 by {
          if |t| > 1 { SpaceRunStopsAt(t, 1); }
        }
        DropSpaceBeforePunctFixesClean(t[1..]);
        assert t == t[..1] + t[1..];
      }
    }
  }

  /** A clean string is its own `clean`. */
  lemma CleanFixesClean(t: string)
    requires IsClean(t)
    ensures Clean(t) == t
  {
    assert SpaceRun(t) == 0;
    assert TrimStart(t) == t;
    assert TrailSpace(t) == 0;
    assert Trim(t) == t;
    CollapseFixesSingleSpaced(t);
    DropSpaceBeforePunctFixesClean(t);
  }

  /** `clean(clean(s)) == clean(s)`. */
  lemma CleanIdempotent(s: string)
    ensures Clean(Clean(s)) == Clean(s)
  {
    CleanIsClean(s);
    CleanFixesClean(Clean(s));
  }

  /** `clean(s)` is empty exactly when `s` is all whitespace. */
  lemma CleanEmptyIff(s: string)
    ensures Clean(s) == [] <==> AllSpace(s)
  {
    CleanKeepsText(s);
    CleanIsClean(s);
    SqueezeOfAllSpace(s);
    SqueezeOfAllSpace(Clean(s));
    if Clean(s) != [] {
      assert Squeeze(Clean(s)) != [] by {
        assert !IsSpace(Clean(s)[0]);
      }
    }
  }

  predicate IsQuote(c: char) {
    c == '"' || c == '\''
  }

  /** `u.replace(/^["']/, '')`. */
  function DropLeadingQuote(u: string): string {
    if |u| > 0 && IsQuote(u[0]) then u[1..] else u
  }

  /** `sentenceToLine(s)`: the first character of `clean(s)` upper-cased, then
      the rest of it with one quote removed if the rest begins with one. The
      `replace` applies to `t.slice(1)` only, so a quote that opens the line
      stays and a quote in second place goes. */
  function SentenceToLine(s: string): string {
    var t := Clean(s);
    if t == [] then [] else [UpperChar(t[0])] + DropLeadingQuote(t[1..])
  }

  /** A line is itself clean, starts with no lower-case letter, and is empty
      only for an all-whitespace sentence. */
  lemma SentenceToLineIsClean(s: string)
    ensures IsClean(SentenceToLine(s))
    ensures SentenceToLine(s) == [] <==> AllSpace(s)
    ensures SentenceToLine(s) != [] ==> !IsLowerLetter(SentenceToLine(s)[0])
  {
    var t := Clean(s);
    CleanIsClean(s);
    CleanEmptyIff(s);
    if t != [] {
      if |t| > 1 && IsQuote(t[1]) {
        DropSecondKeepsClean(t);
        ReplaceFirstKeepsClean([t[0]] + t[2..], UpperChar(t[0]));
        assert ([t[0]] + t[2..])[1..] == t[2..];
      } else {
        ReplaceFirstKeepsClean(t, UpperChar(t[0]));
      }
    }
  }

  /** Replacing the first character of a clean string by another non-space
      character keeps it clean. */
  lemma ReplaceFirstKeepsClean(t: string, c: char)
    requires IsClean(t) && t != [] && !IsSpace(c)
    ensures IsClean([c] + t[1..])
  {
    var r := [c] + t[1..];
    assert forall i :: 1 <= i < |r| ==> r[i] == t[i];
  }

  /** Removing a non-space second character of a clean string keeps it clean. */
  lemma DropSecondKeepsClean(t: string)
    requires IsClean(t) && |t| > 1 && !IsSpace(t[1])
    ensures IsClean([t[0]] + t[2..])
  {
    var r := [t[0]] + t[2..];
    assert forall i :: 1 <= i < |r| ==> r[i] == t[i + 1];
    forall i | 0 <= i < |r| - 1 ensures !(IsSpace(r[i]) && IsSpace(r[i + 1])) {
      if i > 0 { assert r[i] == t[i + 1] && r[i + 1] == t[i + 2]; }
    }
    forall i | 0 <= i < |r| - 1 && IsSpace(r[i]) ensures !IsClosingPunct(r[i + 1]) {
      assert r[i] == t[i + 1] && r[i + 1] == t[i + 2];
    }
  }

  /** What `sentenceToLine` changes in `clean(s)`: the first character is
      upper-cased, and a quote in second place is dropped. */
  lemma SentenceToLineEdits(s: string)
    requires Clean(s) != []
    ensures SentenceToLine(s)[0] == UpperChar(Clean(s)[0])
    ensures |Clean(s)| > 1 && IsQuote(Clean(s)[1]) ==> SentenceToLine(s)[1..] == Clean(s)[2..]
    ensures |Clean(s)| <= 1 || !IsQuote(Clean(s)[1]) ==> SentenceToLine(s)[1..] == Clean(s)[1..]
  {
  }

  /** A quote that opens the cleaned sentence is not removed. */
  lemma SentenceToLineKeepsOpeningQuote(s: string)
    requires Clean(s) != [] && IsQuote(Clean(s)[0])
    ensures SentenceToLine(s) != [] && SentenceToLine(s)[0] == Clean(s)[0]
  {
  }

  /** Appending two pieces without line breaks gives none. */
  lemma AppendOneLine(a: string, b: string)
    requires '\n' !in a && '\n' !in b
    ensures '\n' !in a + b
  {
  }

  /** A line made from a sentence never holds a line break. */
  lemma SentenceToLineOneLine(s: string)
    ensures '\n' !in SentenceToLine(s)
  {
    SentenceToLineIsClean(s);
    CleanHasNoNewline(SentenceToLine(s));
  }

  /** A clean string has no line break: its only whitespace is `' '`. */
  lemma CleanHasNoNewline(t: string)
    requires IsClean(t)
    ensures '\n' !in t
  {
    forall i | 0 <= i < |t| ensures t[i] != '\n' {
      if t[i] == '\n' { assert IsSpace(t[i]); }
    }
  }

  const Ellipsis: char := '\U{2026}'

  /** The executive-style limit: a line longer than 120 characters is cut to
      its first 117, trimmed, and given an ellipsis. */
  function FitBullet(line: string): (r: string)
    ensures |r| <= 120
    ensures |line| <= 120 ==> r == line
    ensures |line| > 120 ==> 1 <= |r| <= 118 && r[|r| - 1] == Ellipsis
  {
    if |line| > 120 then Trim(line[..117]) + [Ellipsis] else line
  }

  /** A cut line keeps a prefix of the original that ends in a non-space
      character, and only whitespace lies between that prefix and character
      117. */
  lemma FitBulletKeepsPrefix(line: string)
    requires |line| > 120 && !IsSpace(line[0])
    ensures IsPrefix(FitBullet(line)[..|FitBullet(line)| - 1], line)
    ensures |FitBullet(line)| - 1 <= 117
    ensures FitBullet(line)[..|FitBullet(line)| - 1] != []
    ensures !IsSpace(FitBullet(line)[|FitBullet(line)| - 2])
    ensures AllSpace(line[|FitBullet(line)| - 1..117])
  {
    var p := line[..117];
    var a := TrimIsSlice(p);
    var t := Trim(p);
    SpaceRunStopsAt(p, 0);
    assert TrimStart(p) == p;
    assert a == 0;
    assert FitBullet(line)[..|FitBullet(line)| - 1] == t;
    assert t != [] by {
      assert Squeeze(t) == Squeeze(p);
      assert p == [p[0]] + p[1..];
      SqueezeAppend([p[0]], p[1..]);
    }
  }

  /** A cut line gains no line break. */
  lemma FitBulletNoNewline(line: string)
    requires '\n' !in line
    ensures '\n' !in FitBullet(line)
  {
    if |line| > 120 {
      var p := line[..117];
      assert '\n' !in p by {
        assert forall i :: 0 <= i < |p| ==> p[i] == line[i];
      }
      TrimNoNewline(p);
      AppendOneLine(Trim(p), [Ellipsis]);
    }
  }

  /** Trimming adds no line break. */
  lemma TrimNoNewline(p: string)
    requires '\n' !in p
    ensures '\n' !in Trim(p)
  {
    var a := TrimIsSlice(p);
    assert forall i :: 0 <= i < |Trim(p)| ==> Trim(p)[i] == p[a + i];
  }

  /** `s.replace(/\.$/, '')`: one final full stop is removed. */
  function StripFinalPeriod(s: string): (r: string)
    ensures s == r || s == r + "."
    ensures |s| > 0 && s[|s| - 1] == '.' ==> |r| == |s| - 1
  {
    if |s| > 0 && s[|s| - 1] == '.' then s[..|s| - 1] else s
  }

  /** `\b` at position `p`: a word character on exactly one side. */
  predicate Boundary(s: string, p: int)
    requires 0 <= p <= |s|
  {
    (p > 0 && IsWordChar(s[p - 1])) != (p < |s| && IsWordChar(s[p]))
  }

  /** `\bk\b` with the `i` flag matches `s` at position `i`. The keywords are
      lower-case ASCII, for which the case-insensitive comparison is the ASCII
      lower-casing of `s`. */
  predicate WordAt(s: string, i: int, k: string) {
    && 0 <= i && i + |k| <= |s|
    && Boundary(s, i)
    && Lower(s[i..i + |k|]) == k
    && Boundary(s, i + |k|)
  }

  /** Some keyword of `ks` matches at position `i`. */
  predicate AnyWordAt(s: string, i: int, ks: seq<string>)
    decreases |ks|
  {
    ks != [] && (WordAt(s, i, ks[0]) || AnyWordAt(s, i, ks[1..]))
  }

  /** The regular-expression search: try every position from `i` on. */
  predicate HasWordFrom(s: string, ks: seq<string>, i: nat)
    decreases |s| + 1 - i
  {
    i <= |s| && (AnyWordAt(s, i, ks) || HasWordFrom(s, ks, i + 1))
  }

  /** `/\b(k1|k2|...)\b/i.test(s)`. */
  predicate HasWord(s: string, ks: seq<string>) {
    HasWordFrom(s, ks, 0)
  }

  lemma {:induction false} AnyWordAtIff(s: string, i: int, ks: seq<string>)
    ensures AnyWordAt(s, i, ks) <==> exists k :: k in ks && WordAt(s, i, k)
    decreases |ks|
  {
    if ks != [] {
      AnyWordAtIff(s, i, ks[1..]);
      if exists k :: k in ks[1..] && WordAt(s, i, k) {
        var k :| k in ks[1..] && WordAt(s, i, k);
        assert k in ks;
      }
      if exists k :: k in ks && WordAt(s, i, k) {
        var k :| k in ks && WordAt(s, i, k);
        if k != ks[0] {
          var m :| 0 <= m < |ks| && ks[m] == k;
          assert ks[1..][m - 1] == k;
        }
      }
    }
  }

  lemma {:induction false} HasWordFromIff(s: string, ks: seq<string>, i: nat)
    ensures HasWordFrom(s, ks, i) <==> exists j, k :: i <= j <= |s| && k in ks && WordAt(s, j, k)
    decreases |s| + 1 - i
  {
    if i <= |s| {
      AnyWordAtIff(s, i, ks);
      HasWordFromIff(s, ks, i + 1);
      WordFromStep(s, ks, i);
    }
  }

  /** A keyword occurs from `i` on when it occurs at `i` or from `i + 1` on. */
  lemma WordFromStep(s: string, ks: seq<string>, i: nat)
    requires i <= |s|
    ensures (exists j, k :: i <= j <= |s| && k in ks && WordAt(s, j, k)) <==>
      (exists k :: k in ks && WordAt(s, i, k)) || (exists j, k :: i + 1 <= j <= |s| && k in ks && WordAt(s, j, k))
  {
    if exists j, k :: i <= j <= |s| && k in ks && WordAt(s, j, k) {
      var j, k :| i <= j <= |s| && k in ks && WordAt(s, j, k);
      if j > i {
        assert i + 1 <= j <= |s| && k in ks && WordAt(s, j, k);
      }
    }
  }

  /** The search finds a keyword exactly when one occurs as a whole word,
      ignoring ASCII case. */
  lemma HasWordIff(s: string, ks: seq<string>)
    ensures HasWord(s, ks) <==> exists j, k :: 0 <= j <= |s| && k in ks && WordAt(s, j, k)
  {
    HasWordFromIff(s, ks, 0);
  }

  const ReviewWords: seq<string> := ["review", "audit", "check", "inspect", "verify"]
  const ScheduleWords: seq<string> := ["plan", "schedule", "set up", "organize"]
  const AssignWords: seq<string> := ["assign", "delegate", "appoint"]

  /** The step rules in the order they are tried: keywords and the prefix of
      the step they produce. The last rule has no keywords and always applies. */
  const StepRules: seq<(seq<string>, string)> := [
    (ReviewWords, "- Review and confirm: "),
    (ScheduleWords, "- Schedule a follow-up to: "),
    (AssignWords, "- Assign ownership for: ")
  ]

  const FallbackPrefix: string := "- Consider: "

  /** The step written for a sentence whose line, without its final full stop,
      is `short`. */
  function StepLine(short: string): string {
    if HasWord(short, ReviewWords) then "- Review and confirm: " + short + "."
    else if HasWord(short, ScheduleWords) then "- Schedule a follow-up to: " + short + "."
    else if HasWord(short, AssignWords) then "- Assign ownership for: " + short + "."
    else "- Consider: " + short + "."
  }

  /** The first rule whose keywords match `short`, as an index into
      `StepRules`, or `|StepRules|` when none does. */
  function FirstRule(short: string, from: nat): (r: nat)
    requires from <= |StepRules|
    ensures from <= r <= |StepRules|
    ensures r < |StepRules| ==> HasWord(short, StepRules[r].0)
    ensures forall m :: from <= m < r ==> !HasWord(short, StepRules[m].0)
    decreases |StepRules| - from
  {
    if from == |StepRules| then from
    else if HasWord(short, StepRules[from].0) then from
    else FirstRule(short, from + 1)
  }

  /** A step is the prefix of the first rule that matches, else "Consider",
      followed by the line and a full stop. */
  lemma StepLineFirstMatch(short: string)
    ensures var r := FirstRule(short, 0);
      StepLine(short) == (if r < |StepRules| then StepRules[r].1 else FallbackPrefix) + short + "."
  {
  }

  predicate IsAnyStepPrefix(p: string) {
    p == FallbackPrefix || exists m :: 0 <= m < |StepRules| && StepRules[m].1 == p
  }

  /** `line.replace(/\.$/, '')` then the step rules. */
  function StepFor(line: string): string {
    StepLine(StripFinalPeriod(line))
  }

  /** A step is one of the four prefixes, then the line, ending in exactly the
      full stop the line had or one added. */
  lemma StepForShape(line: string)
    ensures exists p :: IsAnyStepPrefix(p) && StepFor(line) == p + StripFinalPeriod(line) + "."
  {
    var short := StripFinalPeriod(line);
    StepLineFirstMatch(short);
    var r := FirstRule(short, 0);
    if r < |StepRules| {
      assert IsAnyStepPrefix(StepRules[r].1);
    } else {
      assert IsAnyStepPrefix(FallbackPrefix);
    }
  }

  /** The action keywords, matched as plain substrings of the lower-cased
      sentence. */
  const ActionKeywords: seq<string> := [
    "should", "will", "need", "plan", "recommend", "follow", "action",
    "next", "implement", "assign", "review", "consider", "start"
  ]

  /** `actionKeywords.some(k => s.toLowerCase().includes(k))`. */
  predicate IsActionSentence(s: string) {
    exists k :: k in ActionKeywords && Contains(Lower(s), k)
  }

  /** `Array.from(new Set(xs))`: the first occurrence of each value, in order. */
  function Dedup(xs: seq<string>): (r: seq<string>)
    ensures NoDuplicates(r)
    ensures forall x :: x in r <==> x in xs
    ensures |r| <= |xs|
    decreases |xs|
  {
    if xs == [] then []
    else
      var d := Dedup(xs[..|xs| - 1]);
      var x := xs[|xs| - 1];
      assert xs == xs[..|xs| - 1] + [x];
      if x in d then d else d + [x]
  }

  /** `Dedup` keeps every value once, in the order of its first position. */
  lemma {:induction false} DedupFirstOccurrences(xs: seq<string>)
    ensures FirstOccurrences(xs, Dedup(xs))
    decreases |xs|
  {
    if xs != [] {
      var init, x := xs[..|xs| - 1], xs[|xs| - 1];
      DedupFirstOccurrences(init);
      assert xs == init + [x];
      DedupSnoc(init, x, Dedup(init));
    }
  }

  /** Appending one value to a list extends its first-occurrence list by that
      value exactly when the value is new. */
  lemma DedupSnoc(init: seq<string>, x: string, d: seq<string>)
    requires FirstOccurrences(init, d)
    ensures FirstOccurrences(init + [x], if x in d then d else d + [x])
  {
    FirstIndexSnoc(init, x);
    if x !in d {
      SnocByFirstIndex(init + [x], d, x);
    }
  }

  /** A list ordered by first position stays ordered when a value whose first
      position is later than all of its members is appended. */
  lemma SnocByFirstIndex(xs: seq<string>, d: seq<string>, x: string)
    requires ByFirstIndex(xs, d)
    requires forall y :: y in d ==> FirstIndex(xs, y) < FirstIndex(xs, x)
    ensures ByFirstIndex(xs, d + [x])
  {
    var e := d + [x];
    forall i, j | 0 <= i < j < |e| ensures FirstIndex(xs, e[i]) < FirstIndex(xs, e[j]) {
      assert e[i] == d[i];
      if j < |d| {
        assert e[j] == d[j];
      }
    }
  }

  /** `Dedup` is the only list of first occurrences. */
  lemma DedupUnique(xs: seq<string>, r: seq<string>)
    requires FirstOccurrences(xs, r)
    ensures r == Dedup(xs)
  {
    DedupFirstOccurrences(xs);
    FirstOccurrencesUnique(xs, r, Dedup(xs));
  }

  /** A list without repeats is its own `new Set`. */
  lemma {:induction false} DedupFixesDistinct(xs: seq<string>)
    requires NoDuplicates(xs)
    ensures Dedup(xs) == xs
    decreases |xs|
  {
    if xs != [] {
      var init := xs[..|xs| - 1];
      assert NoDuplicates(init);
      DedupFixesDistinct(init);
      assert xs[|xs| - 1] !in init;
      assert xs == init + [xs[|xs| - 1]];
    }
  }

  /** The first element is always kept first. */
  lemma {:induction false} DedupKeepsFirst(xs: seq<string>)
    requires xs != []
    ensures Dedup(xs) != [] && Dedup(xs)[0] == xs[0]
    decreases |xs|
  {
    if |xs| > 1 {
      DedupKeepsFirst(xs[..|xs| - 1]);
    }
  }
}
