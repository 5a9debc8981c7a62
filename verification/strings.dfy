/** String operations shared by the sentence splitter, the tokeniser and the
    formatters: whitespace runs, `trim`, whitespace collapsing, `join` and
    `split` on a single character, and substring search. */
module Strings {
  import opened Chars

  /** True when every character of `s` is whitespace (also for the empty string). */
  predicate AllSpace(s: string) {
    forall i :: 0 <= i < |s| ==> IsSpace(s[i])
  }

  /** True when no character of `s` is whitespace. */
  predicate NoSpace(s: string) {
    forall i :: 0 <= i < |s| ==> !IsSpace(s[i])
  }

  /** The non-whitespace characters of `s`, in order. Every transformation of the
      summariser that only moves, merges or drops whitespace keeps this value. */
  function Squeeze(s: string): string
    decreases |s|
  {
    if s == [] then [] else (if IsSpace(s[0]) then [] else [s[0]]) + Squeeze(s[1..])
  }

  /** The non-whitespace characters of a list of strings, concatenated. */
  function SqueezeAll(ss: seq<string>): string
    decreases |ss|
  {
    if ss == [] then [] else Squeeze(ss[0]) + SqueezeAll(ss[1..])
  }

  /** The concatenation of a list of strings. */
  function Concat(ss: seq<string>): string
    decreases |ss|
  {
    if ss == [] then [] else ss[0] + Concat(ss[1..])
  }

  lemma {:induction false} SqueezeAppend(a: string, b: string)
    ensures Squeeze(a + b) == Squeeze(a) + Squeeze(b)
    decreases |a|
  {
    if a == [] {
      assert a + b == b;
    } else {
      assert (a + b)[0] == a[0];
      assert (a + b)[1..] == a[1..] + b;
      SqueezeAppend(a[1..], b);
    }
  }

  lemma {:induction false} SqueezeAllAppend(xs: seq<string>, ys: seq<string>)
    ensures SqueezeAll(xs + ys) == SqueezeAll(xs) + SqueezeAll(ys)
    decreases |xs|
  {
    if xs == [] {
      assert xs + ys == ys;
    } else {
      assert (xs + ys)[1..] == xs[1..] + ys;
      SqueezeAllAppend(xs[1..], ys);
    }
  }

  lemma {:induction false} SqueezeOfAllSpace(s: string)
    ensures Squeeze(s) == [] <==> AllSpace(s)
    decreases |s|
  {
    if s != [] {
      SqueezeOfAllSpace(s[1..]);
      if AllSpace(s[1..]) && IsSpace(s[0]) {
        forall i | 0 <= i < |s| ensures IsSpace(s[i]) {
          if i > 0 { assert s[i] == s[1..][i - 1]; }
        }
      }
    }
  }

  lemma {:induction false} SqueezeOfNoSpace(s: string)
    requires NoSpace(s)
    ensures Squeeze(s) == s
    decreases |s|
  {
    if s != [] {
      SqueezeOfNoSpace(s[1..]);
    }
  }

  /** A whitespace-free string starts with a non-whitespace character and
      its rest is whitespace-free. */
  lemma NoSpaceTail(w: string)
    requires w != [] && NoSpace(w)
    ensures !IsSpace(w[0]) && NoSpace(w[1..])
  {
    var u := w[1..];
    forall i | 0 <= i < |u| ensures !IsSpace(u[i]) {
      assert u[i] == w[i + 1];
    }
  }

  /** The length of the longest whitespace prefix of `s`: what a greedy `\s+`
      (or `\s*`) consumes when it starts at the front of `s`. */
  function SpaceRun(s: string): (n: nat)
    ensures n <= |s|
    ensures AllSpace(s[..n])
    ensures n < |s| ==> !IsSpace(s[n])
    decreases |s|
  {
    if s != [] && IsSpace(s[0]) then 1 + SpaceRun(s[1..]) else 0
  }

  lemma {:induction false} SpaceRunStopsAt(s: string, k: nat)
    requires k < |s| && !IsSpace(s[k])
    ensures SpaceRun(s) <= k
    decreases |s|
  {
    if IsSpace(s[0]) {
      SpaceRunStopsAt(s[1..], k - 1);
    }
  }

  /** The length of the longest whitespace-free prefix of `s`. */
  function WordRun(s: string): (n: nat)
    ensures n <= |s|
    ensures NoSpace(s[..n])
    ensures n < |s| ==> IsSpace(s[n])
    decreases |s|
  {
    if s != [] && !IsSpace(s[0]) then 1 + WordRun(s[1..]) else 0
  }

  /** The length of the longest whitespace suffix of `s`. */
  function TrailSpace(s: string): (n: nat)
    ensures n <= |s|
    ensures forall i :: |s| - n <= i < |s| ==> IsSpace(s[i])
    ensures n < |s| ==> !IsSpace(s[|s| - n - 1])
    decreases |s|
  {
    if s != [] && IsSpace(s[|s| - 1]) then 1 + TrailSpace(s[..|s| - 1]) else 0
  }

  /** `s.replace(/^\s+/, '')`: drops the leading whitespace run. */
  function TrimStart(s: string): (r: string)
    ensures r == [] || !IsSpace(r[0])
    ensures |r| <= |s| && r == s[|s| - |r|..] && AllSpace(s[..|s| - |r|])
    ensures Squeeze(r) == Squeeze(s)
  {
    var a := SpaceRun(s);
    assert s == s[..a] + s[a..];
    SqueezeAppend(s[..a], s[a..]);
    SqueezeOfAllSpace(s[..a]);
    s[a..]
  }

  /** `s.replace(/\s+$/, '')`: drops the trailing whitespace run. */
  function TrimEnd(s: string): (r: string)
    ensures r == [] || !IsSpace(r[|r| - 1])
    ensures |r| <= |s| && r == s[..|r|] && AllSpace(s[|r|..])
    ensures Squeeze(r) == Squeeze(s)
  {
    var b := |s| - TrailSpace(s);
    assert s == s[..b] + s[b..];
    SqueezeAppend(s[..b], s[b..]);
    SqueezeOfAllSpace(s[b..]);
    s[..b]
  }

  /** `String.prototype.trim`: the slice of `s` left once the whitespace at
      both ends is removed. */
  function Trim(s: string): (r: string)
    ensures r == [] || (!IsSpace(r[0]) && !IsSpace(r[|r| - 1]))
    ensures Squeeze(r) == Squeeze(s)
  {
    TrimEnd(TrimStart(s))
  }

  /** `Trim` returns a slice of its argument with only whitespace around it. */
  lemma TrimIsSlice(s: string) returns (a: nat)
    ensures a + |Trim(s)| <= |s| && Trim(s) == s[a..a + |Trim(s)|]
    ensures AllSpace(s[..a]) && AllSpace(s[a + |Trim(s)|..])
  {
    var t := TrimStart(s);
    a := |s| - |t|;
    var r := TrimEnd(t);
    assert r == s[a..a + |r|];
    assert s[a + |r|..] == t[|r|..];
  }

  /** `s.replace(/\s+/g, ' ')`: every maximal whitespace run becomes one space. */
  function Collapse(s: string): (r: string)
    ensures forall i :: 0 <= i < |r| && IsSpace(r[i]) ==> r[i] == ' '
    ensures forall i :: 0 <= i < |r| - 1 ==> !(IsSpace(r[i]) && IsSpace(r[i + 1]))
    ensures |r| == 0 <==> |s| == 0
    ensures |r| > 0 ==> (IsSpace(r[0]) <==> IsSpace(s[0]))
    ensures |r| > 0 ==> (IsSpace(r[|r| - 1]) <==> IsSpace(s[|s| - 1]))
    decreases |s|
  {
    if s == [] then []
    else if IsSpace(s[0]) then [' '] + Collapse(s[SpaceRun(s)..])
    else [s[0]] + Collapse(s[1..])
  }

  /** Collapsing whitespace keeps every other character, in order. */
  lemma {:induction false} CollapseKeepsText(s: string)
    ensures Squeeze(Collapse(s)) == Squeeze(s)
    decreases |s|
  {
    if s != [] {
      if IsSpace(s[0]) {
        var n := SpaceRun(s);
        assert s == s[..n] + s[n..];
        SqueezeAppend(s[..n], s[n..]);
        SqueezeOfAllSpace(s[..n]);
        CollapseKeepsText(s[n..]);
        SqueezeAppend([' '], Collapse(s[n..]));
      } else {
        CollapseKeepsText(s[1..]);
        SqueezeAppend([s[0]], Collapse(s[1..]));
      }
    }
  }

  /** A string already in collapsed form is left unchanged by `Collapse`. */
  lemma {:induction false} CollapseFixesSingleSpaced(s: string)
    requires forall i :: 0 <= i < |s| && IsSpace(s[i]) ==> s[i] == ' '
    requires forall i :: 0 <= i < |s| - 1 ==> !(IsSpace(s[i]) && IsSpace(s[i + 1]))
    ensures Collapse(s) == s
    decreases |s|
  {
    if s != [] {
      var t := s[1..];
      assert forall i :: 0 <= i < |t| ==> t[i] == s[i + 1];
      CollapseFixesSingleSpaced(t);
      assert s == [s[0]] + t;
      if IsSpace(s[0]) {
        assert SpaceRun(s) == 1 by {
          if |s| > 1 { assert !IsSpace(s[1]); }
        }
        assert Collapse(s) == [' '] + Collapse(t);
      } else {
        assert Collapse(s) == [s[0]] + Collapse(t);
      }
    }
  }

  /** ASCII `toLowerCase`. */
  function Lower(s: string): (r: string)
    ensures |r| == |s|
    ensures forall i :: 0 <= i < |s| ==> r[i] == LowerChar(s[i])
  {
    seq(|s|, i requires 0 <= i < |s| => LowerChar(s[i]))
  }

  /** `xs.join(sep)`. */
  function JoinWith(xs: seq<string>, sep: string): string
    decreases |xs|
  {
    if |xs| == 0 then ""
    else if |xs| == 1 then xs[0]
    else xs[0] + sep + JoinWith(xs[1..], sep)
  }

  /** A join begins with its first piece. */
  lemma JoinWithHead(xs: seq<string>, sep: string)
    requires |xs| > 0
    ensures IsPrefix(xs[0], JoinWith(xs, sep))
  {
  }

  /** The position of the first `c` in `s` (`indexOf`). */
  function IndexOf(s: string, c: char): (i: nat)
    requires c in s
    ensures i < |s| && s[i] == c && c !in s[..i]
    decreases |s|
  {
    if s[0] == c then 0
    else
      assert c in s[1..] by {
        var k :| 0 <= k < |s| && s[k] == c;
        assert s[1..][k - 1] == c;
      }
      var j := IndexOf(s[1..], c);
      assert s[..j + 1] == [s[0]] + s[1..][..j];
      1 + j
  }

  /** `s.split(c)` for a one-character separator. */
  function SplitOn(s: string, c: char): (r: seq<string>)
    ensures |r| >= 1
    decreases |s|
  {
    if c in s then
      var i := IndexOf(s, c);
      [s[..i]] + SplitOn(s[i + 1..], c)
    else [s]
  }

  /** Splitting a join on its separator gives back the pieces, when no piece
      contains the separator. */
  lemma {:induction false} SplitOnJoin(xs: seq<string>, c: char)
    requires |xs| >= 1
    requires forall i :: 0 <= i < |xs| ==> c !in xs[i]
    ensures SplitOn(JoinWith(xs, [c]), c) == xs
    decreases |xs|
  {
    if |xs| > 1 {
      var rest := JoinWith(xs[1..], [c]);
      var s := xs[0] + [c] + rest;
      IndexOfAfter(xs[0], c, rest);
      assert s[..|xs[0]|] == xs[0];
      assert s[|xs[0]| + 1..] == rest;
      SplitOnJoin(xs[1..], c);
    }
  }

  /** The first `c` of `a + [c] + b` is the one after `a` when `a` has none. */
  lemma IndexOfAfter(a: string, c: char, b: string)
    requires c !in a
    ensures c in a + [c] + b && IndexOf(a + [c] + b, c) == |a|
  {
    var s := a + [c] + b;
    assert s[|a|] == c;
    assert forall k :: 0 <= k < |a| ==> s[k] == a[k];
  }

  /** `JoinWith` never inserts a character that is neither in a piece nor in the separator. */
  lemma {:induction false} JoinWithAvoids(xs: seq<string>, c: char, sep: string)
    requires forall i :: 0 <= i < |xs| ==> c !in xs[i]
    requires c !in sep
    ensures c !in JoinWith(xs, sep)
    decreases |xs|
  {
    if |xs| > 1 {
      JoinWithAvoids(xs[1..], c, sep);
    }
  }

  /** `xs.indexOf(t)`: the first position of `t`, or -1. */
  function FirstIndex(xs: seq<string>, t: string): (r: int)
    ensures -1 <= r < |xs|
    ensures r == -1 <==> t !in xs
    ensures r >= 0 ==> xs[r] == t && forall j :: 0 <= j < r ==> xs[j] != t
    decreases |xs|
  {
    if xs == [] then -1
    else if xs[0] == t then 0
    else
      var k := FirstIndex(xs[1..], t);
      if k == -1 then -1 else k + 1
  }

  /** A value met in the first `n` entries has its first position there. */
  lemma FirstIndexInPrefix(xs: seq<string>, n: nat, t: string)
    requires n <= |xs| && t in xs[..n]
    ensures FirstIndex(xs, t) == FirstIndex(xs[..n], t)
  {
    var q := FirstIndex(xs[..n], t);
    assert xs[q] == t;
  }

  /** Appending a value leaves the first positions of the old values alone
      and puts a new value last. */
  lemma FirstIndexSnoc(init: seq<string>, x: string)
    ensures forall y :: y in init ==> FirstIndex(init + [x], y) == FirstIndex(init, y)
    ensures x !in init ==> FirstIndex(init + [x], x) == |init|
  {
    var xs := init + [x];
    assert xs[..|init|] == init;
    forall y | y in init ensures FirstIndex(xs, y) == FirstIndex(init, y) {
      FirstIndexInPrefix(xs, |init|, y);
    }
    assert xs[|init|] == x;
  }

  /** `r` is `Array.from(new Set(xs))`: every value of `xs` once, in the order
      of its first position in `xs`. */
  predicate FirstOccurrences(xs: seq<string>, r: seq<string>) {
    && NoDuplicates(r)
    && (forall x :: x in r ==> x in xs)
    && (forall x :: x in xs ==> x in r)
    && ByFirstIndex(xs, r)
  }

  /** Strictly ordered by first position in `xs`. */
  predicate ByFirstIndex(xs: seq<string>, a: seq<string>) {
    forall i, j :: 0 <= i < j < |a| ==> FirstIndex(xs, a[i]) < FirstIndex(xs, a[j])
  }

  /** In a list ordered by first position, the head comes no later in `xs`
      than any other member. */
  lemma HeadFirst(xs: seq<string>, a: seq<string>, t: string)
    requires t in a && ByFirstIndex(xs, a)
    ensures FirstIndex(xs, a[0]) <= FirstIndex(xs, t)
  {
    var m :| 0 <= m < |a| && a[m] == t;
    if m > 0 {
      assert FirstIndex(xs, a[0]) < FirstIndex(xs, a[m]);
    }
  }

  /** Two non-empty lists with the same members drawn from `xs`, both ordered
      by first position, start with the same value. */
  lemma SameHead(xs: seq<string>, a: seq<string>, b: seq<string>)
    requires a != [] && b != []
    requires forall x :: x in a <==> x in b
    requires forall x :: x in a ==> x in xs
    requires ByFirstIndex(xs, a) && ByFirstIndex(xs, b)
    ensures a[0] == b[0]
  {
    HeadFirst(xs, a, b[0]);
    HeadFirst(xs, b, a[0]);
    assert a[0] == xs[FirstIndex(xs, a[0])];
  }

  /** Dropping the head of a list ordered by first position drops the only
      copy of that value and keeps the order. */
  lemma TailByFirstIndex(xs: seq<string>, a: seq<string>)
    requires a != [] && ByFirstIndex(xs, a)
    ensures ByFirstIndex(xs, a[1..])
    ensures forall x :: x in a[1..] <==> x in a && x != a[0]
  {
    var t := a[1..];
    forall i, j | 0 <= i < j < |t| ensures FirstIndex(xs, t[i]) < FirstIndex(xs, t[j]) {
      assert t[i] == a[i + 1] && t[j] == a[j + 1];
    }
    forall x ensures x in t <==> x in a && x != a[0] {
      if x in t {
        var i :| 0 <= i < |t| && t[i] == x;
        assert FirstIndex(xs, a[0]) < FirstIndex(xs, a[i + 1]);
      }
      if x in a && x != a[0] {
        var i :| 0 <= i < |a| && a[i] == x;
        assert t[i - 1] == x;
      }
    }
  }

  /** Lists with the same members are empty together. */
  lemma SameMembersBothEmpty(a: seq<string>, b: seq<string>)
    requires forall x :: x in a <==> x in b
    ensures a == [] <==> b == []
  {
    if a != [] { assert a[0] in b; }
    if b != [] { assert b[0] in a; }
  }

  /** Two lists with the same members, both strictly ordered by first
      position in `xs`, are equal. */
  lemma {:induction false} OrderedByFirstIndexUnique(xs: seq<string>, a: seq<string>, b: seq<string>)
    requires forall x :: x in a <==> x in b
    requires forall x :: x in a ==> x in xs
    requires ByFirstIndex(xs, a) && ByFirstIndex(xs, b)
    ensures a == b
    decreases |a|
  {
    SameMembersBothEmpty(a, b);
    if a != [] {
      SameHead(xs, a, b);
      TailByFirstIndex(xs, a);
      TailByFirstIndex(xs, b);
      OrderedByFirstIndexUnique(xs, a[1..], b[1..]);
      assert a == [a[0]] + a[1..];
      assert b == [b[0]] + b[1..];
    }
  }

  /** `FirstOccurrences(xs, _)` holds of exactly one list. */
  lemma FirstOccurrencesUnique(xs: seq<string>, a: seq<string>, b: seq<string>)
    requires FirstOccurrences(xs, a) && FirstOccurrences(xs, b)
    ensures a == b
  {
    OrderedByFirstIndexUnique(xs, a, b);
  }

  /** No value occurs twice. */
  predicate NoDuplicates<T(==)>(xs: seq<T>) {
    forall i, j :: 0 <= i < j < |xs| ==> xs[i] != xs[j]
  }

  predicate IsPrefix(k: string, s: string) {
    |k| <= |s| && s[..|k|] == k
  }

  /** `s.includes(k)`. */
  predicate Contains(s: string, k: string)
    decreases |s|
  {
    IsPrefix(k, s) || (s != [] && Contains(s[1..], k))
  }
}
