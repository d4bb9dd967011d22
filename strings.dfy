/**
 * The Python string primitives the summariser and the web layer rely on:
 * str.isspace, strip and its variants, an ASCII lower(), str.join,
 * str.split() and str.split('\n'), find/rfind, replace(x, '') and slicing.
 */
module Strings {

  /** Python's str.isspace(); the regex class `\s` and the argument-less
      strip() and split() use the same set of characters. */
  predicate IsSpace(c: char) {
    || c == ' '
    || '\U{9}' <= c <= '\U{D}'
    || '\U{1C}' <= c <= '\U{1F}'
    || c == '\U{85}' || c == '\U{A0}' || c == '\U{1680}'
    || '\U{2000}' <= c <= '\U{200A}'
    || c == '\U{2028}' || c == '\U{2029}' || c == '\U{202F}' || c == '\U{205F}' || c == '\U{3000}'
  }

  predicate IsNonSpace(c: char) { !IsSpace(c) }

  predicate IsNotNewline(c: char) { c != '\n' }

  /** How many characters s.lstrip(chars) removes, where `drop` says which
      characters are in `chars`. */
  function LeadingDropped(s: string, drop: char -> bool): (n: nat)
    ensures n <= |s|
    ensures forall i :: 0 <= i < n ==> drop(s[i])
    ensures n < |s| ==> !drop(s[n])
  {
    if s != [] && drop(s[0]) then
      var n := LeadingDropped(s[1..], drop);
      assert forall i :: 1 <= i < |s| ==> s[i] == s[1..][i - 1];
      1 + n
    else 0
  }

  /** s.rstrip(chars). */
  function TrimEnd(s: string, drop: char -> bool): (r: string)
    ensures |r| <= |s| && r == s[..|r|]
    ensures r != [] ==> !drop(r[|r| - 1])
    ensures forall i :: |r| <= i < |s| ==> drop(s[i])
  {
    if s != [] && drop(s[|s| - 1]) then
      var r := TrimEnd(s[..|s| - 1], drop);
      assert forall i :: 0 <= i < |s| - 1 ==> s[i] == s[..|s| - 1][i];
      r
    else s
  }

  /**
   * s.strip(chars): drop characters in `chars` from the front, then from
   * the back. What is left is the slice of `s` that starts after the
   * leading run of dropped characters and keeps neither end.
   */
  function StripBy(s: string, drop: char -> bool): (r: string)
    ensures var k := LeadingDropped(s, drop); k + |r| <= |s| && r == s[k..k + |r|]
    ensures r != [] ==> !drop(r[0]) && !drop(r[|r| - 1])
    decreases |s|
  {
    if s != [] && drop(s[0]) then
      var r := StripBy(s[1..], drop);
      StripFront(s, drop, r);
      r
    else if s != [] && drop(s[|s| - 1]) then
      var r := StripBy(s[..|s| - 1], drop);
      StripBack(s, drop, r);
      r
    else s
  }

  /** The slice kept of s[1..], when s[0] is dropped, is the one kept of `s`. */
  lemma StripFront(s: string, drop: char -> bool, r: string)
    requires s != [] && drop(s[0])
    requires var k := LeadingDropped(s[1..], drop); k + |r| <= |s| - 1 && r == s[1..][k..k + |r|]
    ensures var k := LeadingDropped(s, drop); k + |r| <= |s| && r == s[k..k + |r|]
  {
    var k := LeadingDropped(s[1..], drop);
    assert LeadingDropped(s, drop) == k + 1;
    assert r == s[k + 1..k + 1 + |r|];
  }

  /** When s[0] is kept, a prefix of s[..|s| - 1] kept from its start is a prefix of `s`. */
  lemma StripBack(s: string, drop: char -> bool, r: string)
    requires s != [] && !drop(s[0])
    requires var k := LeadingDropped(s[..|s| - 1], drop); k + |r| <= |s| - 1 && r == s[..|s| - 1][k..k + |r|]
    ensures var k := LeadingDropped(s, drop); k + |r| <= |s| && r == s[k..k + |r|]
  {
    assert s[..|s| - 1] != [] ==> s[..|s| - 1][0] == s[0];
    assert LeadingDropped(s[..|s| - 1], drop) == 0;
    assert r == s[..|r|];
  }

  /** Everything StripBy drops is in `chars`: the characters before the
      slice it keeps and the characters after it. */
  lemma {:induction false} StripByDropsOnlyEnds(s: string, drop: char -> bool)
    ensures var r := StripBy(s, drop); var k := LeadingDropped(s, drop);
      forall i :: 0 <= i < |s| && !(k <= i < k + |r|) ==> drop(s[i])
    decreases |s|
  {
    if s != [] && drop(s[0]) {
      StripByDropsOnlyEnds(s[1..], drop);
      assert forall i :: 1 <= i < |s| ==> s[i] == s[1..][i - 1];
    } else if s != [] && drop(s[|s| - 1]) {
      StripByDropsOnlyEnds(s[..|s| - 1], drop);
      assert forall i :: 0 <= i < |s| - 1 ==> s[i] == s[..|s| - 1][i];
    }
  }

  /** s.strip() with no argument. */
  function Strip(s: string): (r: string)
    ensures |r| <= |s| && IsTrimmed(r)
  {
    StripBy(s, IsSpace)
  }

  /** strip() gives "" exactly for a text made only of whitespace. */
  lemma StripBlank(s: string)
    ensures Strip(s) == [] <==> forall i :: 0 <= i < |s| ==> IsSpace(s[i])
  {
    StripByDropsOnlyEnds(s, IsSpace);
    var k := LeadingDropped(s, IsSpace);
    if Strip(s) != [] {
      assert Strip(s)[0] == s[k];
    }
  }

  /** The characters of `s` outside the class `drop`, in order: what is left
      of a text when every character of the class is ignored. */
  function Without(s: string, drop: char -> bool): (r: string)
    ensures |r| <= |s|
    ensures forall x :: x in r <==> x in s && !drop(x)
  {
    if s == [] then [] else (if drop(s[0]) then [] else [s[0]]) + Without(s[1..], drop)
  }

  lemma {:induction false} WithoutConcat(x: string, y: string, drop: char -> bool)
    ensures Without(x + y, drop) == Without(x, drop) + Without(y, drop)
  {
    if x != [] {
      WithoutConcat(x[1..], y, drop);
      WithoutConcatStep(x, y, drop);
    } else {
      assert x + y == y;
    }
  }

  /** One step of WithoutConcat: the first character of `x` is dropped or kept in front. */
  lemma WithoutConcatStep(x: string, y: string, drop: char -> bool)
    requires x != []
    requires Without(x[1..] + y, drop) == Without(x[1..], drop) + Without(y, drop)
    ensures Without(x + y, drop) == Without(x, drop) + Without(y, drop)
  {
    HeadTail(x, y);
    var h := if drop(x[0]) then [] else [x[0]];
    var a, b := Without(x[1..], drop), Without(y, drop);
    assert Without(x + y, drop) == h + (a + b);
    assert Without(x, drop) == h + a;
    ConcatAssoc(h, a, b);
  }

  lemma ConcatAssoc(a: string, b: string, c: string)
    ensures a + (b + c) == (a + b) + c
  {
  }

  lemma {:induction false} WithoutDropped(s: string, drop: char -> bool)
    requires forall i :: 0 <= i < |s| ==> drop(s[i])
    ensures Without(s, drop) == []
  {
    if s != [] {
      assert forall i :: 0 <= i < |s| - 1 ==> s[1..][i] == s[i + 1];
      WithoutDropped(s[1..], drop);
    }
  }

  /** Ignoring a class after ignoring a smaller one is ignoring the larger one. */
  lemma {:induction false} WithoutWithout(s: string, inner: char -> bool, outer: char -> bool)
    requires forall c :: inner(c) ==> outer(c)
    ensures Without(Without(s, inner), outer) == Without(s, outer)
  {
    if s != [] {
      WithoutWithout(s[1..], inner, outer);
      var h := if inner(s[0]) then [] else [s[0]];
      WithoutConcat(h, Without(s[1..], inner), outer);
      assert [s[0]][1..] == [];
    }
  }

  /** strip(chars) removes nothing but characters of `chars`: ignoring a
      class that holds them, the text is unchanged. */
  lemma {:induction false} StripByWithout(s: string, drop: char -> bool, outer: char -> bool)
    requires forall c :: drop(c) ==> outer(c)
    ensures Without(StripBy(s, drop), outer) == Without(s, outer)
    decreases |s|
  {
    if s != [] && drop(s[0]) {
      assert StripBy(s, drop) == StripBy(s[1..], drop);
      StripByWithout(s[1..], drop, outer);
    } else if s != [] && drop(s[|s| - 1]) {
      assert StripBy(s, drop) == StripBy(s[..|s| - 1], drop);
      StripByWithout(s[..|s| - 1], drop, outer);
      WithoutDropLast(s, outer);
    }
  }

  /** A last character of the class adds nothing to Without. */
  lemma WithoutDropLast(s: string, drop: char -> bool)
    requires s != [] && drop(s[|s| - 1])
    ensures Without(s, drop) == Without(s[..|s| - 1], drop)
  {
    var front, last := s[..|s| - 1], [s[|s| - 1]];
    assert s == front + last;
    WithoutConcat(front, last, drop);
    assert Without(last, drop) == [] by {
      assert last[1..] == [];
    }
    assert Without(front, drop) + [] == Without(front, drop);
  }

  lemma StripByFixed(s: string, drop: char -> bool)
    requires s != [] ==> !drop(s[0]) && !drop(s[|s| - 1])
    ensures StripBy(s, drop) == s
  {
  }

  /** Python's lower() on the ASCII letters. */
  function LowerChar(c: char): (r: char)
    ensures !('A' <= r <= 'Z')
    ensures !('A' <= c <= 'Z') ==> r == c
    ensures 'A' <= c <= 'Z' ==> 'a' <= r <= 'z'
  {
    if 'A' <= c <= 'Z' then (c as int + 32) as char else c
  }

  function Lower(s: string): (r: string)
    ensures |r| == |s|
    ensures forall i :: 0 <= i < |s| ==> r[i] == LowerChar(s[i])
  {
    if s == [] then [] else [LowerChar(s[0])] + Lower(s[1..])
  }

  /** sep.join(parts). */
  function Join(sep: string, parts: seq<string>): (r: string)
    ensures parts == [] ==> r == ""
    ensures parts != [] ==> parts[0] <= r
  {
    if |parts| == 0 then ""
    else if |parts| == 1 then parts[0]
    else parts[0] + sep + Join(sep, parts[1..])
  }

  /** Joining a first part to a non-empty rest puts one separator between them. */
  lemma JoinCons(sep: string, head: string, tail: seq<string>)
    requires tail != []
    ensures Join(sep, [head] + tail) == head + sep + Join(sep, tail)
  {
    assert ([head] + tail)[1..] == tail;
  }

  lemma JoinAppend(sep: string, parts: seq<string>, last: string)
    requires parts != []
    ensures Join(sep, parts + [last]) == Join(sep, parts) + sep + last
  {
    if |parts| == 1 {
      assert parts + [last] == [parts[0], last];
    } else {
      assert (parts + [last])[1..] == parts[1..] + [last];
      JoinAppend(sep, parts[1..], last);
    }
  }

  /** Joining two non-empty lists is joining each and putting `sep` between. */
  lemma {:induction false} JoinConcat(sep: string, a: seq<string>, b: seq<string>)
    requires a != [] && b != []
    ensures Join(sep, a + b) == Join(sep, a) + sep + Join(sep, b)
    decreases |b|
  {
    var init, last := b[..|b| - 1], b[|b| - 1];
    assert b == init + [last];
    if init == [] {
      JoinAppend(sep, a, last);
    } else {
      assert a + b == (a + init) + [last];
      JoinAppend(sep, a + init, last);
      JoinConcat(sep, a, init);
      JoinAppend(sep, init, last);
    }
  }

  /** The length of the longest prefix of `s` whose characters all satisfy `p`. */
  function RunLength(s: string, p: char -> bool): (n: nat)
    ensures n <= |s| && (n < |s| ==> !p(s[n]))
    ensures forall i :: 0 <= i < n ==> p(s[i])
  {
    if s != [] && p(s[0]) then 1 + RunLength(s[1..], p) else 0
  }

  lemma RunLengthExact(s: string, p: char -> bool, n: nat)
    requires n <= |s| && (n < |s| ==> !p(s[n]))
    requires forall i :: 0 <= i < n ==> p(s[i])
    ensures RunLength(s, p) == n
  {
    if s != [] && p(s[0]) {
      RunLengthExact(s[1..], p, n - 1);
    }
  }

  /** The maximal runs of characters satisfying `p`, in order. */
  function Runs(s: string, p: char -> bool): (runs: seq<string>)
    ensures forall k :: 0 <= k < |runs| ==> runs[k] != [] && forall j :: 0 <= j < |runs[k]| ==> p(runs[k][j])
    decreases |s|
  {
    if s == [] then []
    else if !p(s[0]) then Runs(s[1..], p)
    else
      var n := RunLength(s, p);
      [s[..n]] + Runs(s[n..], p)
  }

  /** `x` occurs in `s` at `i` as a maximal run of characters satisfying `p`:
      non-empty, and with no such character just before or just after it. */
  predicate RunAt(s: string, x: string, i: nat, p: char -> bool) {
    && x != [] && i + |x| <= |s| && s[i..i + |x|] == x
    && (forall j :: 0 <= j < |x| ==> p(x[j]))
    && (i > 0 ==> !p(s[i - 1]))
    && (i + |x| < |s| ==> !p(s[i + |x|]))
  }

  ghost predicate IsMaximalRun(s: string, x: string, p: char -> bool) {
    exists i: nat :: RunAt(s, x, i, p)
  }

  /** A run at a positive offset into a suffix is a run at the shifted offset. */
  lemma RunAtShift(s: string, k: nat, x: string, i: nat, p: char -> bool)
    requires k <= |s| && i > 0
    ensures RunAt(s[k..], x, i, p) <==> RunAt(s, x, i + k, p)
  {
    if i + |x| <= |s| - k {
      assert s[k..][i..i + |x|] == s[i + k..i + k + |x|];
    }
  }

  /** Runs lists exactly the maximal runs. */
  lemma {:induction false} RunsExact(s: string, p: char -> bool, x: string)
    ensures x in Runs(s, p) <==> IsMaximalRun(s, x, p)
    decreases |s|
  {
    if s == [] {
      assert forall i: nat :: !RunAt(s, x, i, p);
    } else if !p(s[0]) {
      RunsSkip(s, p, x);
    } else {
      RunsTake(s, p, x);
    }
  }

  lemma {:induction false} RunsSkip(s: string, p: char -> bool, x: string)
    requires s != [] && !p(s[0])
    ensures x in Runs(s, p) <==> IsMaximalRun(s, x, p)
    decreases |s|, 0
  {
    RunsExact(s[1..], p, x);
    if IsMaximalRun(s[1..], x, p) {
      SkipRunOut(s, p, x);
    }
    if IsMaximalRun(s, x, p) {
      SkipRunIn(s, p, x);
    }
  }

  /** A maximal run after a skipped first character is a maximal run of the whole. */
  lemma SkipRunOut(s: string, p: char -> bool, x: string)
    requires s != [] && !p(s[0]) && IsMaximalRun(s[1..], x, p)
    ensures IsMaximalRun(s, x, p)
  {
    var t := s[1..];
    var i: nat :| RunAt(t, x, i, p);
    if i > 0 {
      RunAtShift(s, 1, x, i, p);
    } else {
      assert s[1..1 + |x|] == t[..|x|];
      assert RunAt(s, x, 1, p);
    }
  }

  /** A maximal run of `s` lies after its first character when that one is skipped. */
  lemma SkipRunIn(s: string, p: char -> bool, x: string)
    requires s != [] && !p(s[0]) && IsMaximalRun(s, x, p)
    ensures IsMaximalRun(s[1..], x, p)
  {
    var t := s[1..];
    var i: nat :| RunAt(s, x, i, p);
    assert i > 0 by {
      assert p(x[0]) && x[0] == s[i];
    }
    if i == 1 {
      assert t[..|x|] == s[1..1 + |x|];
      assert RunAt(t, x, 0, p);
    } else {
      RunAtShift(s, 1, x, i - 1, p);
    }
  }

  lemma {:induction false} RunsTake(s: string, p: char -> bool, x: string)
    requires s != [] && p(s[0])
    ensures x in Runs(s, p) <==> IsMaximalRun(s, x, p)
    decreases |s|, 0
  {
    var n := RunLength(s, p);
    RunsExact(s[n..], p, x);
    assert Runs(s, p) == [s[..n]] + Runs(s[n..], p);
    if x == s[..n] {
      assert RunAt(s, x, 0, p);
    }
    if IsMaximalRun(s[n..], x, p) {
      TakeRunOut(s, p, x);
    }
    if IsMaximalRun(s, x, p) {
      TakeRunIn(s, p, x);
    }
  }

  /** A maximal run after the leading run is a maximal run of the whole. */
  lemma TakeRunOut(s: string, p: char -> bool, x: string)
    requires s != [] && p(s[0]) && IsMaximalRun(s[RunLength(s, p)..], x, p)
    ensures IsMaximalRun(s, x, p)
  {
    var n := RunLength(s, p);
    var t := s[n..];
    var i: nat :| RunAt(t, x, i, p);
    assert i > 0 by {
      assert p(x[0]) && x[0] == t[i];
    }
    RunAtShift(s, n, x, i, p);
  }

  /** A maximal run of `s` is its leading run or a maximal run after it. */
  lemma TakeRunIn(s: string, p: char -> bool, x: string)
    requires s != [] && p(s[0]) && IsMaximalRun(s, x, p)
    ensures x == s[..RunLength(s, p)] || IsMaximalRun(s[RunLength(s, p)..], x, p)
  {
    var n := RunLength(s, p);
    var i: nat :| RunAt(s, x, i, p);
    if i == 0 {
      forall j | 0 <= j < |x| ensures p(s[j]) {
        assert s[j] == x[j];
      }
      RunLengthExact(s, p, |x|);
    } else {
      assert i > n by {
        assert !p(s[i - 1]);
      }
      RunAtShift(s, n, x, i - n, p);
    }
  }

  /** A piece of str.split(): non-empty and free of whitespace. */
  predicate IsWord(w: string) {
    w != [] && forall i :: 0 <= i < |w| ==> !IsSpace(w[i])
  }

  /** s.split() with no argument: the maximal runs of non-whitespace. */
  function SplitWords(s: string): (words: seq<string>)
    ensures forall i :: 0 <= i < |words| ==> IsWord(words[i])
  {
    Runs(s, IsNonSpace)
  }

  /** s.split('\n'): the pieces between line feeds, empty ones included. */
  function SplitLines(s: string): (lines: seq<string>)
    ensures |lines| >= 1
    decreases |s|
  {
    var n := RunLength(s, IsNotNewline);
    if n == |s| then [s] else [s[..n]] + SplitLines(s[n + 1..])
  }

  /** Splitting at line feeds and joining with line feeds gives the text back. */
  lemma {:induction false} JoinSplitLines(s: string)
    ensures Join("\n", SplitLines(s)) == s
    decreases |s|
  {
    var n := RunLength(s, IsNotNewline);
    if n < |s| {
      JoinSplitLines(s[n + 1..]);
      var rest := SplitLines(s[n + 1..]);
      assert Join("\n", [s[..n]] + rest) == s[..n] + "\n" + Join("\n", rest);
      assert s == s[..n] + "\n" + s[n + 1..];
    }
  }

  /** The join of a tail of the parts is a suffix of the join of all of them. */
  lemma JoinSuffix(sep: string, parts: seq<string>, j: nat)
    requires j < |parts|
    ensures EndsWith(Join(sep, parts), Join(sep, parts[j..]))
  {
    if j > 0 {
      assert parts == parts[..j] + parts[j..];
      JoinConcat(sep, parts[..j], parts[j..]);
    }
  }

  /** `t` occurs in `s` as a contiguous slice. */
  predicate IsSliceOf(t: string, s: string) {
    exists k :: 0 <= k <= |s| && t <= s[k..]
  }

  /** s.endswith(t). */
  predicate EndsWith(s: string, t: string) {
    |t| <= |s| && s[|s| - |t|..] == t
  }

  /** Every maximal run is a piece of the text it was cut from. */
  lemma RunsAreSlices(s: string, p: char -> bool)
    ensures forall x :: x in Runs(s, p) ==> IsSliceOf(x, s)
  {
    forall x | x in Runs(s, p) ensures IsSliceOf(x, s) {
      RunsExact(s, p, x);
      var i: nat :| RunAt(s, x, i, p);
      assert x <= s[i..];
    }
  }

  /** A tail of a slice of `s` is a slice of `s`. */
  lemma SliceOfTail(t: string, w: string, s: string)
    requires IsSliceOf(w, s) && EndsWith(w, t)
    ensures IsSliceOf(t, s)
  {
    var k :| 0 <= k <= |s| && w <= s[k..];
    var k' := k + |w| - |t|;
    assert t == s[k'..k' + |t|];
    assert t <= s[k'..];
  }

  /** No whitespace at either end: what strip() leaves. */
  predicate IsTrimmed(s: string) {
    s != [] ==> !IsSpace(s[0]) && !IsSpace(s[|s| - 1])
  }

  /** s.find(c): the first index of `c`, or -1. */
  function Find(s: string, c: char): (r: int)
    ensures -1 <= r < |s|
    ensures r >= 0 ==> s[r] == c
  {
    if s == [] then -1
    else if s[0] == c then 0
    else
      var k := Find(s[1..], c);
      if k == -1 then -1 else k + 1
  }

  /** s.rfind(c): the last index of `c`, or -1. */
  function RFind(s: string, c: char): (r: int)
    ensures -1 <= r < |s|
    ensures r >= 0 ==> s[r] == c
  {
    if s == [] then -1
    else if s[|s| - 1] == c then |s| - 1
    else RFind(s[..|s| - 1], c)
  }

  /** find and rfind give -1 exactly when `c` does not occur. */
  lemma {:induction false} FindAbsent(s: string, c: char)
    ensures Find(s, c) == -1 <==> c !in s
    ensures RFind(s, c) == -1 <==> c !in s
  {
    FindFirst(s, c);
    RFindLast(s, c);
  }

  /** No occurrence of `c` comes before the one find returns. */
  lemma {:induction false} FindFirst(s: string, c: char)
    ensures forall k :: 0 <= k < |s| && (Find(s, c) == -1 || k < Find(s, c)) ==> s[k] != c
  {
    if s != [] && s[0] != c {
      FindFirst(s[1..], c);
      assert forall k :: 1 <= k < |s| ==> s[k] == s[1..][k - 1];
    }
  }

  /** No occurrence of `c` comes after the one rfind returns. */
  lemma {:induction false} RFindLast(s: string, c: char)
    ensures forall k :: RFind(s, c) < k < |s| ==> s[k] != c
  {
    if s != [] && s[|s| - 1] != c {
      RFindLast(s[..|s| - 1], c);
      assert forall k :: 0 <= k < |s| - 1 ==> s[k] == s[..|s| - 1][k];
    }
  }

  /** A character found in a tail of `s` is found in `s`, no later. */
  lemma FindInSuffix(s: string, m: nat, c: char)
    requires m <= |s| && Find(s[m..], c) != -1
    ensures Find(s, c) != -1 && Find(s, c) <= m + Find(s[m..], c)
  {
    FindFirst(s, c);
    assert s[m + Find(s[m..], c)] == c;
  }

  /** The last occurrence in a tail of `s` is the last occurrence in `s`. */
  lemma RFindInSuffix(s: string, m: nat, c: char)
    requires m <= |s| && RFind(s[m..], c) != -1
    ensures RFind(s, c) == m + RFind(s[m..], c)
  {
    var t := s[m..];
    var l := RFind(t, c);
    RFindLast(t, c);
    RFindLast(s, c);
    assert s[m + l] == c;
    forall k | m + l < k < |s| ensures s[k] != c {
      assert s[k] == t[k - m];
    }
  }

  /** `pat in s` for a non-empty `pat`: some non-empty tail of `s` starts with `pat`. */
  predicate Occurs(pat: string, s: string)
    decreases |s|
  {
    s != [] && (pat <= s || Occurs(pat, s[1..]))
  }

  /** s.replace(pat, ''): occurrences removed left to right, without rescanning. */
  function RemoveAll(s: string, pat: string): (r: string)
    requires pat != []
    ensures |r| <= |s|
    ensures !Occurs(pat, s) ==> r == s
    decreases |s|
  {
    if s == [] then []
    else if pat <= s then RemoveAll(s[|pat|..], pat)
    else [s[0]] + RemoveAll(s[1..], pat)
  }

  /** One step of the removal when `s` does not start with `pat`. */
  lemma RemoveAllCons(s: string, pat: string)
    requires pat != [] && s != [] && !(pat <= s)
    ensures RemoveAll(s, pat) == [s[0]] + RemoveAll(s[1..], pat)
  {
  }

  /** When `x` is not empty, an occurrence of `pat` at the start of
      `x + pat + y` lies inside `x + pat[..|pat| - 1]`. */
  lemma PrefixBeforePat(x: string, y: string, pat: string)
    requires pat != [] && x != []
    ensures pat <= x + pat + y ==> pat <= x + pat[..|pat| - 1]
  {
    var s, w := x + pat + y, x + pat[..|pat| - 1];
    assert |w| >= |pat|;
    assert forall i :: 0 <= i < |pat| ==> w[i] == s[i];
  }

  /** No occurrence in `x + pat[..|pat| - 1]` means none in its tail. */
  lemma NoOccurrenceInTail(x: string, pat: string)
    requires pat != [] && x != []
    requires !Occurs(pat, x + pat[..|pat| - 1])
    ensures !Occurs(pat, x[1..] + pat[..|pat| - 1])
  {
    var w := x + pat[..|pat| - 1];
    assert w[1..] == x[1..] + pat[..|pat| - 1];
  }

  /** One step of RemoveAllSplit: `x[0]` is kept in front. */
  lemma RemoveAllSplitStep(x: string, y: string, pat: string)
    requires pat != [] && x != [] && !(pat <= x + pat + y)
    requires RemoveAll(x[1..] + pat + y, pat) == x[1..] + RemoveAll(y, pat)
    ensures RemoveAll(x + pat + y, pat) == x + RemoveAll(y, pat)
  {
    assert x + pat + y == x + (pat + y) && x[1..] + pat + y == x[1..] + (pat + y);
    HeadTail(x, pat + y);
    RemoveAllCons(x + pat + y, pat);
    HeadTail(x, RemoveAll(y, pat));
  }

  /** Splitting `x + u` after its first character. */
  lemma HeadTail(x: string, u: string)
    requires x != []
    ensures x + u == [x[0]] + (x[1..] + u)
    ensures (x + u)[0] == x[0] && (x + u)[1..] == x[1..] + u
  {
    assert x == [x[0]] + x[1..];
  }

  /** A leading `pat` is removed. */
  lemma RemoveAllLeading(pat: string, rest: string)
    requires pat != []
    ensures RemoveAll(pat + rest, pat) == RemoveAll(rest, pat)
  {
    assert pat <= pat + rest && (pat + rest)[|pat|..] == rest;
  }

  /** The first occurrence of `pat` is removed and the text before it kept:
      when `pat` does not start anywhere before the end of `x + pat`, the
      text `x + pat + y` loses exactly that `pat`. */
  lemma {:induction false} RemoveAllSplit(x: string, y: string, pat: string)
    requires pat != []
    requires !Occurs(pat, x + pat[..|pat| - 1])
    ensures RemoveAll(x + pat + y, pat) == x + RemoveAll(y, pat)
    decreases |x|
  {
    if x == [] {
      assert x + pat + y == pat + y && (pat + y)[|pat|..] == y;
    } else {
      NoOccurrenceInTail(x, pat);
      PrefixBeforePat(x, y, pat);
      RemoveAllSplit(x[1..], y, pat);
      RemoveAllSplitStep(x, y, pat);
    }
  }

  /** A text shorter than `pat` does not contain it. */
  lemma {:induction false} NoOccurrenceShort(t: string, pat: string)
    requires |t| < |pat|
    ensures !Occurs(pat, t)
    decreases |t|
  {
    if t != [] {
      NoOccurrenceShort(t[1..], pat);
    }
  }

  /** `pat` cannot start inside a text free of its first character, so
      `x + t` contains it only if the short tail `t` does, which it cannot. */
  lemma {:induction false} NoOccurrenceWithoutHead(x: string, t: string, pat: string)
    requires pat != [] && |t| < |pat|
    requires forall i :: 0 <= i < |x| ==> x[i] != pat[0]
    ensures !Occurs(pat, x + t)
    decreases |x|
  {
    if x == [] {
      assert x + t == t;
      NoOccurrenceShort(t, pat);
    } else {
      HeadTail(x, t);
      NoOccurrenceWithoutHead(x[1..], t, pat);
    }
  }

  /** A text containing `long` contains every non-empty prefix of `long`. */
  lemma {:induction false} OccursPrefix(pat: string, long: string, s: string)
    requires pat != [] && pat <= long
    ensures Occurs(long, s) ==> Occurs(pat, s)
    decreases |s|
  {
    if Occurs(long, s) && !(long <= s) {
      OccursPrefix(pat, long, s[1..]);
    }
  }

  /** s[:n] for a non-negative n. */
  function Take<T>(s: seq<T>, n: nat): (r: seq<T>)
    ensures |r| == if n < |s| then n else |s|
    ensures r == s[..|r|]
  {
    if n < |s| then s[..n] else s
  }
}
