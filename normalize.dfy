/**
 * Text normalisation in front of the summariser: `clean_text` and
 * `split_sentences` of summarizer.py.
 */
module Normalize {
  import opened Strings

  /** The replacement character U+FFFD that clean_text deletes. */
  const ReplacementChar: char := '\U{FFFD}'

  predicate IsDot(c: char) { c == '.' }

  /** The sentence-terminal punctuation `[.!?]`. */
  predicate IsTerminal(c: char) { c == '.' || c == '!' || c == '?' }

  /** Positions `i` and `i + 1` of `s` both belong to the class `inRun`. */
  predicate PairAt(s: string, i: nat, inRun: char -> bool)
    requires i + 1 < |s|
  {
    inRun(s[i]) && inRun(s[i + 1])
  }

  /** No adjacent pair in the class `inRun`. */
  predicate NoPair(s: string, inRun: char -> bool) {
    forall i :: 0 <= i < |s| - 1 ==> !PairAt(s, i, inRun)
  }

  lemma NoPairCons(h: char, r: string, inRun: char -> bool)
    requires NoPair(r, inRun)
    requires r != [] ==> !(inRun(h) && inRun(r[0]))
    ensures NoPair([h] + r, inRun)
  {
    var s := [h] + r;
    forall i | 0 <= i < |s| - 1 ensures !PairAt(s, i, inRun) {
      if i > 0 {
        assert !PairAt(r, i - 1, inRun);
      }
    }
  }

  lemma NoPairTail(s: string, inRun: char -> bool)
    requires s != [] && NoPair(s, inRun)
    ensures NoPair(s[1..], inRun)
    ensures |s| > 1 ==> !(inRun(s[0]) && inRun(s[1]))
  {
    forall i | 0 <= i < |s| - 2 ensures !PairAt(s[1..], i, inRun) {
      assert !PairAt(s, i + 1, inRun);
    }
    if |s| > 1 {
      assert !PairAt(s, 0, inRun);
    }
  }

  /** Text as clean_text leaves it: no whitespace at either end, every
      whitespace character a plain space, and no two of them adjacent. */
  predicate IsNormalized(s: string) {
    && (s != [] ==> !IsSpace(s[0]) && !IsSpace(s[|s| - 1]))
    && (forall i :: 0 <= i < |s| && IsSpace(s[i]) ==> s[i] == ' ')
    && NoPair(s, IsSpace)
  }

  /** No two consecutive periods. */
  predicate NoDoubleDot(s: string) {
    NoPair(s, IsDot)
  }

  /** s.replace(c, ''): every occurrence of `c` goes, every other character
      stays, as often as it occurs; RemoveCharConcat gives the order. */
  function RemoveChar(s: string, c: char): (r: string)
    ensures c !in r
    ensures forall x :: x in r ==> x in s
    ensures multiset(r) == multiset(s)[c := 0]
  {
    if s == [] then []
    else
      assert s == [s[0]] + s[1..];
      (if s[0] == c then [] else [s[0]]) + RemoveChar(s[1..], c)
  }

  /** The removal works piece by piece: on a concatenation it is the
      concatenation of the removals, so the kept characters stay in order. */
  lemma {:induction false} RemoveCharConcat(x: string, y: string, c: char)
    ensures RemoveChar(x + y, c) == RemoveChar(x, c) + RemoveChar(y, c)
  {
    if x == [] {
      assert x + y == y;
    } else {
      RemoveCharConcat(x[1..], y, c);
      HeadTail(x, y);
      var h := if x[0] == c then [] else [x[0]];
      assert RemoveChar(x + y, c) == h + RemoveChar(x[1..] + y, c);
      assert RemoveChar(x, c) == h + RemoveChar(x[1..], c);
      ConcatAssoc(h, RemoveChar(x[1..], c), RemoveChar(y, c));
    }
  }

  /** Removing a character of a class leaves the rest of the text, read
      without that class, unchanged. */
  lemma {:induction false} RemoveCharWithout(s: string, c: char, outer: char -> bool)
    requires outer(c)
    ensures Without(RemoveChar(s, c), outer) == Without(s, outer)
  {
    if s != [] {
      RemoveCharWithout(s[1..], c, outer);
      var h := if s[0] == c then [] else [s[0]];
      WithoutConcat(h, RemoveChar(s[1..], c), outer);
      assert [s[0]][1..] == [];
    }
  }

  lemma {:induction false} RemoveAbsentChar(s: string, c: char)
    requires c !in s
    ensures RemoveChar(s, c) == s
  {
    if s != [] {
      RemoveAbsentChar(s[1..], c);
    }
  }

  /** re.sub(r'P+', rep, s) for a one-character class P (`inRun`): every
      maximal run of characters in the class becomes a single `rep`. */
  function CollapseRuns(s: string, inRun: char -> bool, rep: char): (r: string)
    ensures s != [] ==> r != [] && r[0] == if inRun(s[0]) then rep else s[0]
    ensures forall x :: x in r ==> x == rep || (x in s && !inRun(x))
    ensures NoPair(r, inRun)
    ensures inRun(rep) ==> Without(r, inRun) == Without(s, inRun)
  {
    if s == [] then []
    else if inRun(s[0]) && |s| > 1 && inRun(s[1]) then CollapseRuns(s[1..], inRun, rep)
    else
      var h, rest := if inRun(s[0]) then rep else s[0], CollapseRuns(s[1..], inRun, rep);
      NoPairCons(h, rest, inRun);
      assert ([h] + rest)[0] == h && ([h] + rest)[1..] == rest;
      [h] + rest
  }

  /** A whole run of the class becomes one `rep`. */
  lemma {:induction false} CollapseRunOfClass(s: string, inRun: char -> bool, rep: char)
    requires s != [] && forall i :: 0 <= i < |s| ==> inRun(s[i])
    ensures CollapseRuns(s, inRun, rep) == [rep]
  {
    if |s| > 1 {
      assert forall i :: 0 <= i < |s| - 1 ==> s[1..][i] == s[i + 1];
      CollapseRunOfClass(s[1..], inRun, rep);
    }
  }

  /** Runs do not cross a character outside the class: text cut next to
      such a character collapses piece by piece. With CollapseRunOfClass,
      every maximal run becomes one `rep` and every other character stays
      where it is. */
  lemma {:induction false} CollapseRunsConcat(x: string, y: string, inRun: char -> bool, rep: char)
    requires x == [] || y == [] || !inRun(x[|x| - 1]) || !inRun(y[0])
    ensures CollapseRuns(x + y, inRun, rep) == CollapseRuns(x, inRun, rep) + CollapseRuns(y, inRun, rep)
  {
    if x == [] {
      assert x + y == y;
    } else {
      HeadTail(x, y);
      if |x| > 1 {
        assert x[1..][|x| - 2] == x[|x| - 1];
      }
      CollapseRunsConcat(x[1..], y, inRun, rep);
      CollapseStep(x, y, inRun, rep);
    }
  }

  /** The first step of CollapseRuns on `x + y` is its first step on `x`,
      when a run of the class does not reach from `x` into `y`. */
  lemma CollapseStep(x: string, y: string, inRun: char -> bool, rep: char)
    requires x != [] && (x + y)[0] == x[0] && (x + y)[1..] == x[1..] + y
    requires |x| == 1 ==> y == [] || !inRun(x[0]) || !inRun(y[0])
    requires CollapseRuns(x[1..] + y, inRun, rep) == CollapseRuns(x[1..], inRun, rep) + CollapseRuns(y, inRun, rep)
    ensures CollapseRuns(x + y, inRun, rep) == CollapseRuns(x, inRun, rep) + CollapseRuns(y, inRun, rep)
  {
    var s := x + y;
    if |x| > 1 {
      assert s[1] == x[1];
    }
    if !(inRun(x[0]) && |s| > 1 && inRun(s[1])) {
      var h := if inRun(x[0]) then rep else x[0];
      var a, b := CollapseRuns(x[1..], inRun, rep), CollapseRuns(y, inRun, rep);
      assert CollapseRuns(s, inRun, rep) == [h] + (a + b);
      assert !(inRun(x[0]) && |x| > 1 && inRun(x[1]));
      assert CollapseRuns(x, inRun, rep) == [h] + a;
      ConcatAssoc([h], a, b);
    }
  }

  /** A character of the class in `s` leaves a `rep` in the collapsed text. */
  lemma {:induction false} CollapseRunsKeepsRep(s: string, inRun: char -> bool, rep: char, i: nat)
    requires i < |s| && inRun(s[i])
    ensures rep in CollapseRuns(s, inRun, rep)
  {
    if i > 0 {
      CollapseRunsKeepsRep(s[1..], inRun, rep, i - 1);
    } else if |s| > 1 && inRun(s[1]) {
      CollapseRunsKeepsRep(s[1..], inRun, rep, 0);
    }
  }

  /** A string whose runs are already single `rep` characters is left alone. */
  lemma {:induction false} CollapseRunsFixed(s: string, inRun: char -> bool, rep: char)
    requires forall i :: 0 <= i < |s| && inRun(s[i]) ==> s[i] == rep
    requires NoPair(s, inRun)
    ensures CollapseRuns(s, inRun, rep) == s
  {
    if s != [] {
      NoPairTail(s, inRun);
      CollapseRunsFixed(s[1..], inRun, rep);
    }
  }

  /** Collapsing whitespace into spaces never puts two periods side by side. */
  lemma {:induction false} SpaceCollapseKeepsDotsApart(s: string)
    requires NoDoubleDot(s)
    ensures NoDoubleDot(CollapseRuns(s, IsSpace, ' '))
  {
    if s != [] {
      NoPairTail(s, IsDot);
      SpaceCollapseKeepsDotsApart(s[1..]);
      var r := CollapseRuns(s[1..], IsSpace, ' ');
      if !(IsSpace(s[0]) && |s| > 1 && IsSpace(s[1])) {
        NoPairCons(if IsSpace(s[0]) then ' ' else s[0], r, IsDot);
      }
    }
  }

  /** The characters clean_text deletes, collapses or trims: U+FFFD,
      periods and whitespace. */
  predicate IsLayout(c: char) {
    c == ReplacementChar || IsDot(c) || IsSpace(c)
  }

  /** clean_text: drop U+FFFD, collapse runs of '.', collapse whitespace
      into one space, then strip. Every other character is kept, in order. */
  function Clean(text: string): (r: string)
    ensures ReplacementChar !in r
    ensures NoDoubleDot(r)
    ensures IsNormalized(r)
    ensures Without(r, IsLayout) == Without(text, IsLayout)
  {
    var noMarker := RemoveChar(text, ReplacementChar);
    var dots := CollapseRuns(noMarker, IsDot, '.');
    var spaced := CollapseRuns(dots, IsSpace, ' ');
    SpaceCollapseKeepsDotsApart(dots);
    StripKeepsNormalized(spaced);
    CleanKeepsText(text);
    Strip(spaced)
  }

  /** The steps of clean_text change nothing but layout characters. */
  lemma CleanKeepsText(text: string)
    ensures var noMarker := RemoveChar(text, ReplacementChar);
      var dots := CollapseRuns(noMarker, IsDot, '.');
      var spaced := CollapseRuns(dots, IsSpace, ' ');
      Without(Strip(spaced), IsLayout) == Without(text, IsLayout)
  {
    var noMarker := RemoveChar(text, ReplacementChar);
    var dots := CollapseRuns(noMarker, IsDot, '.');
    var spaced := CollapseRuns(dots, IsSpace, ' ');
    RemoveCharWithout(text, ReplacementChar, IsLayout);
    WithoutWithout(dots, IsDot, IsLayout);
    WithoutWithout(noMarker, IsDot, IsLayout);
    WithoutWithout(spaced, IsSpace, IsLayout);
    WithoutWithout(dots, IsSpace, IsLayout);
    StripByWithout(spaced, IsSpace, IsLayout);
  }

  /** Whitespace and U+FFFD: what clean_text can remove entirely. */
  predicate IsBlank(c: char) {
    IsSpace(c) || c == ReplacementChar
  }

  /** clean_text gives "" exactly for a text made only of whitespace and
      U+FFFD: periods and every other character leave something behind. */
  lemma CleanBlank(text: string)
    ensures Clean(text) == [] <==> forall i :: 0 <= i < |text| ==> IsBlank(text[i])
  {
    if forall i :: 0 <= i < |text| ==> IsBlank(text[i]) {
      CleanOfBlank(text);
    } else {
      var i :| 0 <= i < |text| && !IsBlank(text[i]);
      if IsDot(text[i]) {
        CleanKeepsDot(text, i);
      } else {
        assert text[i] in Without(text, IsLayout);
      }
    }
  }

  lemma CleanOfBlank(text: string)
    requires forall i :: 0 <= i < |text| ==> IsBlank(text[i])
    ensures Clean(text) == []
  {
    var noMarker := RemoveChar(text, ReplacementChar);
    forall x | x in noMarker ensures IsSpace(x) {
      var k :| 0 <= k < |text| && text[k] == x;
    }
    assert NoPair(noMarker, IsDot) by {
      forall j | 0 <= j < |noMarker| - 1 ensures !PairAt(noMarker, j, IsDot) {
        assert noMarker[j] in noMarker;
      }
    }
    CollapseRunsFixed(noMarker, IsDot, '.');
    var spaced := CollapseRuns(noMarker, IsSpace, ' ');
    assert forall j :: 0 <= j < |spaced| ==> IsSpace(spaced[j]) by {
      forall j | 0 <= j < |spaced| ensures IsSpace(spaced[j]) {
        assert spaced[j] in spaced;
      }
    }
    StripBlank(spaced);
  }

  /** A period of the text survives clean_text. */
  lemma CleanKeepsDot(text: string, i: nat)
    requires i < |text| && text[i] == '.'
    ensures '.' in Clean(text)
  {
    var noMarker := RemoveChar(text, ReplacementChar);
    assert '.' in noMarker by {
      assert text[i] in multiset(text);
      assert multiset(noMarker)['.'] == multiset(text)['.'];
      assert '.' in multiset(noMarker);
    }
    var j :| 0 <= j < |noMarker| && noMarker[j] == '.';
    CollapseRunsKeepsRep(noMarker, IsDot, '.', j);
    var dots := CollapseRuns(noMarker, IsDot, '.');
    var spaced := CollapseRuns(dots, IsSpace, ' ');
    assert '.' in Without(dots, IsSpace);
    assert '.' in Without(spaced, IsSpace);
    StripByWithout(spaced, IsSpace, IsSpace);
    assert '.' in Without(Strip(spaced), IsSpace);
  }

  /** A slice of a string without adjacent pairs has none either. */
  lemma NoPairSlice(s: string, k: nat, m: nat, inRun: char -> bool)
    requires k <= m <= |s| && NoPair(s, inRun)
    ensures NoPair(s[k..m], inRun)
  {
    var t := s[k..m];
    forall i | 0 <= i < |t| - 1 ensures !PairAt(t, i, inRun) {
      assert t[i] == s[k + i] && t[i + 1] == s[k + i + 1];
      assert !PairAt(s, k + i, inRun);
    }
  }

  /** A slice of a collapsed string is collapsed. */
  lemma CollapsedSlice(s: string, k: nat, m: nat)
    requires k <= m <= |s|
    requires NoDoubleDot(s)
    requires forall i :: 0 <= i < |s| && IsSpace(s[i]) ==> s[i] == ' '
    requires NoPair(s, IsSpace)
    requires ReplacementChar !in s
    ensures var t := s[k..m];
      && NoDoubleDot(t) && NoPair(t, IsSpace) && ReplacementChar !in t
      && forall i :: 0 <= i < |t| && IsSpace(t[i]) ==> t[i] == ' '
  {
    NoPairSlice(s, k, m, IsSpace);
    NoPairSlice(s, k, m, IsDot);
    var t := s[k..m];
    forall i | 0 <= i < |t| ensures t[i] == s[k + i] { }
  }

  /** Facts about the slice Strip keeps of a collapsed string. */
  lemma StripKeepsNormalized(s: string)
    requires NoDoubleDot(s)
    requires forall i :: 0 <= i < |s| && IsSpace(s[i]) ==> s[i] == ' '
    requires NoPair(s, IsSpace)
    requires ReplacementChar !in s
    ensures var r := Strip(s); NoDoubleDot(r) && IsNormalized(r) && ReplacementChar !in r
  {
    var r := Strip(s);
    var k := LeadingDropped(s, IsSpace);
    assert r == s[k..k + |r|];
    CollapsedSlice(s, k, k + |r|);
  }

  /** clean_text is idempotent. */
  lemma CleanIdempotent(text: string)
    ensures Clean(Clean(text)) == Clean(text)
  {
    var c := Clean(text);
    RemoveAbsentChar(c, ReplacementChar);
    CollapseRunsFixed(c, IsDot, '.');
    CollapseRunsFixed(c, IsSpace, ' ');
    StripByFixed(c, IsSpace);
  }

  /** The first index `i` at or after `k` where the regex `(?<=[.!?])\s+`
      can start a match, or |s| when there is none. */
  function BreakIndex(s: string, k: nat): (i: nat)
    requires k >= 1
    ensures i == |s| || (k <= i < |s| && IsTerminal(s[i - 1]) && IsSpace(s[i]))
    ensures forall j :: k <= j < i && j < |s| ==> !(IsTerminal(s[j - 1]) && IsSpace(s[j]))
    decreases |s| - k
  {
    if k >= |s| then |s|
    else if IsTerminal(s[k - 1]) && IsSpace(s[k]) then k
    else BreakIndex(s, k + 1)
  }

  /** re.split(r'(?<=[.!?])\s+', s): the text between the maximal runs of
      whitespace that follow terminal punctuation. */
  function Pieces(s: string): (pieces: seq<string>)
    ensures IsPieceList(pieces)
    decreases |s|
  {
    var i := BreakIndex(s, 1);
    if i == |s| then
      NoBreakBefore(s, i);
      assert s[..i] == s;
      [s]
    else
      var n := RunLength(s[i..], IsSpace);
      assert n >= 1 by { assert s[i..][0] == s[i]; }
      NoBreakBefore(s, i);
      PiecesCons(s[..i], Pieces(s[i + n..]));
      [s[..i]] + Pieces(s[i + n..])
  }

  /** What re.split leaves: at least one piece, none holding a break, and
      every piece but the last non-empty and ending with a terminal mark. */
  predicate IsPieceList(pieces: seq<string>) {
    && |pieces| >= 1
    && (forall k :: 0 <= k < |pieces| ==> NoBreak(pieces[k]))
    && (forall k :: 0 <= k < |pieces| - 1 ==> pieces[k] != [] && IsTerminal(pieces[k][|pieces[k]| - 1]))
  }

  /** The text before the first break holds no break. */
  lemma NoBreakBefore(s: string, i: nat)
    requires i <= |s|
    requires forall j :: 1 <= j < i ==> !(IsTerminal(s[j - 1]) && IsSpace(s[j]))
    ensures NoBreak(s[..i])
  {
    var head := s[..i];
    forall j | 1 <= j < |head| ensures !(IsTerminal(head[j - 1]) && IsSpace(head[j])) {
      assert head[j - 1] == s[j - 1] && head[j] == s[j];
    }
  }

  /** A piece ending with a terminal mark, put in front of a piece list. */
  lemma PiecesCons(head: string, rest: seq<string>)
    requires head != [] && NoBreak(head) && IsTerminal(head[|head| - 1])
    requires IsPieceList(rest)
    ensures IsPieceList([head] + rest)
  {
    var r := [head] + rest;
    assert forall k :: 1 <= k < |r| ==> r[k] == rest[k - 1];
  }

  /** No terminal mark in `p` is followed by whitespace: re.split finds no
      place to cut it. */
  predicate NoBreak(p: string) {
    forall j :: 1 <= j < |p| ==> !(IsTerminal(p[j - 1]) && IsSpace(p[j]))
  }

  /** A sentence as split_sentences yields it: non-empty and trimmed. */
  predicate IsSentence(s: string) {
    s != [] && !IsSpace(s[0]) && !IsSpace(s[|s| - 1])
  }

  /** [p.strip() for p in pieces if p.strip()]. */
  function KeepStripped(pieces: seq<string>): (r: seq<string>)
    ensures |r| <= |pieces|
    ensures forall k :: 0 <= k < |r| ==> IsSentence(r[k])
  {
    if pieces == [] then []
    else
      var t := Strip(pieces[0]);
      StripIsSentence(pieces[0]);
      (if t == [] then [] else [t]) + KeepStripped(pieces[1..])
  }

  /** A non-blank stripped string is a sentence. */
  lemma StripIsSentence(s: string)
    ensures Strip(s) != [] ==> IsSentence(Strip(s))
  {
  }

  /** split_sentences. */
  function SplitSentences(text: string): (sentences: seq<string>)
    ensures forall k :: 0 <= k < |sentences| ==> IsSentence(sentences[k])
  {
    KeepStripped(Pieces(text))
  }

  /** Text without a terminal mark followed by whitespace is one sentence
      (or none, when it is blank). */
  lemma NoBreakOneSentence(text: string)
    requires forall j :: 1 <= j < |text| ==> !(IsTerminal(text[j - 1]) && IsSpace(text[j]))
    ensures SplitSentences(text) == if Strip(text) == [] then [] else [Strip(text)]
  {
    assert Pieces(text) == [text];
    assert Pieces(text)[1..] == [];
  }

  /** At the first break of normalised text there is exactly one space. */
  lemma BreakInNormalized(t: string)
    requires IsNormalized(t)
    requires BreakIndex(t, 1) < |t|
    ensures var i := BreakIndex(t, 1);
      && 1 <= i && i + 1 < |t| && t[i] == ' '
      && Pieces(t) == [t[..i]] + Pieces(t[i + 1..])
  {
    var i := BreakIndex(t, 1);
    SingleSpaceAtBreak(t, i);
    var n := RunLength(t[i..], IsSpace);
    assert Pieces(t) == [t[..i]] + Pieces(t[i + n..]);
    assert i + n == i + 1;
  }

  /** In normalised text a break is one space followed by a non-space. */
  lemma SingleSpaceAtBreak(t: string, i: nat)
    requires IsNormalized(t)
    requires 1 <= i < |t| && IsSpace(t[i])
    ensures i + 1 < |t| && t[i] == ' ' && RunLength(t[i..], IsSpace) == 1
  {
    assert t[i] == ' ';
    assert i + 1 < |t|;
    assert !PairAt(t, i, IsSpace);
    assert t[i..][1] == t[i + 1];
    RunLengthExact(t[i..], IsSpace, 1);
  }

  /** A suffix of normalised text that starts after a space is normalised. */
  lemma NormalizedSuffix(t: string, k: nat)
    requires IsNormalized(t)
    requires 1 <= k < |t| && t[k - 1] == ' '
    ensures IsNormalized(t[k..])
  {
    var rest := t[k..];
    assert !PairAt(t, k - 1, IsSpace);
    forall j | 0 <= j < |rest| ensures rest[j] == t[k + j] { }
    forall j | 0 <= j < |rest| - 1 ensures !PairAt(rest, j, IsSpace) {
      assert !PairAt(t, k + j, IsSpace);
    }
  }

  lemma KeepStrippedCons(head: string, rest: seq<string>)
    requires IsSentence(head)
    ensures KeepStripped([head] + rest) == [head] + KeepStripped(rest)
  {
    StripByFixed(head, IsSpace);
    assert ([head] + rest)[1..] == rest;
  }

  /** The first sentence of normalised text ends at its first break, and
      the rest is split the same way. */
  lemma SplitAtBreak(t: string)
    requires IsNormalized(t) && BreakIndex(t, 1) < |t|
    ensures var i := BreakIndex(t, 1);
      && 1 <= i && i + 1 < |t| && t[i] == ' '
      && IsNormalized(t[i + 1..])
      && SplitSentences(t) == [t[..i]] + SplitSentences(t[i + 1..])
  {
    var i := BreakIndex(t, 1);
    BreakInNormalized(t);
    NormalizedSuffix(t, i + 1);
    FirstSentence(t, i);
    SplitSentencesCons(t, t[..i], t[i + 1..]);
  }

  /** Text of normalised text up to a terminal mark is a sentence. */
  lemma FirstSentence(t: string, i: nat)
    requires IsNormalized(t) && 1 <= i < |t| && IsSpace(t[i]) && !IsSpace(t[i - 1])
    ensures IsSentence(t[..i])
  {
    var head := t[..i];
    assert head[0] == t[0] && head[i - 1] == t[i - 1];
  }

  /** A first piece that is already a sentence is the first sentence. */
  lemma SplitSentencesCons(t: string, head: string, rest: string)
    requires IsSentence(head) && Pieces(t) == [head] + Pieces(rest)
    ensures SplitSentences(t) == [head] + SplitSentences(rest)
  {
    KeepStrippedCons(head, Pieces(rest));
  }

  lemma AroundSpace(t: string, i: nat)
    requires i < |t| && t[i] == ' '
    ensures t == t[..i] + " " + t[i + 1..]
  {
    assert t == t[..i] + t[i..];
    assert t[i..] == [t[i]] + t[i + 1..];
  }

  /** On normalised text the sentences joined by single spaces give the text back. */
  lemma {:induction false} SplitSentencesJoin(t: string)
    requires IsNormalized(t)
    ensures Join(" ", SplitSentences(t)) == t
    ensures t != [] ==> SplitSentences(t) != []
    decreases |t|
  {
    var i := BreakIndex(t, 1);
    if i == |t| {
      assert Pieces(t) == [t];
      if t != [] {
        KeepStrippedCons(t, []);
      }
    } else {
      SplitAtBreak(t);
      var head, rest := t[..i], t[i + 1..];
      SplitSentencesJoin(rest);
      JoinCons(" ", head, SplitSentences(rest));
      AroundSpace(t, i);
    }
  }
}
