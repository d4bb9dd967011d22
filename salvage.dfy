/**
 * Cutting a JSON array or object out of a chatty model answer: the text from
 * the first opening bracket through the last closing one. app.py does this
 * with find/rfind and, equivalently, with the regexes `\[.*\]` and `\{.*\}`
 * under DOTALL.
 */
module Salvage {
  import opened Strings
  import opened Wrappers

  /**
   * start = s.find(open); end = s.rfind(close) + 1; the slice s[start:end]
   * when start != -1 and end > start, and nothing otherwise.
   */
  function BracketSlice(s: string, open: char, close: char): (r: Option<string>)
    requires open != close
    ensures r.Some? ==> |r.value| >= 2 && r.value[0] == open && r.value[|r.value| - 1] == close
  {
    var start := Find(s, open);
    var end := RFind(s, close) + 1;
    if start != -1 && end > start then Some(s[start..end]) else None
  }

  /** s[i:j] is a match of the regex open-`.*`-close (DOTALL). */
  predicate MatchAt(s: string, open: char, close: char, i: int, j: int) {
    0 <= i && i + 2 <= j <= |s| && s[i] == open && s[j - 1] == close
  }

  /** re.search's match: the leftmost start, and from it the longest match,
      since `.*` is greedy. */
  ghost predicate IsRegexMatch(s: string, open: char, close: char, i: int, j: int) {
    && MatchAt(s, open, close, i, j)
    && (forall i', j' :: MatchAt(s, open, close, i', j') ==> i <= i')
    && (forall j' :: MatchAt(s, open, close, i, j') ==> j' <= j)
  }

  /** The find/rfind slice is exactly the regex match, and exists exactly when the regex matches. */
  lemma BracketSliceIsRegexMatch(s: string, open: char, close: char)
    requires open != close
    ensures BracketSlice(s, open, close).None? <==> forall i, j :: !MatchAt(s, open, close, i, j)
    ensures BracketSlice(s, open, close).Some? ==>
      exists i, j :: IsRegexMatch(s, open, close, i, j) && BracketSlice(s, open, close).value == s[i..j]
  {
    var start := Find(s, open);
    var last := RFind(s, close);
    FindFirst(s, open);
    RFindLast(s, close);
    forall i, j | MatchAt(s, open, close, i, j) ensures start != -1 && start <= i && j - 1 <= last {
      assert s[i] == open && s[j - 1] == close;
    }
    if start != -1 && last + 1 > start {
      assert MatchAt(s, open, close, start, last + 1);
      assert IsRegexMatch(s, open, close, start, last + 1);
    }
  }

  /** Cutting from a tail of the text: the slice is the tail of the whole
      text's slice, since both end at the text's last closing bracket. */
  lemma BracketSliceOfSuffix(s: string, t: string, open: char, close: char)
    requires open != close && EndsWith(s, t)
    requires BracketSlice(t, open, close).Some?
    ensures BracketSlice(s, open, close).Some?
    ensures EndsWith(BracketSlice(s, open, close).value, BracketSlice(t, open, close).value)
  {
    var m := |s| - |t|;
    assert s[m..] == t;
    SliceOfSuffixAt(s, m, open, close);
  }

  /** BracketSliceOfSuffix for the tail of `s` from index `m`. */
  lemma SliceOfSuffixAt(s: string, m: nat, open: char, close: char)
    requires open != close && m <= |s|
    requires BracketSlice(s[m..], open, close).Some?
    ensures BracketSlice(s, open, close).Some?
    ensures EndsWith(BracketSlice(s, open, close).value, BracketSlice(s[m..], open, close).value)
  {
    var t := s[m..];
    var b, e := Find(t, open), RFind(t, close) + 1;
    SuffixSliceInText(s, m, open, close);
    SuffixPositions(s, m, open, close);
    SliceBounds(s, open, close);
    TailOfSlice(s, Find(s, open), m + b, m + e,
      BracketSlice(s, open, close).value, BracketSlice(t, open, close).value);
  }

  /** The slice of a tail, located in the whole text. */
  lemma SuffixSliceInText(s: string, m: nat, open: char, close: char)
    requires open != close && m <= |s| && BracketSlice(s[m..], open, close).Some?
    ensures var b, e := Find(s[m..], open), RFind(s[m..], close) + 1;
      0 <= b < e && m + e <= |s| && BracketSlice(s[m..], open, close).value == s[m + b..m + e]
  {
    var t := s[m..];
    var b, e := Find(t, open), RFind(t, close) + 1;
    assert t[b..e] == s[m + b..m + e];
  }

  /** A slice ends with every later-starting slice that ends at the same place. */
  lemma TailOfSlice(s: string, a: nat, c: nat, e: nat, big: string, small: string)
    requires a <= c <= e <= |s| && big == s[a..e] && small == s[c..e]
    ensures EndsWith(big, small)
  {
    assert s[a..e][c - a..] == s[c..e];
  }

  /** The first `open` of a tail of `s` is at or after the first of `s`, and
      the last `close` of the tail is the last of `s`. */
  lemma SuffixPositions(s: string, m: nat, open: char, close: char)
    requires m <= |s| && Find(s[m..], open) != -1 && RFind(s[m..], close) != -1
    ensures Find(s, open) != -1 && Find(s, open) <= m + Find(s[m..], open)
    ensures RFind(s, close) == m + RFind(s[m..], close)
  {
    FindInSuffix(s, m, open);
    RFindInSuffix(s, m, close);
  }

  /** The slice, when there is one, runs from the first `open` through the last `close`. */
  lemma SliceBounds(s: string, open: char, close: char)
    requires open != close
    ensures var start, last := Find(s, open), RFind(s, close);
      BracketSlice(s, open, close).Some? <==> start != -1 && last + 1 > start
    ensures var start, last := Find(s, open), RFind(s, close);
      BracketSlice(s, open, close).Some? ==> BracketSlice(s, open, close).value == s[start..last + 1]
  {
  }

  /** A bracket slice is a slice of the text it was cut from. */
  lemma BracketSliceIsSlice(s: string, open: char, close: char)
    requires open != close
    ensures BracketSlice(s, open, close).Some? ==> IsSliceOf(BracketSlice(s, open, close).value, s)
  {
    SliceBounds(s, open, close);
    var start := Find(s, open);
    var end := RFind(s, close) + 1;
    if start != -1 && end > start {
      assert s[start..end] <= s[start..];
    }
  }

  /** raw.replace('```json', '').replace('```', '').strip(): the Markdown code
      fences taken out of a model answer. */
  function StripFences(raw: string): (r: string)
    ensures |r| <= |raw| && IsTrimmed(r)
    ensures !Occurs("```", raw) ==> r == Strip(raw)
  {
    assert "```" <= "```json";
    OccursPrefix("```", "```json", raw);
    Strip(RemoveAll(RemoveAll(raw, "```json"), "```"))
  }

  /** A block fenced as ```json ... ``` whose body has no backtick comes out
      as the stripped body. */
  lemma FencedBlock(body: string)
    requires forall i :: 0 <= i < |body| ==> body[i] != '`'
    ensures StripFences("```json" + body + "```") == Strip(body)
  {
    OpeningFenceRemoved(body);
    ClosingFenceRemoved(body);
  }

  /** The first replace takes out the opening "```json" and nothing else. */
  lemma OpeningFenceRemoved(body: string)
    requires forall i :: 0 <= i < |body| ==> body[i] != '`'
    ensures RemoveAll("```json" + body + "```", "```json") == body + "```"
  {
    var open, rest := "```json", body + "```";
    assert open + body + "```" == open + rest;
    RemoveAllLeading(open, rest);
    NoOccurrenceWithoutHead(body, "```", open);
  }

  /** The second replace takes out the closing "```". */
  lemma ClosingFenceRemoved(body: string)
    requires forall i :: 0 <= i < |body| ==> body[i] != '`'
    ensures RemoveAll(body + "```", "```") == body
  {
    var close := "```";
    NoOccurrenceWithoutHead(body, close[..|close| - 1], close);
    RemoveAllSplit(body, [], close);
    assert body + close + [] == body + close;
  }
}
