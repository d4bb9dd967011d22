/**
 * `generate_title_from_text` in app.py after the model call: the model's
 * answer with surrounding whitespace and quotes removed and capped at 100
 * characters, or, when the call fails, the first five words of the text
 * followed by "...".
 */
module Title {
  import opened Strings
  import opened Wrappers

  const MaxTitleLength := 100
  const FallbackWords := 5

  predicate IsDoubleQuote(c: char) { c == '"' }

  predicate IsSingleQuote(c: char) { c == '\'' }

  /** title.strip(); title.strip('"').strip("'"); title[:100] */
  function TitleFromAnswer(content: string): (title: string)
    ensures |title| <= MaxTitleLength
    ensures title != [] ==> !IsSingleQuote(title[0])
  {
    Take(StripBy(StripBy(Strip(content), IsDoubleQuote), IsSingleQuote), MaxTitleLength)
  }

  /** ' '.join(text.split()[:5]) + '...' */
  function FallbackTitle(text: string): (title: string)
    ensures EndsWith(title, "...")
  {
    Join(" ", Take(SplitWords(text), FallbackWords)) + "..."
  }

  /** The title: the model's answer when the call returned one, the fallback otherwise. */
  function GenerateTitle(answer: Option<string>, text: string): (title: string)
    ensures answer.Some? ==> |title| <= MaxTitleLength && IsSliceOf(title, answer.value)
    ensures answer.None? ==> EndsWith(title, "...")
  {
    if answer.Some? then
      TitleIsSliceOfAnswer(answer.value);
      TitleFromAnswer(answer.value)
    else FallbackTitle(text)
  }

  /** A strip keeps a slice of its input. */
  lemma StripByIsSlice(s: string, drop: char -> bool)
    ensures IsSliceOf(StripBy(s, drop), s)
  {
    var r := StripBy(s, drop);
    var k := LeadingDropped(s, drop);
    assert r <= s[k..];
  }

  /** A slice of a slice of `c` is a slice of `c`. */
  lemma SliceOfSlice(a: string, b: string, c: string)
    requires IsSliceOf(a, b) && IsSliceOf(b, c)
    ensures IsSliceOf(a, c)
  {
    var i :| 0 <= i <= |b| && a <= b[i..];
    var j :| 0 <= j <= |c| && b <= c[j..];
    assert a == c[j + i..j + i + |a|];
    assert a <= c[j + i..];
  }

  /** Stripping a slice of `c` leaves a slice of `c`. */
  lemma StripOfSlice(b: string, c: string, drop: char -> bool)
    requires IsSliceOf(b, c)
    ensures IsSliceOf(StripBy(b, drop), c)
  {
    StripByIsSlice(b, drop);
    SliceOfSlice(StripBy(b, drop), b, c);
  }

  /** A prefix of a slice of `c` is a slice of `c`. */
  lemma TakeOfSlice(b: string, c: string, n: nat)
    requires IsSliceOf(b, c)
    ensures IsSliceOf(Take(b, n), c)
  {
    var j :| 0 <= j <= |c| && b <= c[j..];
    assert Take(b, n) <= c[j..];
  }

  /** The title is a piece of the model's answer, cut at no more than 100 characters. */
  lemma TitleIsSliceOfAnswer(content: string)
    ensures IsSliceOf(TitleFromAnswer(content), content)
  {
    assert content <= content[0..];
    var s1 := Strip(content);
    StripOfSlice(content, content, IsSpace);
    var s2 := StripBy(s1, IsDoubleQuote);
    StripOfSlice(s1, content, IsDoubleQuote);
    var s3 := StripBy(s2, IsSingleQuote);
    StripOfSlice(s2, content, IsSingleQuote);
    TakeOfSlice(s3, content, MaxTitleLength);
  }

  /** An answer that is already a clean title (no surrounding whitespace or
      quotes, at most 100 characters) is taken as it is. */
  lemma CleanAnswerKept(content: string)
    requires |content| <= MaxTitleLength
    requires content != [] ==> !IsSpace(content[0]) && !IsSpace(content[|content| - 1])
    requires content != [] ==> !IsDoubleQuote(content[0]) && !IsDoubleQuote(content[|content| - 1])
    requires content != [] ==> !IsSingleQuote(content[0]) && !IsSingleQuote(content[|content| - 1])
    ensures TitleFromAnswer(content) == content
  {
    StripByFixed(content, IsSpace);
    StripByFixed(content, IsDoubleQuote);
    StripByFixed(content, IsSingleQuote);
  }

  /** A word run followed by a non-word character or nothing is the first run. */
  lemma RunsOfPrefix(w: string, rest: string, p: char -> bool)
    requires w != [] && forall i :: 0 <= i < |w| ==> p(w[i])
    requires rest != [] ==> !p(rest[0])
    ensures Runs(w + rest, p) == [w] + Runs(rest, p)
  {
    var s := w + rest;
    RunLengthExact(s, p, |w|);
    assert s[..|w|] == w && s[|w|..] == rest;
  }

  /** Joining words with single spaces and splitting again gives the words back. */
  lemma {:induction false} SplitJoinedWords(words: seq<string>)
    requires forall i :: 0 <= i < |words| ==> IsWord(words[i])
    ensures SplitWords(Join(" ", words)) == words
  {
    if |words| == 1 {
      RunsOfPrefix(words[0], "", IsNonSpace);
      assert words[0] + "" == words[0];
    } else if |words| > 1 {
      SplitJoinedWords(words[1..]);
      SplitJoinedStep(words);
    }
  }

  /** One step of SplitJoinedWords: the first word, then the others. */
  lemma SplitJoinedStep(words: seq<string>)
    requires |words| > 1 && IsWord(words[0])
    requires SplitWords(Join(" ", words[1..])) == words[1..]
    ensures SplitWords(Join(" ", words)) == words
  {
    var rest := Join(" ", words[1..]);
    var tail := " " + rest;
    JoinCons(" ", words[0], words[1..]);
    assert Join(" ", words) == words[0] + tail by {
      assert [words[0]] + words[1..] == words;
      assert words[0] + " " + rest == words[0] + tail;
    }
    assert Runs(tail, IsNonSpace) == Runs(rest, IsNonSpace) by {
      assert tail[1..] == rest && !IsNonSpace(tail[0]);
    }
    RunsOfPrefix(words[0], tail, IsNonSpace);
    assert [words[0]] + words[1..] == words;
  }

  /** The fallback title is the text's first five words (fewer when the text
      has fewer), separated by single spaces, then "...". */
  lemma FallbackIsFirstWords(text: string)
    ensures var title := FallbackTitle(text);
      var shown := title[..|title| - 3];
      SplitWords(shown) == Take(SplitWords(text), FallbackWords)
      && |SplitWords(shown)| == if |SplitWords(text)| < FallbackWords then |SplitWords(text)| else FallbackWords
  {
    var first := Take(SplitWords(text), FallbackWords);
    assert forall i :: 0 <= i < |first| ==> first[i] == SplitWords(text)[i];
    SplitJoinedWords(first);
    var title := FallbackTitle(text);
    assert title[..|title| - 3] == Join(" ", first);
  }
}
