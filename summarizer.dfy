/**
 * The SmartSummarizer pipeline of summarizer.py: clean and split the text,
 * remove duplicate sentences, then either summarise the whole text in one
 * model call or, when it is longer than the model's 1024-token window,
 * summarise balanced chunks and then the joined chunk summaries.
 *
 * The BART tokenizer and model are not modelled: a Backend carries the
 * tokenizer's token count and the model's generation as functions, and every
 * generation request the pipeline makes is returned in a trace.
 */
module Summarizer {
  import opened Strings
  import opened Normalize
  import opened Dedup
  import opened Chunking

  /** The model's input window, in tokens. */
  const MaxInputTokens: nat := 1024

  /**
   * The tokenizer and the model as functions: `countTokens(s)` is the length
   * of the tokenizer's `input_ids` for `s`; `generate(s, min, max)` is the
   * decoded beam-search output for `s` (truncated to the window) with the
   * given minimum and maximum length in tokens.
   */
  datatype Backend = Backend(countTokens: string -> nat, generate: (string, nat, nat) -> string)

  /** One generation request: the input text and the length bounds in tokens. */
  datatype GenCall = GenCall(input: string, minLength: nat, maxLength: nat)

  /** What the model answers to a request. */
  function Run(b: Backend, call: GenCall): string {
    b.generate(call.input, call.minLength, call.maxLength)
  }

  /** The model's answers to a list of requests, in order. */
  function Outputs(b: Backend, calls: seq<GenCall>): (r: seq<string>)
    ensures |r| == |calls| && forall k :: 0 <= k < |calls| ==> r[k] == Run(b, calls[k])
  {
    seq(|calls|, k requires 0 <= k < |calls| => Run(b, calls[k]))
  }

  /** The word target of a summary level: 60 for "abstract", 250 for
      "article", 130 for anything else. */
  function TargetWords(level: string): (words: nat)
    ensures level == "abstract" <==> words == 60
    ensures level == "article" <==> words == 250
    ensures level != "abstract" && level != "article" <==> words == 130
  {
    if level == "abstract" then 60
    else if level == "article" then 250
    else 130
  }

  /** int(target_words * 0.9 * 1.3), computed exactly. */
  function MinLength(targetWords: nat): (tokens: nat)
    ensures tokens == targetWords * 117 / 100
  {
    var x := (targetWords as real) * 0.9 * 1.3;
    assert x == (targetWords * 117) as real / 100.0;
    FloorOfRatio(targetWords * 117, 100);
    x.Floor
  }

  /** int(target_words * 1.3 * 1.5), computed exactly. */
  function MaxLength(targetWords: nat): (tokens: nat)
    ensures tokens == targetWords * 195 / 100
  {
    var x := (targetWords as real) * 1.3 * 1.5;
    assert x == (targetWords * 195) as real / 100.0;
    FloorOfRatio(targetWords * 195, 100);
    x.Floor
  }

  /** max(80, int(target_words * 0.7)), computed exactly: the word target
      of each chunk summary. */
  function ChunkBudget(targetWords: nat): (words: nat)
    ensures words >= 80 && words >= targetWords * 7 / 10
    ensures words == 80 || words == targetWords * 7 / 10
  {
    var x := (targetWords as real) * 0.7;
    assert x == (targetWords * 7) as real / 10.0;
    FloorOfRatio(targetWords * 7, 10);
    if x.Floor > 80 then x.Floor else 80
  }

  lemma FloorOfRatio(a: nat, d: nat)
    requires d > 0
    ensures ((a as real) / (d as real)).Floor == a / d
  {
    var q, r := a / d, a % d;
    assert a == q * d + r;
    assert (a as real) / (d as real) == (q as real) + (r as real) / (d as real);
  }

  /** The summary is asked for between 1.17 and 1.95 tokens per target word,
      and the minimum never exceeds the maximum. */
  lemma LengthBoundsOrdered(targetWords: nat)
    ensures MinLength(targetWords) <= MaxLength(targetWords)
    ensures MinLength(targetWords) <= targetWords * 2 && targetWords <= MaxLength(targetWords) + 1
  {
  }

  /** _direct_summarize: the request for summarising `text` to about `targetWords` words. */
  function DirectRequest(text: string, targetWords: nat): (call: GenCall)
    ensures call.input == text
    ensures call.minLength == targetWords * 117 / 100 && call.maxLength == targetWords * 195 / 100
    ensures call.minLength <= call.maxLength
  {
    LengthBoundsOrdered(targetWords);
    GenCall(text, MinLength(targetWords), MaxLength(targetWords))
  }

  /** The chunk-summary requests of the hierarchical path, one per chunk, in order. */
  function ChunkRequests(chunks: seq<seq<string>>, targetWords: nat): (calls: seq<GenCall>)
    ensures |calls| == |chunks|
    ensures forall k :: 0 <= k < |chunks| ==>
      calls[k].input == Join(" ", chunks[k]) && calls[k] == DirectRequest(Join(" ", chunks[k]), ChunkBudget(targetWords))
  {
    seq(|chunks|, k requires 0 <= k < |chunks| => DirectRequest(Join(" ", chunks[k]), ChunkBudget(targetWords)))
  }

  /** The input texts of a list of requests. */
  function Inputs(calls: seq<GenCall>): (r: seq<string>)
    ensures |r| == |calls| && forall k :: 0 <= k < |calls| ==> r[k] == calls[k].input
  {
    seq(|calls|, k requires 0 <= k < |calls| => calls[k].input)
  }

  /** The chunk requests, joined, ask for exactly the text of all the
      sentences: every sentence is summarised once, in order. */
  lemma ChunkInputsCoverText(sentences: seq<string>, tok: string -> nat, chunks: seq<seq<string>>, targetWords: nat)
    requires IsBalancedChunking(sentences, tok, chunks)
    ensures Join(" ", Inputs(ChunkRequests(chunks, targetWords))) == Join(" ", sentences)
  {
    assert Inputs(ChunkRequests(chunks, targetWords)) == JoinEach(" ", chunks);
    JoinFlatten(" ", chunks);
  }

  /** When no two sentences of the cleaned text share a key, deduplication
      keeps them all and the text the model is asked to summarise is exactly
      the cleaned text. */
  lemma DistinctSentencesKeepText(text: string)
    requires UniqueKeys(SplitSentences(Clean(text)), Key)
    ensures Join(" ", Deduplicated(SplitSentences(Clean(text)), Key)) == Clean(text)
  {
    DedupOfUnique(SplitSentences(Clean(text)), Key);
    SplitSentencesJoin(Clean(text));
  }

  /**
   * _hierarchical_summarize: chunk the sentences, summarise every chunk to
   * ChunkBudget(targetWords) words, join the chunk summaries with spaces and
   * summarise that to `targetWords` words. The trace lists the requests in
   * the order they are made; the summary is the answer to the last one.
   */
  method HierarchicalSummarize(b: Backend, sentences: seq<string>, targetWords: nat)
    returns (summary: string, trace: seq<GenCall>, chunks: seq<seq<string>>)
    ensures IsBalancedChunking(sentences, b.countTokens, chunks)
    ensures var requests := ChunkRequests(chunks, targetWords);
      trace == requests + [DirectRequest(Join(" ", Outputs(b, requests)), targetWords)]
    ensures summary == Run(b, trace[|trace| - 1])
  {
    chunks := CreateBalancedChunks(sentences, b.countTokens);
    var wordsPerChunk := ChunkBudget(targetWords);
    var chunkSummaries: seq<string> := [];
    trace := [];
    for i := 0 to |chunks|
      invariant trace == ChunkRequests(chunks[..i], targetWords)
      invariant chunkSummaries == Outputs(b, trace)
    {
      var call := DirectRequest(Join(" ", chunks[i]), wordsPerChunk);
      chunkSummaries := chunkSummaries + [Run(b, call)];
      trace := trace + [call];
    }
    assert chunks[..|chunks|] == chunks;
    var combined := Join(" ", chunkSummaries);
    var finalCall := DirectRequest(combined, targetWords);
    summary := Run(b, finalCall);
    trace := trace + [finalCall];
  }

  /**
   * `trace` and `summary` summarise the deduplicated sentences `unique` to
   * `targetWords` words: one direct request for the sentences joined with
   * spaces when that fits in the window, otherwise a balanced chunking, one
   * request per chunk and a last request for the joined chunk summaries.
   * The summary is the answer to the last request.
   */
  predicate SummarisedBy(b: Backend, unique: seq<string>, targetWords: nat,
                         summary: string, trace: seq<GenCall>, chunks: seq<seq<string>>) {
    var fullText := Join(" ", unique);
    && trace != [] && summary == Run(b, trace[|trace| - 1])
    && (b.countTokens(fullText) <= MaxInputTokens ==> trace == [DirectRequest(fullText, targetWords)])
    && (b.countTokens(fullText) > MaxInputTokens ==>
          && IsBalancedChunking(unique, b.countTokens, chunks)
          && var requests := ChunkRequests(chunks, targetWords);
             trace == requests + [DirectRequest(Join(" ", Outputs(b, requests)), targetWords)])
  }

  /** What generate_summary does with the deduplicated sentences: join them
      with spaces and summarise directly when that fits in the window,
      hierarchically when not. */
  method SummarizeSentences(b: Backend, unique: seq<string>, targetWords: nat)
    returns (summary: string, trace: seq<GenCall>, chunks: seq<seq<string>>)
    ensures SummarisedBy(b, unique, targetWords, summary, trace, chunks)
  {
    var fullText := Join(" ", unique);
    var numTokens := b.countTokens(fullText);
    if numTokens > MaxInputTokens {
      summary, trace, chunks := HierarchicalSummarize(b, unique, targetWords);
    } else {
      var call := DirectRequest(fullText, targetWords);
      summary := Run(b, call);
      trace := [call];
      chunks := [];
    }
  }

  /**
   * generate_summary, as written: text with no sentence gives "" without any
   * request; otherwise the deduplicated sentences are summarised, even when
   * deduplication has left none of them.
   */
  method GenerateSummary(b: Backend, text: string, level: string)
    returns (summary: string, trace: seq<GenCall>, chunks: seq<seq<string>>)
    ensures var sentences := SplitSentences(Clean(text));
      && (sentences == [] ==> summary == "" && trace == [])
      && (sentences != [] ==>
            SummarisedBy(b, Deduplicated(sentences, Key), TargetWords(level), summary, trace, chunks))
  {
    var cleaned := Clean(text);
    var originalSentences := SplitSentences(cleaned);
    if originalSentences == [] {
      summary, trace, chunks := "", [], [];
      return;
    }
    var uniqueSentences := RemoveDuplicates(originalSentences);
    summary, trace, chunks := SummarizeSentences(b, uniqueSentences, TargetWords(level));
  }

  /** Text made only of terminal punctuation, such as "...", has a sentence
      whose key is empty: deduplication drops it, and GenerateSummary then
      asks the model to summarise the empty text. */
  lemma OnlyPunctuationReachesModel()
    ensures SplitSentences(Clean("...")) == ["."]
    ensures Deduplicated(["."], Key) == [] && Join(" ", Deduplicated(["."], Key)) == ""
  {
    DotsOneSentence();
    DotHasEmptyKey();
  }

  /** Summarising no sentence still makes exactly one request, for the
      empty text: in the direct path it is the whole joined text, and in the
      hierarchical path there is no chunk, so the last request joins no
      chunk summary. */
  lemma NoSentenceStillRequests(b: Backend, targetWords: nat, summary: string,
                                trace: seq<GenCall>, chunks: seq<seq<string>>)
    requires SummarisedBy(b, [], targetWords, summary, trace, chunks)
    ensures trace == [DirectRequest("", targetWords)]
  {
    if b.countTokens(Join(" ", [])) > MaxInputTokens {
      ChunkCount([], b.countTokens, chunks);
      assert ChunkRequests(chunks, targetWords) == [];
      assert Outputs(b, []) == [];
    }
  }

  /** GenerateSummary on "..." sends the model one request, for the empty text. */
  lemma PunctuationOnlyRequest(b: Backend, level: string, summary: string,
                               trace: seq<GenCall>, chunks: seq<seq<string>>)
    requires SummarisedBy(b, Deduplicated(SplitSentences(Clean("...")), Key), TargetWords(level), summary, trace, chunks)
    ensures trace == [DirectRequest("", TargetWords(level))]
  {
    OnlyPunctuationReachesModel();
    NoSentenceStillRequests(b, TargetWords(level), summary, trace, chunks);
  }

  lemma DotsOneSentence()
    ensures SplitSentences(Clean("...")) == ["."]
  {
    CleanDots();
    NoBreakOneSentence(".");
    StripByFixed(".", IsSpace);
  }

  lemma DotHasEmptyKey()
    ensures Deduplicated(["."], Key) == []
  {
    assert Key(".") == "";
    assert ["."][..0] == [];
  }

  lemma CleanDots()
    ensures Clean("...") == "."
  {
    var s := "...";
    assert forall i :: 0 <= i < |s| ==> IsDot(s[i]);
    CleanOfDots(s);
  }

  /** A run of periods cleans to a single period. */
  lemma CleanOfDots(s: string)
    requires s != [] && forall i :: 0 <= i < |s| ==> IsDot(s[i])
    ensures Clean(s) == "."
  {
    RemoveAbsentChar(s, ReplacementChar);
    CollapseRunOfClass(s, IsDot, '.');
    DotIsFixed();
  }

  lemma DotIsFixed()
    ensures Strip(CollapseRuns(".", IsSpace, ' ')) == "."
  {
    var d := ".";
    assert !IsSpace(d[0]);
    CollapseRunsFixed(d, IsSpace, ' ');
    StripByFixed(d, IsSpace);
  }

  /**
   * generate_summary with the emptiness test moved after deduplication: a
   * text whose sentences all have an empty key gives "" without any request,
   * and the model is never asked to summarise an empty text, except the
   * joined chunk summaries, which are the model's own output.
   */
  method GenerateSummaryChecked(b: Backend, text: string, level: string)
    returns (summary: string, trace: seq<GenCall>, chunks: seq<seq<string>>)
    ensures var unique := Deduplicated(SplitSentences(Clean(text)), Key);
      && (unique == [] ==> summary == "" && trace == [])
      && (unique != [] ==>
            && SummarisedBy(b, unique, TargetWords(level), summary, trace, chunks)
            && Join(" ", unique) != ""
            && forall k :: 0 <= k < |trace| - 1 ==> trace[k].input != "")
  {
    var cleaned := Clean(text);
    var originalSentences := SplitSentences(cleaned);
    var uniqueSentences := RemoveDuplicates(originalSentences);
    if uniqueSentences == [] {
      summary, trace, chunks := "", [], [];
      return;
    }
    KeptSentencesNonEmpty(originalSentences);
    JoinNonEmpty(" ", uniqueSentences);
    summary, trace, chunks := SummarizeSentences(b, uniqueSentences, TargetWords(level));
    if b.countTokens(Join(" ", uniqueSentences)) > MaxInputTokens {
      ChunkInputsNonEmpty(uniqueSentences, b.countTokens, chunks, TargetWords(level));
    }
  }

  /** A chunk of non-empty sentences gives a chunk request with non-empty input. */
  lemma ChunkInputsNonEmpty(sentences: seq<string>, tok: string -> nat, chunks: seq<seq<string>>, targetWords: nat)
    requires IsBalancedChunking(sentences, tok, chunks)
    requires forall k :: 0 <= k < |sentences| ==> sentences[k] != ""
    ensures forall k :: 0 <= k < |chunks| ==> ChunkRequests(chunks, targetWords)[k].input != ""
  {
    forall k | 0 <= k < |chunks| ensures Join(" ", chunks[k]) != "" {
      FlattenMember(chunks, k);
      JoinNonEmpty(" ", chunks[k]);
    }
  }

  /** A kept sentence has a non-empty key, so it is not empty. */
  lemma KeptSentencesNonEmpty(sentences: seq<string>)
    ensures forall k :: 0 <= k < |Deduplicated(sentences, Key)| ==> Deduplicated(sentences, Key)[k] != ""
  {
    DedupUniqueKeys(sentences, Key);
    assert Key("") == "";
  }

  /** Joining a list whose first element is not empty gives a non-empty text. */
  lemma JoinNonEmpty(sep: string, parts: seq<string>)
    requires parts != [] && parts[0] != ""
    ensures Join(sep, parts) != ""
  {
    if |parts| > 1 {
      assert Join(sep, parts)[0] == parts[0][0];
    }
  }
}
