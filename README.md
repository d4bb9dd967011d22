# Gist: the summariser and the quiz post-processing, in Dafny

Gist is a Flask application that summarises a pasted text, a web page or an
uploaded PDF/TXT file with BART, asks a Groq-hosted model for a title and for
quiz questions, and grades a student's answers with the same model. This
project models the parts of it that decide what happens to text on its way
in and out of those models, and proves what they promise:

- `summarizer.py`, the `SmartSummarizer` pipeline:
  - `clean_text` (module `Normalize`): drop U+FFFD, collapse runs of periods
    and of whitespace, strip;
  - `split_sentences` (module `Normalize`): split after `.`, `!` or `?` and
    keep the non-blank stripped pieces;
  - `_remove_duplicates` (module `Dedup`): keep the first sentence of each
    non-empty key;
  - `_create_balanced_chunks` (module `Chunking`): chunks of at most 900
    tokens, with forced breaks at a third and two thirds of the sentences;
  - `_verify_coverage` (module `Coverage`), the word limits and token
    budgets, and `_direct_summarize`, `_hierarchical_summarize` and
    `generate_summary` (module `Summarizer`).
- `app.py`, the code around the model calls:
  - the defaulting and validation of the `/summarize` form (module
    `Request`);
  - the title cleanup and its fallback (module `Title`);
  - the four JSON parsing attempts on the quiz answer, the filter of valid
    questions and the `[:num_questions]` cut (module `Questions`);
  - the three parsing attempts on the grading answer and the normalisation
    of the parsed dict (module `Grading`).

Shared pieces:

- `Strings` holds the Python string primitives: `isspace`, `strip`,
  `lower`, `join`, `split`, `find`/`rfind` and `replace`.
- `Json` holds the values `json.loads` returns and Python's dict behaviour.
- `Salvage` holds the regex `\[.*\]` / `\{.*\}` match (with `re.DOTALL`) and
  the `find`/`rfind` cut.
- `Wrappers` holds `Option` and `Result`.

The BART tokenizer and model are a `Backend` value: a token counter and a
generation function. Every generation request is returned in a trace, so the
contracts say which texts are sent with which length bounds, and that the
summary is the model's answer to the last request. `json.loads` and the
three text extractors are function parameters. The Groq answers reach the
model as plain strings.

In these places the code does something easy to misread; the model follows
the code:

- The duplicate key is `sent.strip().rstrip(".!?").lower()`: whitespace is
  stripped before the terminal punctuation is removed, and a sentence whose
  key is empty is dropped.
- `generate_summary` returns `""` only when `split_sentences` finds no
  sentence. When deduplication then removes every sentence, the model is
  still asked to summarise the empty text (see Findings).
- In `verify_answer_groq`, the third parsing attempt (`find`/`rfind`) cuts
  exactly the text the regex of the second attempt matched
  (`Salvage.BracketSliceIsRegexMatch`). It can never succeed where the
  second failed, so `Grading.ParseGrade` equals a two-attempt specification.
- In `generate_questions_groq`, the log line `q['question'][:50]` raises
  when the value is neither a string nor a list. The whole call then fails
  (`QuestionNotText`), even when other entries are valid.

## Model

| member | source | states |
|---|---|---|
| Normalize.RemoveChar | summarizer.py:7 | the result has no occurrence of the removed character, and every other character occurs in it exactly as often as in the input |
| Normalize.RemoveCharConcat | summarizer.py:7 | the removal on a concatenation is the concatenation of the removals, so the kept characters stay in their order |
| Normalize.RemoveCharWithout | summarizer.py:7 | removing a character of a class leaves the text, read without that class, unchanged |
| Normalize.RemoveAbsentChar | summarizer.py:7 | removing a character that does not occur changes nothing |
| Normalize.CollapseRuns | summarizer.py:8-9 | the result has no two adjacent characters of the class, keeps the first character (replaced when in the class), and holds only the replacement or characters of the input outside the class; when the replacement is in the class, the characters outside the class are those of the input, in order |
| Normalize.CollapseRunOfClass | summarizer.py:8-9 | a whole run of the class becomes one replacement character |
| Normalize.CollapseRunsConcat | summarizer.py:8-9 | runs do not cross a character outside the class: text cut next to one collapses piece by piece, so each maximal run becomes one replacement and every other character stays where it is |
| Normalize.CollapseStep | summarizer.py:8-9 | the first step of the collapse on `x + y` is its first step on `x` when no run reaches from `x` into `y` |
| Normalize.CollapseRunsKeepsRep | summarizer.py:8-9 | a character of the class in the input leaves a replacement in the result |
| Normalize.CollapseRunsFixed | summarizer.py:8-9 | text whose class characters are all the replacement and never adjacent is left unchanged |
| Normalize.SpaceCollapseKeepsDotsApart | summarizer.py:8-9 | collapsing whitespace after the periods cannot create `..` |
| Normalize.Clean | summarizer.py:5-10 | clean_text's result has no U+FFFD and no `..`; its only whitespace is single spaces, never at either end; its characters other than U+FFFD, periods and whitespace are those of the input, in order |
| Normalize.CleanKeepsText | summarizer.py:5-10 | the four steps change nothing but U+FFFD, periods and whitespace |
| Normalize.CleanBlank | summarizer.py:5-10 | clean_text gives "" exactly when the input is only whitespace and U+FFFD |
| Normalize.CleanOfBlank | summarizer.py:5-10 | input of only whitespace and U+FFFD cleans to "" |
| Normalize.CleanKeepsDot | summarizer.py:5-10 | a period in the input leaves a period in the result |
| Normalize.StripKeepsNormalized | summarizer.py:10 | the final strip keeps all of these properties |
| Normalize.CleanIdempotent | summarizer.py:5-10 | clean_text(clean_text(t)) == clean_text(t) |
| Normalize.BreakIndex | summarizer.py:13 | the first position at or after `k` where the lookbehind `(?<=[.!?])\s` matches, or the end; no earlier position matches |
| Normalize.Pieces | summarizer.py:13 | re.split gives at least one piece; no piece holds a terminal mark followed by whitespace, and every piece but the last is non-empty and ends with a terminal mark |
| Normalize.PiecesCons | summarizer.py:13 | a piece ending with a terminal mark and holding no split point, put before a split result, gives a split result |
| Normalize.BreakInNormalized | summarizer.py:13 | in cleaned text each split point is one space, and the split removes exactly that space |
| Normalize.KeepStripped | summarizer.py:14 | every kept piece is a non-empty stripped sentence, and there are at most as many as pieces |
| Normalize.StripIsSentence | summarizer.py:14 | a non-blank stripped piece is a sentence |
| Normalize.SplitSentences | summarizer.py:12-14 | every sentence is non-empty with no whitespace at either end |
| Normalize.NoBreakOneSentence | summarizer.py:12-14 | text with no split point yields its stripped self, or nothing when blank |
| Normalize.SplitAtBreak | summarizer.py:12-14 | in cleaned text the first sentence ends at the first split point, a single space, and the text after it is cleaned text split the same way |
| Normalize.SplitSentencesCons | summarizer.py:14 | a first piece that is already a sentence is the first sentence |
| Normalize.SplitSentencesJoin | summarizer.py:12-14 | on cleaned text, joining the sentences with single spaces gives the text back, and non-empty text has a sentence |
| Dedup.Key | summarizer.py:167 | the key is no longer than the sentence, has no upper-case ASCII letter, starts with no whitespace and ends with no terminal mark; it is empty exactly when the stripped sentence is only terminal marks |
| Dedup.RemoveDuplicates | summarizer.py:161-172 | the loop with its `seen` set returns exactly the specification Deduplicated with the key strip / rstrip(".!?") / lower |
| Dedup.DedupKeys | summarizer.py:163-170 | the keys of the kept sentences are exactly the non-empty keys of the input |
| Dedup.DedupUniqueKeys | summarizer.py:168-170 | the kept sentences have non-empty, pairwise different keys |
| Dedup.FirstOfKeyLast | summarizer.py:168 | the last sentence is the first of its key exactly when its key is non-empty and unseen before it |
| Dedup.FirstPositionsInOrder | summarizer.py:166-170 | the kept positions are increasing and are exactly the first occurrences of each non-empty key |
| Dedup.DedupAtFirstPositions | summarizer.py:166-170 | the kept sentences are the input's sentences at those positions |
| Dedup.DedupKeepsFirstOccurrences | summarizer.py:161-172 | the two together: the result is the subsequence of first occurrences, in input order |
| Dedup.DedupOfUnique | summarizer.py:166-170 | sentences with distinct non-empty keys are all kept |
| Dedup.DedupIdempotent | summarizer.py:161-172 | removing duplicates twice is removing them once |
| Chunking.CreateBalancedChunks | summarizer.py:113-146 | the loop's chunks satisfy IsBalancedChunking: they concatenate to the sentences, are non-empty, multi-sentence chunks fit in 900 tokens, each forced break starts a chunk, and each chunk starts at a forced break or where the previous chunk would overflow |
| Chunking.PlaceSentence | summarizer.py:128-141 | one iteration (forced break, then token check) keeps that invariant for one more sentence and keeps the running token count |
| Chunking.BalancedNewChunk | summarizer.py:129-138 | starting a new chunk at a forced break or on overflow keeps the invariant |
| Chunking.BalancedExtend | summarizer.py:139-141 | appending to the current chunk when neither applies keeps the invariant |
| Chunking.BalancedDropLast | summarizer.py:124-141 | any balanced chunking of n+1 sentences is the loop's step applied to a balanced chunking of the first n |
| Chunking.DropSingleton | summarizer.py:129-138 | a last chunk of one sentence was opened by a forced break or an overflow |
| Chunking.DropFromLonger | summarizer.py:139-141 | a last chunk of several sentences was extended without a forced break and within the limit |
| Chunking.BalancedUnique | summarizer.py:124-141 | two balanced chunkings of the same prefix are equal |
| Chunking.ChunkingUnique | summarizer.py:113-146 | the chunking is a function of the sentences and the token counts, so the specification pins the loop's output down |
| Chunking.ChunkCount | summarizer.py:143-146 | there are at most as many chunks as sentences, and none exactly when there is no sentence |
| Chunking.AtLeastThreeChunks | summarizer.py:121-133 | three or more sentences always give at least three chunks, because of the two forced breaks |
| Chunking.JoinFlatten | summarizer.py:92 | joining each chunk and then joining the results gives the sentences joined |
| Coverage.Concepts | summarizer.py:150-153 | every concept is a word of at least five lower-case ASCII letters that occurs as a contiguous piece of the text |
| Coverage.ConceptsMatchRegex | summarizer.py:151-153 | a word is a concept exactly when it is a whole-word occurrence of `[a-z]{5,}` between `\b` boundaries |
| Coverage.VerifyCoverage | summarizer.py:148-159 | the coverage is within 0 to 100; it is 100 exactly when every concept of the original is in the summary, and 0 exactly when the original has concepts and shares none |
| Coverage.CoverageRatio | summarizer.py:158 | the ratio formula is within 0 to 100, reaching each end exactly in those cases |
| Summarizer.TargetWords | summarizer.py:32-37 | 60 exactly for "abstract", 250 exactly for "article", 130 for every other level |
| Summarizer.MinLength | summarizer.py:57 | int(w * 0.9 * 1.3) is the integer w * 117 / 100 |
| Summarizer.MaxLength | summarizer.py:58 | int(w * 1.3 * 1.5) is the integer w * 195 / 100 |
| Summarizer.ChunkBudget | summarizer.py:89 | max(80, int(w * 0.7)): at least both, and equal to one of them |
| Summarizer.FloorOfRatio | summarizer.py:57-58 | the truncation of an exact non-negative quotient is the integer division |
| Summarizer.LengthBoundsOrdered | summarizer.py:57-58 | the minimum length never exceeds the maximum, and both bracket the word target |
| Summarizer.DirectRequest | summarizer.py:51-71 | a direct summary sends the text with those two token bounds, min not above max |
| Summarizer.Outputs | summarizer.py:60-70 | the model's answers to the requests, one per request, in order |
| Summarizer.ChunkRequests | summarizer.py:91-94 | one request per chunk, for the chunk joined with spaces, with the chunk word budget |
| Summarizer.ChunkInputsCoverText | summarizer.py:91-98 | the chunk requests' texts, joined with spaces, are exactly the sentences joined with spaces: no sentence is lost or repeated |
| Summarizer.ChunkInputsNonEmpty | summarizer.py:91-93 | no chunk request is empty when no sentence is |
| Summarizer.HierarchicalSummarize | summarizer.py:73-111 | the chunks are balanced; the trace is the chunk requests followed by one request for their answers joined with spaces; the summary is the answer to that last request |
| Summarizer.SummarizeSentences | summarizer.py:39-47 | a direct request for the joined sentences when they fit in 1024 tokens, otherwise the hierarchical trace |
| Summarizer.GenerateSummary | summarizer.py:22-49 | "" with no request when no sentence is found; otherwise the deduplicated sentences are summarised at the level's word target, whatever deduplication left |
| Summarizer.DistinctSentencesKeepText | summarizer.py:23-40 | when no two sentences share a key, the text the model sees is the cleaned text itself |
| Summarizer.KeptSentencesNonEmpty | summarizer.py:168 | no kept sentence is empty |
| Summarizer.CleanDots | summarizer.py:5-10 | clean_text("...") is "." |
| Summarizer.CleanOfDots | summarizer.py:5-10 | any non-empty run of periods cleans to a single period |
| Summarizer.DotsOneSentence | summarizer.py:12-14 | "..." has one sentence, "." |
| Summarizer.DotHasEmptyKey | summarizer.py:167-168 | that sentence has an empty key, so deduplication drops it |
| Summarizer.OnlyPunctuationReachesModel | summarizer.py:26-29 | for "..." the emptiness check passes but the deduplicated text is "" |
| Summarizer.NoSentenceStillRequests | summarizer.py:39-47 | summarising no sentence makes exactly one request, for the empty text, in the direct and in the hierarchical path |
| Summarizer.PunctuationOnlyRequest | summarizer.py:22-49 | on "..." GenerateSummary's trace is exactly one request, for the empty text |
| Summarizer.GenerateSummaryChecked | summarizer.py:26-29 | the check placed after deduplication: "" with no request when nothing is kept; otherwise the joined sentences are not empty and no request but the last has an empty input (the last, in the hierarchical path, is for the joined chunk summaries, the model's own output, and is not covered) |
| Strings.StripBy | app.py:82 | strip(chars) keeps the slice of the input that starts after the leading dropped characters, and neither of its ends is a dropped character |
| Strings.StripByDropsOnlyEnds | app.py:82 | every character outside that slice is one of the dropped characters |
| Strings.Strip | app.py:81 | strip() never lengthens the text and leaves no whitespace at either end |
| Strings.StripBlank | summarizer.py:14 | strip() gives "" exactly when the text is all whitespace |
| Strings.Without | summarizer.py:5-10 | the text read without a class of characters: exactly the characters outside the class |
| Strings.WithoutConcat | summarizer.py:5-10 | reading without a class works piece by piece, so order is kept |
| Strings.WithoutWithout | summarizer.py:5-10 | reading without a class and then without a larger one is reading without the larger one |
| Strings.StripByWithout | summarizer.py:10 | strip(chars) changes nothing but characters of the stripped class |
| Strings.Join | summarizer.py:40 | joining no part gives "", and the first part starts the result |
| Strings.JoinCons | summarizer.py:40 | a first part and a non-empty rest are joined with one separator between them |
| Strings.TrimEnd | summarizer.py:167 | rstrip(chars) keeps a prefix whose last character is kept and drops only dropped characters |
| Strings.Lower | summarizer.py:167 | lower() on ASCII letters: character by character, A-Z becomes a-z and every other character is kept (see Left out for the rest of Unicode) |
| Strings.SplitWords | app.py:85 | split() yields words: non-empty and without whitespace |
| Strings.RunsExact | app.py:85 | the pieces of split() are exactly the maximal runs of non-whitespace |
| Strings.RunsAreSlices | summarizer.py:151 | every maximal run is a contiguous piece of the text |
| Strings.SplitLines | app.py:153 | split('\n') yields at least one line |
| Strings.JoinSplitLines | app.py:153-156 | joining the lines with newlines gives the text back |
| Strings.Find | app.py:157 | find returns -1 or the position of the character |
| Strings.RFind | app.py:158 | rfind returns -1 or the position of the character |
| Strings.FindAbsent | app.py:157-159 | find and rfind return -1 exactly when the character does not occur |
| Strings.FindFirst | app.py:157 | no occurrence lies before find's result |
| Strings.RFindLast | app.py:158 | no occurrence lies after rfind's result |
| Strings.RemoveAll | app.py:136 | replace(pattern, '') never lengthens the text and leaves text without the pattern unchanged |
| Strings.RemoveAllSplit | app.py:136 | the first occurrence of the pattern is removed with the text before it kept: when the pattern does not occur in `x + pat[..|pat|-1]`, `x + pat + y` becomes `x` followed by the removal on `y` |
| Strings.RemoveAllLeading | app.py:136 | a leading pattern is removed |
| Strings.NoOccurrenceWithoutHead | app.py:136 | the pattern does not occur in text free of its first character followed by a tail shorter than the pattern |
| Strings.OccursPrefix | app.py:136 | text containing "```json" contains "```": every non-empty prefix of an occurring pattern occurs |
| Strings.Take | app.py:83 | s[:n] is the prefix of length min(n, len(s)) |
| Title.GenerateTitle | app.py:69-86 | with an answer the title has at most 100 characters and is a contiguous piece of it; without one the title ends with "..." |
| Title.TitleFromAnswer | app.py:81-83 | the title has at most 100 characters and does not start with a single quote |
| Title.TitleIsSliceOfAnswer | app.py:81-83 | the title is a contiguous piece of the model's answer |
| Title.CleanAnswerKept | app.py:81-83 | an answer of at most 100 characters with no space or quote at either end is the title unchanged |
| Title.FallbackTitle | app.py:85-86 | the fallback title ends with "..." |
| Title.FallbackIsFirstWords | app.py:85-86 | without the "...", the fallback title splits into the text's first five words, or all of them when there are fewer |
| Title.SplitJoinedWords | app.py:85-86 | splitting words joined by single spaces gives the words back |
| Request.DefaultParameters | app.py:291-294 | the level and question count are always allowed values; each is kept exactly when it was allowed, and replaced by "summary" or 5 otherwise |
| Request.Status | app.py:298-327 | a rejection is answered 500 exactly when an extractor failed, 400 otherwise |
| Request.CheckExtracted | app.py:306-309 | extracted text is accepted with its source exactly when it has at least 50 characters; a failed extraction is reported as such |
| Request.ValidateInput | app.py:288-327 | an accepted input has at least 50 characters |
| Request.PastedText | app.py:297-301 | pasted text is accepted exactly when it has at least 50 characters after strip, and then the stripped text is used |
| Request.ServerErrorOnlyFromExtraction | app.py:302-327 | a 500 answer comes only from a URL or file extractor that failed |
| Request.AcceptedUpload | app.py:310-325 | an accepted upload is named after the file, whose lower-cased name ends in .pdf or .txt |
| Request.UnknownInputType | app.py:326-327 | any other input type is rejected as invalid |
| Request.FileKind | app.py:316-323 | the PDF extractor exactly when the last four characters, lower-cased, are ".pdf", the text extractor exactly when they are ".txt", none otherwise |
| Request.LowerIdempotent | app.py:316 | lower() applied twice is lower() once |
| Request.FileKindIgnoresCase | app.py:316-323 | the extractor chosen does not depend on the file name's letter case |
| Json.Loads | app.py:128-134 | an attempt fails exactly when json.loads fails or returns null (the `is None` test), and otherwise gives the parsed value |
| Json.LoadsSome | app.py:144-147 | parsing only happens when a slice was found |
| Json.Lookup | app.py:263-268 | a dict lookup finds a value exactly when the key is present |
| Json.Assign | app.py:264-268 | `d[k] = v` keeps the order and positions of existing keys and appends a new key at the end |
| Json.AssignLookup | app.py:264-268 | after `d[k] = v`, `k` maps to `v`, every other key is unchanged, and keys stay distinct |
| Json.ToDict | app.py:177 | the dict json.loads builds has distinct keys |
| Json.ToDictLookup | app.py:177-180 | a key of that dict maps to the value of the last member with that name |
| Json.DigitsRoundTrip | app.py:179 | str() of a natural number reads back as the number |
| Json.PyStr | app.py:179-180 | str() of a string is the string itself, and str() equals repr() exactly for values that are not strings |
| Json.Repr | app.py:179-180 | repr() of a list is bracketed by `[` `]`, of a dict by `{` `}`, of a string by quotes around the string; repr() of an int reads back as the int, with a leading `-` when negative |
| Salvage.BracketSlice | app.py:144-147 | the slice found starts with the opening and ends with the closing bracket |
| Salvage.BracketSliceIsRegexMatch | app.py:144-147 | the find/rfind slice exists exactly when `\[.*\]` (DOTALL) matches, and is the leftmost-longest match |
| Salvage.SliceBounds | app.py:251-254 | the `start != -1 and end > start` guard holds exactly when there is a slice, and it is raw[start:end] |
| Salvage.BracketSliceOfSuffix | app.py:153-160 | the slice of a tail of the text exists whenever that tail has one, and is a tail of the whole text's slice |
| Salvage.BracketSliceIsSlice | app.py:144-147 | the slice is a contiguous piece of the text |
| Salvage.StripFences | app.py:136 | removing the code fences and stripping never lengthens the text and leaves no whitespace at either end; text without "```" is only stripped |
| Salvage.FencedBlock | app.py:136 | a block fenced as "```json" ... "```" whose body has no backtick comes out as the stripped body |
| Salvage.OpeningFenceRemoved | app.py:136 | the first replace takes out the opening "```json" and nothing else |
| Salvage.ClosingFenceRemoved | app.py:136 | the second replace takes out the closing "```" |
| Questions.LineSalvage | app.py:151-163 | the line loop's text, when it finds one, starts with `[` and ends with `]` |
| Questions.ParsedQuestions | app.py:128-165 | a parsed list is never null, and it is the parse of the answer, of the answer without code fences, or of a bracketed contiguous piece of the answer |
| Questions.ParseQuestions | app.py:128-170 | the four attempts in order (raw, without code fences, regex match, line by line) give the first successful parse |
| Questions.SalvageLines | app.py:151-165 | the line loop stops at the first stripped line starting with `[` whose remaining text has a slice, and parses that slice |
| Questions.LineSalvageFrom | app.py:154-163 | what the loop finds is the slice of the text from some line on |
| Questions.LinesTail | app.py:153-156 | the text from any line on is a tail of the answer |
| Questions.LineSalvageTailOfMatch | app.py:144-160 | whenever the line loop finds a slice, the regex attempt had one too, and the loop's slice is a tail of it |
| Questions.LineSalvageIsSlice | app.py:151-163 | the line loop's text is a bracketed contiguous piece of the answer |
| Questions.ToQuestion | app.py:178-181 | the question and answer have no whitespace at either end; a string value is stripped, nothing more |
| Questions.FilterQuestions | app.py:175-184 | the filter fails exactly when a valid entry's question cannot be logged, and otherwise returns the valid entries converted, in order |
| Questions.FilterStep | app.py:176-181 | one iteration appends the converted entry exactly when it is valid |
| Questions.LogStep | app.py:182 | one iteration raises exactly when the entry is valid and its question is neither a string nor a list |
| Questions.ValidPositions | app.py:176-177 | every listed position holds a valid entry |
| Questions.ValidPositionsInOrder | app.py:175-184 | the positions are increasing and are exactly those of the valid entries |
| Questions.ValidQuestionsInOrder | app.py:175-181 | the k-th kept question is the k-th valid entry, converted |
| Questions.ValidQuestionsTrimmed | app.py:179-180 | every kept question and answer has no whitespace at either end |
| Questions.PyTake | app.py:187 | valid[:n] under Python's slice rules, including negative n |
| Questions.Outcome | app.py:166-187 | each error is raised exactly in its case (no JSON, not a list, a question that cannot be logged, no valid entry); otherwise the first num_questions valid questions, between 1 and num_questions of them |
| Questions.GenerateQuestions | app.py:122-189 | the outcome for the answer stripped and parsed by the four attempts |
| Grading.FixedAnswers | app.py:257-262 | both fixed answers have a False is_correct and a feedback |
| Grading.FinalIsCorrect | app.py:263-268 | the final is_correct is never a string |
| Grading.NormalizeGrade | app.py:263-268 | the three in-place updates: is_correct becomes False when missing and a yes/no reading when a string, feedback gets a default when missing, other keys and positions are unchanged, and only the missing keys are added, is_correct before feedback |
| Grading.AssignAll | app.py:264-268 | every key's value after `d[k] = v` |
| Grading.ParsedGrade | app.py:236-256 | a parsed grade is never null, and it is the parse of the answer or of a contiguous piece of it from a `{` to a `}` |
| Grading.ParseGrade | app.py:236-256 | the three attempts equal the two-attempt specification: raw, then the regex match |
| Grading.VerifyAnswer | app.py:233-275 | no parse gives the fixed "unable" answer; a parse that is not a dict gives the error answer; a dict is normalised; the result always has both keys and a non-string is_correct |
| Grading.NormalizationIdempotent | app.py:263-268 | normalising a normalised grade changes nothing |
| Grading.AffirmativeAnswers | app.py:268 | "True", "YES" and "1" are read as correct; "false", "no", "0" and " true" are not |
| Grading.IsAffirmative | app.py:268 | a yes has one, three or four characters |
| Grading.AffirmativeCharacterised | app.py:268 | a string is read as a yes exactly when it is "1", or spells "true" or "yes" up to ASCII letter case |

## Left out

- The BART tokenizer and model are parameters. Token counts and generations
  are arbitrary functions, and the `truncation=True, max_length=1024` of
  `_direct_summarize` belongs to the model.
- The beam-search settings (`num_beams`, `length_penalty`,
  `no_repeat_ngram_size`) are not modelled. They only affect the model's
  output.
- The `print` logging is left out, including the word counts and the
  coverage line of `_hierarchical_summarize`. `_verify_coverage` is modelled
  as a function, but its result is only printed, so `HierarchicalSummarize`
  does not call it.
- The `get_summarizer` singleton and `SmartSummarizer.__init__` are left
  out. They only load the model.
- `clean_text`'s UTF-8 encode/decode round trip with `"ignore"` is left out.
  Strings are sequences of code points, and only lone surrogates would be
  affected.
- Coverage.IsWordChar: `\b` is modelled with ASCII and Latin-1 word
  characters, not Unicode's full `\w` set.
- Strings.Lower: lower() is modelled on ASCII letters only, one character
  for one character. Python lowers the rest of Unicode too, and may change
  the length ('İ' becomes two characters). The literal comparisons that use
  it ("true", "yes", "1", ".pdf", ".txt") involve only ASCII, but lower()
  also feeds Dedup.Key and Dedup.RemoveDuplicates (summarizer.py:167) and
  Coverage.Concepts (summarizer.py:150, 153). There the model treats
  sentences or words that differ only in non-ASCII case ("Über." and
  "über.") as different, where Python merges them.
- Coverage.VerifyCoverage: the percentage is an exact real, not a binary
  floating-point value.
- Summarizer.MinLength: `int(w * 0.9 * 1.3)` and `int(w * 1.3 * 1.5)` are
  computed exactly. Floating-point rounding could be one lower for some `w`.
- Summarizer.MaxLength: the same exact computation as MinLength.
- Summarizer.ChunkBudget: `int(w * 0.7)` is computed exactly as w * 7 / 10.
  Floating point gives one less for some `w`: `170 * 0.7` is
  118.99999999999999, so Python gives 118 where the model gives 119. The two
  agree for the three targets the program passes (60, 130 and 250), which
  give 80, 91 and 175.
- Json.PyStr: `str()` of a non-string value is modelled without Python's
  escaping of quotes and control characters. For a float it prints the
  repr that the `JFloat` value carries; computing that repr from the JSON
  text is not modelled.
- Title.GenerateTitle: the Groq call is a parameter. Its answer is
  `Some(content)`, and `None` stands for any exception, which leads to the
  fallback. The prompt and the 500-character snippet are not modelled.
- Questions.GenerateQuestions: the prompt, the 8000-character truncation of
  the text sent to Groq and the Groq call itself are not modelled. The
  model's answer is a parameter.
- The error message texts, and the way `generate_questions_groq` re-wraps
  its exceptions, are not modelled. Errors are the `QuizError` and
  `Rejection` values.
- Request.DefaultParameters: `int(num_questions)` is taken as already
  parsed. A field that is not an integer raises and is answered 500 by the
  route's handler; that path is not modelled.
- Request.ValidateInput: the extractors' internals (requests and
  BeautifulSoup, PyPDF2, file decoding) are parameters. `None` stands for
  the exception each raises.
- The rest of the `/summarize` route after validation is not modelled: the
  database session, the 500 answers for an empty summary or no questions,
  and the JSON response. The other routes and `models.py` are not modelled
  either. They are storage and HTTP plumbing.

## Findings

| source | as written | input that shows it | evidently intended | confidence | as-written member | corrected member |
|---|---|---|---|---|---|---|
| summarizer.py:26-29 | the "no sentences" check runs before deduplication, so text whose only sentences have empty keys passes it | `"..."`: clean_text gives ".", one sentence whose key is empty; deduplication keeps nothing and the model is asked to summarise "" | return "" when no sentence survives deduplication, so the model never receives empty text | medium, not executed | Summarizer.OnlyPunctuationReachesModel | Summarizer.GenerateSummaryChecked |
