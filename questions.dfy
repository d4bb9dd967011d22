/**
 * The deterministic part of `generate_questions_groq` in app.py: recovering a
 * JSON list from the model's answer by four successive attempts, keeping the
 * well-formed question/answer entries in order, and cutting the list to the
 * number of questions asked for. The model call itself is left to the caller:
 * the answer text and json.loads (`parse`) are parameters.
 */
module Questions {
  import opened Strings
  import opened Wrappers
  import opened Json
  import opened Salvage

  /** The errors the function raises (each ends the request with status 500). */
  datatype QuizError =
    | NoJson            // "Could not extract valid JSON from Groq response"
    | NotAList          // "Response is not a list"
    | QuestionNotText   // the log line's q['question'][:50] fails on a value that is not a str or list
    | NoValidQuestions  // "No valid questions found in response"

  datatype Question = Question(question: string, answer: string)

  /** Line `i` starts with '[' once stripped, and the text from it to the
      end holds a bracket slice: that slice. */
  function SliceFromLine(lines: seq<string>, i: nat): Option<string>
    requires i < |lines|
  {
    var line := Strip(lines[i]);
    if line != [] && line[0] == '[' then BracketSlice(Join("\n", lines[i..]), '[', ']') else None
  }

  /**
   * The line-by-line attempt from line `i` on: the first line that yields a
   * slice. The loop stops at that slice whether or not it parses.
   */
  function LineSalvage(lines: seq<string>, i: nat): (r: Option<string>)
    ensures r.Some? ==> Bracketed(r.value)
    decreases |lines| - i
  {
    if i >= |lines| then None
    else if SliceFromLine(lines, i).Some? then SliceFromLine(lines, i)
    else LineSalvage(lines, i + 1)
  }

  /**
   * The specification of the parsing attempts on the stripped answer `raw`:
   * the whole text, the text without code fences, the regex match of
   * `\[.*\]`, and the line-by-line slice; the first that yields a value wins.
   */
  function ParsedQuestions(parse: string -> Option<Json>, raw: string): (r: Option<Json>)
    ensures r.Some? ==> r.value != JNull && exists t :: FromAnswer(raw, t) && parse(t) == r
  {
    LineSalvageIsSlice(raw);
    BracketSliceIsSlice(raw, '[', ']');
    var whole := Loads(parse, raw);
    var unfenced := Loads(parse, StripFences(raw));
    var matched := LoadsSome(parse, BracketSlice(raw, '[', ']'));
    if whole.Some? then whole
    else if unfenced.Some? then unfenced
    else if matched.Some? then matched
    else LoadsSome(parse, LineSalvage(SplitLines(raw), 0))
  }

  /** A text an attempt may parse: the answer, the answer without code
      fences, or a bracketed piece of the answer. */
  predicate FromAnswer(raw: string, t: string) {
    t == raw || t == StripFences(raw) || (IsSliceOf(t, raw) && Bracketed(t))
  }

  /** The four attempts, one after the other, as app.py runs them. */
  method ParseQuestions(parse: string -> Option<Json>, raw: string) returns (questions: Option<Json>)
    ensures questions == ParsedQuestions(parse, raw)
  {
    questions := Loads(parse, raw);
    if questions.None? {
      questions := Loads(parse, StripFences(raw));
    }
    if questions.None? {
      // re.search(r'\[.*\]', raw, re.DOTALL); BracketSliceIsRegexMatch shows
      // that its match is this slice
      var found := BracketSlice(raw, '[', ']');
      if found.Some? {
        questions := Loads(parse, found.value);
      }
    }
    if questions.None? {
      questions := SalvageLines(parse, SplitLines(raw));
    }
  }

  /** The line-by-line loop: the first slice it finds is parsed, and the loop ends there. */
  method SalvageLines(parse: string -> Option<Json>, lines: seq<string>) returns (questions: Option<Json>)
    ensures questions == LoadsSome(parse, LineSalvage(lines, 0))
  {
    questions := None;
    var i := 0;
    while i < |lines|
      invariant i <= |lines|
      invariant LineSalvage(lines, i) == LineSalvage(lines, 0)
    {
      var slice := SliceFromLine(lines, i);
      if slice.Some? {
        return Loads(parse, slice.value);
      }
      i := i + 1;
    }
  }

  /** The line-by-line slice is the bracket slice of the text from some line on. */
  lemma {:induction false} LineSalvageFrom(lines: seq<string>, i: nat)
    ensures LineSalvage(lines, i).Some? ==>
      exists j :: i <= j < |lines| && BracketSlice(Join("\n", lines[j..]), '[', ']') == LineSalvage(lines, i)
    decreases |lines| - i
  {
    if i < |lines| && SliceFromLine(lines, i).None? {
      LineSalvageFrom(lines, i + 1);
    }
  }

  /** The text from line `j` on is a tail of the answer. */
  lemma LinesTail(raw: string, j: nat)
    requires j < |SplitLines(raw)|
    ensures EndsWith(raw, Join("\n", SplitLines(raw)[j..]))
  {
    JoinSplitLines(raw);
    JoinSuffix("\n", SplitLines(raw), j);
  }

  /**
   * The line-by-line attempt never reaches past the regex attempt: when it
   * finds a slice, the regex matched too, and the slice is a tail of the
   * regex match (it starts at or after the first '[' and ends at the same
   * last ']').
   */
  lemma LineSalvageTailOfMatch(raw: string)
    ensures LineSalvage(SplitLines(raw), 0).Some? ==>
      && BracketSlice(raw, '[', ']').Some?
      && EndsWith(BracketSlice(raw, '[', ']').value, LineSalvage(SplitLines(raw), 0).value)
  {
    var lines := SplitLines(raw);
    LineSalvageFrom(lines, 0);
    if LineSalvage(lines, 0).Some? {
      var j :| 0 <= j < |lines| && BracketSlice(Join("\n", lines[j..]), '[', ']') == LineSalvage(lines, 0);
      LinesTail(raw, j);
      BracketSliceOfSuffix(raw, Join("\n", lines[j..]), '[', ']');
    }
  }

  /** A text cut out from the first '[' through the last ']'. */
  predicate Bracketed(t: string) {
    |t| >= 2 && t[0] == '[' && t[|t| - 1] == ']'
  }

  /** The line-by-line attempt's text is a bracketed slice of the answer. */
  lemma LineSalvageIsSlice(raw: string)
    ensures var line := LineSalvage(SplitLines(raw), 0);
      line.Some? ==> IsSliceOf(line.value, raw) && Bracketed(line.value)
  {
    var line := LineSalvage(SplitLines(raw), 0);
    if line.Some? {
      LineSalvageTailOfMatch(raw);
      var whole := BracketSlice(raw, '[', ']').value;
      BracketSliceIsSlice(raw, '[', ']');
      SliceOfTail(line.value, whole, raw);
      LineSalvageFrom(SplitLines(raw), 0);
    }
  }

  /**
   * isinstance(q, dict) and 'question' in q and 'answer' in q. A key is in
   * the dict json.loads builds exactly when some member carries it
   * (ToDictLookup), so the test is made on the members.
   */
  predicate IsValidEntry(q: Json) {
    q.JObj? && LastValue(q.members, "question").Some? && LastValue(q.members, "answer").Some?
  }

  /** q[k] for a dict entry that has key `k`: the last member's value. */
  function Field(q: Json, k: string): Json
    requires q.JObj? && LastValue(q.members, k).Some?
  {
    LastValue(q.members, k).value
  }

  /** {'question': str(q['question']).strip(), 'answer': str(q['answer']).strip()} */
  function ToQuestion(q: Json): (r: Question)
    requires IsValidEntry(q)
    ensures IsTrimmed(r.question) && IsTrimmed(r.answer)
    ensures Field(q, "question").JStr? ==> r.question == Strip(Field(q, "question").s)
    ensures Field(q, "answer").JStr? ==> r.answer == Strip(Field(q, "answer").s)
  {
    Question(Strip(PyStr(Field(q, "question"))), Strip(PyStr(Field(q, "answer"))))
  }

  /** Every kept question and answer is stripped of surrounding whitespace. */
  lemma ValidQuestionsTrimmed(items: seq<Json>)
    ensures forall k :: 0 <= k < |ValidQuestions(items)| ==>
      IsTrimmed(ValidQuestions(items)[k].question) && IsTrimmed(ValidQuestions(items)[k].answer)
  {
    ValidQuestionsInOrder(items);
    forall k | 0 <= k < |ValidQuestions(items)|
      ensures IsTrimmed(ValidQuestions(items)[k].question) && IsTrimmed(ValidQuestions(items)[k].answer)
    {
      var q := items[ValidPositions(items)[k]];
      assert ValidQuestions(items)[k] == ToQuestion(q);
    }
  }

  /** q['question'][:50] succeeds: the value is a str or a list. */
  predicate Printable(q: Json)
    requires IsValidEntry(q)
  {
    Field(q, "question").JStr? || Field(q, "question").JArr?
  }

  /** Every valid entry can be logged. */
  predicate LogsCleanly(items: seq<Json>) {
    forall i :: 0 <= i < |items| && IsValidEntry(items[i]) ==> Printable(items[i])
  }

  /** The specification of the filter: the valid entries in order, converted. */
  function ValidQuestions(items: seq<Json>): seq<Question> {
    if items == [] then []
    else
      var n := |items| - 1;
      ValidQuestions(items[..n]) + (if IsValidEntry(items[n]) then [ToQuestion(items[n])] else [])
  }

  /** The filter loop over the parsed list, appending to `valid`. */
  method FilterQuestions(items: seq<Json>) returns (r: Result<seq<Question>, QuizError>)
    ensures r.Err? <==> !LogsCleanly(items)
    ensures r.Err? ==> r.error == QuestionNotText
    ensures r.Ok? ==> r.value == ValidQuestions(items)
  {
    var valid := [];
    for idx := 0 to |items|
      invariant valid == ValidQuestions(items[..idx])
      invariant LogsCleanly(items[..idx])
    {
      var q := items[idx];
      FilterStep(items, idx);
      LogStep(items, idx);
      if IsValidEntry(q) {
        valid := valid + [ToQuestion(q)];
        if !Printable(q) {
          return Err(QuestionNotText);
        }
      }
    }
    assert items[..|items|] == items;
    return Ok(valid);
  }

  /** One more entry: the filter grows by its conversion when it is valid. */
  lemma FilterStep(items: seq<Json>, idx: nat)
    requires idx < |items|
    ensures ValidQuestions(items[..idx + 1]) ==
      ValidQuestions(items[..idx]) + (if IsValidEntry(items[idx]) then [ToQuestion(items[idx])] else [])
  {
    var p := items[..idx + 1];
    assert p[..idx] == items[..idx];
    assert p[idx] == items[idx];
  }

  /** One more entry: it can be logged unless it is valid with a question
      that is not text; and once an entry cannot be logged, the whole list cannot. */
  lemma LogStep(items: seq<Json>, idx: nat)
    requires idx < |items|
    ensures LogsCleanly(items[..idx + 1]) <==>
      LogsCleanly(items[..idx]) && (IsValidEntry(items[idx]) ==> Printable(items[idx]))
    ensures !LogsCleanly(items[..idx + 1]) ==> !LogsCleanly(items)
  {
    var p := items[..idx + 1];
    assert forall i :: 0 <= i <= idx ==> p[i] == items[i];
    assert forall i :: 0 <= i < idx ==> items[..idx][i] == items[i];
  }

  /** The positions, in increasing order, of the valid entries. */
  function ValidPositions(items: seq<Json>): (idx: seq<nat>)
    ensures forall k :: 0 <= k < |idx| ==> idx[k] < |items| && IsValidEntry(items[idx[k]])
  {
    if items == [] then []
    else
      var n := |items| - 1;
      ValidPositions(items[..n]) + (if IsValidEntry(items[n]) then [n] else [])
  }

  /** `idx` lists, in increasing order, exactly the positions of the valid entries. */
  predicate ValidInOrder(items: seq<Json>, idx: seq<nat>) {
    && (forall k :: 0 <= k < |idx| ==> idx[k] < |items| && IsValidEntry(items[idx[k]]))
    && (forall k, l :: 0 <= k < l < |idx| ==> idx[k] < idx[l])
    && (forall i :: 0 <= i < |items| ==> (i in idx <==> IsValidEntry(items[i])))
  }

  /** The positions of the valid entries, in their original order. */
  lemma {:induction false} ValidPositionsInOrder(items: seq<Json>)
    ensures ValidInOrder(items, ValidPositions(items))
  {
    if items != [] {
      var n := |items| - 1;
      var p := items[..n];
      ValidPositionsInOrder(p);
      assert forall i :: 0 <= i < n ==> p[i] == items[i];
    }
  }

  /** `r` holds, in order, the entries of `items` at the positions `idx`,
      each converted to a stripped question and answer. */
  predicate ConvertedAt(items: seq<Json>, r: seq<Question>, idx: seq<nat>) {
    && |r| == |idx|
    && forall k :: 0 <= k < |idx| ==>
         idx[k] < |items| && IsValidEntry(items[idx[k]]) && r[k] == ToQuestion(items[idx[k]])
  }

  /** The filter keeps the entries at the valid positions (see
      ValidPositionsInOrder), each converted to a stripped question and answer. */
  lemma {:induction false} ValidQuestionsInOrder(items: seq<Json>)
    ensures |ValidPositions(items)| <= |items|
    ensures ConvertedAt(items, ValidQuestions(items), ValidPositions(items))
  {
    if items == [] {
      assert ValidQuestions(items) == [] && ValidPositions(items) == [];
    } else {
      var n := |items| - 1;
      ValidQuestionsInOrder(items[..n]);
      var pr, pIdx := ValidQuestions(items[..n]), ValidPositions(items[..n]);
      ConvertedInLonger(items, n, pr, pIdx);
      var extra := if IsValidEntry(items[n]) then [ToQuestion(items[n])] else [];
      var extraIdx := if IsValidEntry(items[n]) then [n] else [];
      ValidSnoc(items, extra, extraIdx);
      ConvertedAppend(items, pr, pIdx, extra, extraIdx);
    }
  }

  /** What holds of a prefix of `items` holds of `items`. */
  lemma ConvertedInLonger(items: seq<Json>, n: nat, r: seq<Question>, idx: seq<nat>)
    requires n <= |items| && ConvertedAt(items[..n], r, idx)
    ensures ConvertedAt(items, r, idx)
    ensures forall k :: 0 <= k < |idx| ==> idx[k] < n
  {
    forall k | 0 <= k < |idx| ensures items[idx[k]] == items[..n][idx[k]] { }
  }

  /** Appending the last entry, when it is valid, keeps the lists in step. */
  lemma ConvertedAppend(items: seq<Json>, r: seq<Question>, idx: seq<nat>, extra: seq<Question>, extraIdx: seq<nat>)
    requires items != [] && ConvertedAt(items, r, idx)
    requires extra == if IsValidEntry(items[|items| - 1]) then [ToQuestion(items[|items| - 1])] else []
    requires extraIdx == if IsValidEntry(items[|items| - 1]) then [|items| - 1] else []
    ensures ConvertedAt(items, r + extra, idx + extraIdx)
  {
    var n := |items| - 1;
    if IsValidEntry(items[n]) {
      var r', idx' := r + [ToQuestion(items[n])], idx + [n];
      forall k | 0 <= k < |idx'|
        ensures idx'[k] < |items| && IsValidEntry(items[idx'[k]]) && r'[k] == ToQuestion(items[idx'[k]])
      {
        if k < |idx| {
          assert r'[k] == r[k] && idx'[k] == idx[k];
        }
      }
    } else {
      assert r + extra == r && idx + extraIdx == idx;
    }
  }

  /** One step of the filter: the last entry is kept, with its position, exactly when it is valid. */
  lemma ValidSnoc(items: seq<Json>, extra: seq<Question>, extraIdx: seq<nat>)
    requires items != []
    requires extra == if IsValidEntry(items[|items| - 1]) then [ToQuestion(items[|items| - 1])] else []
    requires extraIdx == if IsValidEntry(items[|items| - 1]) then [|items| - 1] else []
    ensures ValidQuestions(items) == ValidQuestions(items[..|items| - 1]) + extra
    ensures ValidPositions(items) == ValidPositions(items[..|items| - 1]) + extraIdx
  {
  }

  /** valid[:n] with Python's slice rules, a negative `n` counting from the end. */
  function PyTake<T>(s: seq<T>, n: int): (r: seq<T>)
    ensures n >= 0 ==> |r| == if n < |s| then n else |s|
    ensures n < 0 ==> |r| == if |s| + n > 0 then |s| + n else 0
    ensures r == s[..|r|]
  {
    if n >= 0 then Take(s, n)
    else if |s| + n > 0 then s[..|s| + n]
    else []
  }

  /**
   * What generate_questions_groq makes of the parsed answer: the error it
   * raises, or the first `numQuestions` valid questions.
   */
  function Outcome(parsed: Option<Json>, numQuestions: int): (r: Result<seq<Question>, QuizError>)
    ensures r == Err(NoJson) <==> parsed.None?
    ensures r == Err(NotAList) <==> parsed.Some? && !parsed.value.JArr?
    ensures r == Err(QuestionNotText) <==>
      parsed.Some? && parsed.value.JArr? && !LogsCleanly(parsed.value.items)
    ensures r == Err(NoValidQuestions) <==>
      parsed.Some? && parsed.value.JArr? && LogsCleanly(parsed.value.items)
      && ValidQuestions(parsed.value.items) == []
    ensures r.Ok? ==>
      parsed.Some? && parsed.value.JArr? && r.value == PyTake(ValidQuestions(parsed.value.items), numQuestions)
    ensures r.Ok? && numQuestions >= 1 ==> 1 <= |r.value| <= numQuestions
  {
    if parsed.None? then Err(NoJson)
    else if !parsed.value.JArr? then Err(NotAList)
    else if !LogsCleanly(parsed.value.items) then Err(QuestionNotText)
    else if ValidQuestions(parsed.value.items) == [] then Err(NoValidQuestions)
    else Ok(PyTake(ValidQuestions(parsed.value.items), numQuestions))
  }

  /** generate_questions_groq after the model call, on the model's answer `content`. */
  method GenerateQuestions(parse: string -> Option<Json>, content: string, numQuestions: int)
    returns (r: Result<seq<Question>, QuizError>)
    ensures r == Outcome(ParsedQuestions(parse, Strip(content)), numQuestions)
  {
    var raw := Strip(content);
    var questions := ParseQuestions(parse, raw);
    if questions.None? {
      return Err(NoJson);
    }
    if !questions.value.JArr? {
      return Err(NotAList);
    }
    var valid := FilterQuestions(questions.value.items);
    if valid.Err? {
      return Err(valid.error);
    }
    if |valid.value| == 0 {
      return Err(NoValidQuestions);
    }
    return Ok(PyTake(valid.value, numQuestions));
  }
}
