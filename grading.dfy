/**
 * The deterministic part of `verify_answer_groq` in app.py: recovering a
 * JSON object from the grading model's answer and normalising it in place so
 * that it always carries "is_correct" and "feedback". The model call is left
 * to the caller: the answer text and json.loads (`parse`) are parameters.
 */
module Grading {
  import opened Strings
  import opened Wrappers
  import opened Json
  import opened Salvage

  const UnableFeedback := "Unable to verify answer automatically. Please check with instructor."
  const ErrorFeedback := "Error verifying answer. Please try again."
  const NoFeedback := "No feedback available."

  /** The answer returned when no attempt yields a value. */
  const Unable: Dict := [("is_correct", JBool(false)), ("feedback", JStr(UnableFeedback))]

  /** The answer of the `except` branch: the in-place updates raise on any
      parsed value that is not a dict. */
  const Failed: Dict := [("is_correct", JBool(false)), ("feedback", JStr(ErrorFeedback))]

  /** Both fixed answers carry a False "is_correct" and a feedback. */
  lemma FixedAnswers()
    ensures Lookup(Unable, "is_correct") == Some(JBool(false)) && HasKey(Unable, "feedback")
    ensures Lookup(Failed, "is_correct") == Some(JBool(false)) && HasKey(Failed, "feedback")
  {
    assert Unable[0].0 == "is_correct" && Unable[1].0 == "feedback";
    assert Failed[0].0 == "is_correct" && Failed[1].0 == "feedback";
  }

  /** s.lower() in ['true', 'yes', '1']. */
  predicate IsAffirmative(s: string)
    ensures IsAffirmative(s) ==> |s| == 1 || |s| == 3 || |s| == 4
  {
    var l := Lower(s);
    l == "true" || l == "yes" || l == "1"
  }

  /** The "is_correct" a grade ends with, given the one it came with:
      False when missing, a string read as a yes/no answer, anything else kept. */
  function FinalIsCorrect(v: Option<Json>): (r: Json)
    ensures !r.JStr?
  {
    match v
    case None => JBool(false)
    case Some(JStr(s)) => JBool(IsAffirmative(s))
    case Some(other) => other
  }

  /**
   * `r` is `d` after the three updates: "is_correct" and "feedback" are
   * present with their final values, every other key keeps its value, the
   * keys of `d` keep their positions, a missing "is_correct" is added
   * before a missing "feedback", and keys are still distinct.
   */
  ghost predicate IsNormalization(d: Dict, r: Dict) {
    && DistinctKeys(r)
    && IsNormalizedShape(d, r)
    && Lookup(r, "is_correct") == Some(FinalIsCorrect(Lookup(d, "is_correct")))
    && Lookup(r, "feedback") == (if HasKey(d, "feedback") then Lookup(d, "feedback") else Some(JStr(NoFeedback)))
    && (forall k :: k != "is_correct" && k != "feedback" ==> Lookup(r, k) == Lookup(d, k))
  }

  /** The three in-place updates of the parsed dict, in app.py's order. */
  method NormalizeGrade(d: Dict) returns (result: Dict)
    requires DistinctKeys(d)
    ensures IsNormalization(d, result)
    ensures |result| <= |d| + 2
  {
    result := d;
    if !HasKey(result, "is_correct") {
      AssignAll(result, "is_correct", JBool(false));
      result := Assign(result, "is_correct", JBool(false));
    }
    assert Lookup(result, "is_correct") == Some(if HasKey(d, "is_correct") then Lookup(d, "is_correct").value else JBool(false));
    assert |result| == |d| + (if HasKey(d, "is_correct") then 0 else 1);
    assert HasKey(result, "feedback") == HasKey(d, "feedback") by {
      assert Lookup(result, "feedback") == Lookup(d, "feedback");
    }
    var before := result;
    if !HasKey(result, "feedback") {
      AssignAll(result, "feedback", JStr(NoFeedback));
      result := Assign(result, "feedback", JStr(NoFeedback));
    }
    var shaped := result;
    assert IsNormalizedShape(d, shaped);
    var isCorrect := Lookup(result, "is_correct").value;
    if isCorrect.JStr? {
      AssignAll(result, "is_correct", JBool(IsAffirmative(isCorrect.s)));
      result := Assign(result, "is_correct", JBool(IsAffirmative(isCorrect.s)));
      assert IsNormalizedShape(d, result) by {
        assert forall i :: 0 <= i < |shaped| ==> result[i].0 == shaped[i].0;
      }
    }
  }

  /** The key layout IsNormalization asks for. */
  ghost predicate IsNormalizedShape(d: Dict, r: Dict) {
    && |r| == |d| + (if HasKey(d, "is_correct") then 0 else 1) + (if HasKey(d, "feedback") then 0 else 1)
    && (forall i :: 0 <= i < |d| ==> r[i].0 == d[i].0)
    && (!HasKey(d, "is_correct") ==> r[|d|].0 == "is_correct")
    && (!HasKey(d, "feedback") ==> r[|r| - 1].0 == "feedback")
  }

  /** AssignLookup for every key at once. */
  lemma AssignAll(d: Dict, k: string, v: Json)
    requires DistinctKeys(d)
    ensures DistinctKeys(Assign(d, k, v))
    ensures forall q :: Lookup(Assign(d, k, v), q) == if q == k then Some(v) else Lookup(d, q)
  {
    forall q ensures Lookup(Assign(d, k, v), q) == if q == k then Some(v) else Lookup(d, q) {
      AssignLookup(d, k, v, q);
    }
    AssignLookup(d, k, v, k);
  }

  /** The specification of the parsing attempts on the cleaned answer `raw`:
      the whole text, then the regex match of `\{.*\}`. */
  function ParsedGrade(parse: string -> Option<Json>, raw: string): (r: Option<Json>)
    ensures r.Some? ==> r.value != JNull
    ensures r.Some? ==> r == parse(raw) || exists t :: IsSliceOf(t, raw) && Braced(t) && parse(t) == r
  {
    BracketSliceIsSlice(raw, '{', '}');
    var whole := Loads(parse, raw);
    if whole.Some? then whole else LoadsSome(parse, BracketSlice(raw, '{', '}'))
  }

  /** A text cut out from the first '{' through the last '}'. */
  predicate Braced(t: string) {
    |t| >= 2 && t[0] == '{' && t[|t| - 1] == '}'
  }

  /**
   * The three attempts, one after the other, as app.py runs them. The third
   * cuts with find/rfind the same text the regex matched
   * (BracketSliceIsRegexMatch), so it never succeeds where the regex failed:
   * the result is the one of the first two attempts.
   */
  method ParseGrade(parse: string -> Option<Json>, raw: string) returns (parsed: Option<Json>)
    ensures parsed == ParsedGrade(parse, raw)
  {
    parsed := Loads(parse, raw);
    if parsed.None? {
      // re.search(r'\{.*\}', raw, re.DOTALL)
      var found := BracketSlice(raw, '{', '}');
      if found.Some? {
        parsed := Loads(parse, found.value);
      }
    }
    if parsed.None? {
      var start := Find(raw, '{');
      var end := RFind(raw, '}') + 1;
      if start != -1 && end > start {
        SliceBounds(raw, '{', '}');
        parsed := Loads(parse, raw[start..end]);
      }
    }
  }

  /** verify_answer_groq after the model call, on the answer `content`. */
  method VerifyAnswer(parse: string -> Option<Json>, content: string) returns (result: Dict)
    ensures var parsed := ParsedGrade(parse, StripFences(Strip(content)));
      && (parsed.None? ==> result == Unable)
      && (parsed.Some? && !parsed.value.JObj? ==> result == Failed)
      && (parsed.Some? && parsed.value.JObj? ==> IsNormalization(ToDict(parsed.value.members), result))
    ensures HasKey(result, "is_correct") && HasKey(result, "feedback")
    ensures !Lookup(result, "is_correct").value.JStr?
  {
    var raw := StripFences(Strip(content));
    var parsed := ParseGrade(parse, raw);
    if parsed.None? {
      FixedAnswers();
      return Unable;
    }
    if !parsed.value.JObj? {
      FixedAnswers();
      // `"is_correct" not in result` and the item assignments raise a
      // TypeError on a list, a string or a number
      return Failed;
    }
    result := NormalizeGrade(ToDict(parsed.value.members));
    assert Lookup(result, "is_correct").Some? && Lookup(result, "feedback").Some?;
  }

  /** A grade that is already normalised is left as it is: normalising is idempotent. */
  lemma NormalizationIdempotent(d: Dict, r: Dict)
    requires IsNormalization(d, r)
    ensures IsNormalization(r, r)
  {
    assert HasKey(r, "feedback") by {
      assert Lookup(r, "feedback").Some?;
    }
  }

  /** How a string "is_correct" is read: the case of ASCII letters does not
      matter, and only "true", "yes" and "1" count as a yes. */
  lemma AffirmativeAnswers()
    ensures IsAffirmative("True") && IsAffirmative("YES") && IsAffirmative("1")
    ensures !IsAffirmative("false") && !IsAffirmative("no") && !IsAffirmative("0") && !IsAffirmative(" true")
  {
    assert Lower("True") == "true";
    assert Lower("YES") == "yes";
  }

  /** Exactly the strings that spell "true" or "yes" up to ASCII letter
      case, and "1", are read as a yes. */
  lemma AffirmativeCharacterised(s: string)
    ensures IsAffirmative(s) <==>
      || s == "1"
      || (|s| == 4 && forall i :: 0 <= i < 4 ==> LowerChar(s[i]) == "true"[i])
      || (|s| == 3 && forall i :: 0 <= i < 3 ==> LowerChar(s[i]) == "yes"[i])
  {
    var l := Lower(s);
    if |s| == 1 {
      assert l == "1" <==> s == "1" by {
        if l == "1" {
          assert LowerChar(s[0]) == '1';
        }
      }
    }
    if |s| == 4 {
      assert l == "true" <==> forall i :: 0 <= i < 4 ==> LowerChar(s[i]) == "true"[i];
    }
    if |s| == 3 {
      assert l == "yes" <==> forall i :: 0 <= i < 3 ==> LowerChar(s[i]) == "yes"[i];
    }
  }
}
