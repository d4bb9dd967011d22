/**
 * `_verify_coverage` of summarizer.py: the share, in percent, of the
 * original text's "concepts" (lower-case words of five or more letters) that
 * reappear in the summary.
 */
module Coverage {
  import opened Strings

  /** The regex class `\w`: letters, digits and '_' (ASCII and Latin-1). */
  predicate IsWordChar(c: char) {
    || 'a' <= c <= 'z' || 'A' <= c <= 'Z' || '0' <= c <= '9' || c == '_'
    || c == '\U{AA}' || c == '\U{B2}' || c == '\U{B3}' || c == '\U{B5}'
    || c == '\U{B9}' || c == '\U{BA}' || '\U{BC}' <= c <= '\U{BE}'
    || '\U{C0}' <= c <= '\U{D6}' || '\U{D8}' <= c <= '\U{F6}' || '\U{F8}' <= c <= '\U{FF}'
  }

  /** A word the regex `[a-z]{5,}` matches in full. */
  predicate IsConcept(w: string) {
    |w| >= 5 && forall i :: 0 <= i < |w| ==> 'a' <= w[i] <= 'z'
  }

  /**
   * set(re.findall(r'\b[a-z]{5,}\b', s)): a match sits between two word
   * boundaries, so it is a whole maximal run of word characters, made only
   * of five or more lower-case letters.
   */
  function Concepts(s: string): (concepts: set<string>)
    ensures forall w :: w in concepts ==> IsConcept(w) && IsSliceOf(w, s)
  {
    RunsAreSlices(s, IsWordChar);
    set w | w in Runs(s, IsWordChar) && IsConcept(w)
  }

  /** The regex's own reading: `w` is a concept of `s` exactly when it occurs
      in `s` with a word boundary on each side and matches `[a-z]{5,}`. */
  lemma ConceptsMatchRegex(s: string, w: string)
    ensures w in Concepts(s) <==> IsConcept(w) && IsMaximalRun(s, w, IsWordChar)
  {
    RunsExact(s, IsWordChar, w);
  }

  /**
   * _verify_coverage: 100 when the original has no concept, otherwise
   * |original & summary| / |original| * 100, computed exactly.
   */
  function VerifyCoverage(originalSentences: seq<string>, summary: string): (coverage: real)
    ensures 0.0 <= coverage <= 100.0
    ensures var original := Concepts(Lower(Join(" ", originalSentences)));
      coverage == 100.0 <==> original <= Concepts(Lower(summary))
    ensures var original := Concepts(Lower(Join(" ", originalSentences)));
      coverage == 0.0 <==> original != {} && original !! Concepts(Lower(summary))
  {
    var original := Concepts(Lower(Join(" ", originalSentences)));
    var covered := Concepts(Lower(summary));
    if original == {} then 100.0
    else
      CoverageRatio(original, covered);
      (|original * covered| as real) / (|original| as real) * 100.0
  }

  /** The arithmetic behind VerifyCoverage's bounds. */
  lemma CoverageRatio(original: set<string>, covered: set<string>)
    requires original != {}
    ensures var r := (|original * covered| as real) / (|original| as real) * 100.0;
      && 0.0 <= r <= 100.0
      && (r == 100.0 <==> original <= covered)
      && (r == 0.0 <==> original !! covered)
  {
    var common := original * covered;
    assert common <= original;
    var n, m := |common| as real, |original| as real;
    assert |common| <= |original| by {
      SubsetCard(common, original);
    }
    if original <= covered {
      assert common == original;
    } else {
      var x :| x in original && x !in covered;
      assert common <= original - {x};
      SubsetCard(common, original - {x});
    }
    if common == {} {
      assert original !! covered;
    } else {
      var y :| y in common;
    }
  }

  lemma SubsetCard(a: set<string>, b: set<string>)
    requires a <= b
    ensures |a| <= |b|
  {
    assert b == a + (b - a);
  }
}
