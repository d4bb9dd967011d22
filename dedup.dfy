/**
 * `_remove_duplicates` of summarizer.py: an order-preserving filter that keeps
 * the first sentence of every normalised key and drops sentences whose key is
 * empty.
 */
module Dedup {
  import opened Strings
  import Normalize

  /** The comparison key: sent.strip().rstrip(".!?").lower(). */
  function Key(sentence: string): (k: string)
    ensures |k| <= |sentence|
    ensures forall i :: 0 <= i < |k| ==> !('A' <= k[i] <= 'Z')
    ensures k != [] ==> !IsSpace(k[0]) && !Normalize.IsTerminal(k[|k| - 1])
    ensures k == [] <==> forall i :: 0 <= i < |Strip(sentence)| ==> Normalize.IsTerminal(Strip(sentence)[i])
  {
    Lower(TrimEnd(Strip(sentence), Normalize.IsTerminal))
  }

  /*
   * The specification and its lemmas are stated for any key function `key`;
   * the summariser uses them with `Key`.
   */

  /** The keys of a list of sentences. */
  function Keys(xs: seq<string>, key: string -> string): set<string> {
    set x | x in xs :: key(x)
  }

  /** The non-empty keys of a list of sentences. */
  function NonEmptyKeys(xs: seq<string>, key: string -> string): set<string> {
    set x | x in xs && key(x) != "" :: key(x)
  }

  /** The specification: the sentences kept after reading `xs` from left to
      right, keeping a sentence when its key is non-empty and not yet seen. */
  function Deduplicated(xs: seq<string>, key: string -> string): seq<string> {
    if xs == [] then []
    else
      var kept := Deduplicated(xs[..|xs| - 1], key);
      var s := xs[|xs| - 1];
      if key(s) != "" && key(s) !in Keys(kept, key) then kept + [s] else kept
  }

  /** _remove_duplicates: a loop over the sentences with a `seen` set and an
      `unique` list that grows at the end. */
  method RemoveDuplicates(sentences: seq<string>) returns (unique: seq<string>)
    ensures unique == Deduplicated(sentences, Key)
  {
    var seen: set<string> := {};
    unique := [];
    for i := 0 to |sentences|
      invariant unique == Deduplicated(sentences[..i], Key)
      invariant seen == Keys(unique, Key)
    {
      var sent := sentences[i];
      var normalized := Key(sent);
      assert sentences[..i + 1][..i] == sentences[..i];
      if normalized != "" && normalized !in seen {
        KeysAppend(unique, sent, Key);
        seen := seen + {normalized};
        unique := unique + [sent];
      }
    }
    assert sentences[..|sentences|] == sentences;
  }

  lemma KeysAppend(xs: seq<string>, s: string, key: string -> string)
    ensures Keys(xs + [s], key) == Keys(xs, key) + {key(s)}
    ensures NonEmptyKeys(xs + [s], key) == NonEmptyKeys(xs, key) + (if key(s) != "" then {key(s)} else {})
  {
    assert forall x :: x in xs + [s] <==> x in xs || x == s;
  }

  /** The keys kept are exactly the non-empty keys of the input. */
  lemma {:induction false} DedupKeys(xs: seq<string>, key: string -> string)
    ensures Keys(Deduplicated(xs, key), key) == NonEmptyKeys(xs, key)
  {
    if xs != [] {
      var p, s := xs[..|xs| - 1], xs[|xs| - 1];
      assert xs == p + [s];
      DedupKeys(p, key);
      KeysAppend(p, s, key);
      KeysAppend(Deduplicated(p, key), s, key);
    }
  }

  /** Every sentence has a non-empty key, and no two share a key. */
  predicate UniqueKeys(ys: seq<string>, key: string -> string) {
    && (forall i :: 0 <= i < |ys| ==> key(ys[i]) != "")
    && (forall i, j :: 0 <= i < j < |ys| ==> key(ys[i]) != key(ys[j]))
  }

  /** The kept sentences have non-empty, pairwise different keys. */
  lemma {:induction false} DedupUniqueKeys(xs: seq<string>, key: string -> string)
    ensures UniqueKeys(Deduplicated(xs, key), key)
  {
    if xs != [] {
      var p, s := xs[..|xs| - 1], xs[|xs| - 1];
      DedupUniqueKeys(p, key);
      var kept := Deduplicated(p, key);
      if key(s) != "" && key(s) !in Keys(kept, key) {
        var r := kept + [s];
        forall i | 0 <= i < |kept| ensures key(kept[i]) != key(s) {
          assert key(kept[i]) in Keys(kept, key);
        }
        forall i | 0 <= i < |r| ensures key(r[i]) != "" {
          if i < |kept| { assert r[i] == kept[i]; }
        }
        forall i, j | 0 <= i < j < |r| ensures key(r[i]) != key(r[j]) {
          assert r[i] == kept[i];
          if j < |kept| { assert r[j] == kept[j]; }
        }
      }
    }
  }

  /** Sentence `i` is the first of its key, and that key is non-empty. */
  predicate IsFirstOfKey(xs: seq<string>, i: nat, key: string -> string)
    requires i < |xs|
  {
    key(xs[i]) != "" && forall j :: 0 <= j < i ==> key(xs[j]) != key(xs[i])
  }

  /** The positions, in increasing order, of the sentences that are the first of their key. */
  function FirstPositions(xs: seq<string>, key: string -> string): (idx: seq<nat>)
    ensures forall k :: 0 <= k < |idx| ==> idx[k] < |xs|
  {
    if xs == [] then []
    else
      var n := |xs| - 1;
      FirstPositions(xs[..n], key) + (if IsFirstOfKey(xs, n, key) then [n] else [])
  }

  lemma FirstOfKeyPrefix(xs: seq<string>, n: nat, i: nat, key: string -> string)
    requires i < n <= |xs|
    ensures IsFirstOfKey(xs[..n], i, key) == IsFirstOfKey(xs, i, key)
  {
    assert forall j :: 0 <= j <= i ==> xs[..n][j] == xs[j];
  }

  lemma FirstOfKeyLast(xs: seq<string>, key: string -> string)
    requires xs != []
    ensures var n := |xs| - 1;
      IsFirstOfKey(xs, n, key) <==> key(xs[n]) != "" && key(xs[n]) !in NonEmptyKeys(xs[..n], key)
  {
    var n := |xs| - 1;
    var p := xs[..n];
    if key(xs[n]) != "" && key(xs[n]) in NonEmptyKeys(p, key) {
      var x :| x in p && key(x) != "" && key(x) == key(xs[n]);
      var j :| 0 <= j < n && p[j] == x;
      assert xs[j] == x;
    }
    if key(xs[n]) != "" && !IsFirstOfKey(xs, n, key) {
      var j :| 0 <= j < n && key(xs[j]) == key(xs[n]);
      assert p[j] == xs[j];
    }
  }

  /** The kept sentences are exactly the first sentence of every non-empty
      key, in input order: an order-preserving subsequence. */
  lemma DedupKeepsFirstOccurrences(xs: seq<string>, key: string -> string)
    ensures var r, idx := Deduplicated(xs, key), FirstPositions(xs, key);
      && |r| == |idx|
      && (forall k :: 0 <= k < |idx| ==> r[k] == xs[idx[k]])
      && (forall k, l :: 0 <= k < l < |idx| ==> idx[k] < idx[l])
      && (forall i :: 0 <= i < |xs| ==> (i in idx <==> IsFirstOfKey(xs, i, key)))
  {
    FirstPositionsInOrder(xs, key);
    DedupAtFirstPositions(xs, key);
  }

  /** FirstPositions lists, in increasing order, exactly the first sentence of every non-empty key. */
  lemma {:induction false} FirstPositionsInOrder(xs: seq<string>, key: string -> string)
    ensures var idx := FirstPositions(xs, key);
      && (forall k, l :: 0 <= k < l < |idx| ==> idx[k] < idx[l])
      && (forall i :: 0 <= i < |xs| ==> (i in idx <==> IsFirstOfKey(xs, i, key)))
  {
    if xs != [] {
      var n := |xs| - 1;
      var p := xs[..n];
      FirstPositionsInOrder(p, key);
      forall i | 0 <= i < n ensures IsFirstOfKey(p, i, key) == IsFirstOfKey(xs, i, key) {
        FirstOfKeyPrefix(xs, n, i, key);
      }
      assert FirstPositions(xs, key) == FirstPositions(p, key) + (if IsFirstOfKey(xs, n, key) then [n] else []);
    }
  }

  /** The kept sentences are the sentences at the first positions. */
  lemma {:induction false} DedupAtFirstPositions(xs: seq<string>, key: string -> string)
    ensures |Deduplicated(xs, key)| == |FirstPositions(xs, key)|
    ensures forall k :: 0 <= k < |FirstPositions(xs, key)| ==>
      Deduplicated(xs, key)[k] == xs[FirstPositions(xs, key)[k]]
  {
    if xs != [] {
      var n := |xs| - 1;
      var p := xs[..n];
      DedupAtFirstPositions(p, key);
      DedupKeys(p, key);
      FirstOfKeyLast(xs, key);
      var kept, pIdx := Deduplicated(p, key), FirstPositions(p, key);
      var add := IsFirstOfKey(xs, n, key);
      var r := kept + (if add then [xs[n]] else []);
      var idx := pIdx + (if add then [n] else []);
      assert Deduplicated(xs, key) == r;
      assert FirstPositions(xs, key) == idx;
      forall k | 0 <= k < |idx| ensures r[k] == xs[idx[k]] {
        if k < |pIdx| {
          assert r[k] == kept[k] && idx[k] == pIdx[k];
          assert p[pIdx[k]] == xs[pIdx[k]];
        }
      }
    }
  }

  /** A list with non-empty, pairwise different keys is left as it is. */
  lemma {:induction false} DedupOfUnique(ys: seq<string>, key: string -> string)
    requires UniqueKeys(ys, key)
    ensures Deduplicated(ys, key) == ys
  {
    if ys != [] {
      var n := |ys| - 1;
      var p := ys[..n];
      DedupOfUnique(p, key);
      forall x | x in p ensures key(x) != key(ys[n]) {
        var j :| 0 <= j < n && p[j] == x;
        assert ys[j] == x;
      }
      assert p + [ys[n]] == ys;
    }
  }

  /** Removing duplicates twice is the same as removing them once. */
  lemma DedupIdempotent(xs: seq<string>, key: string -> string)
    ensures Deduplicated(Deduplicated(xs, key), key) == Deduplicated(xs, key)
  {
    DedupUniqueKeys(xs, key);
    DedupOfUnique(Deduplicated(xs, key), key);
  }
}
