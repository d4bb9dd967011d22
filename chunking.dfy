/**
 * `_create_balanced_chunks` of summarizer.py: the sentences are cut, in
 * order, into chunks of at most 900 tokens, with forced cuts at one third and
 * two thirds of the sentence count so that beginning, middle and end are
 * summarised separately.
 */
module Chunking {
  import opened Strings

  /** The per-chunk token budget (kept under the model's 1024-token window). */
  const ChunkLimit: nat := 900

  /** The sentences of the chunks, in order: sum(chunks, []). */
  function Flatten(chunks: seq<seq<string>>): seq<string> {
    if chunks == [] then []
    else Flatten(chunks[..|chunks| - 1]) + chunks[|chunks| - 1]
  }

  /** The tokens of a chunk: the sum of the tokenizer's count for each sentence. */
  function TokenSum(chunk: seq<string>, tok: string -> nat): nat {
    if chunk == [] then 0
    else TokenSum(chunk[..|chunk| - 1], tok) + tok(chunk[|chunk| - 1])
  }

  /** The index, in the flattened sentence list, of each chunk's first sentence. */
  function Starts(chunks: seq<seq<string>>): (r: seq<nat>)
    ensures |r| == |chunks|
  {
    if chunks == [] then []
    else
      var n := |chunks| - 1;
      Starts(chunks[..n]) + [|Flatten(chunks[..n])|]
  }

  /** Sentence `i` of `total` is a forced cut: i is total // 3 or 2 * total // 3. */
  predicate IsForcedBreak(total: nat, i: nat) {
    i == total / 3 || i == 2 * total / 3
  }

  /** Every chunk is non-empty. */
  predicate NonEmptyChunks(chunks: seq<seq<string>>) {
    forall k :: 0 <= k < |chunks| ==> chunks[k] != []
  }

  /**
   * `chunks` is the chunking the greedy loop produces after reading `prefix`
   * out of `total` sentences: the chunks spell out the prefix, none is empty,
   * a chunk of two or more sentences keeps within the budget, every forced
   * cut inside the prefix starts a chunk, and every chunk after the first
   * starts either at a forced cut or because its first sentence would have
   * taken the previous chunk over the budget.
   */
  predicate Balanced(prefix: seq<string>, total: nat, tok: string -> nat, chunks: seq<seq<string>>) {
    && Flatten(chunks) == prefix
    && NonEmptyChunks(chunks)
    && (forall k :: 0 <= k < |chunks| && |chunks[k]| >= 2 ==> TokenSum(chunks[k], tok) <= ChunkLimit)
    && (forall i :: 0 < i < |prefix| && IsForcedBreak(total, i) ==> i in Starts(chunks))
    && (forall k {:trigger Starts(chunks)[k]} :: 1 <= k < |chunks| ==>
          IsForcedBreak(total, Starts(chunks)[k])
          || TokenSum(chunks[k - 1], tok) + tok(chunks[k][0]) > ChunkLimit)
  }

  /** The specification of the whole loop. */
  predicate IsBalancedChunking(sentences: seq<string>, tok: string -> nat, chunks: seq<seq<string>>) {
    Balanced(sentences, |sentences|, tok, chunks)
  }

  /** The chunks so far, counting the open chunk when it is not empty. */
  function Closed(chunks: seq<seq<string>>, current: seq<string>): seq<seq<string>> {
    if current == [] then chunks else chunks + [current]
  }

  /** `chunks` with `s` appended to its last chunk (a first chunk when there is none). */
  function Extend(chunks: seq<seq<string>>, s: string): seq<seq<string>> {
    if chunks == [] then [[s]] else chunks[..|chunks| - 1] + [chunks[|chunks| - 1] + [s]]
  }

  /** _create_balanced_chunks. */
  method CreateBalancedChunks(sentences: seq<string>, tok: string -> nat) returns (chunks: seq<seq<string>>)
    ensures IsBalancedChunking(sentences, tok, chunks)
  {
    chunks := [];
    var current: seq<string> := [];
    var currentTokens: nat := 0;
    var total := |sentences|;
    ghost var all: seq<seq<string>> := [];
    for idx := 0 to total
      invariant current == [] <==> idx == 0
      invariant currentTokens == TokenSum(current, tok)
      invariant all == Closed(chunks, current) && (current == [] ==> chunks == [])
      invariant Balanced(sentences[..idx], total, tok, all)
    {
      chunks, current, currentTokens, all := PlaceSentence(sentences, idx, tok, chunks, current, currentTokens, all);
    }
    assert sentences[..total] == sentences;
    if current != [] {
      chunks := chunks + [current];
    }
  }

  /** One pass of the loop body: a forced cut or an overflow closes the open
      chunk before `sent` joins it. */
  method PlaceSentence(sentences: seq<string>, idx: nat, tok: string -> nat,
                       chunks: seq<seq<string>>, current: seq<string>, currentTokens: nat,
                       ghost all: seq<seq<string>>)
    returns (chunks': seq<seq<string>>, current': seq<string>, currentTokens': nat,
             ghost all': seq<seq<string>>)
    requires idx < |sentences|
    requires current == [] <==> idx == 0
    requires currentTokens == TokenSum(current, tok)
    requires all == Closed(chunks, current) && (current == [] ==> chunks == [])
    requires Balanced(sentences[..idx], |sentences|, tok, all)
    ensures current' != []
    ensures currentTokens' == TokenSum(current', tok)
    ensures all' == Closed(chunks', current')
    ensures Balanced(sentences[..idx + 1], |sentences|, tok, all')
  {
    var total, sent := |sentences|, sentences[idx];
    ghost var prefix := sentences[..idx];
    assert sentences[..idx + 1] == prefix + [sent];
    chunks', current', currentTokens' := chunks, current, currentTokens;
    var sentTokens := tok(sent);
    if IsForcedBreak(total, idx) && current' != [] {
      chunks' := chunks' + [current'];
      current' := [];
      currentTokens' := 0;
    }
    assert all == Closed(chunks', current');
    assert current' != [] ==> all[|all| - 1] == current' && !IsForcedBreak(total, idx);
    if currentTokens' + sentTokens > ChunkLimit && current' != [] {
      BalancedNewChunk(prefix, total, tok, all, sent);
      chunks' := chunks' + [current'];
      current' := [sent];
      currentTokens' := sentTokens;
      all' := all + [[sent]];
    } else if current' == [] {
      if idx == 0 {
        BalancedExtend(prefix, total, tok, all, sent);
        all' := Extend(all, sent);
      } else {
        BalancedNewChunk(prefix, total, tok, all, sent);
        all' := all + [[sent]];
      }
      current' := [sent];
      currentTokens' := sentTokens;
    } else {
      BalancedExtend(prefix, total, tok, all, sent);
      TokenSumAppend(current', sent, tok);
      all' := Extend(all, sent);
      current' := current' + [sent];
      currentTokens' := currentTokens' + sentTokens;
    }
  }

  lemma TokenSumAppend(chunk: seq<string>, s: string, tok: string -> nat)
    ensures TokenSum(chunk + [s], tok) == TokenSum(chunk, tok) + tok(s)
  {
    assert (chunk + [s])[..|chunk|] == chunk;
  }

  lemma StartsAppend(chunks: seq<seq<string>>, c: seq<string>)
    ensures Starts(chunks + [c]) == Starts(chunks) + [|Flatten(chunks)|]
    ensures Flatten(chunks + [c]) == Flatten(chunks) + c
  {
    assert (chunks + [c])[..|chunks|] == chunks;
  }

  /** Opening a new chunk with `s` when the cut is forced or `s` overflows the last chunk. */
  lemma BalancedNewChunk(prefix: seq<string>, total: nat, tok: string -> nat, chunks: seq<seq<string>>, s: string)
    requires Balanced(prefix, total, tok, chunks) && chunks != []
    requires IsForcedBreak(total, |prefix|) || TokenSum(chunks[|chunks| - 1], tok) + tok(s) > ChunkLimit
    ensures Balanced(prefix + [s], total, tok, chunks + [[s]])
  {
    var r := chunks + [[s]];
    StartsAppend(chunks, [s]);
    assert forall k :: 0 <= k < |chunks| ==> r[k] == chunks[k];
    assert Starts(r)[|chunks|] == |prefix|;
  }

  /** Appending `s` to the last chunk when the cut is not forced and `s` fits. */
  lemma BalancedExtend(prefix: seq<string>, total: nat, tok: string -> nat, chunks: seq<seq<string>>, s: string)
    requires Balanced(prefix, total, tok, chunks)
    requires chunks == [] ==> prefix == []
    requires chunks != [] ==>
      !IsForcedBreak(total, |prefix|) && TokenSum(chunks[|chunks| - 1], tok) + tok(s) <= ChunkLimit
    ensures Balanced(prefix + [s], total, tok, Extend(chunks, s))
  {
    if chunks != [] {
      var n := |chunks| - 1;
      var r := Extend(chunks, s);
      ExtendShape(chunks, s);
      TokenSumAppend(chunks[n], s, tok);
      assert forall k :: 0 <= k < |r| && |r[k]| >= 2 ==> TokenSum(r[k], tok) <= ChunkLimit by {
        assert TokenSum(r[n], tok) <= ChunkLimit;
      }
    }
  }

  /** Extending the last chunk leaves the other chunks and every chunk's start as they were. */
  lemma ExtendShape(chunks: seq<seq<string>>, s: string)
    requires chunks != []
    ensures var r := Extend(chunks, s);
      && |r| == |chunks|
      && Starts(r) == Starts(chunks)
      && Flatten(r) == Flatten(chunks) + [s]
      && (forall k :: 0 <= k < |chunks| - 1 ==> r[k] == chunks[k])
      && r[|chunks| - 1] == chunks[|chunks| - 1] + [s]
  {
    var n := |chunks| - 1;
    var init, last := chunks[..n], chunks[n];
    assert chunks == init + [last];
    StartsAppend(init, last);
    StartsAppend(init, last + [s]);
  }

  /** Non-empty chunks hold at least one sentence each. */
  lemma {:induction false} FlattenLength(chunks: seq<seq<string>>)
    requires NonEmptyChunks(chunks)
    ensures |Flatten(chunks)| >= |chunks|
  {
    if chunks != [] {
      FlattenLength(chunks[..|chunks| - 1]);
    }
  }

  /** Every chunk of a non-empty chunking starts inside the text. */
  lemma {:induction false} StartsInside(chunks: seq<seq<string>>)
    requires NonEmptyChunks(chunks)
    ensures forall k :: 0 <= k < |chunks| ==> Starts(chunks)[k] < |Flatten(chunks)|
  {
    if chunks != [] {
      var n := |chunks| - 1;
      StartsInside(chunks[..n]);
      assert Starts(chunks) == Starts(chunks[..n]) + [|Flatten(chunks[..n])|];
    }
  }

  /** There are never more chunks than sentences, and there are none exactly when there are no sentences. */
  lemma ChunkCount(sentences: seq<string>, tok: string -> nat, chunks: seq<seq<string>>)
    requires IsBalancedChunking(sentences, tok, chunks)
    ensures |chunks| <= |sentences|
    ensures chunks == [] <==> sentences == []
  {
    FlattenLength(chunks);
  }

  /** The first chunk starts at the first sentence. */
  lemma {:induction false} FirstStart(chunks: seq<seq<string>>)
    requires chunks != []
    ensures Starts(chunks)[0] == 0
  {
    var n := |chunks| - 1;
    if n > 0 {
      FirstStart(chunks[..n]);
    } else {
      assert chunks[..n] == [];
    }
  }

  /** The distinct values of a list. */
  function Values(xs: seq<nat>): set<nat> {
    set x | x in xs
  }

  /** A list of `n` elements has at most `n` distinct values. */
  lemma {:induction false} DistinctValues(xs: seq<nat>)
    ensures |Values(xs)| <= |xs|
  {
    if xs != [] {
      var t := xs[1..];
      DistinctValues(t);
      assert Values(xs) == Values(t) + {xs[0]};
    }
  }

  /** From three sentences on, the forced cuts at one and two thirds give at
      least three chunks: beginning, middle and end are summarised apart. */
  lemma AtLeastThreeChunks(sentences: seq<string>, tok: string -> nat, chunks: seq<seq<string>>)
    requires IsBalancedChunking(sentences, tok, chunks)
    requires |sentences| >= 3
    ensures |chunks| >= 3
  {
    var total := |sentences|;
    StartsInside(chunks);
    FirstStart(chunks);
    var starts := Starts(chunks);
    assert IsForcedBreak(total, total / 3) && IsForcedBreak(total, 2 * total / 3);
    assert 0 in starts && total / 3 in starts && 2 * total / 3 in starts;
    assert {0, total / 3, 2 * total / 3} <= Values(starts);
    DistinctValues(starts);
  }

  /** `chunks` with its last sentence removed: the inverse of adding one
      sentence, either as a new chunk or at the end of the last one. */
  function DropLast(chunks: seq<seq<string>>): seq<seq<string>>
    requires chunks != []
  {
    var n := |chunks| - 1;
    var last := chunks[n];
    if |last| <= 1 then chunks[..n] else chunks[..n] + [last[..|last| - 1]]
  }

  /** A chunking of `prefix + [s]` is a chunking of `prefix` with `s` added
      the way the loop adds it. */
  lemma BalancedDropLast(prefix: seq<string>, s: string, total: nat, tok: string -> nat, chunks: seq<seq<string>>)
    requires Balanced(prefix + [s], total, tok, chunks)
    ensures chunks != []
    ensures Balanced(prefix, total, tok, DropLast(chunks))
    ensures var c := DropLast(chunks);
      if c == [] then prefix == [] && chunks == [[s]]
      else if IsForcedBreak(total, |prefix|) || TokenSum(c[|c| - 1], tok) + tok(s) > ChunkLimit then chunks == c + [[s]]
      else chunks == Extend(c, s)
  {
    assert Flatten(chunks) != [];
    var n := |chunks| - 1;
    var init, last := chunks[..n], chunks[n];
    assert chunks == init + [last];
    StartsAppend(init, last);
    assert Flatten(init) + last == prefix + [s];
    assert last[|last| - 1] == (prefix + [s])[|prefix|] == s;
    if |last| == 1 {
      assert last == [s];
      DropSingleton(prefix, s, total, tok, init);
    } else {
      DropFromLonger(prefix, s, total, tok, chunks);
    }
  }

  lemma DropSingleton(prefix: seq<string>, s: string, total: nat, tok: string -> nat, init: seq<seq<string>>)
    requires Balanced(prefix + [s], total, tok, init + [[s]])
    ensures Balanced(prefix, total, tok, init)
    ensures init == [] <==> prefix == []
    ensures init != [] ==>
      IsForcedBreak(total, |prefix|) || TokenSum(init[|init| - 1], tok) + tok(s) > ChunkLimit
  {
    var chunks := init + [[s]];
    var n := |init|;
    StartsAppend(init, [s]);
    assert Flatten(init) == prefix by {
      assert Flatten(init) == (Flatten(init) + [s])[..|prefix|];
      assert (prefix + [s])[..|prefix|] == prefix;
    }
    var starts := Starts(init);
    assert NonEmptyChunks(init) by {
      assert forall k :: 0 <= k < n ==> init[k] == chunks[k];
    }
    FlattenLength(init);
    assert forall k :: 0 <= k < n && |init[k]| >= 2 ==> TokenSum(init[k], tok) <= ChunkLimit by {
      assert forall k :: 0 <= k < n ==> init[k] == chunks[k];
    }
    assert forall i :: 0 < i < |prefix| && IsForcedBreak(total, i) ==> i in starts by {
      forall i | 0 < i < |prefix| && IsForcedBreak(total, i) ensures i in starts {
        assert i in Starts(chunks);
      }
    }
    assert forall k :: 1 <= k < n ==>
        IsForcedBreak(total, starts[k]) || TokenSum(init[k - 1], tok) + tok(init[k][0]) > ChunkLimit by {
      forall k | 1 <= k < n
        ensures IsForcedBreak(total, starts[k]) || TokenSum(init[k - 1], tok) + tok(init[k][0]) > ChunkLimit
      {
        assert starts[k] == Starts(chunks)[k] && init[k] == chunks[k] && init[k - 1] == chunks[k - 1];
      }
    }
    if init != [] {
      assert Starts(chunks)[n] == |prefix| && chunks[n][0] == s && init[n - 1] == chunks[n - 1];
    }
  }

  lemma DropFromLonger(prefix: seq<string>, s: string, total: nat, tok: string -> nat, chunks: seq<seq<string>>)
    requires Balanced(prefix + [s], total, tok, chunks)
    requires chunks != [] && |chunks[|chunks| - 1]| >= 2
    requires chunks[|chunks| - 1][|chunks[|chunks| - 1]| - 1] == s
    ensures var n := |chunks| - 1;
      var last' := chunks[n][..|chunks[n]| - 1];
      var c := chunks[..n] + [last'];
      && Balanced(prefix, total, tok, c)
      && !IsForcedBreak(total, |prefix|)
      && TokenSum(last', tok) + tok(s) <= ChunkLimit
      && chunks == Extend(c, s)
  {
    var n := |chunks| - 1;
    var last := chunks[n];
    var last' := last[..|last| - 1];
    var c := chunks[..n] + [last'];
    DropShape(prefix, s, chunks);
    TokenSumAppend(last', s, tok);
    assert |prefix| !in Starts(chunks) by {
      StartsBeforeLast(chunks);
    }
  }

  /** Taking the last sentence off a last chunk of two or more leaves the
      other chunks and every start as they were. */
  lemma DropShape(prefix: seq<string>, s: string, chunks: seq<seq<string>>)
    requires Flatten(chunks) == prefix + [s]
    requires chunks != [] && |chunks[|chunks| - 1]| >= 2
    requires chunks[|chunks| - 1][|chunks[|chunks| - 1]| - 1] == s
    ensures var n := |chunks| - 1;
      var c := chunks[..n] + [chunks[n][..|chunks[n]| - 1]];
      && chunks == Extend(c, s)
      && Flatten(c) == prefix
      && Starts(c) == Starts(chunks)
      && (forall k :: 0 <= k < n ==> c[k] == chunks[k])
      && c[n][0] == chunks[n][0]
  {
    var n := |chunks| - 1;
    var last := chunks[n];
    var last' := last[..|last| - 1];
    var c := chunks[..n] + [last'];
    assert last == last' + [s];
    assert Extend(c, s) == chunks;
    ExtendShape(c, s);
    assert Flatten(c) == (Flatten(c) + [s])[..|prefix|];
    assert prefix == (prefix + [s])[..|prefix|];
  }

  /** No chunk starts after the first sentence of the last chunk. */
  lemma StartsBeforeLast(chunks: seq<seq<string>>)
    requires chunks != [] && NonEmptyChunks(chunks)
    ensures forall k :: 0 <= k < |chunks| ==> Starts(chunks)[k] + |chunks[|chunks| - 1]| <= |Flatten(chunks)|
  {
    var n := |chunks| - 1;
    var init := chunks[..n];
    assert chunks == init + [chunks[n]];
    StartsAppend(init, chunks[n]);
    assert NonEmptyChunks(init) by {
      assert forall k :: 0 <= k < n ==> init[k] == chunks[k];
    }
    StartsInside(init);
  }

  /** The specification leaves no choice: a chunking of a prefix is unique. */
  lemma {:induction false} BalancedUnique(prefix: seq<string>, total: nat, tok: string -> nat, a: seq<seq<string>>, b: seq<seq<string>>)
    requires Balanced(prefix, total, tok, a) && Balanced(prefix, total, tok, b)
    ensures a == b
  {
    if prefix == [] {
      FlattenLength(a);
      FlattenLength(b);
    } else {
      var p, s := prefix[..|prefix| - 1], prefix[|prefix| - 1];
      assert prefix == p + [s];
      BalancedDropLast(p, s, total, tok, a);
      BalancedDropLast(p, s, total, tok, b);
      BalancedUnique(p, total, tok, DropLast(a), DropLast(b));
    }
  }

  /** So CreateBalancedChunks has exactly one possible result. */
  lemma ChunkingUnique(sentences: seq<string>, tok: string -> nat, a: seq<seq<string>>, b: seq<seq<string>>)
    requires IsBalancedChunking(sentences, tok, a) && IsBalancedChunking(sentences, tok, b)
    ensures a == b
  {
    BalancedUnique(sentences, |sentences|, tok, a, b);
  }

  /** Each chunk's sentences joined with `sep`. */
  function JoinEach(sep: string, chunks: seq<seq<string>>): (r: seq<string>)
    ensures |r| == |chunks| && forall k :: 0 <= k < |chunks| ==> r[k] == Join(sep, chunks[k])
  {
    seq(|chunks|, k requires 0 <= k < |chunks| => Join(sep, chunks[k]))
  }

  /** Joining the joined chunks gives the joined sentences: nothing is lost,
      repeated or reordered by chunking. */
  lemma {:induction false} JoinFlatten(sep: string, chunks: seq<seq<string>>)
    requires NonEmptyChunks(chunks)
    ensures Join(sep, JoinEach(sep, chunks)) == Join(sep, Flatten(chunks))
  {
    if chunks != [] {
      var n := |chunks| - 1;
      var init, c := chunks[..n], chunks[n];
      assert JoinEach(sep, chunks) == JoinEach(sep, init) + [Join(sep, c)];
      if init == [] {
        assert JoinEach(sep, chunks) == [Join(sep, c)];
        assert Flatten(chunks) == c;
      } else {
        JoinFlatten(sep, init);
        JoinAppend(sep, JoinEach(sep, init), Join(sep, c));
        FlattenLength(init);
        JoinConcat(sep, Flatten(init), c);
      }
    }
  }

  /** The first sentence of every chunk is one of the chunked sentences. */
  lemma {:induction false} FlattenMember(chunks: seq<seq<string>>, k: nat)
    requires NonEmptyChunks(chunks) && k < |chunks|
    ensures chunks[k][0] in Flatten(chunks)
  {
    var n := |chunks| - 1;
    if k == n {
      assert Flatten(chunks)[|Flatten(chunks[..n])|] == chunks[n][0];
    } else {
      FlattenMember(chunks[..n], k);
    }
  }
}
