/**
 `Collection::get_similarity` (src/db.rs): score every stored embedding,
 keep the k best in a bounded max-heap, and return them in ascending order.

 The distance functions and the order on `ScoreIndex` belong to the
 similarity module, which is not part of this model. A score is therefore
 an integer key that orders exactly as `ScoreIndex` values compare: `a < b`
 on `ScoreIndex` is `a.score < b.score`, and equal scores compare equal.
 The heap is its multiset of elements; `peek` and `pop` take some greatest
 element, and which of several equal ones they take is left open.
 */
module Search {
  import opened Model

  datatype ScoreIndex = ScoreIndex(score: int, index: nat)

  /** The result of a call that may panic (`unwrap` on `None`). */
  datatype Outcome<+T> = Done(value: T) | Panicked

  /** `get_distance_fn(distance)` applied to a stored vector and the query. */
  type Metric = (Distance, Vector, Vector) -> int

  function Min(a: int, b: int): int {
    if a <= b then a else b
  }

  /** `m` is a greatest element of the heap: what `peek` shows and `pop` removes. */
  predicate IsGreatest(m: ScoreIndex, heap: multiset<ScoreIndex>) {
    m in heap && forall x :: x in heap ==> x.score <= m.score
  }

  ghost predicate Ascending(s: seq<ScoreIndex>) {
    forall i, j :: 0 <= i < j < |s| ==> s[i].score <= s[j].score
  }

  /** Element `j` of the score list carries index `j`. */
  ghost predicate Indexed(scores: seq<ScoreIndex>) {
    forall j :: 0 <= j < |scores| ==> scores[j].index == j
  }

  /** `sel` is an admissible answer for the `k` best of `scores`: the right
      number of them, in ascending order, each taken from its own position
      in `scores`, and no score left out is smaller than one kept. */
  ghost predicate IsTopK(sel: seq<ScoreIndex>, scores: seq<ScoreIndex>, k: nat) {
    && |sel| == Min(k, |scores|)
    && Ascending(sel)
    && multiset(sel) <= multiset(scores)
    && (forall i :: 0 <= i < |sel| ==> sel[i].index < |scores| && scores[sel[i].index] == sel[i])
    && (forall x, y :: x in scores && x !in sel && y in sel ==> y.score <= x.score)
  }

  lemma {:induction false} GreatestExists(heap: multiset<ScoreIndex>)
    requires |heap| > 0
    ensures exists m :: IsGreatest(m, heap)
    decreases |heap|
  {
    var x :| x in heap;
    var rest := heap - multiset{x};
    if |rest| == 0 {
      assert heap == multiset{x};
      assert IsGreatest(x, heap);
    } else {
      GreatestExists(rest);
      var g :| IsGreatest(g, rest);
      assert heap == rest + multiset{x};
      if g.score < x.score {
        assert IsGreatest(x, heap);
      } else {
        assert IsGreatest(g, heap);
      }
    }
  }

  /** The scores of all stored embeddings, in storage order (the parallel
      map keeps the order of its input). */
  function ScoresOf(c: Collection, query: Vector, metric: Metric): (s: seq<ScoreIndex>)
    ensures |s| == |c.embeddings| && Indexed(s)
  {
    seq(|c.embeddings|, i requires 0 <= i < |c.embeddings| =>
      ScoreIndex(metric(c.distance, c.embeddings[i].vector, query), i))
  }

  /** No score of `seen` that the heap left out is smaller than a kept one. */
  ghost predicate KeepsSmallest(heap: multiset<ScoreIndex>, seen: seq<ScoreIndex>) {
    forall x, y :: x in seen && x !in heap && y in heap ==> y.score <= x.score
  }

  /** A score that is not smaller than the heap's top is left out. */
  lemma RejectStep(heap: multiset<ScoreIndex>, seen: seq<ScoreIndex>, top: ScoreIndex, si: ScoreIndex)
    requires heap <= multiset(seen) && KeepsSmallest(heap, seen) && IsGreatest(top, heap)
    requires top.score <= si.score
    ensures heap <= multiset(seen + [si])
    ensures KeepsSmallest(heap, seen + [si])
  {
  }

  /** A score smaller than the top is pushed and a greatest element popped:
      the heap keeps its size and still holds the smallest scores seen. */
  lemma ReplaceStep(heap: multiset<ScoreIndex>, seen: seq<ScoreIndex>, top: ScoreIndex, si: ScoreIndex, m: ScoreIndex)
    requires heap <= multiset(seen) && KeepsSmallest(heap, seen) && IsGreatest(top, heap)
    requires si.score < top.score
    requires IsGreatest(m, heap + multiset{si})
    ensures m != si && m in heap
    ensures (heap + multiset{si}) - multiset{m} <= multiset(seen + [si])
    ensures |(heap + multiset{si}) - multiset{m}| == |heap|
    ensures KeepsSmallest((heap + multiset{si}) - multiset{m}, seen + [si])
  {
    var after := (heap + multiset{si}) - multiset{m};
    assert m != si;
    assert after == (heap - multiset{m}) + multiset{si};
    forall x, y | x in seen + [si] && x !in after && y in after
      ensures y.score <= x.score
    {
      if x == m {
      } else {
        assert x != si;
        assert x in seen && x !in heap;
        if y == si {
          assert top.score <= x.score;
        } else {
          assert y in heap;
        }
      }
    }
  }

  /** While the heap holds fewer than `k` scores it holds every score seen. */
  lemma PushStep(heap: multiset<ScoreIndex>, seen: seq<ScoreIndex>, si: ScoreIndex)
    requires heap == multiset(seen)
    ensures heap + multiset{si} == multiset(seen + [si])
    ensures KeepsSmallest(heap + multiset{si}, seen + [si])
  {
  }

  /** What the heap is after it has been offered the scores `seen`: a
      sub-multiset of them, of size `min(k, |seen|)`, all of them while
      fewer than `k` were seen, and never leaving out a smaller score than
      one it keeps. */
  ghost predicate HeapOf(heap: multiset<ScoreIndex>, seen: seq<ScoreIndex>, k: nat) {
    && heap <= multiset(seen)
    && |heap| == Min(k, |seen|)
    && (|seen| <= k ==> heap == multiset(seen))
    && KeepsSmallest(heap, seen)
  }

  /** One round of the selection loop: admit the score when the heap holds
      fewer than `k`, or when it is smaller than the top (`peek().unwrap()`,
      which panics on an empty heap); after a push, pop the top when the
      heap holds more than `k`. */
  method Offer(heap: multiset<ScoreIndex>, k: nat, si: ScoreIndex, ghost seen: seq<ScoreIndex>)
    returns (r: Outcome<multiset<ScoreIndex>>)
    requires HeapOf(heap, seen, k)
    ensures r.Panicked? <==> k == 0
    ensures r.Done? ==> HeapOf(r.value, seen + [si], k)
  {
    var admit: bool;
    ghost var top := si;
    if |heap| < k {
      admit := true;
    } else {
      if |heap| == 0 {
        return Panicked;
      }
      GreatestExists(heap);
      var peeked :| IsGreatest(peeked, heap);
      top := peeked;
      admit := si.score < peeked.score;
    }
    if admit {
      var pushed := heap + multiset{si};
      if |pushed| > k {
        GreatestExists(pushed);
        var m :| IsGreatest(m, pushed);
        ReplaceStep(heap, seen, top, si, m);
        r := Done(pushed - multiset{m});
      } else {
        PushStep(heap, seen, si);
        r := Done(pushed);
      }
    } else {
      RejectStep(heap, seen, top, si);
      r := Done(heap);
    }
  }

  /** The selection loop over all scores. With `k == 0` the first score
      already panics. */
  method KeepSmallest(scores: seq<ScoreIndex>, k: nat) returns (r: Outcome<multiset<ScoreIndex>>)
    ensures r.Panicked? <==> k == 0 && |scores| > 0
    ensures r.Done? ==> HeapOf(r.value, scores, k)
  {
    var heap: multiset<ScoreIndex> := multiset{};
    for i := 0 to |scores|
      invariant HeapOf(heap, scores[..i], k)
      invariant k == 0 ==> i == 0
    {
      assert scores[..i + 1] == scores[..i] + [scores[i]];
      var offered := Offer(heap, k, scores[i], scores[..i]);
      if offered.Panicked? {
        return Panicked;
      }
      heap := offered.value;
    }
    assert scores[..|scores|] == scores;
    r := Done(heap);
  }

  /** `into_sorted_vec`: the heap's elements in ascending order. */
  method IntoSortedVec(heap: multiset<ScoreIndex>) returns (s: seq<ScoreIndex>)
    ensures multiset(s) == heap
    ensures Ascending(s)
  {
    var rest := heap;
    s := [];
    while rest != multiset{}
      invariant multiset(s) + rest == heap
      invariant Ascending(s)
      invariant forall x, y :: x in rest && y in s ==> x.score <= y.score
      decreases |rest|
    {
      GreatestExists(rest);
      var m :| IsGreatest(m, rest);
      rest := rest - multiset{m};
      s := [m] + s;
    }
  }

  /** The search results for a selection: each score with a copy of the
      embedding stored at its index. */
  function ResultsOf(c: Collection, sel: seq<ScoreIndex>): (r: seq<SimilarityResult>)
    requires forall i :: 0 <= i < |sel| ==> sel[i].index < |c.embeddings|
    ensures |r| == |sel|
  {
    seq(|sel|, i requires 0 <= i < |sel| =>
      SimilarityResult(sel[i].score, c.embeddings[sel[i].index]))
  }

  /** `get_similarity`. The collection is a value here, so it is unchanged. */
  method GetSimilarity(c: Collection, query: Vector, k: Usize, metric: Metric) returns (r: Outcome<seq<SimilarityResult>>)
    ensures r.Panicked? <==> k == 0 && |c.embeddings| > 0
    ensures r.Done? ==> exists sel :: IsTopK(sel, ScoresOf(c, query, metric), k) && r.value == ResultsOf(c, sel)
  {
    var scores := ScoresOf(c, query, metric);
    var kept := KeepSmallest(scores, k);
    if kept.Panicked? {
      return Panicked;
    }
    var sorted := IntoSortedVec(kept.value);
    forall i | 0 <= i < |sorted|
      ensures sorted[i].index < |scores| && scores[sorted[i].index] == sorted[i]
    {
      assert sorted[i] in multiset(sorted);
      assert sorted[i] in scores;
    }
    assert IsTopK(sorted, scores, k);
    r := Done(ResultsOf(c, sorted));
  }

  /** Distinct positions carry distinct scores, so each occurs once. */
  lemma {:induction false} IndexedOnce(scores: seq<ScoreIndex>)
    requires Indexed(scores)
    ensures forall x :: multiset(scores)[x] <= 1
    decreases |scores|
  {
    if scores != [] {
      var n := |scores| - 1;
      var front := scores[..n];
      assert Indexed(front);
      IndexedOnce(front);
      assert scores == front + [scores[n]];
      assert scores[n] !in front by {
        forall j | 0 <= j < n ensures front[j] != scores[n] {
          assert front[j].index == j;
        }
      }
    }
  }

  /** No embedding is returned twice. */
  lemma TopKIndicesDistinct(sel: seq<ScoreIndex>, scores: seq<ScoreIndex>, k: nat)
    requires Indexed(scores) && IsTopK(sel, scores, k)
    ensures forall i, j :: 0 <= i < j < |sel| ==> sel[i].index != sel[j].index
  {
    IndexedOnce(scores);
    forall i, j | 0 <= i < j < |sel| ensures sel[i].index != sel[j].index {
      RepeatCounts(sel, i, j);
      assert multiset(sel)[sel[i]] <= multiset(scores)[sel[i]];
    }
  }

  /** An element found at two positions occurs at least twice. */
  lemma RepeatCounts(s: seq<ScoreIndex>, i: nat, j: nat)
    requires i < j < |s|
    ensures s[i] == s[j] ==> multiset(s)[s[i]] >= 2
  {
    assert s == s[..j] + s[j..];
    assert s[i] in s[..j] && s[j] in s[j..];
  }

  lemma SubMultisetOfSameSize(a: multiset<ScoreIndex>, b: multiset<ScoreIndex>)
    requires a <= b && |a| == |b|
    ensures a == b
  {
    assert b == a + (b - a);
    assert |b - a| == 0;
  }

  /** With `k` at least the number of stored embeddings, every embedding is
      returned, in ascending score order. */
  lemma TopKReturnsAllWhenKLarge(sel: seq<ScoreIndex>, scores: seq<ScoreIndex>, k: nat)
    requires IsTopK(sel, scores, k) && |scores| <= k
    ensures multiset(sel) == multiset(scores)
  {
    SubMultisetOfSameSize(multiset(sel), multiset(scores));
  }

  /** A collection holding one embedding answers any `k >= 1` with that
      embedding and its score. */
  lemma SingleEmbeddingSearch(c: Collection, query: Vector, k: nat, metric: Metric, sel: seq<ScoreIndex>)
    requires |c.embeddings| == 1 && k >= 1
    requires IsTopK(sel, ScoresOf(c, query, metric), k)
    ensures ResultsOf(c, sel) == [SimilarityResult(metric(c.distance, c.embeddings[0].vector, query), c.embeddings[0])]
  {
    var scores := ScoresOf(c, query, metric);
    assert |sel| == 1;
    assert sel[0].index == 0;
    assert sel[0] == scores[0];
  }
}
