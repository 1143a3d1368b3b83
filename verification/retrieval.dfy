/** The selection step of `find_relevant_content`: given one similarity
    score per corpus row, rank the rows by descending score and keep the
    first `top_k` of them, each with its score attached. The similarity
    numbers themselves (cosine similarity of embeddings) are an input. */
module Retrieval {
  import opened Wrappers

  /** One row of the result: the row's index label in the corpus, a copy of
      the row, and the similarity attached to it. */
  datatype Hit<T> = Hit(index: nat, row: T, similarity: real)

  /** Stacking the embeddings of an empty corpus fails before any ranking. */
  datatype RetrievalError = EmptyCorpus

  predicate ValidIndices(order: seq<nat>, n: nat) {
    forall i :: 0 <= i < |order| ==> order[i] < n
  }

  predicate Distinct(order: seq<nat>) {
    forall i, j :: 0 <= i < j < |order| ==> order[i] != order[j]
  }

  /** `order` lists each of the indices 0..n-1 exactly once. */
  predicate IsPermutation(order: seq<nat>, n: nat) {
    && |order| == n
    && ValidIndices(order, n)
    && Distinct(order)
    && forall j :: 0 <= j < n ==> j in order
  }

  predicate AscendingBy(scores: seq<real>, order: seq<nat>)
    requires ValidIndices(order, |scores|)
  {
    forall i, j :: 0 <= i < j < |order| ==> scores[order[i]] <= scores[order[j]]
  }

  predicate DescendingBy(scores: seq<real>, order: seq<nat>)
    requires ValidIndices(order, |scores|)
  {
    forall i, j :: 0 <= i < j < |order| ==> scores[order[i]] >= scores[order[j]]
  }

  /** What `sims.argsort()` may return: the row indices ordered by
      non-decreasing score. numpy's default sort is not stable, so the
      order among equal scores is left open. */
  predicate IsArgsort(scores: seq<real>, order: seq<nat>) {
    IsPermutation(order, |scores|) && AscendingBy(scores, order)
  }

  /** `s[::-1]` */
  function Reverse<X>(s: seq<X>): (r: seq<X>)
    ensures |r| == |s|
    ensures forall i :: 0 <= i < |s| ==> r[i] == s[|s| - 1 - i]
  {
    seq(|s|, i requires 0 <= i < |s| => s[|s| - 1 - i])
  }

  /** The stop index of the Python slice `a[:k]` on a sequence of length n:
      a negative k counts from the end, and both ends clamp. */
  function SliceStop(k: int, n: nat): (m: nat)
    ensures m <= n
    ensures k >= 0 ==> m == k || (m == n && n < k)
    ensures k < 0 ==> m == n + k || (m == 0 && n + k < 0)
  {
    if k >= 0 then (if k < n then k else n)
    else if n + k > 0 then n + k else 0
  }

  /** `argsort()[::-1]`: reversing an ascending ranking gives a descending
      ranking of the same rows. */
  lemma ReversedArgsortDescends(scores: seq<real>, order: seq<nat>)
    requires IsArgsort(scores, order)
    ensures IsPermutation(Reverse(order), |scores|)
    ensures DescendingBy(scores, Reverse(order))
  {
    var desc := Reverse(order);
    var n := |order|;
    forall j | 0 <= j < n ensures j in desc {
      assert j in order;
      var p :| 0 <= p < |order| && order[p] == j;
      assert desc[n - 1 - p] == j;
    }
  }

  /** Row j is among the selected rows. */
  predicate Selected<T>(hits: seq<Hit<T>>, j: nat) {
    exists i :: 0 <= i < |hits| && hits[i].index == j
  }

  /** Each hit carries a valid row index, a copy of that row and that row's
      score. */
  ghost predicate HitsCopyRows<T>(rows: seq<T>, scores: seq<real>, hits: seq<Hit<T>>)
    requires |scores| == |rows|
  {
    forall i :: 0 <= i < |hits| ==>
      hits[i].index < |rows| && hits[i].row == rows[hits[i].index] && hits[i].similarity == scores[hits[i].index]
  }

  predicate DistinctHits<T>(hits: seq<Hit<T>>) {
    forall i, j :: 0 <= i < j < |hits| ==> hits[i].index != hits[j].index
  }

  predicate SimilarityDescending<T>(hits: seq<Hit<T>>) {
    forall i, j :: 0 <= i < j < |hits| ==> hits[i].similarity >= hits[j].similarity
  }

  /** No row left out scores above any row kept. */
  predicate NoUnselectedBeatsSelected<T>(scores: seq<real>, hits: seq<Hit<T>>) {
    forall i, j :: 0 <= i < |hits| && 0 <= j < |scores| && !Selected(hits, j) ==> scores[j] <= hits[i].similarity
  }

  /** Everything `find_relevant_content` promises of its result. */
  ghost predicate IsTopK<T>(rows: seq<T>, scores: seq<real>, topK: int, hits: seq<Hit<T>>)
    requires |scores| == |rows|
  {
    && |hits| == SliceStop(topK, |rows|)
    && HitsCopyRows(rows, scores, hits)
    && DistinctHits(hits)
    && SimilarityDescending(hits)
    && NoUnselectedBeatsSelected(scores, hits)
  }

  /** Lines 64-66 of `find_relevant_content` for a given argsort `order`:
      `top_idx = order[::-1][:top_k]`, then the copied rows with
      `similarity = sims[top_idx]`. */
  function SelectTop<T>(rows: seq<T>, scores: seq<real>, order: seq<nat>, topK: int): (hits: seq<Hit<T>>)
    requires |scores| == |rows|
    requires IsArgsort(scores, order)
    ensures |hits| == SliceStop(topK, |rows|)
    ensures HitsCopyRows(rows, scores, hits)
    ensures DistinctHits(hits)
    ensures SimilarityDescending(hits)
    ensures NoUnselectedBeatsSelected(scores, hits)
  {
    ReversedArgsortDescends(scores, order);
    var desc := Reverse(order);
    var m := SliceStop(topK, |rows|);
    var hits := seq(m, i requires 0 <= i < m => Hit(desc[i], rows[desc[i]], scores[desc[i]]));
    UnselectedScoreBelow(scores, order, hits);
    hits
  }

  /** The rows not taken sit earlier in the ascending ranking than every
      row taken, so they score no higher. */
  lemma UnselectedScoreBelow<T>(scores: seq<real>, order: seq<nat>, hits: seq<Hit<T>>)
    requires IsArgsort(scores, order)
    requires |hits| <= |order|
    requires forall i :: 0 <= i < |hits| ==> hits[i].index == order[|order| - 1 - i] && hits[i].similarity == scores[hits[i].index]
    ensures NoUnselectedBeatsSelected(scores, hits)
  {
    var n, m := |order|, |hits|;
    forall i, j | 0 <= i < m && 0 <= j < n
      ensures !Selected(hits, j) ==> scores[j] <= hits[i].similarity
    {
      assert j in order;
      var p :| 0 <= p < |order| && order[p] == j;
      if p >= n - m {
        assert hits[n - 1 - p].index == j;
      } else {
        assert p < n - 1 - i;
      }
    }
  }

  /** The position at which `x` joins the ascending ranking `order`: after
      every row scoring no more than `x`, before the first scoring more. */
  function InsertPos(scores: seq<real>, order: seq<nat>, x: nat): (p: nat)
    requires ValidIndices(order, |scores|) && x < |scores|
    ensures p <= |order|
    ensures forall i :: 0 <= i < p ==> scores[order[i]] <= scores[x]
    ensures p < |order| ==> scores[x] < scores[order[p]]
  {
    if |order| == 0 then 0
    else if scores[x] < scores[order[0]] then 0
    else 1 + InsertPos(scores, order[1..], x)
  }

  /** `sims.argsort()`: a ranking of the row indices by non-decreasing
      score, built by insertion. */
  method Argsort(scores: seq<real>) returns (order: seq<nat>)
    ensures IsArgsort(scores, order)
  {
    order := [];
    var k := 0;
    while k < |scores|
      invariant 0 <= k <= |scores|
      invariant |order| == k
      invariant ValidIndices(order, k)
      invariant Distinct(order)
      invariant forall j :: 0 <= j < k ==> j in order
      invariant AscendingBy(scores, order)
    {
      var p := InsertPos(scores, order, k);
      InsertKeepsRanking(scores, order, k, p);
      order := order[..p] + [k] + order[p..];
      k := k + 1;
    }
  }

  /** Inserting the next index k at its `InsertPos` extends an ascending
      ranking of 0..k-1 to one of 0..k. */
  lemma InsertKeepsRanking(scores: seq<real>, order: seq<nat>, k: nat, p: nat)
    requires k < |scores| && |order| == k
    requires ValidIndices(order, k) && Distinct(order) && AscendingBy(scores, order)
    requires forall j :: 0 <= j < k ==> j in order
    requires p == InsertPos(scores, order, k)
    ensures var next := order[..p] + [k] + order[p..];
      && |next| == k + 1
      && ValidIndices(next, k + 1)
      && Distinct(next)
      && (forall j :: 0 <= j < k + 1 ==> j in next)
      && AscendingBy(scores, next)
  {
    var next := order[..p] + [k] + order[p..];
    assert forall i :: 0 <= i < |next| ==> next[i] == Spliced(order, k, p, i);
    InsertCovers(order, k, p, next);
    InsertAscends(scores, order, k, p, next);
  }

  /** The element at position i once k is inserted at position p. */
  function Spliced(order: seq<nat>, k: nat, p: nat, i: nat): (x: nat)
    requires p <= |order| && i <= |order|
  {
    if i < p then order[i] else if i == p then k else order[i - 1]
  }

  /** The spliced ranking still lists each index once, now including k. */
  lemma InsertCovers(order: seq<nat>, k: nat, p: nat, next: seq<nat>)
    requires |order| == k && ValidIndices(order, k) && Distinct(order)
    requires forall j :: 0 <= j < k ==> j in order
    requires p <= |order| && |next| == |order| + 1
    requires forall i :: 0 <= i < |next| ==> next[i] == Spliced(order, k, p, i)
    ensures ValidIndices(next, k + 1) && Distinct(next)
    ensures forall j :: 0 <= j < k + 1 ==> j in next
  {
    forall j | 0 <= j < k + 1 ensures j in next {
      if j < k {
        assert j in order;
        var q :| 0 <= q < |order| && order[q] == j;
        assert next[if q < p then q else q + 1] == j;
      } else {
        assert next[p] == k;
      }
    }
    forall i, j | 0 <= i < j < |next| ensures next[i] != next[j] {
      if i < p && j < p {
      } else if i < p && j > p {
        assert order[i] != order[j - 1];
      } else if i > p {
        assert order[i - 1] != order[j - 1];
      }
    }
  }

  /** The spliced ranking still has non-decreasing scores. */
  lemma InsertAscends(scores: seq<real>, order: seq<nat>, k: nat, p: nat, next: seq<nat>)
    requires k < |scores| && ValidIndices(order, |scores|) && AscendingBy(scores, order)
    requires p <= |order|
    requires forall i :: 0 <= i < p ==> scores[order[i]] <= scores[k]
    requires p < |order| ==> scores[k] < scores[order[p]]
    requires |next| == |order| + 1
    requires forall i :: 0 <= i < |next| ==> next[i] == Spliced(order, k, p, i)
    ensures ValidIndices(next, |scores|) && AscendingBy(scores, next)
  {
  }

  /** `find_relevant_content(df, question, top_k)` with the similarities
      already computed: fails on an empty corpus, and otherwise returns the
      top `top_k` rows in descending order of similarity. */
  method FindRelevantContent<T>(rows: seq<T>, scores: seq<real>, topK: int) returns (r: Result<seq<Hit<T>>, RetrievalError>)
    requires |scores| == |rows|
    ensures r.Failure? <==> |rows| == 0
    ensures r.Success? ==> IsTopK(rows, scores, topK, r.value)
  {
    if |rows| == 0 {
      return Failure(EmptyCorpus);
    }
    var order := Argsort(scores);
    r := Success(SelectTop(rows, scores, order, topK));
  }

  /** For a non-negative `top_k` the result has `min(top_k, n)` rows. */
  lemma ResultSize<T>(rows: seq<T>, scores: seq<real>, order: seq<nat>, topK: int)
    requires |scores| == |rows| && IsArgsort(scores, order)
    ensures topK >= 0 ==> |SelectTop(rows, scores, order, topK)| == if topK < |rows| then topK else |rows|
    ensures topK < 0 ==> |SelectTop(rows, scores, order, topK)| == if |rows| + topK > 0 then |rows| + topK else 0
  {
  }

  /** When `top_k` reaches the corpus size, every row comes back. */
  lemma AllRowsWhenTopKCoversCorpus<T>(rows: seq<T>, scores: seq<real>, order: seq<nat>, topK: int)
    requires |scores| == |rows| && IsArgsort(scores, order)
    requires topK >= |rows|
    ensures forall j :: 0 <= j < |rows| ==> Selected(SelectTop(rows, scores, order, topK), j)
  {
    var hits := SelectTop(rows, scores, order, topK);
    ReversedArgsortDescends(scores, order);
    var desc := Reverse(order);
    forall j | 0 <= j < |rows| ensures Selected(hits, j) {
      assert j in desc;
      var p :| 0 <= p < |desc| && desc[p] == j;
      assert hits[p].index == j;
    }
  }

  /** Two chunks scored 1.0 and 0.0 with `top_k` 1: the first chunk is the
      only hit, with similarity 1.0, whichever argsort numpy picks. */
  lemma TwoChunkExample(order: seq<nat>)
    requires IsArgsort([1.0, 0.0], order)
    ensures SelectTop(["JOIN syntax", "SELECT basics"], [1.0, 0.0], order, 1) == [Hit(0, "JOIN syntax", 1.0)]
  {
    assert order[0] != order[1];
    assert order[0] == 1;
    assert order == [1, 0];
  }
}
