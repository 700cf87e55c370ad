/**
  The top-k choice of the semantic search: `similarities.argsort()[-top_k:][::-1]`,
  over a given sequence of similarity scores.
 */
module Ranking {

  /** How many indices `argsort()[-k:]` keeps out of `n`, for every integer `k` (Python slice rules). */
  function SliceCount(n: nat, k: int): (c: nat)
    ensures c <= n
    ensures k >= 1 ==> c == if k < n then k else n
    ensures k == 0 ==> c == n
  {
    if k == 0 then n
    else if k > 0 then (if k < n then k else n)
    else if n + k > 0 then n + k else 0
  }

  /** `idx` lists distinct positions of `scores`, each at least as high as the next. */
  predicate IsRanking(scores: seq<real>, idx: seq<nat>) {
    (forall t :: 0 <= t < |idx| ==> idx[t] < |scores|)
    && (forall s, t :: 0 <= s < t < |idx| ==> idx[s] != idx[t] && scores[idx[s]] >= scores[idx[t]])
  }

  /**
    `idx` picks `c` of the highest scores in descending order: distinct
    in-range positions, non-increasing scores, and no position left out scores
    above any position picked. Equal scores may come in any order.
   */
  predicate IsTopSelection(scores: seq<real>, c: nat, idx: seq<nat>) {
    |idx| == c && IsRanking(scores, idx)
    && forall j, t :: 0 <= j < |scores| && j !in idx && 0 <= t < |idx| ==> scores[j] <= scores[idx[t]]
  }

  /** `order` is a permutation of the positions of `scores`, by non-decreasing score. */
  predicate IsArgSort(scores: seq<real>, order: seq<nat>) {
    |order| == |scores|
    && (forall j :: 0 <= j < |scores| ==> j in order)
    && (forall t :: 0 <= t < |order| ==> order[t] < |scores|)
    && (forall s, t :: 0 <= s < t < |order| ==> order[s] != order[t] && scores[order[s]] <= scores[order[t]])
  }

  /** `argsort()`: the positions ordered by ascending score (this one by insertion; no tie order is promised). */
  method ArgSort(scores: seq<real>) returns (order: seq<nat>)
    ensures IsArgSort(scores, order)
  {
    order := [];
    for i := 0 to |scores|
      invariant |order| == i
      invariant forall j :: 0 <= j < |scores| ==> (j in order <==> j < i)
      invariant forall t :: 0 <= t < |order| ==> order[t] < i
      invariant forall s, t :: 0 <= s < t < |order| ==> order[s] != order[t] && scores[order[s]] <= scores[order[t]]
    {
      var p := 0;
      while p < |order| && scores[order[p]] <= scores[i]
        invariant 0 <= p <= |order|
        invariant forall t :: 0 <= t < p ==> scores[order[t]] <= scores[i]
      {
        p := p + 1;
      }
      InsertKeepsOrder(scores, order, p, i);
      order := order[..p] + [i] + order[p..];
    }
  }

  /** Inserting a new position where the scan stopped keeps the order sorted and its entries distinct. */
  lemma InsertKeepsOrder(scores: seq<real>, order: seq<nat>, p: nat, i: nat)
    requires i < |scores| && p <= |order|
    requires forall t :: 0 <= t < |order| ==> order[t] < i
    requires forall s, t :: 0 <= s < t < |order| ==> order[s] != order[t] && scores[order[s]] <= scores[order[t]]
    requires forall t :: 0 <= t < p ==> scores[order[t]] <= scores[i]
    requires p < |order| ==> scores[order[p]] > scores[i]
    ensures var o := order[..p] + [i] + order[p..];
            && |o| == |order| + 1
            && (forall j :: j in o <==> j in order || j == i)
            && (forall t :: 0 <= t < |o| ==> o[t] < i + 1)
            && (forall s, t :: 0 <= s < t < |o| ==> o[s] != o[t] && scores[o[s]] <= scores[o[t]])
  {
    var o := order[..p] + [i] + order[p..];
    assert |o| == |order| + 1;
    forall t | 0 <= t < |o|
      ensures o[t] == if t < p then order[t] else if t == p then i else order[t - 1]
    {
    }
    forall j
      ensures j in o <==> j in order || j == i
    {
      if j in order {
        var t :| 0 <= t < |order| && order[t] == j;
        if t < p {
          assert o[t] == j;
        } else {
          assert o[t + 1] == j;
        }
      }
      assert o[p] == i;
    }
    forall s, t | 0 <= s < t < |o|
      ensures o[s] != o[t] && scores[o[s]] <= scores[o[t]]
    {
      if s == p {
        assert o[t] == order[t - 1];
      } else if t == p {
        assert o[s] == order[s];
      }
    }
  }

  /** `argsort()[-k:][::-1]`: the last `SliceCount(|scores|, k)` positions of the ascending order, highest first. */
  method SelectTop(scores: seq<real>, k: int) returns (idx: seq<nat>)
    ensures IsTopSelection(scores, SliceCount(|scores|, k), idx)
  {
    var order := ArgSort(scores);
    var n := |scores|;
    var c := SliceCount(n, k);
    idx := [];
    var t := n;
    while t > n - c
      invariant n - c <= t <= n
      invariant |idx| == n - t
      invariant forall u :: 0 <= u < |idx| ==> idx[u] == order[n - 1 - u]
    {
      t := t - 1;
      idx := idx + [order[t]];
    }
    forall p | n - c <= p < n
      ensures order[p] in idx
    {
      assert idx[n - 1 - p] == order[p];
    }
    forall j, u | 0 <= j < n && j !in idx && 0 <= u < |idx|
      ensures scores[j] <= scores[idx[u]]
    {
      assert j in order;
      var p :| 0 <= p < n && order[p] == j;
      assert p < n - c;
    }
  }
}
