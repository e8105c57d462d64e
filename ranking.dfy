/**
 * `ORDER BY <score> DESC LIMIT n` over the groups of a query. Postgres leaves the order of
 * equal scores undefined, so the admissible answers are described by `IsTopN`; `TopN` is one
 * of them (a stable insertion sort, then the first n).
 */
module Ranking {
  import opened Seqs

  ghost predicate NonIncreasing<K>(r: seq<K>, score: K -> int) {
    forall i, j :: 0 <= i < j < |r| ==> score(r[i]) >= score(r[j])
  }

  /**
   * Every admissible result of `ORDER BY score DESC LIMIT n` over the groups `keys`:
   * distinct groups, as many as the limit allows, by non-increasing score, and no group left
   * out scores above one that was returned.
   */
  ghost predicate IsTopN<K>(r: seq<K>, keys: set<K>, score: K -> int, n: nat) {
    && NoDuplicates(r)
    && (forall i :: 0 <= i < |r| ==> r[i] in keys)
    && |r| == Min(n, |keys|)
    && NonIncreasing(r, score)
    && (forall k, i :: k in keys && k !in r && 0 <= i < |r| ==> score(k) <= score(r[i]))
    && (|keys| <= n ==> forall k :: k in keys ==> k in r)
  }

  /** Puts `x` into a non-increasing sequence, before the elements it ties with. */
  function Insert<K>(x: K, sorted: seq<K>, score: K -> int): (r: seq<K>)
    requires NonIncreasing(sorted, score)
    ensures NonIncreasing(r, score)
    ensures multiset(r) == multiset(sorted) + multiset{x}
    ensures |r| == |sorted| + 1
    ensures r[0] == x || (sorted != [] && r[0] == sorted[0])
    decreases |sorted|
  {
    if sorted == [] || score(x) >= score(sorted[0]) then
      ConsNonIncreasing(x, sorted, score);
      [x] + sorted
    else
      assert sorted == [sorted[0]] + sorted[1..];
      NonIncreasingTail(sorted, score);
      var rest := Insert(x, sorted[1..], score);
      ConsNonIncreasing(sorted[0], rest, score);
      [sorted[0]] + rest
  }

  /** A head scoring at least as much as the first element keeps the order. */
  lemma ConsNonIncreasing<K>(h: K, t: seq<K>, score: K -> int)
    requires NonIncreasing(t, score) && (t == [] || score(h) >= score(t[0]))
    ensures NonIncreasing([h] + t, score)
  {
    var r := [h] + t;
    forall i, j | 0 <= i < j < |r| ensures score(r[i]) >= score(r[j]) {
      if i > 0 {
        assert r[i] == t[i - 1] && r[j] == t[j - 1];
      } else if j > 1 {
        assert r[j] == t[j - 1];
      }
    }
  }

  lemma NonIncreasingTail<K>(r: seq<K>, score: K -> int)
    requires r != [] && NonIncreasing(r, score)
    ensures NonIncreasing(r[1..], score)
  {
    forall i, j | 0 <= i < j < |r| - 1 ensures score(r[1..][i]) >= score(r[1..][j]) {
      assert r[1..][i] == r[i + 1] && r[1..][j] == r[j + 1];
    }
  }

  /** Insertion sort by non-increasing score; a permutation of the input. */
  function SortByScore<K>(s: seq<K>, score: K -> int): (r: seq<K>)
    ensures NonIncreasing(r, score)
    ensures multiset(r) == multiset(s)
    decreases |s|
  {
    if s == [] then []
    else
      assert s == [s[0]] + s[1..];
      Insert(s[0], SortByScore(s[1..], score), score)
  }

  /** `LIMIT n`. */
  function Take<K>(s: seq<K>, n: nat): seq<K> {
    s[..Min(n, |s|)]
  }

  /** The model's answer: the groups sorted by score, then the first n. */
  function TopN<K>(keys: seq<K>, score: K -> int, n: nat): seq<K> {
    Take(SortByScore(keys, score), n)
  }

  /** Sorting keeps the groups and keeps them distinct. */
  lemma SortKeepsDistinct<K(!new)>(keys: seq<K>, score: K -> int)
    requires NoDuplicates(keys)
    ensures NoDuplicates(SortByScore(keys, score))
    ensures forall x :: x in SortByScore(keys, score) <==> x in keys
  {
    var sorted := SortByScore(keys, score);
    forall x ensures x in sorted <==> x in keys {
      assert x in sorted <==> x in multiset(sorted);
    }
    forall x ensures multiset(sorted)[x] <= 1 {
      NoDuplicatesCount(keys, x);
    }
    CountsNoDuplicates(sorted);
  }

  /** A prefix of a duplicate-free, non-increasing sequence is both too. */
  lemma PrefixKeepsOrder<K>(sorted: seq<K>, score: K -> int, m: nat)
    requires m <= |sorted| && NoDuplicates(sorted) && NonIncreasing(sorted, score)
    ensures NoDuplicates(sorted[..m]) && NonIncreasing(sorted[..m], score)
  {
    var r := sorted[..m];
    forall i, j | 0 <= i < j < |r| ensures r[i] != r[j] && score(r[i]) >= score(r[j]) {
      assert r[i] == sorted[i] && r[j] == sorted[j];
    }
  }

  /** `TopN` returns one of the admissible answers of `ORDER BY score DESC LIMIT n`. */
  lemma TopNIsTopN<K(!new)>(keys: seq<K>, score: K -> int, n: nat)
    requires NoDuplicates(keys)
    ensures IsTopN(TopN(keys, score, n), Elements(keys), score, n)
  {
    var sorted := SortByScore(keys, score);
    var r := TopN(keys, score, n);
    SortKeepsDistinct(keys, score);
    DistinctCardinality(keys);
    assert |sorted| == |keys| by {
      assert |multiset(sorted)| == |multiset(keys)|;
    }
    var m := Min(n, |sorted|);
    assert r == sorted[..m];
    PrefixKeepsOrder(sorted, score, m);
    forall i | 0 <= i < |r| ensures r[i] in Elements(keys) {
      assert r[i] == sorted[i];
    }
    forall k, i | k in Elements(keys) && k !in r && 0 <= i < |r|
      ensures score(k) <= score(r[i])
    {
      var j :| 0 <= j < |sorted| && sorted[j] == k;
      assert r[i] == sorted[i];
    }
    if |keys| <= n {
      assert r == sorted;
    }
  }
}
