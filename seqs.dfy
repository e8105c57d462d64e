/**
 * Sequence helpers shared by the model: a table is a sequence of rows, a SQL `WHERE` is a
 * `Filter`, a projection is a `MapSeq`, and `set(...)` / `SELECT DISTINCT` / a `GROUP BY` key
 * list is `Distinct`.
 */
module Seqs {
  import opened Wrappers

  function Min(a: int, b: int): int { if a <= b then a else b }

  /** The set of elements of `s`. */
  function Elements<T(!new)>(s: seq<T>): (r: set<T>)
    ensures forall x :: x in r <==> x in s
  {
    set x | x in s
  }

  ghost predicate NoDuplicates<T>(s: seq<T>) {
    forall i, j :: 0 <= i < j < |s| ==> s[i] != s[j]
  }

  /** The rows of `s` that satisfy `p`, in their original order. */
  function Filter<T(!new)>(s: seq<T>, p: T -> bool): (r: seq<T>)
    ensures |r| <= |s|
    ensures forall x :: x in r <==> x in s && p(x)
    decreases |s|
  {
    if s == [] then []
    else
      assert s == s[..|s| - 1] + [s[|s| - 1]];
      var init := Filter(s[..|s| - 1], p);
      if p(s[|s| - 1]) then init + [s[|s| - 1]] else init
  }

  /** `Filter` keeps every copy of a row that satisfies `p` and no copy of one that does not. */
  lemma {:induction false} FilterCount<T(!new)>(s: seq<T>, p: T -> bool)
    ensures forall x :: multiset(Filter(s, p))[x] == if p(x) then multiset(s)[x] else 0
    decreases |s|
  {
    if s != [] {
      var init := s[..|s| - 1];
      assert s == init + [s[|s| - 1]];
      FilterCount(init, p);
    }
  }

  /** Element-wise image of `s` under `f`. */
  function MapSeq<A, B>(s: seq<A>, f: A -> B): (r: seq<B>)
    ensures |r| == |s|
    ensures forall i :: 0 <= i < |s| ==> r[i] == f(s[i])
  {
    seq(|s|, i requires 0 <= i < |s| => f(s[i]))
  }

  /** The elements of `s` without repetition, each at the place of its first occurrence. */
  function Distinct<T(==,!new)>(s: seq<T>): (r: seq<T>)
    ensures NoDuplicates(r)
    ensures forall x :: x in r <==> x in s
    ensures |r| <= |s|
    decreases |s|
  {
    if s == [] then []
    else
      assert s == s[..|s| - 1] + [s[|s| - 1]];
      var init := Distinct(s[..|s| - 1]);
      if s[|s| - 1] in init then init else init + [s[|s| - 1]]
  }

  /** Filtering a prefix gives a prefix of the filtered sequence. */
  lemma {:induction false} FilterPrefix<T(!new)>(s: seq<T>, p: T -> bool, i: nat)
    requires i <= |s|
    ensures Filter(s[..i], p) <= Filter(s, p)
    decreases |s|
  {
    if i < |s| {
      assert s[..i] == s[..|s| - 1][..i];
      FilterPrefix(s[..|s| - 1], p, i);
    } else {
      assert s[..i] == s;
    }
  }

  /** One more element of the input adds at most that element to the output. */
  lemma FilterSnoc<T(!new)>(s: seq<T>, x: T, p: T -> bool)
    ensures Filter(s + [x], p) == if p(x) then Filter(s, p) + [x] else Filter(s, p)
  {
    assert (s + [x])[..|s + [x]| - 1] == s;
  }

  /** Applying the same `WHERE` twice is the same as applying it once. */
  lemma {:induction false} FilterIdempotent<T(!new)>(s: seq<T>, p: T -> bool)
    ensures Filter(Filter(s, p), p) == Filter(s, p)
    decreases |s|
  {
    if s != [] {
      var init := s[..|s| - 1];
      FilterIdempotent(init, p);
      if p(s[|s| - 1]) {
        FilterSnoc(Filter(init, p), s[|s| - 1], p);
      }
    }
  }

  /** A duplicate-free sequence has as many elements as its set. */
  lemma {:induction false} DistinctCardinality<T(!new)>(s: seq<T>)
    requires NoDuplicates(s)
    ensures |Elements(s)| == |s|
    decreases |s|
  {
    if s != [] {
      var init := s[..|s| - 1];
      var last := s[|s| - 1];
      assert s == init + [last];
      DistinctCardinality(init);
      assert last !in init;
      assert Elements(s) == Elements(init) + {last};
    }
  }

  /** A duplicate-free sequence holds each element at most once. */
  lemma {:induction false} NoDuplicatesCount<T>(s: seq<T>, x: T)
    requires NoDuplicates(s)
    ensures multiset(s)[x] <= 1
    decreases |s|
  {
    if s != [] {
      var init := s[..|s| - 1];
      assert s == init + [s[|s| - 1]];
      NoDuplicatesCount(init, x);
      if x == s[|s| - 1] {
        assert x !in init;
      }
    }
  }

  /** A sequence that holds each element at most once has no repeated element. */
  lemma CountsNoDuplicates<K(!new)>(s: seq<K>)
    requires forall x :: multiset(s)[x] <= 1
    ensures NoDuplicates(s)
  {
    forall i, j | 0 <= i < j < |s|
      ensures s[i] != s[j]
    {
      var x := s[j];
      assert s == s[..j] + s[j..];
      assert multiset(s)[x] == multiset(s[..j])[x] + multiset(s[j..])[x];
      assert multiset(s[j..])[x] >= 1 by { assert s[j..][0] == x; }
      assert multiset(s[..j])[s[i]] >= 1 by { assert s[..j][i] == s[i]; }
    }
  }

  /** A `WHERE` keeps a duplicate-free table duplicate-free. */
  lemma FilterNoDuplicates<T(!new)>(s: seq<T>, p: T -> bool)
    requires NoDuplicates(s)
    ensures NoDuplicates(Filter(s, p))
  {
    FilterCount(s, p);
    forall x ensures multiset(Filter(s, p))[x] <= 1 {
      NoDuplicatesCount(s, x);
    }
    CountsNoDuplicates(Filter(s, p));
  }

  /** A `WHERE` that every row passes keeps the whole table. */
  lemma {:induction false} FilterAll<T(!new)>(s: seq<T>, p: T -> bool)
    requires forall x :: x in s ==> p(x)
    ensures Filter(s, p) == s
    decreases |s|
  {
    if s != [] {
      assert s == s[..|s| - 1] + [s[|s| - 1]];
      FilterAll(s[..|s| - 1], p);
    }
  }

  /** Two `WHERE` conditions that agree on every row of the table select the same rows. */
  lemma {:induction false} FilterCongruent<T(!new)>(s: seq<T>, p: T -> bool, q: T -> bool)
    requires forall x :: x in s ==> p(x) == q(x)
    ensures Filter(s, p) == Filter(s, q)
    decreases |s|
  {
    if s != [] {
      assert s == s[..|s| - 1] + [s[|s| - 1]];
      FilterCongruent(s[..|s| - 1], p, q);
    }
  }

  /** A `WHERE` that no row satisfies selects nothing. */
  lemma FilterNone<T(!new)>(s: seq<T>, p: T -> bool)
    requires forall x :: x in s ==> !p(x)
    ensures Filter(s, p) == []
  {
  }

  /** Counting the rows that equal `v` (a `count(*)` whose `WHERE` fixes every column). */
  lemma {:induction false} FilterSingleCount<T(!new)>(s: seq<T>, p: T -> bool, v: T)
    requires forall x :: p(x) <==> x == v
    ensures |Filter(s, p)| == multiset(s)[v]
    decreases |s|
  {
    if s != [] {
      assert s == s[..|s| - 1] + [s[|s| - 1]];
      FilterSingleCount(s[..|s| - 1], p, v);
    }
  }

  /** The first element of `s` that satisfies `p` (`fetchone()` on a `WHERE`). */
  function Find<T(!new)>(s: seq<T>, p: T -> bool): (r: Option<T>)
    ensures r.Some? ==> r.value in s && p(r.value)
    ensures r.None? ==> forall x :: x in s ==> !p(x)
    decreases |s|
  {
    if s == [] then None
    else if p(s[0]) then Some(s[0])
    else
      assert forall x :: x in s ==> x == s[0] || x in s[1..];
      Find(s[1..], p)
  }
}
