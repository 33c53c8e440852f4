/** Weighted sums, filters and stable sorting of sequences: the vocabulary in which
    the database's aggregates (`SUM`, `WHERE`, `ORDER BY`) are stated. */
module Sequences {

  datatype Option<+T> = None | Some(value: T)

  function Pos(x: int): (r: int)
    ensures r >= 0 && r >= x && (r == 0 || r == x)
  {
    if x > 0 then x else 0
  }

  function Min(x: int, y: int): int {
    if x <= y then x else y
  }

  // ----- SUM -----

  /** The sum of `w` over `s`; rows are appended on the right, so it recurses there. */
  function Sum<T>(s: seq<T>, w: T -> int): int {
    if s == [] then 0 else Sum(s[..|s| - 1], w) + w(s[|s| - 1])
  }

  lemma {:induction false} SumAppend<T>(s: seq<T>, x: T, w: T -> int)
    ensures Sum(s + [x], w) == Sum(s, w) + w(x)
  {
    assert (s + [x])[..|s|] == s;
  }

  /** One more row read by a loop over `s`. */
  lemma SumTake<T>(s: seq<T>, n: nat, w: T -> int)
    requires n < |s|
    ensures Sum(s[..n + 1], w) == Sum(s[..n], w) + w(s[n])
  {
    assert s[..n + 1][..n] == s[..n];
  }

  lemma {:induction false} SumConcat<T>(s: seq<T>, t: seq<T>, w: T -> int)
    ensures Sum(s + t, w) == Sum(s, w) + Sum(t, w)
  {
    if t == [] {
      assert s + t == s;
    } else {
      var k := |t| - 1;
      assert (s + t)[..|s| + k] == s + t[..k];
      SumConcat(s, t[..k], w);
    }
  }

  lemma {:induction false} SumUpdate<T>(s: seq<T>, k: nat, x: T, w: T -> int)
    requires k < |s|
    ensures Sum(s[k := x], w) == Sum(s, w) - w(s[k]) + w(x)
  {
    var n := |s| - 1;
    if k == n {
      assert s[k := x][..n] == s[..n];
    } else {
      assert s[k := x][..n] == s[..n][k := x];
      SumUpdate(s[..n], k, x, w);
    }
  }

  lemma {:induction false} SumMiddle<T>(s: seq<T>, x: T, t: seq<T>, w: T -> int)
    ensures Sum(s + [x] + t, w) == Sum(s + t, w) + w(x)
  {
    SumConcat(s + [x], t, w);
    SumAppend(s, x, w);
    SumConcat(s, t, w);
  }

  /** A permutation of a sequence holds its last row somewhere, between two parts that
      together permute the rest. */
  lemma PermutationStep<T>(s: seq<T>, t: seq<T>) returns (u: seq<T>, v: seq<T>)
    requires s != [] && multiset(s) == multiset(t)
    ensures t == u + [s[|s| - 1]] + v
    ensures multiset(s[..|s| - 1]) == multiset(u + v)
  {
    var k := |s| - 1;
    assert s == s[..k] + [s[k]];
    assert s[k] in multiset(t);
    var j :| 0 <= j < |t| && t[j] == s[k];
    u, v := t[..j], t[j + 1..];
    assert t == u + [s[k]] + v;
    assert multiset(u + v) == multiset(t) - multiset{s[k]};
    assert multiset(s[..k]) == multiset(s) - multiset{s[k]};
  }

  /** Two weights that agree on the rows of `s` give the same sum. */
  lemma {:induction false} SumEqual<T>(s: seq<T>, v: T -> int, w: T -> int)
    requires forall i :: 0 <= i < |s| ==> v(s[i]) == w(s[i])
    ensures Sum(s, v) == Sum(s, w)
  {
    if s != [] {
      SumEqual(s[..|s| - 1], v, w);
    }
  }

  lemma {:induction false} SumDifference<T>(s: seq<T>, u: T -> int, v: T -> int, w: T -> int)
    requires forall i :: 0 <= i < |s| ==> u(s[i]) - v(s[i]) == w(s[i])
    ensures Sum(s, u) - Sum(s, v) == Sum(s, w)
  {
    if s != [] {
      SumDifference(s[..|s| - 1], u, v, w);
    }
  }

  /** Row by row equal weights (over possibly different rows) give the same sum. */
  lemma {:induction false} SumPairwise<S, T>(s: seq<S>, t: seq<T>, v: S -> int, w: T -> int)
    requires |s| == |t|
    requires forall i :: 0 <= i < |s| ==> v(s[i]) == w(t[i])
    ensures Sum(s, v) == Sum(t, w)
  {
    if s != [] {
      SumPairwise(s[..|s| - 1], t[..|t| - 1], v, w);
    }
  }

  lemma {:induction false} SumBounds<T>(s: seq<T>, w: T -> int, b: nat)
    requires forall i :: 0 <= i < |s| ==> 0 - b <= w(s[i]) <= b
    ensures -(|s| * b) <= Sum(s, w) <= |s| * b
  {
    if s != [] {
      SumBounds(s[..|s| - 1], w, b);
      assert |s| * b == (|s| - 1) * b + b;
    }
  }

  /** A sum does not see the order of its rows. */
  lemma {:induction false} SumPermutation<T>(s: seq<T>, t: seq<T>, w: T -> int)
    requires multiset(s) == multiset(t)
    ensures Sum(s, w) == Sum(t, w)
  {
    if s == [] {
      assert |multiset(t)| == 0;
    } else {
      var u, v := PermutationStep(s, t);
      SumPermutation(s[..|s| - 1], u + v, w);
      SumMiddle(u, s[|s| - 1], v, w);
    }
  }

  // ----- WHERE -----

  function Filter<T>(s: seq<T>, p: T -> bool): seq<T> {
    if s == [] then []
    else if p(s[|s| - 1]) then Filter(s[..|s| - 1], p) + [s[|s| - 1]]
    else Filter(s[..|s| - 1], p)
  }

  lemma {:induction false} FilterAppend<T>(s: seq<T>, x: T, p: T -> bool)
    ensures Filter(s + [x], p) == if p(x) then Filter(s, p) + [x] else Filter(s, p)
  {
    assert (s + [x])[..|s|] == s;
  }

  /** One more row read by a loop over `s`. */
  lemma FilterTake<T>(s: seq<T>, n: nat, p: T -> bool)
    requires n < |s|
    ensures Filter(s[..n + 1], p) == if p(s[n]) then Filter(s[..n], p) + [s[n]] else Filter(s[..n], p)
  {
    assert s[..n + 1][..n] == s[..n];
  }

  /** Every kept row satisfies the predicate and comes from the table; every
      satisfying row of the table is kept. */
  lemma {:induction false} FilterMembers<T>(s: seq<T>, p: T -> bool)
    ensures forall x :: x in Filter(s, p) <==> x in s && p(x)
    ensures |Filter(s, p)| <= |s|
  {
    if s != [] {
      FilterMembers(s[..|s| - 1], p);
      assert s == s[..|s| - 1] + [s[|s| - 1]];
    }
  }

  lemma {:induction false} FilterFilter<T>(s: seq<T>, p: T -> bool, q: T -> bool, pq: T -> bool)
    requires forall x :: pq(x) <==> p(x) && q(x)
    ensures Filter(Filter(s, p), q) == Filter(s, pq)
  {
    if s != [] {
      var k := |s| - 1;
      FilterFilter(s[..k], p, q, pq);
      FilterAppend(Filter(s[..k], p), s[k], q);
    }
  }

  lemma {:induction false} FilterEqual<T>(s: seq<T>, p: T -> bool, q: T -> bool)
    requires forall i :: 0 <= i < |s| ==> p(s[i]) == q(s[i])
    ensures Filter(s, p) == Filter(s, q)
  {
    if s != [] {
      FilterEqual(s[..|s| - 1], p, q);
    }
  }

  ghost predicate Distinct<T>(s: seq<T>) {
    forall i, j :: 0 <= i < j < |s| ==> s[i] != s[j]
  }

  lemma {:induction false} FilterDistinct<T>(s: seq<T>, p: T -> bool)
    requires Distinct(s)
    ensures Distinct(Filter(s, p))
  {
    if s != [] {
      FilterDistinct(s[..|s| - 1], p);
      FilterMembers(s[..|s| - 1], p);
      assert s[|s| - 1] !in s[..|s| - 1];
    }
  }

  lemma {:induction false} DistinctCounts<T>(s: seq<T>, x: T)
    requires Distinct(s)
    ensures multiset(s)[x] == if x in s then 1 else 0
  {
    if s != [] {
      var k := |s| - 1;
      DistinctCounts(s[..k], x);
      assert s == s[..k] + [s[k]];
    }
  }

  /** Duplicate-free lists of the same rows are permutations of each other. */
  lemma DistinctSameRows<T>(s: seq<T>, t: seq<T>)
    requires Distinct(s) && Distinct(t) && forall x :: x in s <==> x in t
    ensures multiset(s) == multiset(t)
  {
    forall x
      ensures multiset(s)[x] == multiset(t)[x]
    {
      DistinctCounts(s, x);
      DistinctCounts(t, x);
    }
  }

  /** `SUM(w) FILTER (WHERE p)` is the sum of `w` zeroed outside `p`. */
  lemma {:induction false} SumFilter<T>(s: seq<T>, p: T -> bool, w: T -> int, pw: T -> int)
    requires forall i :: 0 <= i < |s| ==> pw(s[i]) == if p(s[i]) then w(s[i]) else 0
    ensures Sum(Filter(s, p), w) == Sum(s, pw)
  {
    if s != [] {
      var k := |s| - 1;
      SumFilter(s[..k], p, w, pw);
      SumAppend(Filter(s[..k], p), s[k], w);
    }
  }

  // ----- One result per row -----

  function Map<S, T>(s: seq<S>, f: S -> T): seq<T> {
    if s == [] then [] else Map(s[..|s| - 1], f) + [f(s[|s| - 1])]
  }

  lemma {:induction false} MapConcat<S, T>(s: seq<S>, t: seq<S>, f: S -> T)
    ensures Map(s + t, f) == Map(s, f) + Map(t, f)
  {
    if t == [] {
      assert s + t == s;
    } else {
      var k := |t| - 1;
      assert (s + t)[..|s| + k] == s + t[..k];
      MapConcat(s, t[..k], f);
    }
  }

  lemma MapAppend<S, T>(s: seq<S>, x: S, f: S -> T)
    ensures Map(s + [x], f) == Map(s, f) + [f(x)]
  {
    assert (s + [x])[..|s|] == s;
  }

  lemma MapMiddle<S, T>(s: seq<S>, x: S, t: seq<S>, f: S -> T)
    ensures multiset(Map(s + [x] + t, f)) == multiset(Map(s + t, f)) + multiset{f(x)}
  {
    MapConcat(s + [x], t, f);
    MapAppend(s, x, f);
    MapConcat(s, t, f);
  }

  lemma {:induction false} MapPermutation<S, T>(s: seq<S>, t: seq<S>, f: S -> T)
    requires multiset(s) == multiset(t)
    ensures multiset(Map(s, f)) == multiset(Map(t, f))
  {
    if s == [] {
      assert |multiset(t)| == 0;
    } else {
      var u, v := PermutationStep(s, t);
      MapPermutation(s[..|s| - 1], u + v, f);
      MapMiddle(u, s[|s| - 1], v, f);
    }
  }

  // ----- ORDER BY -----

  ghost predicate TotalPreorder<T(!new)>(le: (T, T) -> bool) {
    && (forall x, y :: le(x, y) || le(y, x))
    && (forall x, y, z :: le(x, y) && le(y, z) ==> le(x, z))
  }

  ghost predicate Sorted<T>(s: seq<T>, le: (T, T) -> bool) {
    forall i, j :: 0 <= i < j < |s| ==> le(s[i], s[j])
  }

  /** Insert `x` after every row that is not greater than it: ties keep their order. */
  function Insert<T>(x: T, s: seq<T>, le: (T, T) -> bool): seq<T> {
    if s == [] || le(s[|s| - 1], x) then s + [x]
    else Insert(x, s[..|s| - 1], le) + [s[|s| - 1]]
  }

  /** Stable sort. */
  function Sort<T>(s: seq<T>, le: (T, T) -> bool): seq<T> {
    if s == [] then [] else Insert(s[|s| - 1], Sort(s[..|s| - 1], le), le)
  }

  lemma {:induction false} InsertKeepsRows<T>(x: T, s: seq<T>, le: (T, T) -> bool)
    ensures multiset(Insert(x, s, le)) == multiset(s) + multiset{x}
    ensures forall y :: y in Insert(x, s, le) <==> y in s || y == x
  {
    if s != [] {
      InsertKeepsRows(x, s[..|s| - 1], le);
      assert s == s[..|s| - 1] + [s[|s| - 1]];
    }
  }

  lemma {:induction false} InsertSorts<T(!new)>(x: T, s: seq<T>, le: (T, T) -> bool)
    requires TotalPreorder(le) && Sorted(s, le)
    ensures Sorted(Insert(x, s, le), le)
  {
    if s != [] && !le(s[|s| - 1], x) {
      var k := |s| - 1;
      InsertSorts(x, s[..k], le);
      InsertKeepsRows(x, s[..k], le);
      var r := Insert(x, s[..k], le);
      forall i | 0 <= i < |r|
        ensures le(r[i], s[k])
      {
        assert r[i] in r;
      }
    }
  }

  lemma {:induction false} SortSorts<T(!new)>(s: seq<T>, le: (T, T) -> bool)
    requires TotalPreorder(le)
    ensures Sorted(Sort(s, le), le)
    ensures multiset(Sort(s, le)) == multiset(s)
  {
    if s != [] {
      var k := |s| - 1;
      assert s == s[..k] + [s[k]];
      SortSorts(s[..k], le);
      InsertSorts(s[k], Sort(s[..k], le), le);
      InsertKeepsRows(s[k], Sort(s[..k], le), le);
    }
  }

  lemma {:induction false} InsertBefore<T>(x: T, s: seq<T>, y: T, le: (T, T) -> bool)
    requires !le(y, x)
    ensures Insert(x, s + [y], le) == Insert(x, s, le) + [y]
  {
    assert (s + [y])[..|s|] == s;
  }

  predicate Precedes<T>(s: seq<T>, i: nat, x: T, le: (T, T) -> bool)
    requires i < |s|
  {
    le(s[i], x)
  }

  /** What goes before `x` in a sorted sequence is a prefix of it. */
  ghost predicate SplitsAt<T>(s: seq<T>, x: T, le: (T, T) -> bool) {
    forall i, j :: 0 <= i < j < |s| && Precedes(s, j, x, le) ==> Precedes(s, i, x, le)
  }

  lemma SortedSplits<T(!new)>(s: seq<T>, x: T, le: (T, T) -> bool)
    requires TotalPreorder(le) && Sorted(s, le)
    ensures SplitsAt(s, x, le)
  {
    forall i, j | 0 <= i < j < |s| && Precedes(s, j, x, le)
      ensures Precedes(s, i, x, le)
    {
      assert le(s[i], s[j]) && le(s[j], x);
    }
  }

  lemma SplitsBefore<T>(s: seq<T>, k: nat, x: T, le: (T, T) -> bool)
    requires SplitsAt(s, x, le) && k <= |s|
    ensures SplitsAt(s[..k], x, le)
  {
    forall i, j | 0 <= i < j < k && Precedes(s[..k], j, x, le)
      ensures Precedes(s[..k], i, x, le)
    {
      assert Precedes(s, j, x, le) && Precedes(s, i, x, le);
    }
  }

  lemma {:induction false} LastOrigin<T>(s: seq<T>, p: T -> bool) returns (i: nat)
    requires Filter(s, p) != []
    ensures i < |s| && s[i] == Filter(s, p)[|Filter(s, p)| - 1]
  {
    var k := |s| - 1;
    if p(s[k]) {
      i := k;
    } else {
      i := LastOrigin(s[..k], p);
    }
  }

  lemma InsertLast<T>(x: T, f: seq<T>, le: (T, T) -> bool)
    requires f == [] || le(f[|f| - 1], x)
    ensures Insert(x, f, le) == f + [x]
  {
  }

  lemma LastBefore<T>(s: seq<T>, x: T, le: (T, T) -> bool, p: T -> bool)
    requires s != [] && SplitsAt(s, x, le) && le(s[|s| - 1], x)
    ensures Filter(s, p) == [] || le(Filter(s, p)[|Filter(s, p)| - 1], x)
  {
    if Filter(s, p) != [] {
      var i := LastOrigin(s, p);
      assert Precedes(s, |s| - 1, x, le) && Precedes(s, i, x, le);
    }
  }

  lemma LastOfFilter<T>(s: seq<T>, x: T, le: (T, T) -> bool, p: T -> bool)
    requires s != [] && SplitsAt(s, x, le) && le(s[|s| - 1], x)
    ensures Insert(x, Filter(s, p), le) == Filter(s, p) + [x]
  {
    LastBefore(s, x, le, p);
    InsertLast(x, Filter(s, p), le);
  }

  lemma {:induction false} FilterInsert<T>(x: T, s: seq<T>, le: (T, T) -> bool, p: T -> bool)
    requires SplitsAt(s, x, le)
    ensures Filter(Insert(x, s, le), p) == if p(x) then Insert(x, Filter(s, p), le) else Filter(s, p)
  {
    if s == [] {
      FilterAppend(s, x, p);
    } else if le(s[|s| - 1], x) {
      FilterAppend(s, x, p);
      LastOfFilter(s, x, le, p);
    } else {
      var k := |s| - 1;
      SplitsBefore(s, k, x, le);
      FilterInsert(x, s[..k], le, p);
      FilterAppend(Insert(x, s[..k], le), s[k], p);
      InsertBefore(x, Filter(s[..k], p), s[k], le);
    }
  }

  lemma {:induction false} SortAppend<T>(s: seq<T>, x: T, le: (T, T) -> bool)
    ensures Sort(s + [x], le) == Insert(x, Sort(s, le), le)
  {
    assert (s + [x])[..|s|] == s;
  }

  /** Selecting after sorting is sorting after selecting, ties included. */
  lemma {:induction false} FilterSort<T(!new)>(s: seq<T>, le: (T, T) -> bool, p: T -> bool)
    requires TotalPreorder(le)
    ensures Filter(Sort(s, le), p) == Sort(Filter(s, p), le)
  {
    if s != [] {
      var k := |s| - 1;
      FilterSort(s[..k], le, p);
      SortSorts(s[..k], le);
      SortedSplits(Sort(s[..k], le), s[k], le);
      FilterInsert(s[k], Sort(s[..k], le), le, p);
      SortAppend(Filter(s[..k], p), s[k], le);
    }
  }
}
