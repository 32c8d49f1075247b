/** Nearest-neighbour ranking shared by both vector indexes: squared
    Euclidean distance, candidates as `std::pair<float, int>` (distance, row)
    ordered lexicographically, the sorted candidate list and its first k
    entries. Components are integers, so distances are exact. */
module Ranking {
  import opened Common

  /** A candidate, ordered as the C++ `std::pair<float, int>` (distance, row). */
  datatype Hit = Hit(dist: int, row: int)

  /** `std::pair`'s `operator<`: by distance, ties broken by row. */
  predicate Less(a: Hit, b: Hit) {
    a.dist < b.dist || (a.dist == b.dist && a.row < b.row)
  }

  /** Strictly ascending under `Less`. */
  predicate Sorted(s: seq<Hit>) {
    forall i, j :: 0 <= i < j < |s| ==> Less(s[i], s[j])
  }

  /** No row appears twice: each row of an index yields one candidate. */
  predicate DistinctRows(s: seq<Hit>) {
    forall i, j :: 0 <= i < j < |s| ==> s[i].row != s[j].row
  }

  /** Squared Euclidean distance between `q[..m]` and `v[off..off + m]`,
      summed in index order as the source loops do. */
  function SqDist(q: seq<int>, v: seq<int>, off: nat, m: nat): int
    requires m <= |q| && off + m <= |v|
  {
    if m == 0 then 0
    else SqDist(q, v, off, m - 1) + (q[m - 1] - v[off + m - 1]) * (q[m - 1] - v[off + m - 1])
  }

  /** Four components at once, as the unrolled loop adds them. */
  lemma SqDistStep4(q: seq<int>, v: seq<int>, off: nat, j: nat)
    requires j + 4 <= |q| && off + j + 4 <= |v|
    ensures SqDist(q, v, off, j + 4) == SqDist(q, v, off, j)
      + ((q[j] - v[off + j]) * (q[j] - v[off + j])
       + (q[j + 1] - v[off + j + 1]) * (q[j + 1] - v[off + j + 1])
       + (q[j + 2] - v[off + j + 2]) * (q[j + 2] - v[off + j + 2])
       + (q[j + 3] - v[off + j + 3]) * (q[j + 3] - v[off + j + 3]))
  {
    assert SqDist(q, v, off, j + 4) == SqDist(q, v, off, j + 3) + (q[j + 3] - v[off + j + 3]) * (q[j + 3] - v[off + j + 3]);
    assert SqDist(q, v, off, j + 3) == SqDist(q, v, off, j + 2) + (q[j + 2] - v[off + j + 2]) * (q[j + 2] - v[off + j + 2]);
    assert SqDist(q, v, off, j + 2) == SqDist(q, v, off, j + 1) + (q[j + 1] - v[off + j + 1]) * (q[j + 1] - v[off + j + 1]);
  }

  lemma SquareNonNegative(d: int)
    ensures d * d >= 0
    ensures d * d == 0 <==> d == 0
  {
    if d < 0 {
      assert d * d == (-d) * (-d);
    }
  }

  /** A distance is never negative, and it is zero exactly when the two
      vectors agree component by component. */
  lemma {:induction false} SqDistZeroIff(q: seq<int>, v: seq<int>, off: nat, m: nat)
    requires m <= |q| && off + m <= |v|
    ensures SqDist(q, v, off, m) >= 0
    ensures SqDist(q, v, off, m) == 0 <==> forall j :: 0 <= j < m ==> q[j] == v[off + j]
  {
    if m > 0 {
      SqDistZeroIff(q, v, off, m - 1);
      SquareNonNegative(q[m - 1] - v[off + m - 1]);
    }
  }

  /** Inserts `x` before the first element it is `Less` than. */
  function Insert(s: seq<Hit>, x: Hit): (r: seq<Hit>)
    ensures |r| == |s| + 1
    ensures multiset(r) == multiset(s) + multiset{x}
  {
    if s == [] || Less(x, s[0]) then [x] + s
    else
      assert s == [s[0]] + s[1..];
      [s[0]] + Insert(s[1..], x)
  }

  /** The candidates in ascending order: insertion sort, the reference for
      `std::sort` on distinct pairs (see `SortedPermutationUnique`). */
  function SortHits(s: seq<Hit>): (r: seq<Hit>)
    ensures |r| == |s|
    ensures multiset(r) == multiset(s)
  {
    if s == [] then []
    else
      assert s == s[..|s| - 1] + [s[|s| - 1]];
      Insert(SortHits(s[..|s| - 1]), s[|s| - 1])
  }

  /** The first `b` entries, or all of them when there are fewer. */
  function Take(s: seq<Hit>, b: nat): (r: seq<Hit>)
    ensures |r| == Min(b, |s|)
    ensures r == s[..|r|]
  {
    if b < |s| then s[..b] else s
  }

  lemma {:induction false} InsertSorted(s: seq<Hit>, x: Hit)
    requires Sorted(s)
    requires x !in s
    ensures Sorted(Insert(s, x))
  {
    if s != [] && !Less(x, s[0]) {
      assert x != s[0];
      InsertSorted(s[1..], x);
      var r := Insert(s[1..], x);
      forall j | 0 <= j < |r|
        ensures Less(s[0], r[j])
      {
        assert r[j] in multiset(s[1..]) + multiset{x};
      }
    }
  }

  /** Sorting distinct candidates gives a strictly ascending list. */
  lemma {:induction false} SortHitsSorted(s: seq<Hit>)
    requires DistinctRows(s)
    ensures Sorted(SortHits(s))
  {
    if s != [] {
      var p := s[..|s| - 1];
      var x := s[|s| - 1];
      SortHitsSorted(p);
      forall i | 0 <= i < |p|
        ensures p[i] != x
      {
        assert s[i].row != s[|s| - 1].row;
      }
      assert x !in multiset(SortHits(p));
      InsertSorted(SortHits(p), x);
    }
  }

  /** Two strictly ascending lists with the same elements are equal: any
      sort of distinct candidates, `std::sort` included, yields `SortHits`. */
  lemma {:induction false} SortedPermutationUnique(a: seq<Hit>, b: seq<Hit>)
    requires Sorted(a) && Sorted(b)
    requires multiset(a) == multiset(b)
    ensures a == b
    decreases |a|
  {
    if a != [] {
      assert a[0] in multiset(b);
      assert b != [];
      assert b[0] in multiset(a);
      assert a[0] == b[0];
      assert a == [a[0]] + a[1..];
      assert b == [b[0]] + b[1..];
      assert multiset(a[1..]) == multiset(a) - multiset{a[0]};
      assert multiset(b[1..]) == multiset(b) - multiset{b[0]};
      SortedPermutationUnique(a[1..], b[1..]);
    } else {
      assert |b| == 0;
    }
  }

  /** Sorting after appending one candidate is inserting it into the sort. */
  lemma SortHitsSnoc(p: seq<Hit>, x: Hit)
    ensures SortHits(p + [x]) == Insert(SortHits(p), x)
  {
    assert (p + [x])[..|p|] == p;
  }

  /** Inserting a candidate that beats entry `b - 1` changes the first `b`
      entries into the first `b - 1` with the candidate inserted. */
  lemma {:induction false} InsertPrefixBelow(s: seq<Hit>, x: Hit, b: nat)
    requires 1 <= b <= |s|
    requires Less(x, s[b - 1])
    ensures Insert(s, x)[..b] == Insert(s[..b - 1], x)
  {
    if !Less(x, s[0]) {
      assert b >= 2;
      InsertPrefixBelow(s[1..], x, b - 1);
      assert s[..b - 1][1..] == s[1..][..b - 2];
    } else if b > 1 {
      assert s[..b - 1][0] == s[0];
    }
  }

  /** Inserting a candidate that does not beat entry `b - 1` of a sorted list
      leaves the first `b` entries alone. */
  lemma {:induction false} InsertPrefixAbove(s: seq<Hit>, x: Hit, b: nat)
    requires Sorted(s)
    requires 1 <= b <= |s|
    requires !Less(x, s[b - 1])
    ensures Insert(s, x)[..b] == s[..b]
  {
    if b > 1 {
      assert Less(s[0], s[b - 1]);
      InsertPrefixAbove(s[1..], x, b - 1);
      assert s[..b] == [s[0]] + s[1..][..b - 1];
    }
  }

  /** One push-or-replace step of a bounded max-heap of capacity `b`, the
      heap seen as an ascending list whose last entry is its top: push while
      fewer than `b` are held, otherwise replace the top by a candidate with
      a strictly smaller distance. */
  function HeapStep(heap: seq<Hit>, x: Hit, b: nat): seq<Hit>
    requires b >= 1
  {
    if |heap| < b then Insert(heap, x)
    else if x.dist < heap[|heap| - 1].dist then Insert(heap[..|heap| - 1], x)
    else heap
  }

  /** The heap step on an ascending list `s` whose rows all precede the
      candidate's row. */
  lemma TopKInsert(s: seq<Hit>, x: Hit, b: nat)
    requires b >= 1
    requires Sorted(s)
    requires forall i :: 0 <= i < |s| ==> s[i].row < x.row
    ensures Take(Insert(s, x), b) == HeapStep(Take(s, b), x, b)
  {
    if |s| >= b {
      var h := Take(s, b);
      assert h[b - 1] == s[b - 1] && h[..b - 1] == s[..b - 1];
      assert Take(Insert(s, x), b) == Insert(s, x)[..b];
      if x.dist < s[b - 1].dist {
        InsertPrefixBelow(s, x, b);
      } else {
        InsertPrefixAbove(s, x, b);
      }
    }
  }

  /** The heap step keeps the heap equal to the first `b` entries of the
      sorted candidates seen so far. Candidates arrive in increasing row
      order, so the strict distance test is exactly the lexicographic one. */
  lemma TopKStep(p: seq<Hit>, x: Hit, b: nat)
    requires b >= 1
    requires DistinctRows(p)
    requires forall i :: 0 <= i < |p| ==> p[i].row < x.row
    ensures Take(SortHits(p + [x]), b) == HeapStep(Take(SortHits(p), b), x, b)
  {
    var s := SortHits(p);
    SortHitsSnoc(p, x);
    SortHitsSorted(p);
    forall i | 0 <= i < |s|
      ensures s[i].row < x.row
    {
      assert s[i] in multiset(p);
    }
    TopKInsert(s, x, b);
  }

  /** What the first `b` sorted candidates are: min(b, N) of them, ascending,
      drawn from the candidates, and each beats every candidate left out. */
  lemma TopKCharacterised(h: seq<Hit>, b: nat)
    requires DistinctRows(h)
    ensures |Take(SortHits(h), b)| == Min(b, |h|)
    ensures Sorted(Take(SortHits(h), b))
    ensures multiset(Take(SortHits(h), b)) <= multiset(h)
    ensures forall x, y :: x in Take(SortHits(h), b) && y in h && y !in Take(SortHits(h), b) ==> Less(x, y)
  {
    var s := SortHits(h);
    SortHitsSorted(h);
    TakeOfSorted(s, b);
    forall y | y in h ensures y in s {
      assert y in multiset(h);
    }
  }

  /** The first `b` entries of an ascending list are ascending, drawn from
      it, and each is less than every entry left out. */
  lemma TakeOfSorted(s: seq<Hit>, b: nat)
    requires Sorted(s)
    ensures Sorted(Take(s, b))
    ensures multiset(Take(s, b)) <= multiset(s)
    ensures forall x, y :: x in Take(s, b) && y in s && y !in Take(s, b) ==> Less(x, y)
  {
    var t := Take(s, b);
    assert s == t + s[|t|..];
    assert multiset(s) == multiset(t) + multiset(s[|t|..]);
    forall x, y | x in t && y in s && y !in t
      ensures Less(x, y)
    {
      var i :| 0 <= i < |t| && t[i] == x;
      var j :| 0 <= j < |s| && s[j] == y;
      assert j >= |t|;
    }
  }
}
