/** `SimpleVectorIndex` of the C++ service (src/simple_vector_index.h): all
    embeddings in one flat row-major buffer, a row count, brute-force
    search through a bounded max-heap, and a binary file of 32-bit words
    `[count][dimension][values...]`. */
module VectorIndex {
  import opened Common
  import opened Ranking

  /** Rows are scanned in blocks of this many (src/simple_vector_index.h:41). */
  const BLOCK: nat := 16

  /** One search result as the C++ `std::pair<int, float>` (row, distance). */
  datatype Scored = Scored(row: int, dist: int)

  function AsScored(hs: seq<Hit>): (r: seq<Scored>)
    ensures |r| == |hs|
    ensures forall i :: 0 <= i < |hs| ==> r[i].row == hs[i].row && r[i].dist == hs[i].dist
  {
    seq(|hs|, i requires 0 <= i < |hs| => Scored(hs[i].row, hs[i].dist))
  }

  /** The candidates of the first `m` rows of a row-major buffer, in row
      order: row `i` paired with its squared distance to the query. */
  function Hits(query: seq<int>, data: seq<int>, dim: nat, m: nat): (hs: seq<Hit>)
    requires dim <= |query| && Times(m, dim) <= |data|
    ensures |hs| == m
    ensures forall i :: 0 <= i < m ==> hs[i].row == i
  {
    if m == 0 then []
    else Hits(query, data, dim, m - 1) + [Hit(SqDist(query, data, Times(m - 1, dim), dim), m - 1)]
  }

  /** Candidate `i` is row `i` with its distance to the query. */
  lemma {:induction false} HitAt(query: seq<int>, data: seq<int>, dim: nat, m: nat, i: nat)
    requires dim <= |query| && Times(m, dim) <= |data|
    requires i < m
    ensures Times(i, dim) + dim <= |data|
    ensures Hits(query, data, dim, m)[i] == Hit(SqDist(query, data, Times(i, dim), dim), i)
  {
    if i < m - 1 {
      HitAt(query, data, dim, m - 1, i);
    }
  }

  lemma HitsDistinct(query: seq<int>, data: seq<int>, dim: nat, m: nat)
    requires dim <= |query| && Times(m, dim) <= |data|
    ensures DistinctRows(Hits(query, data, dim, m))
    ensures forall i :: 0 <= i < m ==> Hits(query, data, dim, m)[i].row < m
  {
  }

  /** The heap capacity `search` compares against: `k` converted to `size_t`,
      so a negative `k` means no bound at all in practice. */
  function HeapBound(k: int): nat
    requires IsInt32(k)
  {
    if k >= 0 then k else k + SIZE_T_MODULUS
  }

  /** The heap after the first `m` rows have been offered in row order. */
  function HeapAfter(query: seq<int>, data: seq<int>, dim: nat, m: nat, bound: nat): seq<Hit>
    requires dim <= |query| && Times(m, dim) <= |data| && bound >= 1
  {
    if m == 0 then []
    else HeapStep(HeapAfter(query, data, dim, m - 1, bound), Hit(SqDist(query, data, Times(m - 1, dim), dim), m - 1), bound)
  }

  /** The heap after row `i` is the heap before it, offered row `i`. */
  lemma {:induction false} HeapAfterNext(query: seq<int>, data: seq<int>, dim: nat, i: nat, bound: nat)
    requires dim <= |query| && Times(i + 1, dim) <= |data| && bound >= 1
    ensures Times(i, dim) <= |data|
    ensures HeapAfter(query, data, dim, i + 1, bound)
      == HeapStep(HeapAfter(query, data, dim, i, bound), Hit(SqDist(query, data, Times(i, dim), dim), i), bound)
  {
    TimesMonotone(i, i + 1, dim);
  }

  /** Offering row `m - 1` to the heap of the first `m - 1` rows. */
  lemma HeapAfterStep(query: seq<int>, data: seq<int>, dim: nat, m: nat, bound: nat)
    requires dim <= |query| && Times(m, dim) <= |data| && bound >= 1 && m > 0
    requires HeapAfter(query, data, dim, m - 1, bound) == Take(SortHits(Hits(query, data, dim, m - 1)), bound)
    ensures HeapAfter(query, data, dim, m, bound) == Take(SortHits(Hits(query, data, dim, m)), bound)
  {
    var seen := Hits(query, data, dim, m - 1);
    var x := Hit(SqDist(query, data, Times(m - 1, dim), dim), m - 1);
    HitsDistinct(query, data, dim, m - 1);
    TopKStep(seen, x, bound);
    assert Hits(query, data, dim, m) == seen + [x];
  }

  /** The bounded heap ends up holding exactly the first `bound` candidates
      in (distance, row) order: the strict `<` of the replacement test is
      the lexicographic order because rows arrive in increasing order. */
  lemma {:induction false} HeapAfterIsTopK(query: seq<int>, data: seq<int>, dim: nat, m: nat, bound: nat)
    requires dim <= |query| && Times(m, dim) <= |data| && bound >= 1
    ensures HeapAfter(query, data, dim, m, bound) == Take(SortHits(Hits(query, data, dim, m)), bound)
  {
    if m > 0 {
      HeapAfterIsTopK(query, data, dim, m - 1, bound);
      HeapAfterStep(query, data, dim, m, bound);
    }
  }

  /** What `search(query, k)` returns: the first `k` candidates in ascending
      (distance, row) order. */
  function TopK(query: seq<int>, data: seq<int>, dim: nat, n: nat, k: int): seq<Scored>
    requires dim <= |query| && Times(n, dim) <= |data| && IsInt32(k)
  {
    AsScored(Take(SortHits(Hits(query, data, dim, n)), HeapBound(k)))
  }

  /** For k >= 1, `search` returns min(k, n) results. */
  lemma TopKCount(query: seq<int>, data: seq<int>, dim: nat, n: nat, k: int)
    requires dim <= |query| && Times(n, dim) <= |data|
    requires 1 <= k <= INT32_MAX
    ensures |TopK(query, data, dim, n, k)| == Min(k, n)
  {
  }

  /** Each result is a row of the index paired with its squared distance to
      the query. */
  lemma TopKRowsAndDistances(query: seq<int>, data: seq<int>, dim: nat, n: nat, k: int)
    requires dim <= |query| && Times(n, dim) <= |data| && IsInt32(k)
    ensures forall t :: 0 <= t < |TopK(query, data, dim, n, k)| ==>
      var r := TopK(query, data, dim, n, k)[t];
      0 <= r.row < n && Times(r.row, dim) + dim <= |data|
      && r.dist == SqDist(query, data, Times(r.row, dim), dim)
  {
    var hs := Hits(query, data, dim, n);
    var top := Take(SortHits(hs), HeapBound(k));
    forall t | 0 <= t < |top|
      ensures 0 <= top[t].row < n && Times(top[t].row, dim) + dim <= |data|
      ensures top[t].dist == SqDist(query, data, Times(top[t].row, dim), dim)
    {
      assert top[t] in multiset(SortHits(hs));
      assert top[t] in multiset(hs);
      var i :| 0 <= i < |hs| && hs[i] == top[t];
      HitAt(query, data, dim, n, i);
    }
  }

  /** Results come in ascending (distance, row) order: equal distances
      keep the lower row first. */
  lemma TopKAscending(query: seq<int>, data: seq<int>, dim: nat, n: nat, k: int)
    requires dim <= |query| && Times(n, dim) <= |data| && IsInt32(k)
    ensures forall t, u :: 0 <= t < u < |TopK(query, data, dim, n, k)| ==>
      var a := TopK(query, data, dim, n, k)[t];
      var b := TopK(query, data, dim, n, k)[u];
      a.dist < b.dist || (a.dist == b.dist && a.row < b.row)
  {
    var hs := Hits(query, data, dim, n);
    HitsDistinct(query, data, dim, n);
    TopKCharacterised(hs, HeapBound(k));
  }

  /** Every row left out of the results ranks after every row returned. */
  lemma TopKBeatsRest(query: seq<int>, data: seq<int>, dim: nat, n: nat, k: int)
    requires dim <= |query| && Times(n, dim) <= |data| && IsInt32(k)
    ensures var r := TopK(query, data, dim, n, k);
      forall t, i | 0 <= t < |r| && 0 <= i < n && (forall u :: 0 <= u < |r| ==> r[u].row != i) ::
        Less(Hit(r[t].dist, r[t].row), Hits(query, data, dim, n)[i])
  {
    var hs := Hits(query, data, dim, n);
    var top := Take(SortHits(hs), HeapBound(k));
    var r := TopK(query, data, dim, n, k);
    HitsDistinct(query, data, dim, n);
    TopKCharacterised(hs, HeapBound(k));
    forall t, i | 0 <= t < |r| && 0 <= i < n && (forall u :: 0 <= u < |r| ==> r[u].row != i)
      ensures Less(top[t], hs[i])
    {
      assert top[t] in top;
      assert hs[i] !in top;
    }
  }

  /** A negative `k` returns every row, ranked. */
  lemma NegativeKReturnsAll(query: seq<int>, data: seq<int>, dim: nat, n: nat, k: int)
    requires dim <= |query| && Times(n, dim) <= |data|
    requires INT32_MIN <= k < 0 && n <= INT32_MAX
    ensures |TopK(query, data, dim, n, k)| == n
  {
    assert HeapBound(k) >= n;
  }

  function Reversed<T>(s: seq<T>): (r: seq<T>)
    ensures |r| == |s|
    ensures forall i :: 0 <= i < |s| ==> r[i] == s[|s| - 1 - i]
  {
    seq(|s|, i requires 0 <= i < |s| => s[|s| - 1 - i])
  }

  /** `std::reverse` over the whole array, in place. */
  method Reverse(a: array<Scored>)
    modifies a
    ensures a[..] == Reversed(old(a[..]))
  {
    var i := 0;
    while i < a.Length / 2
      invariant 0 <= i <= a.Length / 2
      invariant forall t :: 0 <= t < i || a.Length - i <= t < a.Length ==> a[t] == old(a[a.Length - 1 - t])
      invariant forall t :: i <= t < a.Length - i ==> a[t] == old(a[t])
    {
      a[i], a[a.Length - 1 - i] := a[a.Length - 1 - i], a[i];
      i := i + 1;
    }
  }

  /** The whole state of an index, as one value. */
  datatype IndexState = IndexState(data: seq<int>, dimension: int, numVectors: int)

  /** The invariant every public operation keeps: non-negative counts and
      exactly `numVectors * dimension` stored values. */
  predicate Consistent(st: IndexState) {
    0 <= st.dimension && 0 <= st.numVectors && |st.data| == Times(st.numVectors, st.dimension)
  }

  /** The file `save` writes (src/simple_vector_index.h:93-99). */
  function Encode(st: IndexState): (words: seq<int>)
    requires Consistent(st)
    ensures |words| == 2 + Times(st.numVectors, st.dimension)
  {
    [st.numVectors, st.dimension] + st.data
  }

  datatype LoadOutcome = NoFile | Loaded | LengthError

  datatype LoadResult = LoadResult(state: IndexState, outcome: LoadOutcome)

  /** `count * dimension` as `load` computes it from the header it read; a
      word missing from the file leaves the old field in place. */
  function HeaderCount(st: IndexState, words: seq<int>): int {
    if |words| >= 1 then words[0] else st.numVectors
  }

  function HeaderDimension(st: IndexState, words: seq<int>): int {
    if |words| >= 2 then words[1] else st.dimension
  }

  /** `vector::resize(len)` then a read of what the file still holds: the
      first values come from the file, the rest is the old buffer's prefix,
      and slots past the old buffer are zero. */
  function Reloaded(old_data: seq<int>, values: seq<int>, len: nat): (r: seq<int>)
    ensures |r| == len
    ensures forall i :: 0 <= i < len ==>
      r[i] == (if i < |values| then values[i] else if i < |old_data| then old_data[i] else 0)
  {
    seq(len, i requires 0 <= i < len =>
      if i < |values| then values[i] else if i < |old_data| then old_data[i] else 0)
  }

  /** `load` (src/simple_vector_index.h:101-115). A missing file changes
      nothing. Otherwise the header is taken as read, with no validation; a
      negative `count * dimension` makes `resize` throw after both fields
      were already overwritten. */
  function LoadState(st: IndexState, file: Option<seq<int>>): (r: LoadResult)
    requires file.Some? ==> IsInt32(HeaderCount(st, file.value) * HeaderDimension(st, file.value))
    ensures file.None? ==> r == LoadResult(st, NoFile)
    ensures file.Some? ==>
      r.state.numVectors == HeaderCount(st, file.value) && r.state.dimension == HeaderDimension(st, file.value)
    ensures r.outcome == Loaded ==> |r.state.data| == r.state.numVectors * r.state.dimension
    ensures r.outcome == LengthError ==> r.state.data == st.data
  {
    match file
    case None => LoadResult(st, NoFile)
    case Some(words) =>
      var n := HeaderCount(st, words);
      var dim := HeaderDimension(st, words);
      var len := n * dim;
      if len < 0 then LoadResult(IndexState(st.data, dim, n), LengthError)
      else
        var values := if |words| >= 2 then words[2..] else [];
        LoadResult(IndexState(Reloaded(st.data, values, len), dim, n), Loaded)
  }

  /** Loading a saved file restores the saved index exactly, whatever the
      index held before. */
  lemma LoadSaveRoundTrip(before: IndexState, st: IndexState)
    requires Consistent(st) && IsInt32(st.numVectors * st.dimension)
    ensures LoadState(before, Some(Encode(st))) == LoadResult(st, Loaded)
  {
    var words := Encode(st);
    assert words[2..] == st.data;
    TimesIsProduct(st.numVectors, st.dimension);
  }

  /** A file cut short inside its values is accepted: the index claims the
      header's row count, the missing values come from the old buffer or
      are zero, and nothing reports the truncation. */
  lemma TruncatedFileAccepted(before: IndexState, words: seq<int>)
    requires |words| >= 2 && words[0] >= 0 && words[1] >= 0
    requires IsInt32(words[0] * words[1])
    requires |words| - 2 < words[0] * words[1]
    ensures var r := LoadState(before, Some(words));
      && r.outcome == Loaded
      && Consistent(r.state)
      && r.state.numVectors == words[0]
      && r.state.data[|words| - 2..] == Reloaded(before.data, [], words[0] * words[1])[|words| - 2..]
  {
    assert 0 <= words[0] * words[1];
    TimesIsProduct(words[0], words[1]);
  }

  /** A header with both fields negative passes `resize` (the product is
      positive) and leaves an index with a negative row count. */
  lemma NegativeHeaderAccepted(before: IndexState)
    ensures var r := LoadState(before, Some([-1, -2]));
      r.outcome == Loaded && r.state.numVectors == -1 && !Consistent(r.state)
  {
  }

  /** A header with one negative field makes `resize` throw, but only after
      the fields were overwritten: the index left behind is inconsistent. */
  lemma NegativeCountThrows(before: IndexState)
    requires Consistent(before) && 0 < before.dimension <= INT32_MAX
    ensures var r := LoadState(before, Some([-1, before.dimension]));
      r.outcome == LengthError && !Consistent(r.state)
  {
    assert -1 * before.dimension < 0;
  }

  class SimpleVectorIndex {
    var data: seq<int>
    var dimension: int
    var numVectors: int

    function State(): IndexState
      reads this
    {
      IndexState(data, dimension, numVectors)
    }

    predicate Valid()
      reads this
    {
      Consistent(State())
    }

    /** src/simple_vector_index.h:18-21; `reserve(1000 * dim)` throws for a
        negative dimension. */
    constructor(dim: int)
      requires 0 <= dim
      ensures State() == IndexState([], dim, 0)
      ensures Valid()
    {
      data := [];
      dimension := dim;
      numVectors := 0;
    }

    /** src/simple_vector_index.h:23-26: appends the values, whatever their
        number, and counts one more row. */
    method Add(embedding: seq<int>)
      requires Valid()
      modifies this
      ensures data == old(data) + embedding
      ensures numVectors == old(numVectors) + 1 && dimension == old(dimension)
      ensures Valid() <==> |embedding| == dimension
    {
      data := data + embedding;
      numVectors := numVectors + 1;
    }

    /** src/simple_vector_index.h:28-32: appends the first `n * dimension`
        values of `batch`. */
    method AddBatch(n: int, batch: seq<int>)
      requires Valid()
      requires 0 <= n && Times(n, dimension) <= |batch|
      modifies this
      ensures Valid() && dimension == old(dimension)
      ensures data == old(data) + batch[..Times(n, dimension)]
      ensures numVectors == old(numVectors) + n
    {
      TimesIsProduct(n, dimension);
      TimesAdd(numVectors, n, dimension);
      data := data + batch[..n * dimension];
      numVectors := numVectors + n;
    }

    /** The unrolled distance loop of src/simple_vector_index.h:47-63, over
        row `i` of the buffer `data` of rows of `dim` values. */
    static method RowDistance(query: seq<int>, data: seq<int>, dim: nat, i: nat) returns (dist: int)
      requires dim <= |query| && Times(i + 1, dim) <= |data|
      ensures dist == SqDist(query, data, Times(i, dim), dim)
    {
      TimesIsProduct(i, dim);
      TimesIsProduct(i + 1, dim);
      var off := i * dim;
      dist := 0;
      var j := 0;
      while j + 4 <= dim
        invariant 0 <= j <= dim
        invariant dist == SqDist(query, data, off, j)
      {
        SqDistStep4(query, data, off, j);
        var d0 := query[j] - data[off + j];
        var d1 := query[j + 1] - data[off + j + 1];
        var d2 := query[j + 2] - data[off + j + 2];
        var d3 := query[j + 3] - data[off + j + 3];
        dist := dist + (d0 * d0 + d1 * d1 + d2 * d2 + d3 * d3);
        j := j + 4;
      }
      while j < dim
        invariant 0 <= j <= dim
        invariant dist == SqDist(query, data, off, j)
      {
        var diff := query[j] - data[off + j];
        dist := dist + diff * diff;
        j := j + 1;
      }
    }

    /** src/simple_vector_index.h:34-84. The `priority_queue` is kept as an
        ascending list whose last entry is its top. `k == 0` on a non-empty
        index reads the top of an empty heap, so it is excluded. A row count
        of zero or below, which `load` can leave behind, skips the block
        loop: nothing is read and nothing is returned. */
    method Search(query: seq<int>, k: int) returns (results: seq<Scored>)
      requires numVectors <= 0 || (Valid() && dimension <= |query|)
      requires IsInt32(k) && (k != 0 || numVectors <= 0)
      ensures numVectors <= 0 ==> results == []
      ensures numVectors > 0 ==> results == TopK(query, data, dimension, numVectors, k)
    {
      if numVectors <= 0 {
        return [];
      }
      var heap := Scan(query, HeapBound(k));
      HeapAfterIsTopK(query, data, dimension, numVectors, HeapBound(k));
      results := Extract(heap);
    }

    /** The block loop of src/simple_vector_index.h:43-72: rows are offered
        to the heap in blocks of 16, in row order. */
    method Scan(query: seq<int>, bound: nat) returns (heap: seq<Hit>)
      requires Valid() && dimension <= |query| && bound >= 1
      ensures heap == HeapAfter(query, data, dimension, numVectors, bound)
    {
      heap := [];
      var base: nat := 0;
      while base < numVectors
        invariant Times(Min(base, numVectors), dimension) <= |data|
        invariant heap == HeapAfter(query, data, dimension, Min(base, numVectors), bound)
        decreases numVectors - base
      {
        var nextBase := base + BLOCK;
        var endIdx := Min(nextBase, numVectors);
        heap := ScanBlock(query, data, dimension, numVectors, base, endIdx, heap, bound);
        base := nextBase;
      }
    }

    /** The rows `[base, endIdx)` of one block (src/simple_vector_index.h:46-71),
        each offered to the heap in row order. */
    static method ScanBlock(query: seq<int>, data: seq<int>, dim: nat, n: nat, base: nat, endIdx: nat, heap: seq<Hit>, bound: nat)
      returns (next: seq<Hit>)
      requires dim <= |query| && Times(n, dim) == |data|
      requires base <= endIdx <= n && bound >= 1
      requires Times(base, dim) <= |data|
      requires heap == HeapAfter(query, data, dim, base, bound)
      ensures Times(endIdx, dim) <= |data|
      ensures next == HeapAfter(query, data, dim, endIdx, bound)
    {
      next := heap;
      var i: nat := base;
      while i < endIdx
        invariant base <= i <= endIdx
        invariant Times(i, dim) <= |data|
        invariant next == HeapAfter(query, data, dim, i, bound)
      {
        var j := i + 1;
        next := ScanRow(query, data, dim, n, i, j, next, bound);
        i := j;
      }
    }

    /** One row of a block (src/simple_vector_index.h:47-69): its distance,
        then the offer to the heap; `j` is the number of rows offered
        once this one is. */
    static method ScanRow(query: seq<int>, data: seq<int>, dim: nat, n: nat, i: nat, j: nat, heap: seq<Hit>, bound: nat)
      returns (next: seq<Hit>)
      requires dim <= |query| && Times(n, dim) == |data|
      requires i < n && j == i + 1 && bound >= 1
      requires Times(i, dim) <= |data|
      requires heap == HeapAfter(query, data, dim, i, bound)
      ensures Times(j, dim) <= |data|
      ensures next == HeapAfter(query, data, dim, j, bound)
    {
      TimesMonotoneLe(j, n, dim);
      var dist := RowDistance(query, data, dim, i);
      HeapAfterNext(query, data, dim, i, bound);
      next := Offer(heap, Hit(dist, i), bound);
    }

    /** One candidate offered to the bounded heap
        (src/simple_vector_index.h:64-69): pushed while the heap is not
        full, otherwise it replaces the top only when strictly closer. */
    static method Offer(heap: seq<Hit>, x: Hit, bound: nat) returns (next: seq<Hit>)
      requires bound >= 1
      ensures next == HeapStep(heap, x, bound)
    {
      next := heap;
      if |next| < bound {
        next := Insert(next, x);
      } else if x.dist < next[|next| - 1].dist {
        next := Insert(next[..|next| - 1], x);
      }
    }

    /** Pops the heap into a vector, largest first, then reverses it
        (src/simple_vector_index.h:75-81). */
    static method Extract(heap: seq<Hit>) returns (results: seq<Scored>)
      ensures results == AsScored(heap)
    {
      var out := new Scored[|heap|](_ => Scored(0, 0));
      var rest := heap;
      var j := 0;
      while rest != []
        invariant 0 <= j <= |heap| && rest == heap[..|heap| - j]
        invariant forall t :: 0 <= t < j ==> out[t] == Scored(heap[|heap| - 1 - t].row, heap[|heap| - 1 - t].dist)
        decreases |rest|
      {
        var top := rest[|rest| - 1];
        out[j] := Scored(top.row, top.dist);
        rest := rest[..|rest| - 1];
        j := j + 1;
      }
      ghost var popped := out[..];
      Reverse(out);
      results := out[..];
    }

    /** src/simple_vector_index.h:86: the row count, which is also the
        number of whole rows in the buffer. */
    function Size(): (n: nat)
      reads this
      requires Valid()
      ensures Times(n, dimension) == |data|
    {
      numVectors
    }

    /** src/simple_vector_index.h:88-91. */
    method Clear()
      requires Valid()
      modifies this
      ensures State() == IndexState([], old(dimension), 0)
      ensures Valid()
    {
      data := [];
      numVectors := 0;
    }

    /** src/simple_vector_index.h:93-99: the words written to the file. */
    method Save() returns (words: seq<int>)
      requires Valid()
      ensures words == Encode(State())
    {
      words := [numVectors, dimension] + data;
    }

    /** src/simple_vector_index.h:101-115, with the file as its words or
        `None` when it cannot be opened. */
    method Load(file: Option<seq<int>>) returns (outcome: LoadOutcome)
      requires file.Some? ==> IsInt32(HeaderCount(State(), file.value) * HeaderDimension(State(), file.value))
      modifies this
      ensures LoadResult(State(), outcome) == LoadState(old(State()), file)
    {
      if file.None? {
        return NoFile;
      }
      var words := file.value;
      if |words| >= 1 {
        numVectors := words[0];
      }
      if |words| >= 2 {
        dimension := words[1];
      }
      var len := numVectors * dimension;
      if len < 0 {
        return LengthError;
      }
      var resized := Reloaded(data, [], len);
      var values := if |words| >= 2 then words[2..] else [];
      var i := 0;
      while i < len && i < |values|
        invariant 0 <= i <= len && i <= |values|
        invariant resized == Reloaded(data, values[..i], len)
      {
        resized := resized[i := values[i]];
        i := i + 1;
      }
      assert resized == Reloaded(data, values, len);
      data := resized;
      outcome := Loaded;
    }
  }
}
