/** The older single-file server (server.cpp): its vector index with one
    vector per row and a full sort, its unguarded chunker, the static-file
    path mapping, the response builder that always says "OK", the match
    cap of the query handler, and the bookkeeping of its ingestion thread.
    Its dispatch chain (server.cpp:784-794) is the one `Http.Route` states. */
module LegacyServer {
  import opened Common
  import opened Ranking
  import VectorIndex
  import TextUtils
  import Http

  // ---------------------------------------------------------------------
  // The index (server.cpp:109-186)

  /** Every row holds at least `dim` values, as `search` reads them. */
  predicate RowsAtLeast(rows: seq<seq<int>>, dim: nat)
    decreases |rows|
  {
    rows == [] || (dim <= |rows[|rows| - 1]| && RowsAtLeast(rows[..|rows| - 1], dim))
  }

  /** Every row holds exactly `dim` values. */
  predicate RowsOf(rows: seq<seq<int>>, dim: nat)
    decreases |rows|
  {
    rows == [] || (|rows[|rows| - 1]| == dim && RowsOf(rows[..|rows| - 1], dim))
  }

  lemma {:induction false} RowsAtLeastAt(rows: seq<seq<int>>, dim: nat, i: nat)
    requires RowsAtLeast(rows, dim) && i < |rows|
    ensures dim <= |rows[i]|
    decreases |rows|
  {
    if i < |rows| - 1 {
      RowsAtLeastAt(rows[..|rows| - 1], dim, i);
    }
  }

  lemma {:induction false} RowsOfAt(rows: seq<seq<int>>, dim: nat, i: nat)
    requires RowsOf(rows, dim) && i < |rows|
    ensures |rows[i]| == dim
    decreases |rows|
  {
    if i < |rows| - 1 {
      RowsOfAt(rows[..|rows| - 1], dim, i);
    }
  }

  lemma {:induction false} RowsOfAtLeast(rows: seq<seq<int>>, dim: nat)
    requires RowsOf(rows, dim)
    ensures RowsAtLeast(rows, dim)
    decreases |rows|
  {
    if rows != [] {
      RowsOfAtLeast(rows[..|rows| - 1], dim);
    }
  }

  /** The rows laid end to end, the layout of the newer index's buffer. */
  function Flatten(rows: seq<seq<int>>): seq<int>
    decreases |rows|
  {
    if rows == [] then [] else Flatten(rows[..|rows| - 1]) + rows[|rows| - 1]
  }

  /** Rows of `dim` values flatten to `|rows| * dim` values, value `j` of
      row `i` at offset `i * dim + j`. */
  lemma {:induction false} FlattenAt(rows: seq<seq<int>>, dim: nat, i: nat, j: nat)
    requires RowsOf(rows, dim)
    requires i < |rows| && j < dim
    ensures |Flatten(rows)| == Times(|rows|, dim)
    ensures Times(i, dim) + j < |Flatten(rows)|
    ensures |rows[i]| == dim && Flatten(rows)[Times(i, dim) + j] == rows[i][j]
    decreases |rows|
  {
    var p := rows[..|rows| - 1];
    FlattenLength(p, dim);
    RowsOfAt(rows, dim, i);
    if i < |p| {
      FlattenAt(p, dim, i, j);
      assert rows[i] == p[i];
    }
  }

  lemma {:induction false} FlattenLength(rows: seq<seq<int>>, dim: nat)
    requires RowsOf(rows, dim)
    ensures |Flatten(rows)| == Times(|rows|, dim)
    decreases |rows|
  {
    if rows != [] {
      FlattenLength(rows[..|rows| - 1], dim);
    }
  }

  /** Flattening two runs of rows flattens each, one after the other. */
  lemma {:induction false} FlattenAppend(a: seq<seq<int>>, b: seq<seq<int>>)
    ensures Flatten(a + b) == Flatten(a) + Flatten(b)
    decreases |b|
  {
    if b == [] {
      assert a + b == a;
    } else {
      var init := b[..|b| - 1];
      var last := b[|b| - 1];
      assert (a + b)[..|a + b| - 1] == a + init;
      assert (a + b)[|a + b| - 1] == last;
      assert Flatten(a + b) == Flatten(a + init) + last;
      FlattenAppend(a, init);
      assert Flatten(b) == Flatten(init) + last;
    }
  }

  /** The rows `add_batch(n, data)` builds: row `i` is the `dim` values
      from offset `i * dim`. */
  function Slices(data: seq<int>, n: nat, dim: nat): (rows: seq<seq<int>>)
    requires Times(n, dim) <= |data|
    decreases n
  {
    if n == 0 then []
    else
      TimesMonotone(n - 1, n, dim);
      Slices(data, n - 1, dim) + [data[Times(n - 1, dim)..Times(n - 1, dim) + dim]]
  }

  /** The slices are `n` rows of `dim` values that flatten back to the
      first `n * dim` values: each value lands in its row, in order. */
  lemma {:induction false} SlicesFlatten(data: seq<int>, n: nat, dim: nat)
    requires Times(n, dim) <= |data|
    ensures |Slices(data, n, dim)| == n
    ensures RowsOf(Slices(data, n, dim), dim)
    ensures Flatten(Slices(data, n, dim)) == data[..Times(n, dim)]
    decreases n
  {
    if n > 0 {
      TimesMonotone(n - 1, n, dim);
      SlicesFlatten(data, n - 1, dim);
      var s := Slices(data, n, dim);
      assert s[..n - 1] == Slices(data, n - 1, dim);
      assert data[..Times(n, dim)] == data[..Times(n - 1, dim)] + data[Times(n - 1, dim)..Times(n - 1, dim) + dim];
    }
  }

  /** How many components the loops `j < dimension` visit: none for a
      negative dimension, which a file header may carry. */
  function Width(dimension: int): (w: nat)
    ensures dimension >= 0 ==> w == dimension
    ensures dimension < 0 ==> w == 0
  {
    if dimension < 0 then 0 else dimension
  }

  /** The candidate of each row: its squared distance to the query. */
  function RowHits(query: seq<int>, rows: seq<seq<int>>, dim: nat): (hs: seq<Hit>)
    requires dim <= |query| && RowsAtLeast(rows, dim)
    ensures |hs| == |rows|
    decreases |rows|
  {
    if rows == [] then []
    else RowHits(query, rows[..|rows| - 1], dim) + [Hit(SqDist(query, rows[|rows| - 1], 0, dim), |rows| - 1)]
  }

  /** A distance only depends on the values it reads. */
  lemma {:induction false} SqDistSame(q: seq<int>, v: seq<int>, off: nat, w: seq<int>, m: nat)
    requires m <= |q| && off + m <= |v| && m <= |w|
    requires forall j :: 0 <= j < m ==> v[off + j] == w[j]
    ensures SqDist(q, v, off, m) == SqDist(q, w, 0, m)
  {
    if m > 0 {
      SqDistSame(q, v, off, w, m - 1);
    }
  }

  /** Candidate `i` is row `i` with its distance to the query. */
  lemma {:induction false} RowHitAt(query: seq<int>, rows: seq<seq<int>>, dim: nat, i: nat)
    requires dim <= |query| && RowsAtLeast(rows, dim) && i < |rows|
    ensures dim <= |rows[i]|
    ensures RowHits(query, rows, dim)[i] == Hit(SqDist(query, rows[i], 0, dim), i)
    decreases |rows|
  {
    RowsAtLeastAt(rows, dim, i);
    if i < |rows| - 1 {
      RowHitAt(query, rows[..|rows| - 1], dim, i);
    }
  }

  /** With no component to compare, as under a negative dimension, every
      row is at distance 0, the sort keeps row order, and `search` returns
      the first `k` rows. */
  lemma {:induction false} ZeroWidthSearch(query: seq<int>, rows: seq<seq<int>>, k: int)
    ensures RowsAtLeast(rows, 0)
    ensures |LegacyTopK(query, rows, 0, k)| == Min(if k > 0 then k else 0, |rows|)
    ensures forall i :: 0 <= i < |LegacyTopK(query, rows, 0, k)| ==> LegacyTopK(query, rows, 0, k)[i] == VectorIndex.Scored(i, 0)
  {
    RowsAtLeastZero(rows);
    var hs := RowHits(query, rows, 0);
    forall i | 0 <= i < |rows|
      ensures hs[i] == Hit(0, i)
    {
      RowHitAt(query, rows, 0, i);
    }
    RowHitsRows(query, rows, 0);
    SortHitsSorted(hs);
    SortedPermutationUnique(hs, SortHits(hs));
  }

  lemma {:induction false} RowsAtLeastZero(rows: seq<seq<int>>)
    ensures RowsAtLeast(rows, 0)
    decreases |rows|
  {
    if rows != [] {
      RowsAtLeastZero(rows[..|rows| - 1]);
    }
  }

  /** The legacy candidates are the newer index's candidates over the
      flattened rows. */
  lemma {:induction false} RowHitsAreHits(query: seq<int>, rows: seq<seq<int>>, dim: nat)
    requires dim <= |query| && RowsOf(rows, dim)
    ensures RowsAtLeast(rows, dim)
    ensures Times(|rows|, dim) <= |Flatten(rows)|
    ensures RowHits(query, rows, dim) == VectorIndex.Hits(query, Flatten(rows), dim, |rows|)
  {
    RowsOfAtLeast(rows, dim);
    FlattenLength(rows, dim);
    var data := Flatten(rows);
    forall i | 0 <= i < |rows|
      ensures RowHits(query, rows, dim)[i] == VectorIndex.Hits(query, data, dim, |rows|)[i]
    {
      RowHitAt(query, rows, dim, i);
      VectorIndex.HitAt(query, data, dim, |rows|, i);
      forall j | 0 <= j < dim
        ensures rows[i][j] == data[Times(i, dim) + j]
      {
        FlattenAt(rows, dim, i, j);
      }
      SqDistSame(query, data, Times(i, dim), rows[i], dim);
    }
  }

  /** What `search(query, k)` returns: the first `k` entries of the sorted
      (distance, row) list, none at all when `k` is zero or negative. */
  function LegacyTopK(query: seq<int>, rows: seq<seq<int>>, dim: nat, k: int): seq<VectorIndex.Scored>
    requires dim <= |query| && RowsAtLeast(rows, dim)
  {
    VectorIndex.AsScored(Take(SortHits(RowHits(query, rows, dim)), if k > 0 then k else 0))
  }

  /** The sort-everything search and the bounded-heap search of the newer
      index return the same list for every `k >= 1`. */
  lemma {:induction false} LegacyAgreesWithHeap(query: seq<int>, rows: seq<seq<int>>, dim: nat, k: int)
    requires dim <= |query| && RowsOf(rows, dim)
    requires 1 <= k <= INT32_MAX
    ensures RowsAtLeast(rows, dim) && Times(|rows|, dim) <= |Flatten(rows)|
    ensures LegacyTopK(query, rows, dim, k) == VectorIndex.TopK(query, Flatten(rows), dim, |rows|, k)
  {
    RowHitsAreHits(query, rows, dim);
  }

  /** Candidates carry distinct rows, so `std::sort` has only one possible
      outcome: the ascending list `SortHits` builds. */
  lemma {:induction false} StdSortOutcome(query: seq<int>, rows: seq<seq<int>>, dim: nat, sorted: seq<Hit>)
    requires dim <= |query| && RowsAtLeast(rows, dim)
    requires Sorted(sorted) && multiset(sorted) == multiset(RowHits(query, rows, dim))
    ensures sorted == SortHits(RowHits(query, rows, dim))
  {
    var hs := RowHits(query, rows, dim);
    RowHitsRows(query, rows, dim);
    SortHitsSorted(hs);
    SortedPermutationUnique(sorted, SortHits(hs));
  }

  lemma {:induction false} RowHitsRows(query: seq<int>, rows: seq<seq<int>>, dim: nat)
    requires dim <= |query| && RowsAtLeast(rows, dim)
    ensures forall i :: 0 <= i < |rows| ==> RowHits(query, rows, dim)[i].row == i
    ensures DistinctRows(RowHits(query, rows, dim))
    decreases |rows|
  {
    if rows != [] {
      RowHitsRows(query, rows[..|rows| - 1], dim);
    }
  }

  /** The first `dim` values of a row, the part `save` writes. */
  function Cut(row: seq<int>, dim: nat): seq<int> {
    if dim <= |row| then row[..dim] else row
  }

  /** The values `save` writes after the header, row after row. */
  function Values(rows: seq<seq<int>>, dim: nat): seq<int>
    decreases |rows|
  {
    if rows == [] then [] else Values(rows[..|rows| - 1], dim) + Cut(rows[|rows| - 1], dim)
  }

  /** The words `save` writes: the row count, the dimension, then the
      first `dim` values of every row. */
  function Encode(rows: seq<seq<int>>, dim: int): (words: seq<int>)
    ensures |words| >= 2 && words[0] == |rows| && words[1] == dim
  {
    [|rows|, dim] + Values(rows, Width(dim))
  }

  /** A row read back from the values that follow the header: missing
      values stay zero. */
  function ReadRow(values: seq<int>, off: nat, dim: nat): (row: seq<int>)
    ensures |row| == dim
    ensures forall j :: 0 <= j < dim ==> row[j] == if off + j < |values| then values[off + j] else 0
  {
    seq(dim, j requires 0 <= j < dim => if off + j < |values| then values[off + j] else 0)
  }

  /** The first `n` rows `load` reads. */
  function LoadedRows(values: seq<int>, n: nat, dim: nat): (rows: seq<seq<int>>)
    ensures |rows| == n
    decreases n
  {
    if n == 0 then [] else LoadedRows(values, n - 1, dim) + [ReadRow(values, Times(n - 1, dim), dim)]
  }

  datatype LegacyState = LegacyState(rows: seq<seq<int>>, dimension: int)

  /** The dimension `load` ends with: a file too short to hold the second
      header word leaves the member as it was. */
  function LoadedDimension(st: LegacyState, words: seq<int>): int {
    if |words| >= 2 then words[1] else st.dimension
  }

  /** The values after the header; none when the header is cut short. */
  function LoadedValues(words: seq<int>): seq<int> {
    if |words| >= 2 then words[2..] else []
  }

  /** `load` (server.cpp:165-185), with the file as its words or `None`
      when it cannot be opened. The header is taken as read and the rows
      are cleared before `reserve(n)`; a negative `n`, or a negative
      dimension with rows to read, throws `std::length_error`. A file that
      holds only the row count keeps the old dimension, and every read after
      it leaves its row zero. */
  function Load(st: LegacyState, file: Option<seq<int>>): (r: (LegacyState, VectorIndex.LoadOutcome))
    requires file.Some? ==> |file.value| >= 1
    ensures file.None? ==> r == (st, VectorIndex.NoFile)
    ensures file.Some? ==> r.0.dimension == LoadedDimension(st, file.value)
    ensures r.1 == VectorIndex.Loaded ==> file.Some? && |r.0.rows| == file.value[0]
    ensures r.1 == VectorIndex.LengthError ==> r.0.rows == []
  {
    match file
    case None => (st, VectorIndex.NoFile)
    case Some(words) =>
      var n := words[0];
      var dim := LoadedDimension(st, words);
      if n < 0 || (n > 0 && dim < 0) then (LegacyState([], dim), VectorIndex.LengthError)
      else if n == 0 then (LegacyState([], dim), VectorIndex.Loaded)
      else (LegacyState(LoadedRows(LoadedValues(words), n, dim), dim), VectorIndex.Loaded)
  }

  /** Row i of what `load` reads starts at value i * dim. */
  lemma {:induction false} LoadedRowsAt(values: seq<int>, n: nat, dim: nat, i: nat)
    requires i < n
    ensures LoadedRows(values, n, dim)[i] == ReadRow(values, Times(i, dim), dim)
    decreases n
  {
    if i < n - 1 {
      LoadedRowsAt(values, n - 1, dim, i);
    }
  }

  /** A save cut short after the row count: `load` accepts it, keeps the
      old dimension, and reads back `n` rows of that many zeros. */
  lemma CountOnlyFile(st: LegacyState, n: nat)
    requires st.dimension >= 0
    ensures Load(st, Some([n])).1 == VectorIndex.Loaded
    ensures Load(st, Some([n])).0.dimension == st.dimension
    ensures |Load(st, Some([n])).0.rows| == n
    ensures forall i :: 0 <= i < n ==> Load(st, Some([n])).0.rows[i] == seq(st.dimension, j => 0)
  {
    var rows := Load(st, Some([n])).0.rows;
    if n > 0 {
      assert rows == LoadedRows([], n, st.dimension);
      forall i | 0 <= i < n
        ensures rows[i] == seq(st.dimension, j => 0)
      {
        LoadedRowsAt([], n, st.dimension, i);
      }
    }
  }

  /** Rows of exactly `dim` values are written whole. */
  lemma {:induction false} ValuesFlatten(rows: seq<seq<int>>, dim: nat)
    requires RowsOf(rows, dim)
    ensures Values(rows, dim) == Flatten(rows)
    decreases |rows|
  {
    if rows != [] {
      ValuesFlatten(rows[..|rows| - 1], dim);
      assert rows[|rows| - 1][..dim] == rows[|rows| - 1];
    }
  }

  lemma {:induction false} LoadedRowsOfFlatten(rows: seq<seq<int>>, dim: nat, m: nat)
    requires RowsOf(rows, dim) && m <= |rows|
    ensures LoadedRows(Flatten(rows), m, dim) == rows[..m]
    decreases m
  {
    if m > 0 {
      LoadedRowsOfFlatten(rows, dim, m - 1);
      var row := ReadRow(Flatten(rows), Times(m - 1, dim), dim);
      RowsOfAt(rows, dim, m - 1);
      forall j | 0 <= j < dim
        ensures row[j] == rows[m - 1][j]
      {
        FlattenAt(rows, dim, m - 1, j);
      }
      assert row == rows[m - 1];
      assert rows[..m] == rows[..m - 1] + [rows[m - 1]];
    }
  }

  /** Loading what `save` wrote restores every row and the dimension,
      whatever the index held before. */
  lemma {:induction false} LoadSaveRoundTrip(before: LegacyState, rows: seq<seq<int>>, dim: nat)
    requires RowsOf(rows, dim)
    ensures Load(before, Some(Encode(rows, dim))) == (LegacyState(rows, dim), VectorIndex.Loaded)
  {
    ValuesFlatten(rows, dim);
    var words := Encode(rows, dim);
    assert words[2..] == Flatten(rows);
    LoadedRowsOfFlatten(rows, dim, |rows|);
    assert rows[..|rows|] == rows;
  }

  /** The inner loop of `search`: the squared distance between the query
      and one row over the first `dim` components. */
  method Distance(query: seq<int>, row: seq<int>, dim: nat) returns (dist: int)
    requires dim <= |query| && dim <= |row|
    ensures dist == SqDist(query, row, 0, dim)
  {
    dist := 0;
    var j := 0;
    while j < dim
      invariant j <= dim
      invariant dist == SqDist(query, row, 0, j)
    {
      var diff := query[j] - row[j];
      dist := dist + diff * diff;
      j := j + 1;
    }
  }

  /** The copy loop of `search`: the first `k` sorted candidates as
      (row, distance) pairs, none when `k` is zero or negative. */
  method FirstK(sorted: seq<Hit>, k: int) returns (results: seq<VectorIndex.Scored>)
    ensures results == VectorIndex.AsScored(Take(sorted, if k > 0 then k else 0))
  {
    results := [];
    var t := 0;
    while t < k && t < |sorted|
      invariant 0 <= t <= |sorted|
      invariant t == 0 || t <= k
      invariant results == VectorIndex.AsScored(sorted[..t])
    {
      results := results + [VectorIndex.Scored(sorted[t].row, sorted[t].dist)];
      t := t + 1;
    }
  }

  /** `SimpleVectorIndex` of server.cpp: a vector of rows and a dimension. */
  class RowIndex {
    var rows: seq<seq<int>>
    var dimension: int

    constructor(dim: int)
      ensures rows == [] && dimension == dim
    {
      rows := [];
      dimension := dim;
    }

    /** `add`: the embedding becomes the last row, whatever its length. */
    method Add(embedding: seq<int>)
      modifies this
      ensures rows == old(rows) + [embedding] && dimension == old(dimension)
    {
      rows := rows + [embedding];
    }

    /** `add_batch(n, data)`: `n` rows of `dimension` consecutive values. */
    method AddBatch(n: nat, data: seq<int>)
      requires 0 <= dimension && Times(n, dimension) <= |data|
      modifies this
      ensures dimension == old(dimension)
      ensures rows == old(rows) + Slices(data, n, dimension)
    {
      var dim: nat := dimension;
      var i := 0;
      while i < n
        invariant i <= n && dimension == dim
        invariant Times(i, dim) <= |data|
        invariant rows == old(rows) + Slices(data, i, dim)
      {
        TimesMonotone(i, n, dim);
        rows := rows + [data[Times(i, dim)..Times(i, dim) + dim]];
        i := i + 1;
      }
    }

    /** `search`: every row's distance, a full sort, then the first `k`. */
    method Search(query: seq<int>, k: int) returns (results: seq<VectorIndex.Scored>)
      requires Width(dimension) <= |query| && RowsAtLeast(rows, Width(dimension))
      ensures results == LegacyTopK(query, rows, Width(dimension), k)
    {
      var dim := Width(dimension);
      var distances: seq<Hit> := [];
      var i := 0;
      while i < |rows|
        invariant i <= |rows|
        invariant distances == RowHits(query, rows, dim)[..i]
      {
        RowHitAt(query, rows, dim, i);
        var dist := Distance(query, rows[i], dim);
        distances := distances + [Hit(dist, i)];
        i := i + 1;
      }
      assert distances == RowHits(query, rows, dim);
      var sorted := SortHits(distances);
      results := FirstK(sorted, k);
    }

    function Size(): nat
      reads this
    {
      |rows|
    }

    method Clear()
      modifies this
      ensures rows == [] && dimension == old(dimension)
    {
      rows := [];
    }

    /** `save`: the words written to the file. */
    method Save() returns (words: seq<int>)
      requires (0 <= dimension || rows == []) && RowsAtLeast(rows, Width(dimension))
      ensures words == Encode(rows, dimension)
    {
      var dim := Width(dimension);
      var values: seq<int> := [];
      var i := 0;
      while i < |rows|
        invariant i <= |rows|
        invariant values == Values(rows[..i], dim)
      {
        assert rows[..i + 1][..i] == rows[..i];
        RowsAtLeastAt(rows, dim, i);
        values := values + rows[i][..dim];
        i := i + 1;
      }
      assert rows[..i] == rows;
      words := [|rows|, dimension] + values;
    }

    /** `load`, with the file as its words or `None` when it cannot be
        opened; an existing file holds at least the row count. */
    method LoadFile(file: Option<seq<int>>) returns (outcome: VectorIndex.LoadOutcome)
      requires file.Some? ==> |file.value| >= 1
      modifies this
      ensures (LegacyState(rows, dimension), outcome) == Load(old(LegacyState(rows, dimension)), file)
    {
      if file.None? {
        return VectorIndex.NoFile;
      }
      var words := file.value;
      var n := words[0];
      var dim := if |words| >= 2 then words[1] else dimension;
      var values := if |words| >= 2 then words[2..] else [];
      dimension := dim;
      rows := [];
      if n < 0 {
        return VectorIndex.LengthError;
      }
      var i := 0;
      while i < n
        invariant 0 <= i <= n && dimension == dim
        invariant i > 0 ==> dim >= 0
        invariant rows == LoadedRows(values, i, if dim < 0 then 0 else dim)
      {
        if dim < 0 {
          return VectorIndex.LengthError;
        }
        rows := rows + [ReadRow(values, Times(i, dim), dim)];
        i := i + 1;
      }
      outcome := VectorIndex.Loaded;
    }
  }

  // ---------------------------------------------------------------------
  // Responses (server.cpp:199-209)

  /** The header fields the older `build_http_response` writes, in order. */
  function LegacyFields(contentType: string, body: string): seq<Http.Field> {
    [ Http.Field("Content-Type", contentType),
      Http.Field("Content-Length", Http.NatToString(|body|)),
      Http.Field("Access-Control-Allow-Origin", "*"),
      Http.Field("Access-Control-Allow-Methods", "GET, POST, OPTIONS"),
      Http.Field("Access-Control-Allow-Headers", "Content-Type") ]
  }

  /** The older `build_http_response`: the status line always carries the
      reason phrase "OK", whatever the code. */
  function LegacyResponse(code: int, contentType: string, body: string): string {
    Http.Message(LegacyStatusLine(code), LegacyFields(contentType, body), body)
  }

  /** The three fixed CORS fields are well formed. */
  lemma {:induction false} CorsFieldsWellFormed()
    ensures Http.OneLineName("Access-Control-Allow-Origin") && Http.OneLineValue("*")
    ensures Http.OneLineName("Access-Control-Allow-Methods") && Http.OneLineValue("GET, POST, OPTIONS")
    ensures Http.OneLineName("Access-Control-Allow-Headers") && Http.OneLineValue("Content-Type")
  {
  }

  /** The fields are well formed, and only the first two carry the names
      Content-Type and Content-Length. */
  lemma {:induction false} LegacyFieldsWellFormed(contentType: string, body: string)
    requires Http.OneLineValue(contentType)
    ensures Http.WellFormedFields(LegacyFields(contentType, body))
    ensures forall j :: 2 <= j < 5 ==>
      LegacyFields(contentType, body)[j].name != "Content-Type" &&
      LegacyFields(contentType, body)[j].name != "Content-Length"
  {
    var fs := LegacyFields(contentType, body);
    LengthFieldWellFormed(|body|);
    assert Http.OneLineName("Content-Type");
    CorsFieldsWellFormed();
    assert Http.WellFormedField(fs[0]) && Http.WellFormedField(fs[1]);
    assert Http.WellFormedField(fs[2]) && Http.WellFormedField(fs[3]) && Http.WellFormedField(fs[4]);
    Http.WellFormedFieldsEach(fs);
  }

  /** The Content-Length field of `n` is well formed: its name and its
      digits hold no ':' or line break. */
  lemma {:induction false} LengthFieldWellFormed(n: nat)
    ensures Http.WellFormedField(Http.Field("Content-Length", Http.NatToString(n)))
  {
    var s := Http.NatToString(n);
    assert s[|s| - 1] != '\r';
    assert Http.OneLineName("Content-Length");
  }

  /** The request parser reads an older response back whole: the status
      code as second token, every field, a Content-Length equal to the
      body length, and the body itself. */
  lemma {:induction false} LegacyResponseRoundTrip(code: int, contentType: string, body: string)
    requires Http.OneLineValue(contentType)
    requires |body| <= Http.MAX_REQUEST_SIZE
    ensures var h := Http.FieldMap(map[], LegacyFields(contentType, body));
      && "Content-Type" in h && h["Content-Type"] == contentType
      && Http.DeclaredLength(h) == Some(|body|)
    ensures Http.ParseRequest(LegacyResponse(code, contentType, body))
      == Http.Parsed(Http.Request("HTTP/1.1", Http.IntToString(code), Http.FieldMap(map[], LegacyFields(contentType, body)), body))
  {
    var fs := LegacyFields(contentType, body);
    LegacyFieldsWellFormed(contentType, body);
    Http.FieldNamesDiffer();
    Http.LeadingFields(fs[0], fs[1], fs[2..]);
    assert [fs[0], fs[1]] + fs[2..] == fs;
    Http.DeclaredLengthOf(Http.FieldMap(map[], fs), |body|);
    Http.StatusLineTokens(code);
    assert '\n' !in "OK";
    Http.RequestRoundTrip("HTTP/1.1", Http.IntToString(code), "OK", fs, body);
  }

  /** The status line of the older builder. */
  function LegacyStatusLine(code: int): string {
    "HTTP/1.1" + " " + Http.IntToString(code) + (" " + "OK")
  }

  /** The older status line agrees with the newer one exactly for the codes
      whose reason phrase is "OK": a 404 or a 403 is sent as "OK". */
  lemma {:induction false} LegacyStatusLineAgrees(code: int)
    ensures LegacyStatusLine(code) == Http.StatusLine(code) <==> Http.ReasonPhrase(code) == "OK"
  {
    var a := "HTTP/1.1" + " " + Http.IntToString(code);
    var r := Http.ReasonPhrase(code);
    assert Http.StatusLine(code) == a + (" " + r);
    SamePrefix(a, " " + "OK", " " + r);
    SamePrefix(" ", "OK", r);
  }

  lemma SamePrefix(a: string, x: string, y: string)
    ensures a + x == a + y <==> x == y
  {
    if a + x == a + y {
      assert (a + x)[|a|..] == x;
      assert (a + y)[|a|..] == y;
    }
  }

  /** The newer phrases of the two error codes the older server sends
      with "OK". */
  lemma ErrorPhrases()
    ensures Http.ReasonPhrase(404) == "Not Found" && Http.ReasonPhrase(403) == "Forbidden"
  {
  }

  // ---------------------------------------------------------------------
  // Static files (server.cpp:608-649)

  /** The file `serve_static_file` looks up: "/" names index.html, one
      leading '/' is dropped, and the rest is taken under "public/". */
  function StaticPath(path: string): (r: string)
    ensures |r| >= 7 && r[..7] == "public/"
  {
    var p := if path == "/" then "/index.html" else path;
    "public/" + (if p != [] && p[0] == '/' then p[1..] else p)
  }

  /** No ".." in `s`. */
  predicate NoDotPair(s: string) {
    forall k :: 0 <= k < |s| - 1 ==> s[k] != '.' || s[k + 1] != '.'
  }

  lemma {:induction false} NoDotPairContains(s: string)
    requires NoDotPair(s)
    ensures !Contains(s, "..")
  {
    forall p: nat | p <= |s|
      ensures !ContainsAt(s, "..", p)
    {
      if p + 2 <= |s| {
        assert s[p..p + 2][0] == s[p] && s[p..p + 2][1] == s[p + 1];
      }
    }
  }

  /** No '.' in `s`. */
  predicate DotFree(s: string) {
    forall k :: 0 <= k < |s| ==> s[k] != '.'
  }

  /** A prefix without dots neither adds nor hides a "..". */
  lemma {:induction false} DotFreePrefix(pre: string, s: string)
    requires DotFree(pre)
    ensures Contains(pre + s, "..") <==> Contains(s, "..")
  {
    if Contains(pre + s, "..") {
      var p: nat :| p <= |pre + s| && ContainsAt(pre + s, "..", p);
      assert (pre + s)[p] == '.';
      assert p >= |pre|;
      assert s[p - |pre|..p - |pre| + 2] == (pre + s)[p..p + 2];
      assert ContainsAt(s, "..", p - |pre|);
    }
    if Contains(s, "..") {
      var p: nat :| p <= |s| && ContainsAt(s, "..", p);
      assert (pre + s)[|pre| + p..|pre| + p + 2] == s[p..p + 2];
      assert ContainsAt(pre + s, "..", |pre| + p);
    }
  }

  /** "/" maps to public/index.html, and neither holds "..". */
  lemma IndexPathClean()
    ensures StaticPath("/") == "public/index.html"
    ensures !Contains("public/index.html", "..") && !Contains("/", "..")
  {
    assert "/index.html"[1..] == "index.html";
    assert NoDotPair("public/index.html");
    NoDotPairContains("public/index.html");
    assert NoDotPair("/");
    NoDotPairContains("/");
  }

  /** The path is refused with 403 exactly when the request path itself
      holds "..": the rewriting neither introduces nor removes one. */
  lemma {:induction false} ForbiddenIffDotDot(path: string)
    ensures Contains(StaticPath(path), "..") <==> Contains(path, "..")
  {
    assert DotFree("public/");
    if path == "/" {
      IndexPathClean();
    } else if path != [] && path[0] == '/' {
      assert DotFree("/");
      DotFreePrefix("/", path[1..]);
      assert "/" + path[1..] == path;
      DotFreePrefix("public/", path[1..]);
    } else {
      DotFreePrefix("public/", path);
    }
  }

  /** The content type chosen from the file name's suffix. */
  function ContentType(file: string): string {
    if TextUtils.StringEndsWith(file, ".html") then "text/html"
    else if TextUtils.StringEndsWith(file, ".css") then "text/css"
    else if TextUtils.StringEndsWith(file, ".js") then "application/javascript"
    else if TextUtils.StringEndsWith(file, ".json") then "application/json"
    else "text/plain"
  }

  /** `serve_static_file` with the public directory given as a map from
      file path to contents. */
  function ServeStatic(path: string, files: map<string, string>): (r: string)
  {
    var file := StaticPath(path);
    if Contains(file, "..") then LegacyResponse(403, "text/plain", "Forbidden")
    else if file !in files then LegacyResponse(404, "text/plain", "Not Found")
    else LegacyResponse(200, ContentType(file), files[file])
  }

  /** What a static request answers: 403 for any path holding "..",
      otherwise the file under public/ (index.html for "/") with the type
      its suffix names, or 404 when there is no such file. */
  lemma {:induction false} ServeStaticOutcome(path: string, files: map<string, string>)
    ensures Contains(path, "..") ==> ServeStatic(path, files) == LegacyResponse(403, "text/plain", "Forbidden")
    ensures path == "/" ==> StaticPath(path) == "public/index.html"
    ensures path == "/" && "public/index.html" in files ==>
      ServeStatic(path, files) == LegacyResponse(200, "text/html", files["public/index.html"])
    ensures !Contains(path, "..") && path != "/" && path != [] && path[0] == '/' ==>
      ServeStatic(path, files) == (if "public/" + path[1..] in files
        then LegacyResponse(200, ContentType("public/" + path[1..]), files["public/" + path[1..]])
        else LegacyResponse(404, "text/plain", "Not Found"))
  {
    ForbiddenIffDotDot(path);
    if path == "/" {
      assert "/index.html"[1..] == "index.html";
      assert TextUtils.StringEndsWith("public/index.html", ".html");
    }
  }

  // ---------------------------------------------------------------------
  // The query handler's matches (server.cpp:649-698)

  /** A match returned to the client: the chunk's file name and its whole
      text. */
  datatype Match = Match(filename: string, text: string)

  /** The matches of every search result whose row names a document, in
      result order. */
  function InRangeMatches(results: seq<VectorIndex.Scored>, documents: seq<Document>): (ms: seq<Match>)
    ensures |ms| <= |results|
    decreases |results|
  {
    if results == [] then []
    else
      var last := results[|results| - 1];
      InRangeMatches(results[..|results| - 1], documents)
        + (if 0 <= last.row < |documents| then [Match(documents[last.row].filename, documents[last.row].text)] else [])
  }

  /** The matches of two runs of results are those of each, in order. */
  lemma {:induction false} InRangeMatchesAppend(a: seq<VectorIndex.Scored>, b: seq<VectorIndex.Scored>, documents: seq<Document>)
    ensures InRangeMatches(a + b, documents) == InRangeMatches(a, documents) + InRangeMatches(b, documents)
    decreases |b|
  {
    if b == [] {
      assert a + b == a;
    } else {
      assert (a + b)[..|a + b| - 1] == a + b[..|b| - 1];
      InRangeMatchesAppend(a, b[..|b| - 1], documents);
    }
  }

  /** Every match is the document of some in-range result, and every
      in-range result gives one. */
  lemma {:induction false} InRangeMatchesMembers(results: seq<VectorIndex.Scored>, documents: seq<Document>)
    ensures forall m :: m in InRangeMatches(results, documents) <==>
      exists i :: 0 <= i < |results| && 0 <= results[i].row < |documents| &&
        m == Match(documents[results[i].row].filename, documents[results[i].row].text)
    decreases |results|
  {
    if results != [] {
      var p := results[..|results| - 1];
      InRangeMatchesMembers(p, documents);
      forall m | m in InRangeMatches(results, documents)
        ensures exists i :: (0 <= i < |results| && 0 <= results[i].row < |documents| &&
          m == Match(documents[results[i].row].filename, documents[results[i].row].text))
      {
        if m in InRangeMatches(p, documents) {
          var i :| 0 <= i < |p| && 0 <= p[i].row < |documents| &&
            m == Match(documents[p[i].row].filename, documents[p[i].row].text);
          assert results[i] == p[i];
        } else {
          assert results[|results| - 1] == results[|p|];
        }
      }
      forall i | 0 <= i < |results| && 0 <= results[i].row < |documents|
        ensures Match(documents[results[i].row].filename, documents[results[i].row].text) in InRangeMatches(results, documents)
      {
        if i < |p| {
          assert results[i] == p[i];
        }
      }
    }
  }

  /** The matches `handle_query` returns: none when no document is indexed,
      otherwise the first three in-range results, without de-duplication. */
  function LegacyMatches(results: seq<VectorIndex.Scored>, documents: seq<Document>): (ms: seq<Match>)
    ensures |ms| <= MAX_CONTEXT_CHUNKS
    ensures documents == [] ==> ms == []
  {
    if documents == [] then []
    else
      var all := InRangeMatches(results, documents);
      if |all| <= MAX_CONTEXT_CHUNKS then all else all[..MAX_CONTEXT_CHUNKS]
  }

  const MAX_CONTEXT_CHUNKS: nat := 3

  /** The match loop of `handle_query`: walk the results, skip rows with no
      document, and stop once three matches are used. */
  method SelectMatches(results: seq<VectorIndex.Scored>, documents: seq<Document>) returns (matches: seq<Match>)
    ensures matches == LegacyMatches(results, documents)
  {
    matches := [];
    if documents == [] {
      return;
    }
    var i := 0;
    while i < |results|
      invariant i <= |results|
      invariant matches == InRangeMatches(results[..i], documents)
      invariant |matches| <= MAX_CONTEXT_CHUNKS
    {
      assert results[..i + 1][..i] == results[..i];
      if |matches| >= MAX_CONTEXT_CHUNKS {
        break;
      }
      var r := results[i];
      if 0 <= r.row < |documents| {
        matches := matches + [Match(documents[r.row].filename, documents[r.row].text)];
      }
      i := i + 1;
    }
    InRangeMatchesAppend(results[..i], results[i..], documents);
    assert results[..i] + results[i..] == results;
  }
}
