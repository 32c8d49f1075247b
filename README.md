# A verified model of the retrieval-augmented chat server

The system chunks documents, embeds the chunks and appends the embeddings to a
brute-force vector index kept in a flat binary file. A hand-written HTTP/1.1
server answers questions against that index. It applies per-address rate
limiting, keeps per-conversation histories and cites the files it used. This
project models the sequential logic of that system in Dafny and proves what it
does.

The model covers these parts:

- **Chunker** (`TextUtils`, src/text_utils.h). It covers `string_ends_with` and
  the guarded `split_text`, with CHUNK_SIZE 2000 and CHUNK_OVERLAP 200.
  `start = end - 200` is computed on a 64-bit `size_t`, so it wraps.
- **Vector index** (`VectorIndex`, src/simple_vector_index.h).
  - A class holds one row-major buffer of values, a dimension and a row count.
  - Search scans blocks of 16 rows and keeps a bounded max-heap, drained into
    an array that is reversed in place.
  - `save` and `load` use a file of 32-bit words `[count][dimension][values]`.
- **Ranking** (`Ranking`). This is the order that both indexes share:
  squared Euclidean distance, with (distance, row) pairs compared as
  `std::pair` compares them. It also defines the sorted candidate list and
  its first k entries.
- **Ingestion service** (`Ingestion`, src/ingestion.cpp). It models:
  - checkpoint loading with trimming;
  - discovery of new `.txt` and `.pdf` files;
  - PDF truncation;
  - the chunk filter;
  - batches of 50 and the save points.

  A class holds the index, the documents, the processed set and what the
  three files on disk hold. Every operation is proved against a list of
  effects that crash and restart lemmas then replay.
- **HTTP layer** (`Http`, src/server.cpp). It models:
  - reason phrases and the response builder;
  - the `getline`-based request parser with its Content-Length rule;
  - the `handle_client` read loop as a method over the bytes the peer sends
    and the results of successive `read` calls;
  - the dispatch chain.
- **Per-client state** (`Sessions`, src/server.cpp). It models:
  - the `ConnectionTracker` rate limiter;
  - the conversation store, with its history cap and its idle sweep;
  - the selection of de-duplicated citations.
- **Older monolith** (`LegacyServer` and `LegacyIngestion`, server.cpp). It
  models:
  - the row-per-vector index, which uses a full sort;
  - the unguarded chunker, which does not terminate on any text of 50 or more
    characters;
  - the mapping of static paths;
  - the response builder, which always writes "OK";
  - the cap on matches;
  - one cycle of the background ingestion thread.
- **Offline script** (`IngestPy`, ingest.py). It models the separator-seeking
  `split_text`, the file-skip predicate and the strip-and-filter chunk loop.
- **PostgreSQL store** (`PgStore`, src/pg_vector_store.h). It models
  `escape_string`, which is the quote-doubling rule for character string
  literals in section 5.3 of ISO/IEC 9075-2, and the INSERT statement that
  `add_document` builds.

Vector components are integers, so distances are exact. Text is `seq<char>`
and each character stands for a byte. I/O is passed in as parameters:
- file contents, extracted text and embeddings are functions;
- clock readings are integers;
- the results of socket reads are a sequence of integers.

Behaviours of the source that the proofs bring out:
- The guarded chunker re-emits the last 200 characters of a text until its
  guard fires (`TextUtils.TailReemitted`).
- The older chunker never terminates on a text of 50 or more characters.
  Every text it does finish is too short to embed, so the older ingestion
  thread never adds a row (`LegacyIngestion.LongTextNeverEnds`,
  `LegacyIngestion.NeverAddsRows`). The model follows the code on 50.
- `load` accepts a truncated file or a negative header without complaint.
  The older `load` also accepts a file that ends after its row count, and
  reads that many rows of zeros (`LegacyServer.CountOnlyFile`).
- The ingestion service creates its `data` directory only when a batch of
  50 fills up. On a fresh install, the end-of-file writes before that
  point fail unseen, so nothing persists (`Ingestion.CycleWithoutDataDir`).
- The ingestion service writes its checkpoint before the final save. A crash
  in between loses the file's last partial batch for good. A crash after a
  mid-file save duplicates that batch, and a crash between the index save
  and the metadata save leaves index rows that no document names.
- A header line ending in `:` throws from `substr`. The client thread is
  detached and catches nothing, so `std::terminate` ends the whole server.
- Content-Length is matched with that exact spelling.
- The 413 checks of `handle_client` can never fire. A body declared at the
  30 MiB limit is therefore padded with NUL characters.
- The body is read only into the room the buffer had when the head
  arrived. A POST whose head arrives in the first read and whose body does
  not fit is cut at 65535 bytes, and the rest of its declared length is NUL
  padding (`Http.LargeBodyCut`).
- A conversation survives the sweep until it has been idle for two full
  hours.

## Model

| member | source | states |
|---|---|---|
| `TextUtils.EndsWithIffSuffix` | src/text_utils.h:15-18 | `string_ends_with(str, suffix)` holds exactly when `str` is some string followed by `suffix`. It is false whenever the suffix is longer than `str`. The legacy copy at server.cpp:26-29 is the same code. |
| `TextUtils.LastSentenceBreak` | src/text_utils.h:135 | A position found by `rfind(". ", pos)` is at or before `pos`, and a ". " starts there. |
| `TextUtils.LastSentenceBreakIsLast` | src/text_utils.h:135 | Whenever a ". " starts at some position at or before `pos`, `rfind` finds one, and no ". " at or before `pos` lies after the one it finds. |
| `TextUtils.ChunkEndBounds` | src/text_utils.h:131-139 | A chunk end lies after its start and inside the text. |
| `TextUtils.ChunkEndShape` | src/text_utils.h:131-139 | A chunk is at most CHUNK_SIZE + 2 long. It ends at the end of the text when the window reaches it. Otherwise it ends just after the last ". " that lies in (start+1900, start+2000], with no ". " after it in that range, or it ends at start + 2000 when there is no such break. |
| `TextUtils.Chunks` | src/text_utils.h:121-153 | There is one chunk string per generated span. |
| `TextUtils.SpansFromStep` | src/text_utils.h:130-147 | One turn of the loop emits `text[start, end)` and continues from the wrapped and guarded next start. Every reachable start is at least 200 times the number of chunks so far. |
| `TextUtils.CutChunk` | src/text_utils.h:131-139 | The imperative end computation equals `ChunkEnd`, which lies in (start, \|text\|]. |
| `TextUtils.SplitText` | src/text_utils.h:121-153 | The while loop, with the unsigned subtraction and the guard, returns exactly the slices that `Spans` names, in generation order. |
| `TextUtils.SplitStep` | src/text_utils.h:141-147 | One iteration keeps the loop invariant: the spans done so far plus the spans still to come are all the spans, and each chunk is the slice of its span. |
| `TextUtils.ChunksOfSpans` | src/text_utils.h:141 | Chunks that are the slices of all the spans are the chunk strings of `split_text`. |
| `TextUtils.SpansFromWellFormed` | src/text_utils.h:130-147 | Every span generated from a start is non-empty, lies inside the text and is at most CHUNK_SIZE + 2 long. The i-th span starts at or after 200·(count+i), and the first span starts at `start`. |
| `TextUtils.SpansWellFormed` | src/text_utils.h:130-147 | Every chunk is a non-empty `text[lo, hi)` inside the text and at most 2002 long. The i-th chunk starts at or after offset 200·i. |
| `TextUtils.SpanCountBound` | src/text_utils.h:142-147 | 200 · (number of chunks) ≤ \|text\| + 199, so the loop terminates on every input. |
| `TextUtils.FirstChunk` | src/text_utils.h:128-141 | The empty text gives no chunk, and only the empty text does. Otherwise the first chunk starts at 0, and a text of at most 2000 characters comes first as a whole. |
| `TextUtils.ShortTextOneChunk` | src/text_utils.h:141-147 | A text of 1 to 400 characters gives exactly one chunk, the whole text. Below 200 the subtraction wraps. Between 200 and 400 the guard jumps past the end. |
| `TextUtils.TailReemittedFrom` | src/text_utils.h:141-147 | Any chunk that ends at the end of the text, unless it is the last one, is followed by the chunk made of the last 200 characters. |
| `TextUtils.TailReemitted` | src/text_utils.h:141-147 | Once a chunk reaches the end of the text, every following chunk is again its last 200 characters, so chunks are not free of duplicates. |
| `TextUtils.ThousandCharacters` | src/text_utils.h:130-147 | Every 1000-character text gives the chunks [0,1000) and then three copies of [800,1000). |
| `Ranking.SqDistStep4` | src/simple_vector_index.h:51-58 | Adding four squared differences at a time, as the unrolled loop does, gives the same sum as adding them one at a time. |
| `Ranking.SqDistZeroIff` | src/simple_vector_index.h:47-63 | A squared distance is never negative. It is zero exactly when the query and the row agree on every component. |
| `Ranking.Insert` | server.cpp:140 | Insertion adds exactly one element: the length grows by one and the multiset gains `x`. |
| `Ranking.SortHits` | server.cpp:140 | The reference sort is a permutation of its input. |
| `Ranking.Take` | src/simple_vector_index.h:65-69 | Taking b entries gives the first min(b, n) of them. |
| `Ranking.InsertSorted` | server.cpp:140 | Inserting a new candidate into a strictly ascending list keeps it strictly ascending. |
| `Ranking.SortHitsSorted` | server.cpp:140 | Sorting candidates with distinct rows gives a strictly ascending (distance, row) list. |
| `Ranking.SortedPermutationUnique` | server.cpp:140 | Two strictly ascending lists with the same elements are equal. So `std::sort` on distinct pairs has exactly one outcome. |
| `Ranking.SortHitsSnoc` | src/simple_vector_index.h:43-71 | Sorting after one more candidate is inserting that candidate into the earlier sort. |
| `Ranking.InsertPrefixBelow` | src/simple_vector_index.h:67-69 | A candidate that beats entry b−1 turns the first b entries into the first b−1 entries with the candidate inserted: the top is evicted. |
| `Ranking.InsertPrefixAbove` | src/simple_vector_index.h:67 | A candidate that does not beat entry b−1 leaves the first b entries unchanged. |
| `Ranking.TopKInsert` | src/simple_vector_index.h:65-69 | On an ascending list whose rows all come before the candidate, the push-or-replace heap step equals the first b entries after insertion. |
| `Ranking.TopKStep` | src/simple_vector_index.h:65-69 | The heap step keeps the heap equal to the first b sorted candidates seen so far. The strict `<` is the lexicographic order because rows arrive in increasing order. |
| `Ranking.TopKCharacterised` | src/simple_vector_index.h:65-81 | The first b sorted candidates are min(b, N) of them, strictly ascending and drawn from the candidates, and each beats every candidate left out. |
| `Ranking.TakeOfSorted` | src/simple_vector_index.h:75-81 | A prefix of an ascending list is ascending and drawn from the list, and each of its entries is less than every entry left out. |
| `VectorIndex.AsScored` | src/simple_vector_index.h:78 | Converting (distance, row) to (row, distance) keeps length, rows and distances. |
| `VectorIndex.Hits` | src/simple_vector_index.h:46-63 | There is one candidate per row, in row order, and candidate i names row i. |
| `VectorIndex.HitAt` | src/simple_vector_index.h:47-63 | Candidate i is row i with the squared distance over values [i·dim, i·dim+dim) of the buffer. |
| `VectorIndex.HitsDistinct` | src/simple_vector_index.h:46 | No two candidates name the same row, and every row is below the row count. |
| `VectorIndex.HeapAfterNext` | src/simple_vector_index.h:64-69 | The heap after row i+1 is the heap after row i with row i's candidate offered. |
| `VectorIndex.HeapAfterStep` | src/simple_vector_index.h:64-69 | If the heap holds the first b sorted candidates of m−1 rows, offering row m−1 makes it hold those of m rows. |
| `VectorIndex.HeapAfterIsTopK` | src/simple_vector_index.h:43-72 | After all rows are offered, the bounded heap holds exactly the first b candidates in (distance, row) order. |
| `VectorIndex.TopKCount` | src/simple_vector_index.h:65-81 | For k ≥ 1, `search` returns min(k, N) results. |
| `VectorIndex.TopKRowsAndDistances` | src/simple_vector_index.h:44-78 | Each result is a row in [0, N) paired with its squared distance to the query. |
| `VectorIndex.TopKAscending` | src/simple_vector_index.h:65-81 | Results come in strictly ascending (distance, row) order, and equal distances keep the lower row first. |
| `VectorIndex.TopKBeatsRest` | src/simple_vector_index.h:65-81 | Every row left out of the results ranks after every row returned. |
| `VectorIndex.NegativeKReturnsAll` | src/simple_vector_index.h:65 | A negative k, converted to `size_t` in the comparison, bounds nothing: every row is returned. |
| `VectorIndex.Reversed` | src/simple_vector_index.h:81 | The reversed list has entry i equal to the input's entry n−1−i. |
| `VectorIndex.Reverse` | src/simple_vector_index.h:81 | The in-place swap loop leaves the array holding its old contents reversed. |
| `VectorIndex.Encode` | src/simple_vector_index.h:93-99 | The saved file holds 2 + count·dimension words. |
| `VectorIndex.Reloaded` | src/simple_vector_index.h:111-112 | After `resize` and a short read, each value comes from the file if the file reached it, otherwise from the old buffer, and otherwise it is zero. |
| `VectorIndex.LoadState` | src/simple_vector_index.h:101-115 | A missing file changes nothing. Otherwise both header fields are taken as read. A successful load holds exactly count·dimension values. A `length_error` leaves the old buffer behind the new header. |
| `VectorIndex.LoadSaveRoundTrip` | src/simple_vector_index.h:93-115 | Loading what `save` wrote restores values, dimension and row count exactly, whatever the index held before. |
| `VectorIndex.TruncatedFileAccepted` | src/simple_vector_index.h:108-112 | A file cut short inside its values is loaded without complaint, with the header's row count. Its missing tail comes from the old buffer or is zero. |
| `VectorIndex.NegativeHeaderAccepted` | src/simple_vector_index.h:108-111 | The header (−1, −2) passes `resize` and leaves an index with a negative row count. |
| `VectorIndex.NegativeCountThrows` | src/simple_vector_index.h:108-111 | A negative count makes `resize` throw after the header was stored, which leaves an inconsistent index. |
| `VectorIndex.SimpleVectorIndex.constructor` | src/simple_vector_index.h:18-21 | A new index is empty, has the given dimension and no rows, and keeps the buffer-size invariant. |
| `VectorIndex.SimpleVectorIndex.Add` | src/simple_vector_index.h:23-26 | Appends the embedding's values and counts one more row. The invariant survives exactly when the embedding has `dimension` values. |
| `VectorIndex.SimpleVectorIndex.AddBatch` | src/simple_vector_index.h:28-32 | Appends exactly the first n·dimension values after the existing ones and adds n rows. It keeps the invariant. |
| `VectorIndex.SimpleVectorIndex.RowDistance` | src/simple_vector_index.h:47-63 | The unrolled loop and its remainder loop compute the squared distance of row i. |
| `VectorIndex.SimpleVectorIndex.Search` | src/simple_vector_index.h:34-84 | Returns `TopK`: the first k candidates in (distance, row) order, as (row, distance). An index with a row count of zero or less, such as one a bad file leaves behind, gives an empty list. |
| `VectorIndex.SimpleVectorIndex.Scan` | src/simple_vector_index.h:41-72 | The block loop leaves the heap that offering every row in order gives. |
| `VectorIndex.SimpleVectorIndex.ScanBlock` | src/simple_vector_index.h:44-71 | One block carries the heap of the rows before it to the heap of the rows up to its end. |
| `VectorIndex.SimpleVectorIndex.ScanRow` | src/simple_vector_index.h:47-69 | One row carries the heap of the rows before it to the heap that includes it. |
| `VectorIndex.SimpleVectorIndex.Offer` | src/simple_vector_index.h:64-69 | A push while the heap is not full, otherwise a replacement of the top only by a strictly closer candidate: the `HeapStep` that the ranking lemmas characterise. |
| `VectorIndex.SimpleVectorIndex.Extract` | src/simple_vector_index.h:75-81 | Popping largest first and then reversing gives the heap's candidates in ascending order, as (row, distance). |
| `VectorIndex.SimpleVectorIndex.Size` | src/simple_vector_index.h:86 | The size is the number of whole rows in the buffer. |
| `VectorIndex.SimpleVectorIndex.Clear` | src/simple_vector_index.h:88-91 | Leaves no values and no rows, keeps the dimension, and keeps the invariant. |
| `VectorIndex.SimpleVectorIndex.Save` | src/simple_vector_index.h:93-99 | The words written are the header and the buffer, which the round-trip lemma reads back. |
| `VectorIndex.SimpleVectorIndex.Load` | src/simple_vector_index.h:101-115 | The new state and the outcome are those of `LoadState`: a missing file leaves the index unchanged, and nothing is validated. |
| `LegacyServer.FlattenAt` | server.cpp:121-126 | Rows of dim values flatten to \|rows\|·dim values, with value j of row i at offset i·dim+j. |
| `LegacyServer.FlattenLength` | server.cpp:121-126 | Rows of dim values flatten to \|rows\|·dim values. |
| `LegacyServer.FlattenAppend` | server.cpp:121-126 | Flattening two runs of rows is flattening each, one after the other. |
| `LegacyServer.SlicesFlatten` | server.cpp:121-126 | `add_batch(n, data)` builds n rows of dim values that flatten back to the first n·dim values, in order. |
| `LegacyServer.RowHits` | server.cpp:131-138 | There is one (distance, row) candidate per row. |
| `LegacyServer.SqDistSame` | server.cpp:132-136 | A distance depends only on the values it reads. |
| `LegacyServer.ZeroWidthSearch` | server.cpp:128-148 | With no component to compare, as when a loaded header carries a negative dimension, every row is at distance 0 and the search returns rows 0 to k−1, in order, and none for k ≤ 0. |
| `LegacyServer.RowHitAt` | server.cpp:131-138 | Candidate i is row i with its squared distance to the query. |
| `LegacyServer.RowHitsAreHits` | server.cpp:131-138 | The legacy candidates are the newer index's candidates over the flattened rows. |
| `LegacyServer.LegacyAgreesWithHeap` | server.cpp:128-148 | For every k ≥ 1 the full-sort search returns the same list as the bounded-heap search of the newer index. |
| `LegacyServer.StdSortOutcome` | server.cpp:140 | Any ascending permutation of the candidates, which is what `std::sort` produces, is `SortHits` of them. |
| `LegacyServer.RowHitsRows` | server.cpp:137 | Candidate i names row i, and no row appears twice. |
| `LegacyServer.Encode` | server.cpp:154-163 | The file starts with the row count and the dimension, negative or not. |
| `LegacyServer.ReadRow` | server.cpp:180-181 | A row read back holds dim values. Those past the end of the file stay zero. |
| `LegacyServer.LoadedRows` | server.cpp:179-183 | `load` reads back exactly n rows. |
| `LegacyServer.LoadedRowsAt` | server.cpp:179-183 | Row i is read from the values starting at i times the dimension. |
| `LegacyServer.Load` | server.cpp:165-185 | A missing file changes nothing. Otherwise the dimension is taken from the file, or kept when the file ends after the row count, and a successful load has the header's row count. A `length_error` leaves no rows. |
| `LegacyServer.CountOnlyFile` | server.cpp:172-183 | A file cut short after the row count n is loaded without complaint: the old dimension stays, and n rows of that many zeros are read. |
| `LegacyServer.ValuesFlatten` | server.cpp:159-161 | Rows of exactly dim values are written whole. |
| `LegacyServer.LoadedRowsOfFlatten` | server.cpp:179-183 | Reading m rows back from flattened rows gives the first m rows. |
| `LegacyServer.LoadSaveRoundTrip` | server.cpp:154-185 | Loading what `save` wrote restores every row and the dimension, whatever the index held before. |
| `LegacyServer.Distance` | server.cpp:132-136 | The inner loop computes the squared distance over the first dim components. |
| `LegacyServer.FirstK` | server.cpp:142-145 | The copy loop returns the first k sorted candidates as (row, distance), and none when k ≤ 0. |
| `LegacyServer.RowIndex.constructor` | server.cpp:115 | A new index has no rows and the given dimension. |
| `LegacyServer.RowIndex.Add` | server.cpp:117-119 | The embedding becomes the last row, whatever its length. |
| `LegacyServer.RowIndex.AddBatch` | server.cpp:121-126 | Appends the n rows of `Slices`, each holding dimension consecutive values. |
| `LegacyServer.RowIndex.Search` | server.cpp:128-148 | Returns `LegacyTopK`, the first k entries of the fully sorted candidate list, which `LegacyAgreesWithHeap` ties to the newer search. A negative dimension compares no component (`Width`), so every distance is 0, as `ZeroWidthSearch` states. |
| `LegacyServer.RowIndex.Clear` | server.cpp:152 | Removes every row and keeps the dimension. |
| `LegacyServer.RowIndex.Save` | server.cpp:154-163 | Writes `Encode` of the rows. The header carries the dimension as it is, even a negative one when there are no rows. |
| `LegacyServer.RowIndex.LoadFile` | server.cpp:165-185 | The state and outcome afterwards are those of `Load`. |
| `LegacyServer.CorsFieldsWellFormed` | server.cpp:204-206 | The three fixed CORS fields serialise to one line each and parse back. |
| `LegacyServer.LegacyFieldsWellFormed` | server.cpp:202-206 | The older response's fields are well formed, and only its first two carry the names Content-Type and Content-Length. |
| `LegacyServer.LengthFieldWellFormed` | server.cpp:203 | The decimal Content-Length field of any length is well formed. |
| `LegacyServer.LegacyResponseRoundTrip` | server.cpp:199-209 | Parsing an older response recovers the status code as its second token, every field, a Content-Length equal to the body length, and the body. |
| `LegacyServer.LegacyStatusLineAgrees` | server.cpp:201 | The older status line equals the newer one exactly for the codes whose phrase is "OK". |
| `LegacyServer.ErrorPhrases` | server.cpp:627-632 | The 404 and 403 the older server labels "OK" are "Not Found" and "Forbidden" in the newer phrase table. |
| `LegacyServer.StaticPath` | server.cpp:611-623 | Every mapped path starts with "public/". |
| `LegacyServer.NoDotPairContains` | server.cpp:626 | A string with no '.' followed by '.' does not contain "..". |
| `LegacyServer.DotFreePrefix` | server.cpp:623-626 | A prefix without dots neither adds nor hides a "..". |
| `LegacyServer.IndexPathClean` | server.cpp:613-623 | "/" maps to public/index.html, and neither holds "..". |
| `LegacyServer.ForbiddenIffDotDot` | server.cpp:611-628 | The mapped path contains ".." exactly when the request path does. |
| `LegacyServer.ServeStaticOutcome` | server.cpp:611-649 | A path containing ".." gets 403 Forbidden. "/" serves public/index.html as text/html. Any other path with a leading slash is served from public/ with the type its suffix names, or gets 404. |
| `LegacyServer.InRangeMatches` | server.cpp:688-698 | There are never more matches than results. |
| `LegacyServer.InRangeMatchesAppend` | server.cpp:688-698 | The matches of two runs of results are those of each, in order. |
| `LegacyServer.InRangeMatchesMembers` | server.cpp:690-695 | A match is exactly the document (filename, text) of some result whose row indexes the documents. |
| `LegacyServer.LegacyMatches` | server.cpp:659-698 | There are at most three matches, and none when no document is indexed. |
| `LegacyServer.SelectMatches` | server.cpp:684-698 | The loop that stops at three matches and skips out-of-range rows returns `LegacyMatches`. |
| `LegacyIngestion.ChunkEnd` | server.cpp:447-455 | A window ends inside the text and after its start, past start + 400 unless it reaches the end, and at the end whenever the end lies within 500 characters. |
| `LegacyIngestion.NextStart` | server.cpp:458 | `end - 50` on a 64-bit `size_t`: exact from 50 on, wrapped past the end of any text below 50. |
| `LegacyIngestion.SplitText` | server.cpp:442-462 | Cut off after `fuel` turns, the loop returns exactly the chunks of its first turns. It reports that it finished exactly when its guard failed. |
| `LegacyIngestion.Turn` | server.cpp:446-458 | Each turn while the guard holds pushes `text[start, end)` and moves `start` to `end - 50`. |
| `LegacyIngestion.TurnStart` | server.cpp:458 | Where a turn leaves `start`. |
| `LegacyIngestion.Window` | server.cpp:447-455 | The window's end as the loop computes it. |
| `LegacyIngestion.ShortTextOneChunk` | server.cpp:446-459 | A text of 1 to 49 characters comes back whole as one chunk, because `start` then wraps past the end. |
| `LegacyIngestion.LongTextNeverEnds` | server.cpp:446-459 | For a text of 50 or more characters the guard `start < length` holds after every number of turns: the loop never ends. |
| `LegacyIngestion.StepInside` | server.cpp:447-458 | In a text of 50 or more characters, a window ends at 50 or later and the next start stays inside the text. |
| `LegacyIngestion.HaltsIffShort` | server.cpp:446 | After one turn or more, the loop has ended exactly when the text is shorter than 50. |
| `LegacyIngestion.EmptyStaysPut` | server.cpp:446 | The empty text gives no chunk. |
| `LegacyIngestion.Progress` | server.cpp:446-458 | Until the window reaches the end, `start` advances by more than 350 per turn. |
| `LegacyIngestion.StepProgress` | server.cpp:447-458 | One window either reaches the end and resets `start` to \|text\|−50, or moves `start` on by more than 350. |
| `LegacyIngestion.TailReached` | server.cpp:446-458 | From turn \|text\| on, `start` is \|text\|−50. |
| `LegacyIngestion.TailTurn` | server.cpp:457-458 | A turn from \|text\|−50 pushes the last 50 characters and stays there. |
| `LegacyIngestion.TailRepeatsForever` | server.cpp:446-459 | From turn \|text\| on, every turn pushes the last 50 characters again. |
| `LegacyIngestion.ShortChunksKeepNothing` | server.cpp:571-577 | Chunks of at most 100 characters give nothing to embed. |
| `LegacyIngestion.ProcessText` | server.cpp:569-577 | The thread hangs in the chunker exactly on texts of 50 or more characters. Otherwise it embeds what `KeepChunks` says. |
| `LegacyIngestion.KeepLoop` | server.cpp:571-577 | The chunk loop gathers what `KeepChunks` says and stops at the first exception. |
| `LegacyIngestion.ThrownSticky` | server.cpp:571-585 | Once an embedding call has thrown, later chunks change nothing. |
| `LegacyIngestion.HungSticky` | server.cpp:546-586 | Once the thread is stuck in the chunker, later files change nothing. |
| `LegacyIngestion.Cycle` | server.cpp:519-604 | One cycle over the discovered files ends as `CycleOutcome` says: hung, deadlocked after adding rows, or idle. |
| `LegacyIngestion.PassFilesSnoc` | server.cpp:546-586 | The files of a cycle are processed one after the other. |
| `LegacyIngestion.ProcessFile` | server.cpp:547-585 | One file's step. A PDF with empty text or a path with another suffix leaves the file unprocessed. A `.txt` that cannot be opened reads as empty text, gives no chunks and is marked processed. Only an exception, which the model writes as missing content, leaves a file unmarked. A failed embedding keeps what was gathered but does not mark the file. |
| `LegacyIngestion.TextKeepsNothing` | server.cpp:569-577 | Every text the chunker finishes gives nothing to embed. |
| `LegacyIngestion.NothingGathered` | server.cpp:546-586 | No cycle gathers an embedding or a document. |
| `LegacyIngestion.NeverAddsRows` | server.cpp:589-601 | No cycle ever reaches `add_batch`, nor the `save_index` that would lock `index_mutex` a second time. |
| `LegacyIngestion.EmptyPdfRetried` | server.cpp:557-563 | A PDF whose extraction gives "" is not marked processed, so it is queued again next cycle. |
| `LegacyIngestion.UnreadableTxtMarked` | server.cpp:552-581 | A `.txt` file that cannot be opened reads as "" and is marked processed anyway, unless the chunker hung earlier in the cycle, so it is never retried. |
| `Ingestion.TrimStart` | src/ingestion.cpp:90 | The front trim drops only leading blanks and leaves the line starting with a non-blank. |
| `Ingestion.TrimEnd` | src/ingestion.cpp:91 | The back trim drops only trailing blanks and leaves the line ending with a non-blank. |
| `Ingestion.TrimIsSlice` | src/ingestion.cpp:90-91 | A trimmed line is a slice of the line with only blanks around it, and it has no blank at either end. |
| `Ingestion.TrimTrimmed` | src/ingestion.cpp:90-91 | Trimming a name without outer blanks changes nothing. |
| `Ingestion.LoadCheckpoint` | src/ingestion.cpp:84-98 | The line loop builds the set of trimmed non-blank lines. |
| `Ingestion.CheckpointStep` | src/ingestion.cpp:89-95 | One more line adds its trimmed form, unless it is blank. |
| `Ingestion.CheckpointAppend` | src/ingestion.cpp:89-95 | A checkpoint with one more line holds that line's trimmed form, unless the line is blank. |
| `Ingestion.CheckpointRoundTrip` | src/ingestion.cpp:84-95 | Non-empty names without outer blanks, written one per line, read back as the same set. |
| `Ingestion.PaddedNameForgotten` | src/ingestion.cpp:90-93 | A name with a leading or trailing blank is not read back under its own name, so after a restart the file is processed again. |
| `Ingestion.NewFiles` | src/ingestion.cpp:104-121 | There are never more files to process than directory entries. |
| `Ingestion.NewFilesMembers` | src/ingestion.cpp:107-115 | A file is queued exactly when some entry is a regular .txt or .pdf file whose relative path is not processed. |
| `Ingestion.FindNewFiles` | src/ingestion.cpp:104-121 | The discovery loop returns `NewFiles`, in directory order. |
| `Ingestion.SourceTextBounds` | src/ingestion.cpp:130-151 | A .txt file is chunked whole, however long. A PDF's text is its first 500000 characters at most. A file is skipped exactly when it is a PDF with empty text. |
| `Ingestion.RunSnoc` | src/ingestion.cpp:126-230 | Running one more effect applies it to the world reached so far. |
| `Ingestion.RunAppend` | src/ingestion.cpp:126-230 | Running two lists of effects is running the first and then the second. |
| `Ingestion.Ingestor.constructor` | src/ingestion.cpp:67-98 | Start-up without index files: an empty index, and the checkpoint set in memory and on disk. Whether the `data` directory exists is given, since start-up does not create it. |
| `Ingestion.Ingestor.Flush` | src/ingestion.cpp:174-175 | `add_batch` and the documents insert grow the index and the documents by the same batch. |
| `Ingestion.Ingestor.CreateDataDir` | src/ingestion.cpp:181 | The `data` directory exists afterwards, and nothing else changes. |
| `Ingestion.Ingestor.SaveIndex` | src/ingestion.cpp:182 | The index file now holds the index in memory if the `data` directory exists. Otherwise the write fails unseen. Nothing else changes. |
| `Ingestion.Ingestor.SaveMetadata` | src/ingestion.cpp:184-190 | The metadata file now holds the documents if the `data` directory exists. Otherwise the write fails unseen. Nothing else changes. |
| `Ingestion.Ingestor.SaveCheckpoint` | src/ingestion.cpp:207-212 | The checkpoint file now holds the processed set if the `data` directory exists. Otherwise the write fails unseen. Nothing else changes. |
| `Ingestion.Ingestor.MarkProcessed` | src/ingestion.cpp:204 | Adds the file to the processed set in memory only. |
| `Ingestion.Ingestor.ProcessFile` | src/ingestion.cpp:127-229 | Processing one file, with its exception handler, performs exactly the effects of `FilePlan` in order. |
| `Ingestion.Ingestor.ChunkLoop` | src/ingestion.cpp:157-196 | The chunk loop performs `ChunkPlan`'s effects and leaves its well-sized batch and exception flag. By `ChunkPlanKept`, the documents it appends and leaves in the batch are exactly `Kept`. |
| `Ingestion.Ingestor.FlushAndSave` | src/ingestion.cpp:173-193 | A full batch is appended, the `data` directory is created, and then the index file and the metadata file are written, in that order. |
| `Ingestion.Ingestor.Finish` | src/ingestion.cpp:198-222 | The last partial batch is appended, the file is marked, and the checkpoint, index and metadata are written, in that order. The directory is not created here. |
| `Ingestion.Ingestor.Cycle` | src/ingestion.cpp:102-233 | One scan finds `NewFiles` and performs `CyclePlan`'s effects. |
| `Ingestion.ReadText` | src/ingestion.cpp:130-151 | The if-chain computes `SourceText`. |
| `Ingestion.Joined` | src/ingestion.cpp:169-170 | Joining one embedding keeps the batch well sized and adds one document. |
| `Ingestion.Kept` | src/ingestion.cpp:163-170 | The reference list of a file's documents never has more entries than there are chunks. |
| `Ingestion.KeptSound` | src/ingestion.cpp:163-170 | Every kept document names the file and holds a chunk of more than 100 characters whose embedding has 768 values. |
| `Ingestion.KeptComplete` | src/ingestion.cpp:163-170 | When the embedder throws on no chunk, every chunk of more than 100 characters with a 768-value embedding is kept. |
| `Ingestion.ChunkPlanKept` | src/ingestion.cpp:157-196 | Whatever the batching, the documents the chunk loop appends followed by those left in its batch are the starting batch plus `Kept`: the chunks of more than 100 characters with a 768-value embedding, in chunk order, under the file's path, up to the first exception. |
| `Ingestion.ChunkPlanThrew` | src/ingestion.cpp:157-196 | The chunk loop ends in an exception exactly when the embedder throws on some chunk of more than 100 characters. |
| `Ingestion.FileDocuments` | src/ingestion.cpp:157-203 | A file whose chunk loop runs to the end adds exactly its `Kept` documents to memory, in chunk order. |
| `Ingestion.TailDocs` | src/ingestion.cpp:198-222 | The effects after the chunk loop append the last batch's documents and nothing else. |
| `Ingestion.PlanSkips` | src/ingestion.cpp:164-168 | One step of the loop: a chunk of at most 100 characters, or one whose embedding has the wrong size, is passed over. |
| `Ingestion.PlanThrows` | src/ingestion.cpp:167 | One step of the loop: an exception from the embedder ends the chunk loop with the batch in progress. |
| `Ingestion.PlanJoins` | src/ingestion.cpp:169-193 | One step of the loop: an embedding joins the batch. A batch that reaches 50 is appended, the directory is created and both files are rewritten. |
| `Ingestion.FlushedDocsAppend` | src/ingestion.cpp:175 | The documents appended by two runs of effects are those of each, in order. |
| `Ingestion.RunDocuments` | src/ingestion.cpp:175 | The documents after a run of effects are those before it, followed by every appended batch. |
| `Ingestion.RunGroup` | src/ingestion.cpp:174-190 | A full batch with its saves creates the `data` directory and leaves both files matching memory, whether the directory existed before or not. |
| `Ingestion.ChunkPlanEffects` | src/ingestion.cpp:163-196 | The chunk loop leaves the processed set and the checkpoint alone. It keeps the index and metadata files matching memory if they matched before. The `data` directory exists afterwards exactly when it did before or a batch was appended. |
| `Ingestion.ChunkPlanShape` | src/ingestion.cpp:163-196 | The batch left is well sized, holds fewer than 50 documents and names the file. When the loop flushed, its first four effects are a full batch of the file's documents, the directory created and the two saves. |
| `Ingestion.CycleMarksEveryFile` | src/ingestion.cpp:126-230 | After a scan the processed set is the old one plus every file of the scan, and nothing else. |
| `Ingestion.FileMarksProcessed` | src/ingestion.cpp:136-229 | A file is added to the processed set whether it was indexed, yielded no text, or failed. |
| `Ingestion.TailMarks` | src/ingestion.cpp:198-212 | After the chunk loop, the file joins the processed set, and the checkpoint when the `data` directory exists. Without it, the files stay as they were. |
| `Ingestion.FileEnd` | src/ingestion.cpp:204-222 | The last four effects of a file write all three files from memory, or none of them when the `data` directory is missing. |
| `Ingestion.FileIndexed` | src/ingestion.cpp:127-222 | When its chunk loop runs to the end, memory gains exactly the file's `Kept` documents: its chunks of more than 100 characters with a 768-value embedding, in chunk order, under its path. When the `data` directory existed or the loop created it, both files then match memory and the checkpoint holds the processed set. Otherwise the files are unchanged. |
| `Ingestion.CheckpointBeforeFinalSave` | src/ingestion.cpp:198-215 | A crash between the checkpoint write and the final index save leaves the last partial batch only in memory. Once the `data` directory exists, the file is already checkpointed, so a restart neither has those documents nor scans the file again. |
| `Ingestion.FlushThenCheckpoint` | src/ingestion.cpp:199-212 | After the last flush and the checkpoint write, memory holds the batch and the files do not. The checkpoint names the file only if the `data` directory exists. |
| `Ingestion.FlushedGroup` | src/ingestion.cpp:174-190 | A full batch and its saves append exactly that batch's documents. |
| `Ingestion.FirstGroup` | src/ingestion.cpp:173-190 | If a file's chunk loop flushed, its effects begin with a full batch of its documents, the directory created and the two saves. |
| `Ingestion.MidFileCrashDuplicates` | src/ingestion.cpp:181-190 | A crash after a mid-file save leaves that batch on disk but the file unchecked. Re-ingesting it after a restart stores the batch twice. |
| `Ingestion.IndexAheadOfMetadata` | src/ingestion.cpp:182-184 | A crash between the index save and the metadata save leaves, after a restart, 50 more rows than documents. |
| `Ingestion.FailureKeepsFlushedBatches` | src/ingestion.cpp:226-229 | A failure in the chunk loop marks the file processed in memory but not in the checkpoint. It keeps only the batches flushed before the failure and leaves the files matching memory. |
| `Ingestion.FileWithoutDataDir` | src/ingestion.cpp:181-222 | Without the `data` directory, a file that never fills a batch of 50 leaves every file on disk unchanged, although memory marks it processed. |
| `Ingestion.CycleWithoutDataDir` | src/ingestion.cpp:102-233 | On a fresh install without `data`, a scan in which no file fills a batch persists nothing. A restart after it starts from the same state and scans the same sources again. |
| `Http.DigitChar` | src/server.cpp:67 | A digit value below 10 becomes the decimal digit of that value. |
| `Http.NatToString` | src/server.cpp:67 | Decimal text is non-empty and all digits. |
| `Http.IntToString` | src/server.cpp:65 | The status code's text is non-empty and holds no white space. |
| `Http.NatToStringValue` | src/server.cpp:67 | Decimal text reads back as the number written. |
| `Http.SkipSpace` | src/server.cpp:101 | Skips exactly a run of white space. |
| `Http.DigitRunEnd` | src/server.cpp:119 | Stops exactly after a run of digits. |
| `Http.Stol` | src/server.cpp:119 | `std::stol` yields a value in the range of `long`, and fails on text without digits. |
| `Http.StolNatToString` | src/server.cpp:119 | `std::stol` reads back the decimal text of any value within `long`. |
| `Http.ReasonPhrase` | src/server.cpp:37-60 | Every phrase is at least two characters long. |
| `Http.ReasonPhraseListed` | src/server.cpp:37-60 | The phrase is "Unknown" exactly for the unlisted codes. 413 keeps the RFC 2616 wording "Request Entity Too Large". |
| `Http.HeadStream` | src/server.cpp:66-80 | The head written field by field has the length of its parts plus the blank line. |
| `Http.HeadStreamIs` | src/server.cpp:66-80 | The head written field by field is the field lines followed by the blank line. |
| `Http.MessageIs` | src/server.cpp:63-83 | A message is its start line, its field lines, an empty line and its body, as in section 2.1 of RFC 9112. |
| `Http.StatusLine` | src/server.cpp:65 | The status line begins with "HTTP/1.1 ". |
| `Http.BuildHttpResponse` | src/server.cpp:63-83 | A response begins with "HTTP/1.1 " and ends with the body verbatim. |
| `Http.MessageEnds` | src/server.cpp:63-83 | A message begins with its start line and ends with its body, with the head's length in between. |
| `Http.LineEnd` | src/server.cpp:104 | Finds the first '\n' at or after a position, or the end. |
| `Http.GetLine` | src/server.cpp:99 | `getline` fails only at the end of the stream and otherwise advances. |
| `Http.TokenEnd` | src/server.cpp:101 | Stops exactly after a run of non-space characters. |
| `Http.FindColon` | src/server.cpp:106 | Finds the first ':' of the line. |
| `Http.TrimCrLf` | src/server.cpp:110 | Removes exactly the trailing CR and LF characters. |
| `Http.ScanHeaders` | src/server.cpp:104-113 | The header loop leaves the body start inside the stream. |
| `Http.Zeros` | src/server.cpp:127 | `resize` fills the new characters with NUL. |
| `Http.ReadBody` | src/server.cpp:115-133 | Without an accepted Content-Length the body is empty. Otherwise it has exactly the declared length. |
| `Http.ReadBodyPadded` | src/server.cpp:127-128 | The body is what the stream still holds, padded with NUL up to the declared length. |
| `Http.ParseHttpRequest` | src/server.cpp:93-136 | The `getline` loop that fills the header map computes `ParseRequest`. |
| `Http.PrefixAtSplit` | src/server.cpp:99-104 | A string occurring at a position splits into its two parts there. |
| `Http.GetLineAt` | src/server.cpp:99-104 | A line followed by '\n' is what `getline` returns. |
| `Http.WellFormedFieldsEach` | src/server.cpp:104-113 | Fields that are each well formed form a well-formed list. |
| `Http.FieldLineAction` | src/server.cpp:104-111 | A well-formed field line, as `getline` leaves it, is stored under its name with its value. |
| `Http.FieldTextParts` | src/server.cpp:106-109 | The name, the colon and the value of a field line sit where the parser looks for them. |
| `Http.FindColonFirst` | src/server.cpp:106 | The first colon of a line is found at its position. |
| `Http.TrimCrLfCr` | src/server.cpp:110 | A one-line value with the CR that `getline` leaves is trimmed back to itself. |
| `Http.FieldTextOneLine` | src/server.cpp:104 | A well-formed field line holds no line break. |
| `Http.ScanHeadersStore` | src/server.cpp:104-113 | A stored line puts its key and value in the map and the loop moves on. |
| `Http.ScanHeadersStop` | src/server.cpp:104 | An empty line or a lone CR ends the head. |
| `Http.LineOf` | src/server.cpp:99-104 | A line followed by '\n' is read whole, whatever surrounds it. |
| `Http.LineBefore` | src/server.cpp:99-104 | The same, when what follows is given in two parts. |
| `Http.EmptyLineAt` | src/server.cpp:104 | The empty line that ends a head is read as a lone CR. |
| `Http.FirstFieldLine` | src/server.cpp:104 | The first field line of a head is what `getline` returns there. |
| `Http.ShiftLines` | src/server.cpp:104-113 | After the first field line, the rest of the head follows. |
| `Http.LinesOf` | src/server.cpp:104-113 | Serialised well-formed field lines are read back one by one, then the lone CR. |
| `Http.ScanFieldLines` | src/server.cpp:104-113 | The header loop stores every field read back, the last one of each name winning, and stops after the blank line. |
| `Http.LinesAtStep` | src/server.cpp:104-113 | One field line is read and stored, and the remaining ones follow. |
| `Http.FieldMapOther` | src/server.cpp:111 | A name that no field carries keeps its earlier entry. |
| `Http.FieldMapLast` | src/server.cpp:111 | A repeated header keeps the value of its last occurrence. |
| `Http.TokenOneLine` | src/server.cpp:101 | A token holds no line break. |
| `Http.RequestLineOf` | src/server.cpp:99-101 | The method and the path are the first two white-space-separated tokens of the first line. |
| `Http.ParseRequestOf` | src/server.cpp:93-136 | Once the first line, the head and the body are known, the parse is determined. |
| `Http.MessageSplit` | src/server.cpp:93-113 | A message seen line by line. |
| `Http.MessageFirstLine` | src/server.cpp:99 | `getline` returns a message's start line with its CR. |
| `Http.MessageHead` | src/server.cpp:104-113 | The header loop reads a message's fields and stops where its body starts. |
| `Http.MessageLines` | src/server.cpp:104-113 | The field lines of a message follow its start line. |
| `Http.MessageStartLine` | src/server.cpp:99-101 | A start line `method path version` yields the method and the path. |
| `Http.ParseMessage` | src/server.cpp:93-136 | Parsing a serialised request gives its method, its path, its fields with the last of each name winning, and the body read by the Content-Length rule. |
| `Http.MessageLengths` | src/server.cpp:115-128 | The body starts after the start line and inside the message. |
| `Http.ReadBodyRest` | src/server.cpp:127-128 | The body is the rest of the stream when the declared length matches it. |
| `Http.MessageBody` | src/server.cpp:115-133 | A serialised body is read back whole when its declared length is its length. It is empty when no length is declared. |
| `Http.RequestRoundTrip` | src/server.cpp:93-136 | A request serialised with a matching Content-Length, or with neither a length nor a body, parses back to its method, path, headers and body (sections 2.1 and 6.3 of RFC 9112). |
| `Http.UndeclaredBodyDropped` | src/server.cpp:115-133 | Without an accepted Content-Length the body is dropped, whatever follows the head. |
| `Http.LowerCaseField` | src/server.cpp:111-118 | A lower-case "content-length" field is stored under that spelling and is not a declared length. |
| `Http.LowerCaseContentLengthIgnored` | src/server.cpp:118 | A body framed by "content-length" is dropped, although section 5.1 of RFC 9110 makes field names case-insensitive. |
| `Http.NoLineBreakConcat` | src/server.cpp:73 | Joining two strings without a line break gives a string without one. |
| `Http.CspOneLine` | src/server.cpp:73 | The Content-Security-Policy value is one line. |
| `Http.SecurityNames` | src/server.cpp:70-73 | The security field names serialise to one line. |
| `Http.CorsNames` | src/server.cpp:74-79 | The Referrer-Policy and CORS field names serialise to one line. |
| `Http.FixedValues` | src/server.cpp:70-79 | The fixed field values are one line each. |
| `Http.FixedFieldsWellFormed` | src/server.cpp:70-79 | Every fixed field parses back. |
| `Http.FixedFieldsOtherNames` | src/server.cpp:70-79 | No fixed field is named Content-Type or Content-Length. |
| `Http.ResponseFieldsWellFormed` | src/server.cpp:66-79 | A response's fields are well formed when its content type is, and only its own Content-Type and Content-Length carry those names. |
| `Http.ResponseHeaders` | src/server.cpp:66-67 | A response's header map gives the content type and the decimal body length. |
| `Http.ResponseLeadingFields` | src/server.cpp:66-79 | The two leading fields keep their values after the fixed ones. |
| `Http.LeadingFields` | src/server.cpp:111 | Two fields ahead of fields with other names keep their values in the map. |
| `Http.DeclaredLengthOf` | src/server.cpp:118-127 | A decimal Content-Length within 30 MiB is accepted as is. |
| `Http.StatusLineTokens` | src/server.cpp:65 | The version and the code are tokens of the status line. |
| `Http.ReasonPhraseOneLine` | src/server.cpp:37-60 | No reason phrase holds a line break. |
| `Http.SuccessRedirectPhrasesOneLine` | src/server.cpp:39-45 | The 2xx and 3xx phrases hold no line break. |
| `Http.ClientErrorPhrasesOneLine` | src/server.cpp:46-49 | The first 4xx phrases hold no line break. |
| `Http.MoreClientErrorPhrasesOneLine` | src/server.cpp:50-53 | The other 4xx phrases hold no line break. |
| `Http.ServerErrorPhrasesOneLine` | src/server.cpp:54-58 | The 5xx phrases and "Unknown" hold no line break. |
| `Http.ResponseRoundTrip` | src/server.cpp:63-136 | The parser reads a response back as a message whose tokens are the version and the code, with every field and the whole body. |
| `Http.ColonAtEndCrashes` | src/server.cpp:104-109 | A header line whose only ':' is its last character makes the parse end in an uncaught exception, whatever surrounds it. |
| `Http.HeadEnd` | src/server.cpp:525 | `find("\r\n\r\n")` gives the first blank line of the buffer. |
| `Http.HeadEndExtends` | src/server.cpp:510-525 | A head found in a prefix is still there, at the same place, once more bytes arrive. |
| `Http.Received` | src/server.cpp:510 | A read returns nothing exactly at the end of the stream, on an error, or when it has no room. Otherwise it returns no more than the room asked for and the bytes the peer still has to send. |
| `Http.Grow` | src/server.cpp:576-582 | The buffer doubles once the head comes within 1024 bytes of its end, never shrinks and never exceeds 30 MiB. |
| `Http.Finish` | src/server.cpp:585-604 | After the loops, there is no request exactly when nothing was received, and the 400 reply is never given there. |
| `Http.BodyLoop` | src/server.cpp:548-563 | The body loop only adds bytes the peer sent, stays below the buffer size and uses no more reads than there are. |
| `Http.AtHead` | src/server.cpp:525-572 | The step that finds the head keeps the buffer, remembers where the head was found and never reads past what was sent. |
| `Http.HeadLoop` | src/server.cpp:510-583 | The head loop only adds bytes the peer sent, keeps the buffer between its start size and 30 MiB, and a head found lies after what was held before. |
| `Http.ReadBodyBytes` | src/server.cpp:548-563 | The body loop computes `BodyLoop`. It stops only once the declared body is in, the reads run out, or a read returns nothing. |
| `Http.HeadLoopFound` | src/server.cpp:510-526 | A read that completes the head ends the head loop there. |
| `Http.HeadLoopGrows` | src/server.cpp:510-582 | A read that leaves the head incomplete grows the buffer as `Grow` says and the loop goes on. |
| `Http.HeadArrived` | src/server.cpp:525-572 | Handling a found head computes `AtHead`: an early reply, or the bytes held once the body loop ends. |
| `Http.HandleClient` | src/server.cpp:493-604 | The connection handler computes `Frame`: the outcome, the bytes held, the buffer size, where the head was found and the reads used. |
| `Http.BodyLoopStops` | src/server.cpp:548-563 | The body loop stops only with the declared body in, the reads run out, or a read that returned nothing. It reads nothing once the body is in. |
| `Http.BodyLoopEnds` | src/server.cpp:548-563 | The same stop reasons, stated as reads that have ended. |
| `Http.BodyLoopFills` | src/server.cpp:548-563 | With a peer that has enough to send, a body that does not fit is read until the buffer holds one byte less than its size. |
| `Http.AtHeadOutcome` | src/server.cpp:525-572 | After the head: 400 exactly when the head is a POST with a refused Content-Length; otherwise the parse, or the exception, of the bytes held. Only an accepted POST reads more. |
| `Http.AtHeadStops` | src/server.cpp:544-563 | After the head of an accepted POST, reading stops only once the declared body is in or the reads have ended. |
| `Http.HeadLoopEnds` | src/server.cpp:510-526 | The head loop ends with the first blank line of the bytes held, or without one only when the reads have ended. |
| `Http.HeadLoopRoom` | src/server.cpp:576-582 | While the head is incomplete, the buffer keeps more than 1024 bytes of room or has reached 30 MiB. |
| `Http.FirstReadEmpty` | src/server.cpp:510 | Nothing is received exactly when the first read returns nothing. |
| `Http.FrameOutcome` | src/server.cpp:493-604 | The bytes received are a prefix of what was sent, below the buffer size, and the buffer stays between 64 KiB and 30 MiB. There is no request exactly when the first read returns nothing. 400 comes exactly from a head that is a POST with a refused Content-Length. The server is terminated exactly when the parser throws. Otherwise the parse of the bytes received is dispatched. Only an accepted POST reads past the head. |
| `Http.FrameStops` | src/server.cpp:510-583 | Reading stops only for a reason. Without a head, the reads have ended. With a head that is not an accepted POST, nothing more is read. After an accepted POST's head, the declared body is in or the reads have ended. |
| `Http.LineEndAgrees` | src/server.cpp:99-104 | Two streams that agree up to a line break end that line at the same place. |
| `Http.BlankLineChars` | src/server.cpp:525 | A blank line is CR, LF, CR, LF. |
| `Http.LineBeforeBlank` | src/server.cpp:99-104 | A line that starts before the blank line ends within it, and the one that starts inside it is a lone CR. |
| `Http.GetLineAgrees` | src/server.cpp:99-104 | `getline` returns the same line from two streams that share the head, and a lone CR at the blank line. |
| `Http.ScanHeadersPrefix` | src/server.cpp:104-113 | The header loop reads the same fields and stops at the same place in two streams that share the head. |
| `Http.ParsePrefix` | src/server.cpp:93-136 | More bytes after the head change neither the head's parse nor whether it throws. They change only the body. |
| `Http.PrefixParsed` | src/server.cpp:528-587 | The request parsed from the whole buffer has the method, path and headers parsed from the head alone. |
| `Http.FinishLater` | src/server.cpp:585-587 | The request dispatched after more bytes arrive is the head's request with the body of the bytes held. |
| `Http.AtHeadBody` | src/server.cpp:531-563 | An accepted POST's head is followed by the body loop and then the final parse. |
| `Http.LargeBodyFrame` | src/server.cpp:505-563 | A POST whose head arrives in the first read leaves the buffer at 64 KiB and goes to the body loop. |
| `Http.CutBody` | src/server.cpp:127-128 | A body cut short by the bytes held is what they hold, padded with NUL to the declared length. |
| `Http.LargeBodyCut` | src/server.cpp:505-587 | A POST whose head arrives in one read and whose declared body does not fit 64 KiB is cut at 65535 bytes. The rest of its declared length is NUL padding. |
| `Http.WholeRequestInOneRead` | src/server.cpp:505-587 | A request that arrives whole in one read is dispatched as its own parse. |
| `Http.LimitBodyPadded` | src/server.cpp:127-128 | Since the read loop never holds 30 MiB, a body declared at the 30 MiB limit ends in NUL padding. |
| `Http.Route` | src/server.cpp:591-601 | OPTIONS goes to the preflight reply, POST /query to the query handler, GET /status to the status handler, any other GET to static files, and everything else to 404. |
| `Http.FixedReply` | src/server.cpp:591-601 | Dispatch builds the reply itself exactly for the preflight and the 404. |
| `Http.PreflightReply` | src/server.cpp:591-592 | The preflight reply is a 200 with an empty body and a Content-Length of 0. |
| `Sessions.WholeUnits` | src/server.cpp:169 | `duration_cast` truncates toward zero, for positive and for negative durations. |
| `Sessions.MoreThanWholeUnits` | src/server.cpp:169 | More than k whole units have passed exactly when at least k+1 full units have. |
| `Sessions.StaleIff` | src/server.cpp:166-172 | The limiter forgets a timestamp exactly when it is at least 61 seconds old. |
| `Sessions.Recent` | src/server.cpp:166-172 | `remove_if` never keeps more timestamps than it had. |
| `Sessions.RecentMembers` | src/server.cpp:166-172 | The kept timestamps are exactly those that are not stale. |
| `Sessions.RecentAppend` | src/server.cpp:166-172 | `remove_if` keeps the order of what it keeps. |
| `Sessions.Admit` | src/server.cpp:160-182 | A request is admitted exactly when fewer than 60 recent timestamps remain. The list becomes the recent timestamps, plus `now` if the request was admitted. |
| `Sessions.AdmitBounded` | src/server.cpp:175-181 | A list of at most 60 stays at most 60, and a list of fewer than 60 always admits. |
| `Sessions.AdmitRejectsFullWindow` | src/server.cpp:175-177 | A 61st request inside one window is refused, and nothing is recorded. |
| `Sessions.RecentAllKept` | src/server.cpp:166-172 | When nothing is stale, nothing is removed. |
| `Sessions.ConnectionTracker.constructor` | src/server.cpp:153-158 | A new tracker knows no address. |
| `Sessions.ConnectionTracker.ShouldAllowConnection` | src/server.cpp:160-182 | The decision and the new list are those of `Admit`. The entry for the address always exists afterwards, and other addresses are untouched. |
| `Sessions.Appended` | src/server.cpp:445-457 | The question and the answer are appended, and the two oldest messages are dropped once there are more than 20. A history of at most 20 stays at most 20, newest last. |
| `Sessions.ExpiredIff` | src/server.cpp:403-411 | A conversation is swept exactly when it has been idle for two full hours. |
| `Sessions.Swept` | src/server.cpp:403-411 | The sweep keeps exactly the conversations that have not expired, unchanged. |
| `Sessions.FreshEntrySwept` | src/server.cpp:397-411 | The entry created for an unknown conversation carries the epoch, so the sweep right after it removes it again. |
| `Sessions.BoundedPreserved` | src/server.cpp:403-457 | Recording an exchange and sweeping both keep every history at 20 messages or fewer. |
| `Sessions.ConversationStore.constructor` | src/server.cpp:149 | The store starts empty. |
| `Sessions.ConversationStore.History` | src/server.cpp:397-401 | Returns the conversation's messages and creates an empty, epoch-stamped entry when there is none. |
| `Sessions.ConversationStore.Sweep` | src/server.cpp:403-411 | The erase loop leaves `Swept` of the old map. |
| `Sessions.ConversationStore.Record` | src/server.cpp:445-457 | The exchange is appended, the activity time set, and the history capped, for that conversation only. |
| `Sessions.Snippet` | src/server.cpp:387 | A snippet is the first min(\|text\|, 200) characters followed by "...". |
| `Sessions.Citations` | src/server.cpp:375-394 | There are never more citations than results. |
| `Sessions.CitationsDistinct` | src/server.cpp:383-391 | No file is cited twice. |
| `Sessions.CitationsComplete` | src/server.cpp:375-394 | Every citation comes from a result with an in-range row, and every such result has its file cited. |
| `Sessions.SelectMatches` | src/server.cpp:295-394 | There are no citations without documents or without context. Otherwise the citations are those of the first three results, so at most three. |
| `IngestPy.RFind` | ingest.py:25 | A position found by `rfind(sep, lo, hi)` is at or after `lo`, and `sep` occurs there, ending by `hi`. |
| `IngestPy.RFindLast` | ingest.py:25 | Whenever `sep` occurs in range, `rfind` finds an occurrence, and none lies after the one it finds. |
| `IngestPy.FirstBreak` | ingest.py:24-28 | A break found lies in (lo, hi]. |
| `IngestPy.FirstBreakIsFirst` | ingest.py:24-28 | The break used is that of the first separator, in list order, that occurs in range. When none occurs there is no break. |
| `IngestPy.WindowEnd` | ingest.py:19-28 | A window ends within its last 100 characters. |
| `IngestPy.SpansShape` | ingest.py:17-31 | The spans are non-empty contiguous slices of at most 500 characters. Consecutive starts advance by at least 351. There are spans exactly when the text is not exhausted, the first starting at `start` and the last reaching the end. |
| `IngestPy.SlicesOfAll` | ingest.py:30 | Chunks that are the slices of all spans are `split_text`'s chunks. |
| `IngestPy.SplitText` | ingest.py:11-33 | The while loop returns exactly `Chunks(text)`. |
| `IngestPy.SplitStep` | ingest.py:19-31 | One turn keeps the loop invariant and moves `start` forward. |
| `IngestPy.SpansFromStep` | ingest.py:19-31 | One step of the span generation. |
| `IngestPy.Window` | ingest.py:19-28 | The separator search computes `WindowEnd`. |
| `IngestPy.SeparatorsNonEmpty` | ingest.py:24 | No separator is empty. |
| `IngestPy.SeekBreak` | ingest.py:24-28 | The `for sep in separators` loop with its `break` computes `FirstBreak`. |
| `IngestPy.FirstBreakStep` | ingest.py:25-28 | Trying one separator either ends the search or passes to the next one. |
| `IngestPy.SkipFile` | ingest.py:50-51 | The skip loop returns exactly `Skipped`: a leading '.' or one of the four suffixes. |
| `IngestPy.Strip` | ingest.py:80 | `str.strip()` never lengthens. |
| `IngestPy.StripIsSlice` | ingest.py:80 | A stripped string is a slice with only whitespace cut from either end and none left at its ends. |
| `IngestPy.StrippedAtFront` | ingest.py:80 | Whitespace in front of a stripped slice is cut. |
| `IngestPy.StrippedAtBack` | ingest.py:80 | Whitespace behind a stripped slice is cut. |
| `IngestPy.StripIdempotent` | ingest.py:80 | Stripping twice is stripping once. |
| `IngestPy.KeptChunks` | ingest.py:79-83 | The filter never keeps more chunks than it is given. |
| `IngestPy.KeptChunksSound` | ingest.py:79-83 | A kept chunk is longer than 100 characters and is the stripped form of some chunk. |
| `IngestPy.KeptChunksComplete` | ingest.py:79-83 | Every chunk whose stripped form is longer than 100 characters is kept. |
| `IngestPy.KeptChunksAll` | ingest.py:79-83 | When every chunk is long enough, all of them are kept, stripped, in order. |
| `IngestPy.Labelled` | ingest.py:83 | There is one document per kept text. |
| `IngestPy.LabelledAt` | ingest.py:83 | The i-th document carries the file's path and the i-th text. |
| `IngestPy.KeepFileChunks` | ingest.py:79-83 | The loop extends `texts` by the kept chunks and `docs` by their documents, in lockstep. |
| `IngestPy.KeepStep` | ingest.py:81-83 | A kept chunk extends both lists. |
| `IngestPy.KeptStep` | ingest.py:80-81 | One more chunk is kept exactly when its stripped form is longer than 100 characters. |
| `IngestPy.LabelledStep` | ingest.py:83 | Labelling one more text appends its document. |
| `PgStore.EscapeString` | src/pg_vector_store.h:44-51 | The character loop computes `Escape`: each quote doubled and every other character copied, in order. |
| `PgStore.EscapeAppend` | src/pg_vector_store.h:46-49 | Escaping distributes over concatenation. |
| `PgStore.EscapeLength` | src/pg_vector_store.h:44-51 | The output length is the input length plus the number of quotes. |
| `PgStore.UnescapeEscape` | src/pg_vector_store.h:44-51 | Collapsing each doubled quote of the output gives the input back. |
| `PgStore.EscapePaired` | src/pg_vector_store.h:44-51 | No quote of the output stands alone. |
| `PgStore.EscapeUnescape` | src/pg_vector_store.h:44-51 | Every string without a lone quote is the escaping of exactly one string. |
| `PgStore.ReadEscaped` | src/pg_vector_store.h:44-51 | An escaped value followed by a quote reads back, as an SQL literal, as exactly that value. |
| `PgStore.AddDocument` | src/pg_vector_store.h:105-110 | The statement built is `InsertStatement`. |
| `PgStore.StatementValues` | src/pg_vector_store.h:105-110 | Reading the statement as SQL gives back the filename and the text exactly: no quote inside either value ends its literal early. |

## Left out

- Model inference (src/llm.h, src/embeddings.h, server.cpp:253-439) is foreign code. Embedding is a function parameter that may fail, and generated answers are strings passed in.
- Tika/CURL extraction and its readiness polling are network I/O. Extracted text is a parameter, where "" stands for failure.
- Sockets, `accept`, thread spawning and `setsockopt` timeouts are left out. The read loop works over the bytes the peer sends and the value each `read` returns. The 30-second timeout appears only as a read that returns nothing.
- Locking and data races are left out, because the model is sequential:
  - `handle_status` reloads the index (src/server.cpp:482) while `handle_query` reads it without a lock;
  - the older `save_index` locks `index_mutex` again while its caller holds it (server.cpp:492, 590-594).
  `LegacyIngestion.NeverAddsRows` shows that this second lock is never reached.
- Floating point is left out. Components and distances are integers, so IEEE rounding, the `1 - dist/100` score (src/server.cpp:388) and `vector_to_string` (src/pg_vector_store.h:53-62) are not modelled. `PgStore.AddDocument` takes the vector's text as a parameter.
- JSON (de)serialisation of requests, responses and metadata.jsonl is opaque, and so are the query and status handlers built on it. This covers `handle_query`'s prompt assembly and `handle_status`. The model keeps their decisions: match selection, history update and sweep, and the document count.
- The newer `serve_static_file` (src/server.cpp:209-269) is not part of this model. It depends on `fs::canonical`. Directory iteration and file existence are parameters: entries in a list, files in a map.
- The getenv readers of src/config.h are left out, because only its constants are used.
- PGVectorStore's `send_query`, `search`, `size` and `file_exists` are placeholders with no behaviour.
- The older server's `parse_http_request` and read loop (server.cpp:220-250, 737-776), its `handle_status` and its `IngestionStatus` counters are not part of this model. Its dispatch chain is the one `Http.Route` states.
- The older thread's checkpoint loading (server.cpp:508-517) is not modelled. `LegacyIngestion.Cycle` takes the processed set as a parameter.
- `ConnectionTracker`'s unused MAX_CONNECTIONS_PER_IP has no effect and is not modelled. Entries in the rate-limit map are never deleted, and `ShouldAllowConnection` states this.
- LegacyIngestion.SplitText: the older chunker cannot terminate on any text of 50 or more characters. The loop is therefore cut off after `fuel` turns and reports whether its guard failed. `LongTextNeverEnds` and `TailRepeatsForever` state what happens beyond any bound.
- LegacyIngestion.Cycle: the same fuel bound applies. A text the chunker cannot finish ends the cycle as `Hung`.
- VectorIndex.SimpleVectorIndex.Search requires `k != 0` on an index with rows, because `top()` of an empty `priority_queue` is undefined behaviour there. An index whose row count is zero or less, as `load` can leave it, reaches no `top()` and returns an empty list for every k and query.
- TextUtils.SplitText models the `size_t` wrap of `end - 200` but not wrap-around of `chunks.size() * 200` and `chunks.size() * 1800`. These stay far below 2^64 for any string `std::string` can hold.
- Ingestion.Ingestor.SaveIndex, SaveMetadata and SaveCheckpoint model one failure, a missing `data` directory. A write into an existing directory always succeeds. A full disk or a permission error is not modelled.
- LegacyServer.RowIndex.Save requires a non-negative dimension when there are rows. Otherwise each row's byte count `dimension * sizeof(float)` becomes a negative stream size, whose effect the C++ standard does not pin down. A loaded negative dimension comes with no rows, because `std::vector<float>(dimension)` throws first, and `LegacyIngestion.NeverAddsRows` shows that rows are never added.
- LegacyServer.Load and LegacyServer.RowIndex.LoadFile require the file, when it exists, to hold at least the row count. For an empty file, the local `n` is never written, and reading it is undefined behaviour.
- VectorIndex.SimpleVectorIndex.Load requires the header product `count * dimension` to fit an `int`. The source computes it in `int` arithmetic, and an overflow there is undefined behaviour.
- Http.HandleClient does not model the two 413 replies. They are unreachable, and the method's proof asserts this.
