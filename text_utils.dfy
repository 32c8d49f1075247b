/** The chunker of the C++ ingestion service: `string_ends_with` and the
    guarded `split_text` (src/text_utils.h), with CHUNK_SIZE = 2000 and
    CHUNK_OVERLAP = 200 (src/config.h). Offsets are `size_t`, so the
    subtraction `end - CHUNK_OVERLAP` wraps modulo 2^64. */
module TextUtils {
  import opened Common

  const CHUNK_SIZE: nat := 2000
  const CHUNK_OVERLAP: nat := 200
  /** A sentence break is only taken if it lies after `start + CHUNK_SIZE - 100`. */
  const SENTENCE_LOOKBACK: nat := 100

  /** `string_ends_with(str, suffix)`. */
  function StringEndsWith(str: string, suffix: string): bool
  {
    if |suffix| > |str| then false
    else str[|str| - |suffix|..] == suffix
  }

  /** `string_ends_with` agrees with the textbook notion of a suffix. */
  lemma EndsWithIffSuffix(str: string, suffix: string)
    ensures StringEndsWith(str, suffix) <==> exists p: string :: p + suffix == str
    ensures |suffix| > |str| ==> !StringEndsWith(str, suffix)
  {
    if StringEndsWith(str, suffix) {
      var p := str[..|str| - |suffix|];
      assert p + suffix == str;
    }
    if exists p: string :: p + suffix == str {
      var p: string :| p + suffix == str;
      assert str[|str| - |suffix|..] == suffix;
    }
  }

  /** ". " starts at position `p` of `text`. */
  predicate IsSentenceBreakAt(text: string, p: nat) {
    p + 1 < |text| && text[p] == '.' && text[p + 1] == ' '
  }

  /** `text.rfind(". ", pos)`: the last ". " starting at or before `pos`. */
  function LastSentenceBreak(text: string, pos: nat): (r: Option<nat>)
    ensures r.Some? ==> r.value <= pos && IsSentenceBreakAt(text, r.value)
    decreases pos
  {
    if IsSentenceBreakAt(text, pos) then Some(pos)
    else if pos == 0 then None
    else LastSentenceBreak(text, pos - 1)
  }

  /** No ". " at or before `pos` lies after the one found, and one is found
      whenever there is any. */
  lemma {:induction false} LastSentenceBreakIsLast(text: string, pos: nat, q: nat)
    requires q <= pos && IsSentenceBreakAt(text, q)
    ensures LastSentenceBreak(text, pos).Some? && q <= LastSentenceBreak(text, pos).value
    decreases pos
  {
    if !IsSentenceBreakAt(text, pos) && pos > 0 {
      if q < pos {
        LastSentenceBreakIsLast(text, pos - 1, q);
      }
    }
  }

  /** Where the chunk that starts at `start` ends (src/text_utils.h:131-139). */
  function ChunkEnd(text: string, start: nat): nat
    requires start < |text|
  {
    var end := Min(start + CHUNK_SIZE, |text|);
    if end < |text| then
      match LastSentenceBreak(text, end)
      case Some(period) =>
        if period > start + CHUNK_SIZE - SENTENCE_LOOKBACK then period + 2 else end
      case None => end
    else end
  }

  lemma ChunkEndBounds(text: string, start: nat)
    requires start < |text|
    ensures start < ChunkEnd(text, start) <= |text|
  {
  }

  /** Shape of every chunk end: past the start, inside the text, at most
      CHUNK_SIZE + 2 characters away, and either the fixed cut or just after
      the last ". " in the look-back window. */
  lemma ChunkEndShape(text: string, start: nat)
    requires start < |text|
    ensures start < ChunkEnd(text, start) <= |text|
    ensures ChunkEnd(text, start) <= start + CHUNK_SIZE + 2
    ensures start + CHUNK_SIZE >= |text| ==> ChunkEnd(text, start) == |text|
    ensures start + CHUNK_SIZE < |text| ==>
      var end := ChunkEnd(text, start);
      if exists q: nat :: start + CHUNK_SIZE - SENTENCE_LOOKBACK < q <= start + CHUNK_SIZE && IsSentenceBreakAt(text, q)
      then
        && 2 <= end
        && IsSentenceBreakAt(text, end - 2)
        && start + CHUNK_SIZE - SENTENCE_LOOKBACK < end - 2 <= start + CHUNK_SIZE
        && forall q: nat :: end - 2 < q <= start + CHUNK_SIZE ==> !IsSentenceBreakAt(text, q)
      else end == start + CHUNK_SIZE
  {
    if start + CHUNK_SIZE < |text| {
      var r := LastSentenceBreak(text, start + CHUNK_SIZE);
      if exists q: nat :: start + CHUNK_SIZE - SENTENCE_LOOKBACK < q <= start + CHUNK_SIZE && IsSentenceBreakAt(text, q) {
        var q: nat :| start + CHUNK_SIZE - SENTENCE_LOOKBACK < q <= start + CHUNK_SIZE && IsSentenceBreakAt(text, q);
        LastSentenceBreakIsLast(text, start + CHUNK_SIZE, q);
        var end := ChunkEnd(text, start);
        forall q': nat | end - 2 < q' <= start + CHUNK_SIZE
          ensures !IsSentenceBreakAt(text, q')
        {
          if IsSentenceBreakAt(text, q') {
            LastSentenceBreakIsLast(text, start + CHUNK_SIZE, q');
          }
        }
      }
    }
  }

  /** `start = end - CHUNK_OVERLAP` in `size_t`, then the guard of
      src/text_utils.h:145-147; `count` is `chunks.size()` after the push. */
  function NextStart(end: nat, count: nat): nat
  {
    var wrapped := if end >= CHUNK_OVERLAP then end - CHUNK_OVERLAP
                   else end + SIZE_T_MODULUS - CHUNK_OVERLAP;
    if wrapped <= count * CHUNK_OVERLAP then count * (CHUNK_SIZE - CHUNK_OVERLAP) else wrapped
  }

  /** A chunk as the half-open range `text[lo, hi)`. */
  datatype Span = Span(lo: nat, hi: nat)

  /** The chunks generated from `start` on, when `count` chunks already exist.
      Every start reached satisfies `start >= count * CHUNK_OVERLAP`, which
      bounds the number of chunks: this is why the guarded loop terminates. */
  function SpansFrom(text: string, start: nat, count: nat): seq<Span>
    requires CHUNK_OVERLAP * count <= start
    decreases |text| - CHUNK_OVERLAP * count
  {
    if start >= |text| then []
    else
      var end := ChunkEnd(text, start);
      [Span(start, end)] + SpansFrom(text, NextStart(end, count + 1), count + 1)
  }

  /** The chunk ranges `split_text(text)` produces, in generation order. */
  function Spans(text: string): seq<Span> {
    SpansFrom(text, 0, 0)
  }

  /** The chunk strings of `split_text(text)`. */
  function Chunks(text: string): (chunks: seq<string>)
    ensures |chunks| == |Spans(text)|
  {
    SpansWellFormed(text);
    seq(|Spans(text)|, i requires 0 <= i < |Spans(text)| => text[Spans(text)[i].lo..Spans(text)[i].hi])
  }

  /** One step of the generation: the chunk at `start`, then the rest. */
  lemma SpansFromStep(text: string, start: nat, count: nat)
    requires CHUNK_OVERLAP * count <= start < |text|
    ensures CHUNK_OVERLAP * (count + 1) <= NextStart(ChunkEnd(text, start), count + 1)
    ensures SpansFrom(text, start, count)
         == [Span(start, ChunkEnd(text, start))] + SpansFrom(text, NextStart(ChunkEnd(text, start), count + 1), count + 1)
  {
  }

  /** The end computation of one `split_text` iteration
      (src/text_utils.h:131-139). */
  method CutChunk(text: string, start: nat) returns (end: nat)
    requires start < |text|
    ensures end == ChunkEnd(text, start)
    ensures start < end <= |text|
  {
    end := if start + CHUNK_SIZE < |text| then start + CHUNK_SIZE else |text|;
    if end < |text| {
      var period := LastSentenceBreak(text, end);
      if period.Some? && period.value > start + CHUNK_SIZE - SENTENCE_LOOKBACK {
        end := period.value + 2;
      }
    }
    ChunkEndBounds(text, start);
  }

  /** `split_text` (src/text_utils.h:121-153). */
  method SplitText(text: string) returns (chunks: seq<string>)
    ensures chunks == Chunks(text)
  {
    chunks := [];
    var start: nat := 0;
    ghost var done: seq<Span> := [];
    while start < |text|
      invariant CHUNK_OVERLAP * |chunks| <= start
      invariant done + SpansFrom(text, start, |chunks|) == Spans(text)
      invariant SlicesOf(text, done, chunks)
      decreases |text| - CHUNK_OVERLAP * |chunks|
    {
      var end := CutChunk(text, start);
      ghost var next := NextStart(end, |chunks| + 1);
      done := SplitStep(text, start, end, next, |chunks|, done, chunks);
      chunks := chunks + [text[start..end]];
      start := if end >= CHUNK_OVERLAP then end - CHUNK_OVERLAP else end + SIZE_T_MODULUS - CHUNK_OVERLAP;
      if start <= |chunks| * CHUNK_OVERLAP {
        start := |chunks| * (CHUNK_SIZE - CHUNK_OVERLAP);
      }
      assert start == next;
    }
    ChunksOfSpans(text, done, chunks);
  }

  /** One iteration keeps the loop's invariants; `done'` is the spans
      generated once it is over. */
  lemma SplitStep(text: string, start: nat, end: nat, next: nat, n: nat, done: seq<Span>, chunks: seq<string>)
    returns (done': seq<Span>)
    requires CHUNK_OVERLAP * n <= start < |text| && end == ChunkEnd(text, start)
    requires next == NextStart(end, n + 1)
    requires done + SpansFrom(text, start, n) == Spans(text)
    requires SlicesOf(text, done, chunks)
    ensures start < end <= |text| && CHUNK_OVERLAP * (n + 1) <= next
    ensures done' + SpansFrom(text, next, n + 1) == Spans(text)
    ensures SlicesOf(text, done', chunks + [text[start..end]])
  {
    ChunkEndBounds(text, start);
    SpansFromStep(text, start, n);
    AppendSpan(done, Span(start, end), SpansFrom(text, next, n + 1), Spans(text));
    SlicesOfAppend(text, done, chunks, Span(start, end));
    done' := done + [Span(start, end)];
  }

  /** Moving the head of the remaining spans onto the generated ones. */
  lemma AppendSpan(done: seq<Span>, s: Span, rest: seq<Span>, all: seq<Span>)
    requires done + ([s] + rest) == all
    ensures (done + [s]) + rest == all
  {
  }

  /** `chunks[i]` is the slice of `text` that `spans[i]` names. */
  predicate SlicesOf(text: string, spans: seq<Span>, chunks: seq<string>) {
    && |spans| == |chunks|
    && forall i :: 0 <= i < |chunks| ==> spans[i].lo <= spans[i].hi <= |text| && chunks[i] == text[spans[i].lo..spans[i].hi]
  }

  lemma SlicesOfAppend(text: string, spans: seq<Span>, chunks: seq<string>, s: Span)
    requires SlicesOf(text, spans, chunks) && s.lo <= s.hi <= |text|
    ensures SlicesOf(text, spans + [s], chunks + [text[s.lo..s.hi]])
  {
  }

  lemma ChunksOfSpans(text: string, done: seq<Span>, chunks: seq<string>)
    requires done == Spans(text) && SlicesOf(text, done, chunks)
    ensures chunks == Chunks(text)
  {
  }

  lemma {:induction false} SpansFromWellFormed(text: string, start: nat, count: nat)
    requires CHUNK_OVERLAP * count <= start
    ensures forall i :: 0 <= i < |SpansFrom(text, start, count)| ==>
      var s := SpansFrom(text, start, count)[i];
      && s.lo < s.hi <= |text|
      && s.hi - s.lo <= CHUNK_SIZE + 2
      && s.lo >= CHUNK_OVERLAP * (count + i)
    ensures |SpansFrom(text, start, count)| > 0 ==> SpansFrom(text, start, count)[0].lo == start
    decreases |text| - CHUNK_OVERLAP * count
  {
    if start < |text| {
      var end := ChunkEnd(text, start);
      ChunkEndShape(text, start);
      SpansFromWellFormed(text, NextStart(end, count + 1), count + 1);
    }
  }

  /** Every chunk is a non-empty range `text[lo, hi)` inside the text, at most
      CHUNK_SIZE + 2 long (an rfind hit at `end` itself moves the end to
      `end + 2`), and the i-th chunk starts at or after offset 200 * i. */
  lemma SpansWellFormed(text: string)
    ensures forall i :: 0 <= i < |Spans(text)| ==>
      var s := Spans(text)[i];
      && s.lo < s.hi <= |text|
      && s.hi - s.lo <= CHUNK_SIZE + 2
      && s.lo >= CHUNK_OVERLAP * i
  {
    SpansFromWellFormed(text, 0, 0);
  }

  /** The number of chunks is bounded by the text length: the loop ends. */
  lemma SpanCountBound(text: string)
    ensures CHUNK_OVERLAP * |Spans(text)| <= |text| + CHUNK_OVERLAP - 1
  {
    SpansWellFormed(text);
    if |Spans(text)| > 0 {
      var last := |Spans(text)| - 1;
      assert Spans(text)[last].lo >= CHUNK_OVERLAP * last;
    }
  }

  /** `split_text("")` is empty; otherwise the first chunk starts at offset 0,
      and a text of at most CHUNK_SIZE characters yields the whole text first. */
  lemma FirstChunk(text: string)
    ensures text == [] <==> Spans(text) == []
    ensures text != [] ==> Spans(text)[0].lo == 0
    ensures 0 < |text| <= CHUNK_SIZE ==> Spans(text)[0] == Span(0, |text|)
  {
    if text != [] {
      ChunkEndShape(text, 0);
    }
  }

  /** Texts of at most 2 * CHUNK_OVERLAP characters give exactly one chunk:
      below 200 characters `end - CHUNK_OVERLAP` wraps around and ends the
      loop, from 200 to 400 the guard jumps past the end. */
  lemma ShortTextOneChunk(text: string)
    requires 0 < |text| <= 2 * CHUNK_OVERLAP
    ensures Spans(text) == [Span(0, |text|)]
  {
    ChunkEndShape(text, 0);
    var next := NextStart(|text|, 1);
    assert next >= |text|;
    assert SpansFrom(text, next, 1) == [];
  }

  lemma {:induction false} TailReemittedFrom(text: string, start: nat, count: nat)
    requires CHUNK_OVERLAP * count <= start
    requires |text| >= CHUNK_OVERLAP
    ensures forall i :: 0 <= i < |SpansFrom(text, start, count)| - 1 && SpansFrom(text, start, count)[i].hi == |text| ==>
      SpansFrom(text, start, count)[i + 1] == Span(|text| - CHUNK_OVERLAP, |text|)
    decreases |text| - CHUNK_OVERLAP * count
  {
    if start < |text| {
      var end := ChunkEnd(text, start);
      ChunkEndShape(text, start);
      var next := NextStart(end, count + 1);
      TailReemittedFrom(text, next, count + 1);
      if end == |text| && next < |text| {
        assert next == |text| - CHUNK_OVERLAP;
        ChunkEndShape(text, next);
      }
    }
  }

  /** Once a chunk reaches the end of the text, every following chunk is
      again the last 200 characters: `start` is reset to |text| - 200 until
      the guard fires. Chunks are therefore NOT free of duplicates. */
  lemma TailReemitted(text: string)
    requires |text| >= CHUNK_OVERLAP
    ensures forall i :: 0 <= i < |Spans(text)| - 1 && Spans(text)[i].hi == |text| ==>
      Spans(text)[i + 1] == Span(|text| - CHUNK_OVERLAP, |text|)
  {
    TailReemittedFrom(text, 0, 0);
  }

  /** A 1000-character text yields the whole text and then three copies of
      its last 200 characters. */
  lemma ThousandCharacters(text: string)
    requires |text| == 1000
    ensures Spans(text) == [Span(0, 1000), Span(800, 1000), Span(800, 1000), Span(800, 1000)]
  {
    ChunkEndShape(text, 0);
    ChunkEndShape(text, 800);
    assert NextStart(1000, 1) == 800;
    assert NextStart(1000, 2) == 800;
    assert NextStart(1000, 3) == 800;
    assert NextStart(1000, 4) == 7200;
    assert SpansFrom(text, 7200, 4) == [];
    assert SpansFrom(text, 800, 3) == [Span(800, 1000)];
    assert SpansFrom(text, 800, 2) == [Span(800, 1000), Span(800, 1000)];
    assert SpansFrom(text, 800, 1) == [Span(800, 1000), Span(800, 1000), Span(800, 1000)];
  }
}
