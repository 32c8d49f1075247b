/** The offline ingestion script (ingest.py): its separator-seeking
    chunker, the file-skip predicate and the chunk filter of its walk. */
module IngestPy {
  import opened Common
  import TextUtils

  /** The defaults of `split_text`, the only values the script uses. */
  const CHUNK_SIZE: nat := 500
  const CHUNK_OVERLAP: nat := 50
  /** How far back from the window's end a separator is sought. */
  const LOOKBACK: nat := 100
  /** Separators in order of preference. */
  const SEPARATORS: seq<string> := [". ", "! ", "? ", "\n\n", "\n", " "]
  /** Stripped chunks of at most this many characters are dropped. */
  const MIN_CHUNK_LENGTH: nat := 100

  /** `sep` occurs at `p` and fits before `hi`. */
  predicate OccursAt(text: string, sep: string, p: nat, hi: nat) {
    p + |sep| <= hi <= |text| && text[p..p + |sep|] == sep
  }

  /** `text.rfind(sep, lo, hi)`: the last occurrence of `sep` starting at
      or after `lo` and ending at or before `hi`. */
  function RFind(text: string, sep: string, lo: nat, hi: nat): (r: Option<nat>)
    requires hi <= |text|
    ensures r.Some? ==> lo <= r.value && OccursAt(text, sep, r.value, hi)
    decreases hi
  {
    if hi < lo + |sep| then None
    else if text[hi - |sep|..hi] == sep then Some(hi - |sep|)
    else RFind(text, sep, lo, hi - 1)
  }

  /** No occurrence in range is later than the one `RFind` gives, and
      there is none when it gives none. */
  lemma {:induction false} RFindLast(text: string, sep: string, lo: nat, hi: nat, p: nat)
    requires hi <= |text| && lo <= p && OccursAt(text, sep, p, hi)
    ensures RFind(text, sep, lo, hi).Some? && p <= RFind(text, sep, lo, hi).value
    decreases hi
  {
    if hi >= lo + |sep| && text[hi - |sep|..hi] != sep {
      RFindLast(text, sep, lo, hi - 1, p);
    }
  }

  /** The end just after the first separator of `seps` found in
      `[lo, hi)`. */
  function FirstBreak(text: string, seps: seq<string>, lo: nat, hi: nat): (r: Option<nat>)
    requires hi <= |text|
    requires forall j :: 0 <= j < |seps| ==> seps[j] != []
    ensures r.Some? ==> lo < r.value <= hi
    decreases |seps|
  {
    if seps == [] then None
    else match RFind(text, seps[0], lo, hi)
      case Some(p) => Some(p + |seps[0]|)
      case None => FirstBreak(text, seps[1..], lo, hi)
  }

  /** The separator chosen is the first of `seps`, in order, that occurs
      in the range, and the chunk ends just after its last occurrence
      there; with none occurring, there is no break. */
  lemma {:induction false} FirstBreakIsFirst(text: string, seps: seq<string>, lo: nat, hi: nat, j: nat)
    requires hi <= |text|
    requires forall i :: 0 <= i < |seps| ==> seps[i] != []
    requires j <= |seps| && forall i :: 0 <= i < j ==> RFind(text, seps[i], lo, hi).None?
    ensures j < |seps| && RFind(text, seps[j], lo, hi).Some? ==>
      FirstBreak(text, seps, lo, hi) == Some(RFind(text, seps[j], lo, hi).value + |seps[j]|)
    ensures j == |seps| ==> FirstBreak(text, seps, lo, hi).None?
    decreases j
  {
    if j > 0 {
      assert RFind(text, seps[0], lo, hi).None?;
      FirstBreakIsFirst(text, seps[1..], lo, hi, j - 1);
    }
  }

  /** Where the window starting at `start` ends; it may lie past the end
      of the text, which slicing then clamps. */
  function WindowEnd(text: string, start: nat): (end: nat)
    ensures start + CHUNK_SIZE - LOOKBACK < end <= start + CHUNK_SIZE
  {
    var end := start + CHUNK_SIZE;
    if end < |text| then
      match FirstBreak(text, SEPARATORS, start + CHUNK_SIZE - LOOKBACK, end)
      case Some(b) => b
      case None => end
    else end
  }

  type Span = TextUtils.Span

  /** The chunks from offset `start` on. */
  function SpansFrom(text: string, start: nat): seq<Span>
    decreases |text| - start
  {
    if start >= |text| then []
    else
      var end := WindowEnd(text, start);
      [TextUtils.Span(start, Min(end, |text|))] + SpansFrom(text, end - CHUNK_OVERLAP)
  }

  function Pieces(text: string, spans: seq<Span>): seq<string>
    requires forall k :: 0 <= k < |spans| ==> spans[k].lo <= spans[k].hi <= |text|
  {
    seq(|spans|, k requires 0 <= k < |spans| => text[spans[k].lo..spans[k].hi])
  }

  /** Every span is a non-empty slice of at most CHUNK_SIZE characters,
      the first starts at `start`, the last ends at the end of the text,
      and each start lies more than CHUNK_SIZE - LOOKBACK - CHUNK_OVERLAP
      past the one before. */
  lemma {:induction false} SpansShape(text: string, start: nat)
    ensures forall k :: 0 <= k < |SpansFrom(text, start)| ==>
      start <= SpansFrom(text, start)[k].lo < SpansFrom(text, start)[k].hi <= |text|
      && SpansFrom(text, start)[k].hi - SpansFrom(text, start)[k].lo <= CHUNK_SIZE
    ensures forall k :: 0 <= k < |SpansFrom(text, start)| - 1 ==>
      SpansFrom(text, start)[k + 1].lo > SpansFrom(text, start)[k].lo + CHUNK_SIZE - LOOKBACK - CHUNK_OVERLAP
    ensures start < |text| <==> |SpansFrom(text, start)| > 0
    ensures |SpansFrom(text, start)| > 0 ==>
      SpansFrom(text, start)[0].lo == start && SpansFrom(text, start)[|SpansFrom(text, start)| - 1].hi == |text|
    decreases |text| - start
  {
    if start < |text| {
      var next := WindowEnd(text, start) - CHUNK_OVERLAP;
      var head := TextUtils.Span(start, Min(WindowEnd(text, start), |text|));
      var rest := SpansFrom(text, next);
      SpansShape(text, next);
      SpansFromStep(text, start);
      assert SpansFrom(text, start) == [head] + rest;
      forall k | 1 <= k < |rest| + 1
        ensures SpansFrom(text, start)[k] == rest[k - 1]
      {
      }
    }
  }

  /** The chunks of `split_text`. */
  function Chunks(text: string): seq<string> {
    SpansShape(text, 0);
    Pieces(text, SpansFrom(text, 0))
  }

  lemma SlicesOfAll(text: string, chunks: seq<string>)
    requires TextUtils.SlicesOf(text, SpansFrom(text, 0), chunks)
    ensures chunks == Chunks(text)
  {
    SpansShape(text, 0);
  }

  /** `split_text`: the while loop over `start`. */
  method SplitText(text: string) returns (chunks: seq<string>)
    ensures chunks == Chunks(text)
  {
    chunks := [];
    var start: nat := 0;
    ghost var done: seq<Span> := [];
    while start < |text|
      invariant done + SpansFrom(text, start) == SpansFrom(text, 0)
      invariant TextUtils.SlicesOf(text, done, chunks)
      decreases |text| - start
    {
      var end := Window(text, start);
      var hi := Min(end, |text|);
      var next := end - CHUNK_OVERLAP;
      done := SplitStep(text, start, end, hi, next, done, chunks);
      chunks := chunks + [text[start..hi]];
      start := next;
    }
    assert done == SpansFrom(text, 0);
    SlicesOfAll(text, chunks);
  }

  /** One turn of the loop keeps its invariants; `done'` is the spans
      generated once it is over. */
  lemma SplitStep(text: string, start: nat, end: nat, hi: nat, next: int, done: seq<Span>, chunks: seq<string>)
    returns (done': seq<Span>)
    requires start < |text| && end == WindowEnd(text, start)
    requires hi == Min(end, |text|) && next == end - CHUNK_OVERLAP
    requires done + SpansFrom(text, start) == SpansFrom(text, 0)
    requires TextUtils.SlicesOf(text, done, chunks)
    ensures start < hi && start < next
    ensures done' + SpansFrom(text, next) == SpansFrom(text, 0)
    ensures TextUtils.SlicesOf(text, done', chunks + [text[start..hi]])
  {
    var span := TextUtils.Span(start, hi);
    SpansFromStep(text, start);
    TextUtils.AppendSpan(done, span, SpansFrom(text, next), SpansFrom(text, 0));
    TextUtils.SlicesOfAppend(text, done, chunks, span);
    done' := done + [span];
  }

  lemma SpansFromStep(text: string, start: nat)
    requires start < |text|
    ensures SpansFrom(text, start)
         == [TextUtils.Span(start, Min(WindowEnd(text, start), |text|))] + SpansFrom(text, WindowEnd(text, start) - CHUNK_OVERLAP)
  {
  }

  /** One window: the separator search of the loop body. */
  method Window(text: string, start: nat) returns (end: nat)
    ensures end == WindowEnd(text, start)
  {
    end := start + CHUNK_SIZE;
    if end < |text| {
      SeparatorsNonEmpty();
      var b := SeekBreak(text, SEPARATORS, start + CHUNK_SIZE - LOOKBACK, end);
      if b.Some? {
        end := b.value;
      }
    }
  }

  lemma SeparatorsNonEmpty()
    ensures forall j :: 0 <= j < |SEPARATORS| ==> SEPARATORS[j] != []
  {
  }

  /** The `for sep in separators` loop: the first separator found ends
      the chunk. */
  method SeekBreak(text: string, seps: seq<string>, lo: nat, hi: nat) returns (b: Option<nat>)
    requires hi <= |text|
    requires forall j :: 0 <= j < |seps| ==> seps[j] != []
    ensures b == FirstBreak(text, seps, lo, hi)
  {
    var i := 0;
    while i < |seps|
      invariant 0 <= i <= |seps|
      invariant FirstBreak(text, seps, lo, hi) == FirstBreak(text, seps[i..], lo, hi)
    {
      var sepPos := RFind(text, seps[i], lo, hi);
      FirstBreakStep(text, seps, i, lo, hi);
      if sepPos.Some? {
        return Some(sepPos.value + |seps[i]|);
      }
      i := i + 1;
    }
    return None;
  }

  /** Trying the separator at position `i` of `seps`. */
  lemma FirstBreakStep(text: string, seps: seq<string>, i: nat, lo: nat, hi: nat)
    requires hi <= |text| && i < |seps|
    requires forall j :: 0 <= j < |seps| ==> seps[j] != []
    ensures RFind(text, seps[i], lo, hi).Some? ==>
      FirstBreak(text, seps[i..], lo, hi) == Some(RFind(text, seps[i], lo, hi).value + |seps[i]|)
    ensures RFind(text, seps[i], lo, hi).None? ==>
      FirstBreak(text, seps[i..], lo, hi) == FirstBreak(text, seps[i + 1..], lo, hi)
  {
    assert seps[i..][0] == seps[i];
    assert seps[i..][1..] == seps[i + 1..];
  }

  // ---------------------------------------------------------------------
  // The walk over the sources directory

  /** Suffixes of files the walk never reads. */
  const SKIPPED_SUFFIXES: seq<string> := [".pyc", ".faiss", ".pkl", ".jsonl"]

  /** `fname.startswith('.') or fname.endswith(SKIPPED_SUFFIXES)`. */
  predicate Skipped(fname: string) {
    (|fname| > 0 && fname[0] == '.')
    || exists j :: 0 <= j < |SKIPPED_SUFFIXES| && TextUtils.StringEndsWith(fname, SKIPPED_SUFFIXES[j])
  }

  /** The skip test of the walk, one suffix at a time. */
  method SkipFile(fname: string) returns (skip: bool)
    ensures skip <==> Skipped(fname)
    ensures skip <==> (|fname| > 0 && fname[0] == '.')
                      || (exists p: string :: p + ".pyc" == fname)
                      || (exists p: string :: p + ".faiss" == fname)
                      || (exists p: string :: p + ".pkl" == fname)
                      || (exists p: string :: p + ".jsonl" == fname)
  {
    skip := |fname| > 0 && fname[0] == '.';
    var j := 0;
    while j < |SKIPPED_SUFFIXES| && !skip
      invariant 0 <= j <= |SKIPPED_SUFFIXES|
      invariant skip <==> (|fname| > 0 && fname[0] == '.')
                          || exists i :: 0 <= i < j && TextUtils.StringEndsWith(fname, SKIPPED_SUFFIXES[i])
    {
      skip := TextUtils.StringEndsWith(fname, SKIPPED_SUFFIXES[j]);
      j := j + 1;
    }
    TextUtils.EndsWithIffSuffix(fname, ".pyc");
    TextUtils.EndsWithIffSuffix(fname, ".faiss");
    TextUtils.EndsWithIffSuffix(fname, ".pkl");
    TextUtils.EndsWithIffSuffix(fname, ".jsonl");
    assert SKIPPED_SUFFIXES == [".pyc", ".faiss", ".pkl", ".jsonl"];
    if TextUtils.StringEndsWith(fname, ".pyc") { assert TextUtils.StringEndsWith(fname, SKIPPED_SUFFIXES[0]); }
    if TextUtils.StringEndsWith(fname, ".faiss") { assert TextUtils.StringEndsWith(fname, SKIPPED_SUFFIXES[1]); }
    if TextUtils.StringEndsWith(fname, ".pkl") { assert TextUtils.StringEndsWith(fname, SKIPPED_SUFFIXES[2]); }
    if TextUtils.StringEndsWith(fname, ".jsonl") { assert TextUtils.StringEndsWith(fname, SKIPPED_SUFFIXES[3]); }
  }

  /** Characters Python's `str.strip()` removes (`str.isspace`). */
  predicate IsPyWhitespace(c: char) {
    c == ' ' || '\t' <= c <= '\r' || '\U{001c}' <= c <= '\U{001f}' || c == '\U{0085}' || c == '\U{00a0}'
    || c == '\U{1680}' || '\U{2000}' <= c <= '\U{200a}' || c == '\U{2028}' || c == '\U{2029}'
    || c == '\U{202f}' || c == '\U{205f}' || c == '\U{3000}'
  }

  /** `str.strip()`: leading and trailing whitespace cut off. */
  function Strip(s: string): (r: string)
    ensures |r| <= |s|
    decreases |s|
  {
    if s != [] && IsPyWhitespace(s[0]) then Strip(s[1..])
    else if s != [] && IsPyWhitespace(s[|s| - 1]) then Strip(s[..|s| - 1])
    else s
  }

  /** `s[lo..hi]` is what `str.strip()` leaves of `s`: a slice with no
      whitespace at either end and only whitespace outside it. */
  predicate StrippedAt(s: string, lo: nat, hi: nat) {
    && lo <= hi <= |s|
    && (lo < hi ==> !IsPyWhitespace(s[lo]) && !IsPyWhitespace(s[hi - 1]))
    && (forall i :: 0 <= i < lo ==> IsPyWhitespace(s[i]))
    && (forall i :: hi <= i < |s| ==> IsPyWhitespace(s[i]))
  }

  /** `Strip(s)` is `s` with only whitespace cut from either end, and no
      whitespace left at either end of it. */
  lemma {:induction false} StripIsSlice(s: string) returns (lo: nat, hi: nat)
    ensures StrippedAt(s, lo, hi) && Strip(s) == s[lo..hi]
    decreases |s|
  {
    if s != [] && IsPyWhitespace(s[0]) {
      var l, h := StripIsSlice(s[1..]);
      StrippedAtFront(s, l, h);
      lo, hi := l + 1, h + 1;
    } else if s != [] && IsPyWhitespace(s[|s| - 1]) {
      lo, hi := StripIsSlice(s[..|s| - 1]);
      StrippedAtBack(s, lo, hi);
    } else {
      lo, hi := 0, |s|;
    }
  }

  /** A whitespace character in front of a stripped slice. */
  lemma StrippedAtFront(s: string, lo: nat, hi: nat)
    requires s != [] && IsPyWhitespace(s[0]) && StrippedAt(s[1..], lo, hi)
    ensures StrippedAt(s, lo + 1, hi + 1) && s[1..][lo..hi] == s[lo + 1..hi + 1]
  {
    forall i | 0 < i < lo + 1 ensures IsPyWhitespace(s[i]) {
      assert s[i] == s[1..][i - 1];
    }
    forall i | hi + 1 <= i < |s| ensures IsPyWhitespace(s[i]) {
      assert s[i] == s[1..][i - 1];
    }
  }

  /** A whitespace character behind a stripped slice. */
  lemma StrippedAtBack(s: string, lo: nat, hi: nat)
    requires s != [] && IsPyWhitespace(s[|s| - 1]) && StrippedAt(s[..|s| - 1], lo, hi)
    ensures StrippedAt(s, lo, hi) && s[..|s| - 1][lo..hi] == s[lo..hi]
  {
    forall i | 0 <= i < lo ensures IsPyWhitespace(s[i]) {
      assert s[i] == s[..|s| - 1][i];
    }
    forall i | hi <= i < |s| - 1 ensures IsPyWhitespace(s[i]) {
      assert s[i] == s[..|s| - 1][i];
    }
  }

  /** Stripping twice is stripping once. */
  lemma {:induction false} StripIdempotent(s: string)
    ensures Strip(Strip(s)) == Strip(s)
    decreases |s|
  {
    if s != [] && IsPyWhitespace(s[0]) {
      StripIdempotent(s[1..]);
    } else if s != [] && IsPyWhitespace(s[|s| - 1]) {
      StripIdempotent(s[..|s| - 1]);
    }
  }

  /** The chunks the script keeps: each stripped, and only those longer
      than MIN_CHUNK_LENGTH. */
  function KeptChunks(chunks: seq<string>): (kept: seq<string>)
    ensures |kept| <= |chunks|
  {
    if chunks == [] then []
    else
      var prefix := KeptChunks(chunks[..|chunks| - 1]);
      var c := Strip(chunks[|chunks| - 1]);
      if |c| > MIN_CHUNK_LENGTH then prefix + [c] else prefix
  }

  /** A kept chunk is the stripped form of some chunk and is longer than
      MIN_CHUNK_LENGTH. */
  lemma {:induction false} KeptChunksSound(chunks: seq<string>)
    ensures forall t :: t in KeptChunks(chunks) ==> |t| > MIN_CHUNK_LENGTH && exists c :: c in chunks && t == Strip(c)
    decreases |chunks|
  {
    if chunks != [] {
      var init := chunks[..|chunks| - 1];
      KeptChunksSound(init);
      forall t | t in KeptChunks(chunks)
        ensures |t| > MIN_CHUNK_LENGTH && exists c :: c in chunks && t == Strip(c)
      {
        if t in KeptChunks(init) {
          var c :| c in init && t == Strip(c);
          assert c in chunks;
        } else {
          assert t == Strip(chunks[|chunks| - 1]);
        }
      }
    }
  }

  /** Every chunk whose stripped form is longer than MIN_CHUNK_LENGTH is
      kept. */
  lemma {:induction false} KeptChunksComplete(chunks: seq<string>)
    ensures forall c :: c in chunks && |Strip(c)| > MIN_CHUNK_LENGTH ==> Strip(c) in KeptChunks(chunks)
    decreases |chunks|
  {
    if chunks != [] {
      var init := chunks[..|chunks| - 1];
      KeptChunksComplete(init);
      assert chunks == init + [chunks[|chunks| - 1]];
      forall c | c in chunks && |Strip(c)| > MIN_CHUNK_LENGTH
        ensures Strip(c) in KeptChunks(chunks)
      {
        if c in init {
          assert Strip(c) in KeptChunks(init);
        }
      }
    }
  }

  /** When every chunk is long enough, the kept chunks are all of them,
      stripped, in order. */
  lemma {:induction false} KeptChunksAll(chunks: seq<string>)
    requires forall i :: 0 <= i < |chunks| ==> |Strip(chunks[i])| > MIN_CHUNK_LENGTH
    ensures |KeptChunks(chunks)| == |chunks|
    ensures forall i :: 0 <= i < |chunks| ==> KeptChunks(chunks)[i] == Strip(chunks[i])
    decreases |chunks|
  {
    if chunks != [] {
      var init := chunks[..|chunks| - 1];
      KeptChunksAll(init);
      var last := Strip(chunks[|chunks| - 1]);
      assert KeptChunks(chunks) == KeptChunks(init) + [last];
      forall i | 0 <= i < |chunks| ensures KeptChunks(chunks)[i] == Strip(chunks[i]) {
        if i < |init| {
          assert KeptChunks(chunks)[i] == KeptChunks(init)[i];
          assert init[i] == chunks[i];
        }
      }
    }
  }

  /** Each text filed under the relative path `rel`. */
  function Labelled(rel: string, texts: seq<string>): (docs: seq<Document>)
    ensures |docs| == |texts|
  {
    if texts == [] then []
    else Labelled(rel, texts[..|texts| - 1]) + [Document(rel, texts[|texts| - 1])]
  }

  /** The i-th document carries the i-th text. */
  lemma {:induction false} LabelledAt(rel: string, texts: seq<string>)
    ensures forall i :: 0 <= i < |texts| ==> Labelled(rel, texts)[i] == Document(rel, texts[i])
    decreases |texts|
  {
    if texts != [] {
      var init := texts[..|texts| - 1];
      LabelledAt(rel, init);
      forall i | 0 <= i < |texts| ensures Labelled(rel, texts)[i] == Document(rel, texts[i]) {
        if i < |init| {
          assert Labelled(rel, texts)[i] == Labelled(rel, init)[i];
        }
      }
    }
  }

  /** The loop of the walk over one file's chunks: `texts` and `docs` are
      appended to together, each kept chunk under the file's relative
      path. */
  method KeepFileChunks(rel: string, chunks: seq<string>, texts: seq<string>, docs: seq<Document>)
    returns (texts': seq<string>, docs': seq<Document>)
    ensures texts' == texts + KeptChunks(chunks)
    ensures docs' == docs + Labelled(rel, KeptChunks(chunks))
  {
    texts', docs' := texts, docs;
    var i := 0;
    while i < |chunks|
      invariant 0 <= i <= |chunks|
      invariant texts' == texts + KeptChunks(chunks[..i])
      invariant docs' == docs + Labelled(rel, KeptChunks(chunks[..i]))
    {
      var chunk := Strip(chunks[i]);
      if |chunk| > MIN_CHUNK_LENGTH {
        KeepStep(rel, chunks, i, texts, docs);
        texts' := texts' + [chunk];
        docs' := docs' + [Document(rel, chunk)];
      } else {
        KeptStep(chunks, i);
      }
      i := i + 1;
    }
    assert chunks[..|chunks|] == chunks;
  }

  /** A kept chunk extends both lists. */
  lemma KeepStep(rel: string, chunks: seq<string>, i: nat, texts: seq<string>, docs: seq<Document>)
    requires i < |chunks| && |Strip(chunks[i])| > MIN_CHUNK_LENGTH
    ensures texts + KeptChunks(chunks[..i + 1]) == (texts + KeptChunks(chunks[..i])) + [Strip(chunks[i])]
    ensures docs + Labelled(rel, KeptChunks(chunks[..i + 1]))
         == (docs + Labelled(rel, KeptChunks(chunks[..i]))) + [Document(rel, Strip(chunks[i]))]
  {
    KeptStep(chunks, i);
    LabelledStep(rel, KeptChunks(chunks[..i]), Strip(chunks[i]));
  }

  /** The kept chunks of one more chunk. */
  lemma KeptStep(chunks: seq<string>, i: nat)
    requires i < |chunks|
    ensures |Strip(chunks[i])| > MIN_CHUNK_LENGTH ==> KeptChunks(chunks[..i + 1]) == KeptChunks(chunks[..i]) + [Strip(chunks[i])]
    ensures |Strip(chunks[i])| <= MIN_CHUNK_LENGTH ==> KeptChunks(chunks[..i + 1]) == KeptChunks(chunks[..i])
  {
    assert chunks[..i + 1][..i] == chunks[..i];
  }

  lemma LabelledStep(rel: string, texts: seq<string>, t: string)
    ensures Labelled(rel, texts + [t]) == Labelled(rel, texts) + [Document(rel, t)]
  {
    assert (texts + [t])[..|texts|] == texts;
  }
}
