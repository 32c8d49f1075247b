/** The older monolith's chunker and ingestion thread (server.cpp:442-462,
    507-602). Its chunker has no guard against revisiting the end of the
    text, so the ingestion thread hangs on any text of CHUNK_OVERLAP or more
    characters; every text it does finish splitting is too short to pass
    the chunk filter. */
module LegacyIngestion {
  import opened Common
  import TextUtils
  import Ingestion

  const CHUNK_SIZE: nat := 500
  const CHUNK_OVERLAP: nat := 50
  /** Chunks of at most this many characters are not embedded. */
  const MIN_CHUNK_LENGTH: nat := 100

  // ---------------------------------------------------------------------
  // The unguarded chunker

  /** Where the window starting at `start` ends: at most CHUNK_SIZE on, or
      just after the last ". " at or before that point when it lies past
      `start + CHUNK_SIZE - 100`. */
  function ChunkEnd(text: string, start: nat): (end: nat)
    requires start < |text|
    ensures start < end <= |text|
    ensures end < |text| ==> end > start + CHUNK_SIZE - 100
    ensures start + CHUNK_SIZE >= |text| ==> end == |text|
  {
    var end := Min(start + CHUNK_SIZE, |text|);
    if end < |text| then
      match TextUtils.LastSentenceBreak(text, end)
      case Some(period) => if period > start + CHUNK_SIZE - 100 then period + 2 else end
      case None => end
    else end
  }

  /** `start = end - CHUNK_OVERLAP` on a 64-bit `size_t`. */
  function NextStart(end: nat): (start: nat)
    ensures end >= CHUNK_OVERLAP ==> start + CHUNK_OVERLAP == end
    ensures end < CHUNK_OVERLAP ==> start >= SIZE_T_MODULUS - CHUNK_OVERLAP
  {
    if end >= CHUNK_OVERLAP then end - CHUNK_OVERLAP else end + SIZE_T_MODULUS - CHUNK_OVERLAP
  }

  /** The value of `start` after `i` turns of the loop; once the guard
      fails it stays put. */
  function StartAfter(text: string, i: nat): nat
    decreases i
  {
    if i == 0 then 0
    else
      var s := StartAfter(text, i - 1);
      if s < |text| then NextStart(ChunkEnd(text, s)) else s
  }

  /** The chunks pushed in the first `i` turns of the loop. */
  function Emitted(text: string, i: nat): seq<string>
    decreases i
  {
    if i == 0 then []
    else
      var s := StartAfter(text, i - 1);
      Emitted(text, i - 1) + (if s < |text| then [text[s..ChunkEnd(text, s)]] else [])
  }

  /** The loop of `split_text`, cut off after `fuel` turns. `finished` says
      whether its guard failed by then. */
  method SplitText(text: string, fuel: nat) returns (chunks: seq<string>, finished: bool)
    ensures |chunks| <= fuel
    ensures chunks == Emitted(text, |chunks|)
    ensures finished <==> StartAfter(text, |chunks|) >= |text|
    ensures !finished ==> |chunks| == fuel
  {
    chunks := [];
    var start: nat := 0;
    while start < |text| && |chunks| < fuel
      invariant |chunks| <= fuel
      invariant start == StartAfter(text, |chunks|)
      invariant chunks == Emitted(text, |chunks|)
      decreases fuel - |chunks|
    {
      var end := Window(text, start);
      Turn(text, |chunks|);
      chunks := chunks + [text[start..end]];
      start := NextStart(end);
    }
    finished := start >= |text|;
  }

  /** One more turn while the guard holds. */
  lemma Turn(text: string, k: nat)
    requires StartAfter(text, k) < |text|
    ensures StartAfter(text, k + 1) == NextStart(ChunkEnd(text, StartAfter(text, k)))
    ensures Emitted(text, k + 1) == Emitted(text, k) + [text[StartAfter(text, k)..ChunkEnd(text, StartAfter(text, k))]]
  {
  }

  /** Where a turn while the guard holds leaves `start`. */
  lemma TurnStart(text: string, i: nat)
    requires i > 0 && StartAfter(text, i - 1) < |text|
    ensures StartAfter(text, i) == NextStart(ChunkEnd(text, StartAfter(text, i - 1)))
  {
  }

  /** One window of the loop. */
  method Window(text: string, start: nat) returns (end: nat)
    requires start < |text|
    ensures end == ChunkEnd(text, start)
  {
    end := Min(start + CHUNK_SIZE, |text|);
    if end < |text| {
      var period := TextUtils.LastSentenceBreak(text, end);
      if period.Some? && period.value > start + CHUNK_SIZE - 100 {
        end := period.value + 2;
      }
    }
  }

  /** A text shorter than CHUNK_OVERLAP comes back whole as one chunk
      after one turn, because `start` then wraps past the end. */
  lemma {:induction false} ShortTextOneChunk(text: string, i: nat)
    requires 0 < |text| < CHUNK_OVERLAP && i >= 1
    ensures StartAfter(text, i) >= |text|
    ensures Emitted(text, i) == [text]
    decreases i
  {
    if i == 1 {
      assert text[0..|text|] == text;
    } else {
      ShortTextOneChunk(text, i - 1);
    }
  }

  /** For a text of CHUNK_OVERLAP or more characters the guard holds after
      every number of turns: each window ends at CHUNK_OVERLAP or later, so
      `start` never wraps and stays inside the text. The loop never ends. */
  lemma {:induction false} LongTextNeverEnds(text: string, i: nat)
    requires |text| >= CHUNK_OVERLAP
    ensures StartAfter(text, i) < |text|
    decreases i
  {
    if i > 0 {
      LongTextNeverEnds(text, i - 1);
      TurnStart(text, i);
      StepInside(text, StartAfter(text, i - 1));
    }
  }

  /** From a start inside a text of CHUNK_OVERLAP or more characters, the
      next start is inside it too. */
  lemma StepInside(text: string, s: nat)
    requires |text| >= CHUNK_OVERLAP && s < |text|
    ensures CHUNK_OVERLAP <= ChunkEnd(text, s) <= |text|
    ensures NextStart(ChunkEnd(text, s)) < |text|
  {
  }

  /** After one turn the loop has ended exactly when the text is shorter
      than CHUNK_OVERLAP; it then never runs again. */
  lemma HaltsIffShort(text: string, i: nat)
    requires i >= 1
    ensures StartAfter(text, i) >= |text| <==> |text| < CHUNK_OVERLAP
  {
    if |text| >= CHUNK_OVERLAP {
      LongTextNeverEnds(text, i);
    } else if |text| > 0 {
      ShortTextOneChunk(text, i);
    } else {
      EmptyStaysPut(text, i);
    }
  }

  lemma {:induction false} EmptyStaysPut(text: string, i: nat)
    requires |text| == 0
    ensures StartAfter(text, i) == 0 && Emitted(text, i) == []
    decreases i
  {
    if i > 0 {
      EmptyStaysPut(text, i - 1);
    }
  }

  /** Until the window reaches the end, `start` moves on by more than
      CHUNK_SIZE - 100 - CHUNK_OVERLAP per turn; once it reaches the end,
      `start` is `|text| - CHUNK_OVERLAP` from then on. */
  lemma {:induction false} Progress(text: string, i: nat)
    requires |text| >= CHUNK_OVERLAP
    ensures StartAfter(text, i) == |text| - CHUNK_OVERLAP || StartAfter(text, i) >= 350 * i
    decreases i
  {
    if i > 0 {
      Progress(text, i - 1);
      LongTextNeverEnds(text, i - 1);
      var s := StartAfter(text, i - 1);
      TurnStart(text, i);
      StepProgress(text, s);
      if s != |text| - CHUNK_OVERLAP && StartAfter(text, i) != |text| - CHUNK_OVERLAP {
        assert s >= 350 * (i - 1) && StartAfter(text, i) > s + 350;
      }
    }
  }

  /** A window either reaches the end of the text, leaving the next start
      CHUNK_OVERLAP before it, or moves the start on by more than 350. */
  lemma StepProgress(text: string, s: nat)
    requires |text| >= CHUNK_OVERLAP && s < |text|
    ensures s + CHUNK_SIZE >= |text| ==> NextStart(ChunkEnd(text, s)) == |text| - CHUNK_OVERLAP
    ensures NextStart(ChunkEnd(text, s)) == |text| - CHUNK_OVERLAP || NextStart(ChunkEnd(text, s)) > s + 350
  {
  }

  /** From turn |text| on, `start` is `|text| - CHUNK_OVERLAP`. */
  lemma {:induction false} TailReached(text: string, i: nat)
    requires |text| >= CHUNK_OVERLAP && i >= |text|
    ensures StartAfter(text, i) == |text| - CHUNK_OVERLAP
    decreases i
  {
    if i == |text| {
      Progress(text, i);
      LongTextNeverEnds(text, i);
    } else {
      TailReached(text, i - 1);
      TailTurn(text, i - 1);
    }
  }

  /** A turn from `start = |text| - CHUNK_OVERLAP` pushes the text's last
      CHUNK_OVERLAP characters and leaves `start` where it was. */
  lemma TailTurn(text: string, i: nat)
    requires |text| >= CHUNK_OVERLAP && StartAfter(text, i) == |text| - CHUNK_OVERLAP
    ensures StartAfter(text, i + 1) == |text| - CHUNK_OVERLAP
    ensures Emitted(text, i + 1) == Emitted(text, i) + [text[|text| - CHUNK_OVERLAP..]]
  {
    var s := StartAfter(text, i);
    assert ChunkEnd(text, s) == |text|;
    Turn(text, i);
    assert text[s..|text|] == text[s..];
  }

  /** From turn |text| on, every turn pushes the last CHUNK_OVERLAP
      characters again: the chunk list grows without end by copies of the
      text's tail. */
  lemma TailRepeatsForever(text: string, i: nat)
    requires |text| >= CHUNK_OVERLAP && i >= |text|
    ensures StartAfter(text, i) == |text| - CHUNK_OVERLAP
    ensures Emitted(text, i + 1) == Emitted(text, i) + [text[|text| - CHUNK_OVERLAP..]]
  {
    TailReached(text, i);
    TailTurn(text, i);
  }

  // ---------------------------------------------------------------------
  // One cycle of the ingestion thread

  /** What the chunk loop of one file collected, and whether an embedding
      call threw part-way. */
  datatype Kept = Kept(emb: seq<int>, docs: seq<Document>, threw: bool)

  /** The chunk loop: every chunk longer than MIN_CHUNK_LENGTH is embedded
      and recorded under the file's relative path; an embedding call that
      throws ends the loop. */
  function KeepChunks(rel: string, chunks: seq<string>, embed: string -> Option<seq<int>>): Kept
    decreases |chunks|
  {
    if chunks == [] then Kept([], [], false)
    else
      var k := KeepChunks(rel, chunks[..|chunks| - 1], embed);
      var c := chunks[|chunks| - 1];
      if k.threw || |c| <= MIN_CHUNK_LENGTH then k
      else match embed(c)
        case None => k.(threw := true)
        case Some(e) => Kept(k.emb + e, k.docs + [Document(rel, c)], false)
  }

  /** Chunks no longer than MIN_CHUNK_LENGTH give nothing to embed. */
  lemma {:induction false} ShortChunksKeepNothing(rel: string, chunks: seq<string>, embed: string -> Option<seq<int>>)
    requires forall k :: 0 <= k < |chunks| ==> |chunks[k]| <= MIN_CHUNK_LENGTH
    ensures KeepChunks(rel, chunks, embed) == Kept([], [], false)
    decreases |chunks|
  {
    if chunks != [] {
      ShortChunksKeepNothing(rel, chunks[..|chunks| - 1], embed);
    }
  }

  /** The thread's state during one cycle: the processed set, the
      embeddings and documents gathered so far, and whether it is stuck in
      the chunker. */
  datatype Pass = Pass(processed: set<string>, emb: seq<int>, docs: seq<Document>, hung: bool)

  /** One file. A path that is neither .txt nor .pdf, a PDF whose
      extraction gives "", and a read that throws (`content` gives None)
      leave the file out of the processed set, so it is queued again next
      cycle. A .txt file that cannot be opened reads as "", gives no chunks
      and is marked processed. A text of CHUNK_OVERLAP or more characters
      never gets past the chunker. */
  function FileStep(p: Pass, f: Ingestion.SourceFile, content: string -> Option<string>, embed: string -> Option<seq<int>>): Pass {
    if p.hung then p
    else
      var isTxt := TextUtils.StringEndsWith(f.path, ".txt");
      if !isTxt && !TextUtils.StringEndsWith(f.path, ".pdf") then p
      else match content(f.path)
        case None => p
        case Some(text) =>
          if !isTxt && text == [] then p
          else if |text| >= CHUNK_OVERLAP then p.(hung := true)
          else
            var k := KeepChunks(f.rel, Emitted(text, 1), embed);
            var p' := p.(emb := p.emb + k.emb, docs := p.docs + k.docs);
            if k.threw then p' else p'.(processed := p.processed + {f.rel})
  }

  /** The files of one cycle, in order. */
  function PassFiles(p: Pass, files: seq<Ingestion.SourceFile>, content: string -> Option<string>, embed: string -> Option<seq<int>>): Pass
    decreases |files|
  {
    if files == [] then p
    else FileStep(PassFiles(p, files[..|files| - 1], content, embed), files[|files| - 1], content, embed)
  }

  /** How a cycle ends: stuck in the chunker, stuck on the second lock of
      `index_mutex` inside `save_index` after adding rows, or back to
      sleep with the new processed set. */
  datatype Outcome = Hung(processed: set<string>) | Deadlocked(rows: int, docs: seq<Document>) | Idle(processed: set<string>)

  function CycleOutcome(processed: set<string>, entries: seq<Ingestion.Entry>, content: string -> Option<string>, embed: string -> Option<seq<int>>): Outcome {
    var p := PassFiles(Pass(processed, [], [], false), Ingestion.NewFiles(entries, processed), content, embed);
    if p.hung then Hung(p.processed)
    else if p.emb != [] then Deadlocked(|p.emb| / Ingestion.EMBEDDING_DIM, p.docs)
    else Idle(p.processed)
  }

  /** A file's text: its chunks and the embedding loop over them. */
  method ProcessText(rel: string, text: string, embed: string -> Option<seq<int>>, fuel: nat) returns (emb: seq<int>, docs: seq<Document>, threw: bool, hung: bool)
    requires fuel >= 1
    ensures hung <==> |text| >= CHUNK_OVERLAP
    ensures !hung ==> Kept(emb, docs, threw) == KeepChunks(rel, Emitted(text, 1), embed)
  {
    emb, docs, threw, hung := [], [], false, false;
    var chunks, finished := SplitText(text, fuel);
    if !finished {
      HaltsIffShort(text, |chunks|);
      hung := true;
      return;
    }
    if |text| == 0 {
      EmptyStaysPut(text, 1);
      EmptyStaysPut(text, |chunks|);
    } else {
      HaltsIffShort(text, |chunks|);
      ShortTextOneChunk(text, |chunks|);
      ShortTextOneChunk(text, 1);
    }
    emb, docs, threw := KeepLoop(rel, chunks, embed);
  }

  /** The chunk loop of one file. */
  method KeepLoop(rel: string, chunks: seq<string>, embed: string -> Option<seq<int>>) returns (emb: seq<int>, docs: seq<Document>, threw: bool)
    ensures Kept(emb, docs, threw) == KeepChunks(rel, chunks, embed)
  {
    emb, docs, threw := [], [], false;
    var i := 0;
    while i < |chunks| && !threw
      invariant 0 <= i <= |chunks|
      invariant Kept(emb, docs, threw) == KeepChunks(rel, chunks[..i], embed)
      invariant threw ==> KeepChunks(rel, chunks, embed) == KeepChunks(rel, chunks[..i], embed)
    {
      var c := chunks[i];
      assert chunks[..i + 1][..i] == chunks[..i];
      if |c| > MIN_CHUNK_LENGTH {
        var e := embed(c);
        if e.None? {
          threw := true;
          ThrownSticky(rel, chunks, embed, i + 1);
        } else {
          emb := emb + e.value;
          docs := docs + [Document(rel, c)];
        }
      }
      i := i + 1;
    }
    assert chunks[..|chunks|] == chunks;
  }

  /** Once an embedding call has thrown, later chunks change nothing. */
  lemma {:induction false} ThrownSticky(rel: string, chunks: seq<string>, embed: string -> Option<seq<int>>, j: nat)
    requires j <= |chunks| && KeepChunks(rel, chunks[..j], embed).threw
    ensures KeepChunks(rel, chunks, embed) == KeepChunks(rel, chunks[..j], embed)
    decreases |chunks|
  {
    if j < |chunks| {
      assert chunks[..|chunks| - 1][..j] == chunks[..j];
      ThrownSticky(rel, chunks[..|chunks| - 1], embed, j);
    } else {
      assert chunks[..j] == chunks;
    }
  }

  /** Once the thread is stuck in the chunker, later files change nothing. */
  lemma {:induction false} HungSticky(p: Pass, files: seq<Ingestion.SourceFile>, content: string -> Option<string>, embed: string -> Option<seq<int>>, j: nat)
    requires j <= |files| && PassFiles(p, files[..j], content, embed).hung
    ensures PassFiles(p, files, content, embed) == PassFiles(p, files[..j], content, embed)
    decreases |files|
  {
    if j < |files| {
      assert files[..|files| - 1][..j] == files[..j];
      HungSticky(p, files[..|files| - 1], content, embed, j);
    } else {
      assert files[..j] == files;
    }
  }

  /** One cycle of the ingestion thread, run on the model of the
      directory scan, with the chunker cut off after `fuel` turns. */
  method Cycle(processed: set<string>, entries: seq<Ingestion.Entry>, content: string -> Option<string>, embed: string -> Option<seq<int>>, fuel: nat) returns (outcome: Outcome)
    requires fuel >= 1
    ensures outcome == CycleOutcome(processed, entries, content, embed)
  {
    var files := Ingestion.NewFiles(entries, processed);
    var p0 := Pass(processed, [], [], false);
    var p := p0;
    var i := 0;
    while i < |files|
      invariant 0 <= i <= |files|
      invariant PassFiles(p0, files[..i], content, embed) == p && !p.hung
    {
      PassFilesSnoc(p0, files, i, content, embed);
      var q := ProcessFile(p, files[i], content, embed, fuel);
      if q.hung {
        HungSticky(p0, files, content, embed, i + 1);
        return Hung(q.processed);
      }
      p := q;
      i := i + 1;
    }
    assert files[..|files|] == files;
    if p.emb != [] {
      return Deadlocked(|p.emb| / Ingestion.EMBEDDING_DIM, p.docs);
    }
    return Idle(p.processed);
  }

  lemma PassFilesSnoc(p: Pass, files: seq<Ingestion.SourceFile>, i: nat, content: string -> Option<string>, embed: string -> Option<seq<int>>)
    requires i < |files|
    ensures PassFiles(p, files[..i + 1], content, embed) == FileStep(PassFiles(p, files[..i], content, embed), files[i], content, embed)
  {
    assert files[..i + 1][..i] == files[..i];
  }

  /** The body of the loop over a cycle's files. */
  method ProcessFile(p: Pass, f: Ingestion.SourceFile, content: string -> Option<string>, embed: string -> Option<seq<int>>, fuel: nat) returns (q: Pass)
    requires fuel >= 1 && !p.hung
    ensures q == FileStep(p, f, content, embed)
  {
    q := p;
    var isTxt := TextUtils.StringEndsWith(f.path, ".txt");
    if isTxt || TextUtils.StringEndsWith(f.path, ".pdf") {
      var text := content(f.path);
      if text.Some? && (isTxt || text.value != []) {
        var emb, docs, threw, hung := ProcessText(f.rel, text.value, embed, fuel);
        if hung {
          q := p.(hung := true);
        } else {
          q := p.(emb := p.emb + emb, docs := p.docs + docs);
          if !threw {
            q := q.(processed := p.processed + {f.rel});
          }
        }
      }
    }
  }

  /** A text the chunker finishes gives nothing to embed. */
  lemma TextKeepsNothing(rel: string, text: string, embed: string -> Option<seq<int>>)
    requires |text| < CHUNK_OVERLAP
    ensures KeepChunks(rel, Emitted(text, 1), embed) == Kept([], [], false)
  {
    if |text| == 0 {
      EmptyStaysPut(text, 1);
    } else {
      ShortTextOneChunk(text, 1);
      ShortChunksKeepNothing(rel, Emitted(text, 1), embed);
    }
  }

  /** A .txt file that cannot be opened reads as "" and is still marked
      processed, unless the chunker hung on an earlier file: once marked, it
      stays marked for the rest of the cycle and is never queued again. */
  lemma {:induction false} UnreadableTxtMarked(p: Pass, files: seq<Ingestion.SourceFile>, content: string -> Option<string>, embed: string -> Option<seq<int>>, k: nat)
    requires k < |files| && !PassFiles(p, files[..k], content, embed).hung
    requires TextUtils.StringEndsWith(files[k].path, ".txt") && content(files[k].path) == Some([])
    ensures files[k].rel in PassFiles(p, files, content, embed).processed
    decreases |files|
  {
    var init := files[..|files| - 1];
    if k == |files| - 1 {
      assert init == files[..k];
      TextKeepsNothing(files[k].rel, [], embed);
    } else {
      assert init[..k] == files[..k];
      UnreadableTxtMarked(p, init, content, embed, k);
    }
  }

  /** A cycle never gathers an embedding: every text the chunker finishes
      is shorter than CHUNK_OVERLAP, so no chunk passes the filter. */
  lemma {:induction false} NothingGathered(p: Pass, files: seq<Ingestion.SourceFile>, content: string -> Option<string>, embed: string -> Option<seq<int>>)
    requires p.emb == [] && p.docs == []
    ensures PassFiles(p, files, content, embed).emb == []
    ensures PassFiles(p, files, content, embed).docs == []
    decreases |files|
  {
    if files != [] {
      var f := files[|files| - 1];
      NothingGathered(p, files[..|files| - 1], content, embed);
      var text := content(f.path);
      if text.Some? && |text.value| < CHUNK_OVERLAP {
        TextKeepsNothing(f.rel, text.value, embed);
      }
    }
  }

  /** So the thread never adds rows to the index, and never reaches the
      `save_index` call that would lock `index_mutex` a second time, nor
      the checkpoint write after it. */
  lemma NeverAddsRows(processed: set<string>, entries: seq<Ingestion.Entry>, content: string -> Option<string>, embed: string -> Option<seq<int>>)
    ensures !CycleOutcome(processed, entries, content, embed).Deadlocked?
  {
    NothingGathered(Pass(processed, [], [], false), Ingestion.NewFiles(entries, processed), content, embed);
  }

  /** A name whose every file this cycle is a PDF with no extracted text
      stays out of the processed set, so the same entry is queued again in
      the next cycle. */
  lemma {:induction false} EmptyPdfRetried(p: Pass, files: seq<Ingestion.SourceFile>, content: string -> Option<string>, embed: string -> Option<seq<int>>, r: string)
    requires r !in p.processed
    requires forall k :: 0 <= k < |files| && files[k].rel == r ==>
      TextUtils.StringEndsWith(files[k].path, ".pdf") && !TextUtils.StringEndsWith(files[k].path, ".txt") && content(files[k].path) == Some([])
    ensures r !in PassFiles(p, files, content, embed).processed
    ensures forall e: Ingestion.Entry :: e.rel == r && e.regular && e.ext == ".pdf" ==> Ingestion.IsNew(e, PassFiles(p, files, content, embed).processed)
    decreases |files|
  {
    if files != [] {
      EmptyPdfRetried(p, files[..|files| - 1], content, embed, r);
    }
  }
}
