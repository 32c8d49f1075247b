/** The ingestion service (src/ingestion.cpp): it reads the checkpoint of
    processed files, finds new .txt and .pdf sources, chunks and embeds
    them, appends the embeddings to the index in batches of 50 and writes
    the index, the metadata and the checkpoint back to disk.

    The service is modelled as the ordered list of effects it has on its
    memory and on its three files. A crash at any moment leaves the files
    as some prefix of that list wrote them, which is how the lemmas at the
    end state what a crash leaves behind. */
module Ingestion {
  import opened Common
  import VectorIndex
  import TextUtils

  const EMBEDDING_DIM: nat := 768
  const BATCH_SIZE: nat := 50
  const MAX_TEXT_LENGTH: nat := 500000
  /** Only chunks longer than this are embedded. */
  const MIN_CHUNK_LENGTH: nat := 100

  // ---------------------------------------------------------------------
  // The checkpoint file (src/ingestion.cpp:84-98)

  /** The characters `find_first_not_of(" \t\r\n")` skips. */
  predicate IsBlank(c: char) {
    c == ' ' || c == '\t' || c == '\r' || c == '\n'
  }

  /** `line.erase(0, line.find_first_not_of(" \t\r\n"))`. */
  function TrimStart(s: string): (r: string)
    ensures |r| <= |s| && r == s[|s| - |r|..]
    ensures forall k :: 0 <= k < |s| - |r| ==> IsBlank(s[k])
    ensures r == [] || !IsBlank(r[0])
    decreases |s|
  {
    if s != [] && IsBlank(s[0]) then TrimStart(s[1..]) else s
  }

  /** `line.erase(line.find_last_not_of(" \t\r\n") + 1)`. */
  function TrimEnd(s: string): (r: string)
    ensures |r| <= |s| && r == s[..|r|]
    ensures forall k :: |r| <= k < |s| ==> IsBlank(s[k])
    ensures r == [] || !IsBlank(r[|r| - 1])
    decreases |s|
  {
    if s != [] && IsBlank(s[|s| - 1]) then TrimEnd(s[..|s| - 1]) else s
  }

  function Trim(s: string): string {
    TrimEnd(TrimStart(s))
  }

  /** A name with no blank at either end. */
  predicate Trimmed(s: string) {
    s == [] || (!IsBlank(s[0]) && !IsBlank(s[|s| - 1]))
  }

  /** Trimming removes blanks from both ends and nothing else: the result
      is a slice of the line with only blanks around it. */
  lemma TrimIsSlice(s: string)
    ensures Trimmed(Trim(s))
    ensures exists i, j :: (0 <= i <= j <= |s| && Trim(s) == s[i..j] &&
      (forall k :: 0 <= k < i ==> IsBlank(s[k])) && (forall k :: j <= k < |s| ==> IsBlank(s[k])))
  {
    var a := TrimStart(s);
    var i := |s| - |a|;
    var b := TrimEnd(a);
    if b != [] {
      assert b[0] == a[0];
    }
    assert b == s[i..i + |b|];
    forall k | i + |b| <= k < |s|
      ensures IsBlank(s[k])
    {
      assert s[k] == a[k - i];
    }
  }

  /** Trimming a trimmed name changes nothing. */
  lemma TrimTrimmed(s: string)
    requires Trimmed(s)
    ensures Trim(s) == s
  {
  }

  /** The set of processed files read back from the checkpoint lines:
      each line trimmed, blank lines skipped. */
  function CheckpointSet(lines: seq<string>): set<string> {
    set i | 0 <= i < |lines| && Trim(lines[i]) != [] :: Trim(lines[i])
  }

  /** The checkpoint loop: one line at a time into the set. */
  method LoadCheckpoint(lines: seq<string>) returns (processed: set<string>)
    ensures processed == CheckpointSet(lines)
  {
    processed := {};
    var i := 0;
    while i < |lines|
      invariant i <= |lines|
      invariant processed == CheckpointSet(lines[..i])
    {
      var line := Trim(lines[i]);
      CheckpointStep(lines, i);
      if line != [] {
        processed := processed + {line};
      }
      i := i + 1;
    }
    assert lines[..i] == lines;
  }

  lemma CheckpointStep(lines: seq<string>, i: nat)
    requires i < |lines|
    ensures CheckpointSet(lines[..i + 1]) ==
      CheckpointSet(lines[..i]) + (if Trim(lines[i]) != [] then {Trim(lines[i])} else {})
  {
    assert lines[..i + 1] == lines[..i] + [lines[i]];
    CheckpointAppend(lines[..i], lines[i]);
  }

  lemma CheckpointAppend(a: seq<string>, x: string)
    ensures CheckpointSet(a + [x]) == CheckpointSet(a) + (if Trim(x) != [] then {Trim(x)} else {})
  {
    var b := a + [x];
    forall f | f in CheckpointSet(b)
      ensures f in CheckpointSet(a) || (Trim(x) != [] && f == Trim(x))
    {
      var k :| 0 <= k < |b| && Trim(b[k]) != [] && f == Trim(b[k]);
      if k < |a| {
        assert b[k] == a[k];
      }
    }
    forall f | f in CheckpointSet(a)
      ensures f in CheckpointSet(b)
    {
      var k :| 0 <= k < |a| && Trim(a[k]) != [] && f == Trim(a[k]);
      assert a[k] == b[k];
    }
    assert b[|a|] == x;
  }

  /** Writing a set of non-empty trimmed names one per line, in any order,
      and reading the lines back gives the same set. */
  lemma CheckpointRoundTrip(lines: seq<string>)
    requires forall i :: 0 <= i < |lines| ==> lines[i] != [] && Trimmed(lines[i])
    ensures CheckpointSet(lines) == set i | 0 <= i < |lines| :: lines[i]
  {
    forall i | 0 <= i < |lines|
      ensures Trim(lines[i]) == lines[i]
    {
      TrimTrimmed(lines[i]);
    }
  }

  /** A file whose relative path begins or ends with a blank is checkpointed
      under its own name but read back trimmed: after a restart it is no
      longer known as processed, so it is ingested once more. */
  lemma PaddedNameForgotten(name: string)
    requires name != [] && !Trimmed(name)
    ensures name !in CheckpointSet([name])
  {
    TrimIsSlice(name);
  }

  // ---------------------------------------------------------------------
  // Discovery (src/ingestion.cpp:104-121)

  /** A directory entry: its full path, its path relative to the sources
      directory, whether it is a regular file, and its extension. */
  datatype Entry = Entry(path: string, rel: string, regular: bool, ext: string)

  /** A file to process: its full path and its relative path. */
  datatype SourceFile = SourceFile(path: string, rel: string)

  predicate IsNew(e: Entry, processed: set<string>) {
    e.regular && (e.ext == ".txt" || e.ext == ".pdf") && e.rel !in processed
  }

  /** The files to process: regular .txt and .pdf entries not yet
      processed, in directory order. */
  function NewFiles(entries: seq<Entry>, processed: set<string>): (files: seq<SourceFile>)
    ensures |files| <= |entries|
    decreases |entries|
  {
    if entries == [] then []
    else
      var e := entries[|entries| - 1];
      NewFiles(entries[..|entries| - 1], processed) + (if IsNew(e, processed) then [SourceFile(e.path, e.rel)] else [])
  }

  /** A file is found exactly when some entry is a new .txt or .pdf file. */
  lemma {:induction false} NewFilesMembers(entries: seq<Entry>, processed: set<string>, f: SourceFile)
    ensures f in NewFiles(entries, processed) <==>
      exists i :: 0 <= i < |entries| && IsNew(entries[i], processed) && f == SourceFile(entries[i].path, entries[i].rel)
    decreases |entries|
  {
    if entries != [] {
      var p := entries[..|entries| - 1];
      NewFilesMembers(p, processed, f);
      if exists i :: 0 <= i < |p| && IsNew(p[i], processed) && f == SourceFile(p[i].path, p[i].rel) {
        var i :| 0 <= i < |p| && IsNew(p[i], processed) && f == SourceFile(p[i].path, p[i].rel);
        assert entries[i] == p[i];
      }
      if exists i :: 0 <= i < |entries| && IsNew(entries[i], processed) && f == SourceFile(entries[i].path, entries[i].rel) {
        var i :| 0 <= i < |entries| && IsNew(entries[i], processed) && f == SourceFile(entries[i].path, entries[i].rel);
        if i < |p| {
          assert p[i] == entries[i];
        }
      }
    }
  }

  /** The discovery loop. */
  method FindNewFiles(entries: seq<Entry>, processed: set<string>) returns (files: seq<SourceFile>)
    ensures files == NewFiles(entries, processed)
  {
    files := [];
    var i := 0;
    while i < |entries|
      invariant i <= |entries|
      invariant files == NewFiles(entries[..i], processed)
    {
      assert entries[..i + 1][..i] == entries[..i];
      var e := entries[i];
      if e.regular && (e.ext == ".txt" || e.ext == ".pdf") && e.rel !in processed {
        files := files + [SourceFile(e.path, e.rel)];
      }
      i := i + 1;
    }
    assert entries[..i] == entries;
  }

  // ---------------------------------------------------------------------
  // The text of a file (src/ingestion.cpp:130-151)

  /** The text to chunk, given the file's contents (for a .txt) or the
      extracted text (for a .pdf); `None` when a PDF yields no text and the
      file is skipped. A PDF's text is cut to MAX_TEXT_LENGTH characters; a
      path with neither suffix gives the empty text. */
  function SourceText(path: string, content: string): (r: Option<string>)
  {
    if TextUtils.StringEndsWith(path, ".txt") then Some(content)
    else if TextUtils.StringEndsWith(path, ".pdf") then
      if content == [] then None
      else if |content| > MAX_TEXT_LENGTH then Some(content[..MAX_TEXT_LENGTH])
      else Some(content)
    else Some([])
  }

  /** A .txt file is chunked whole, however long; a PDF's text is its first
      MAX_TEXT_LENGTH characters. */
  lemma SourceTextBounds(path: string, content: string)
    ensures TextUtils.StringEndsWith(path, ".txt") ==> SourceText(path, content) == Some(content)
    ensures !TextUtils.StringEndsWith(path, ".txt") && SourceText(path, content).Some? ==>
      |SourceText(path, content).value| <= MAX_TEXT_LENGTH &&
      SourceText(path, content).value == content[..|SourceText(path, content).value|]
    ensures SourceText(path, content).None? <==>
      !TextUtils.StringEndsWith(path, ".txt") && TextUtils.StringEndsWith(path, ".pdf") && content == []
  {
  }

  // ---------------------------------------------------------------------
  // Memory, files and the effects on them

  /** What the three files hold: the index as `save` wrote it, the metadata
      documents and the checkpointed names; and whether the `data`
      directory that holds them exists. A write into a missing directory
      fails without a word and leaves the files as they were. */
  datatype Disk = Disk(index: VectorIndex.IndexState, documents: seq<Document>, processed: set<string>, dir: bool)

  /** The service's memory next to its files. */
  datatype World = World(index: VectorIndex.IndexState, documents: seq<Document>, processed: set<string>, disk: Disk)

  /** The effects, in the order the service performs them: appending a batch
      to the index and the documents (add_batch and insert), creating the
      `data` directory, writing the index file, writing the metadata file,
      recording a file as processed, and writing the checkpoint file. */
  datatype Action =
    | Flush(emb: seq<int>, docs: seq<Document>)
    | CreateDataDir
    | SaveIndex
    | SaveMetadata
    | MarkProcessed(file: string)
    | SaveCheckpoint

  function Apply(w: World, a: Action): World {
    match a
    case Flush(emb, docs) =>
      w.(index := VectorIndex.IndexState(w.index.data + emb, w.index.dimension, w.index.numVectors + |docs|),
         documents := w.documents + docs)
    case CreateDataDir => w.(disk := w.disk.(dir := true))
    case SaveIndex => if w.disk.dir then w.(disk := w.disk.(index := w.index)) else w
    case SaveMetadata => if w.disk.dir then w.(disk := w.disk.(documents := w.documents)) else w
    case MarkProcessed(f) => w.(processed := w.processed + {f})
    case SaveCheckpoint => if w.disk.dir then w.(disk := w.disk.(processed := w.processed)) else w
  }

  /** The world after a list of effects. */
  function Run(w: World, acts: seq<Action>): World
    decreases |acts|
  {
    if acts == [] then w else Apply(Run(w, acts[..|acts| - 1]), acts[|acts| - 1])
  }

  lemma RunSnoc(w: World, acts: seq<Action>, a: Action)
    ensures Run(w, acts + [a]) == Apply(Run(w, acts), a)
  {
    assert (acts + [a])[..|acts|] == acts;
  }

  lemma {:induction false} RunAppend(w: World, a: seq<Action>, b: seq<Action>)
    ensures Run(w, a + b) == Run(Run(w, a), b)
    decreases |b|
  {
    if b == [] {
      assert a + b == a;
    } else {
      assert (a + b)[..|a + b| - 1] == a + b[..|b| - 1];
      RunAppend(w, a, b[..|b| - 1]);
    }
  }

  // ---------------------------------------------------------------------
  // One file (src/ingestion.cpp:126-229)

  /** The batch being filled: its embeddings laid end to end and its
      documents. */
  datatype Batch = Batch(emb: seq<int>, docs: seq<Document>)

  const EMPTY: Batch := Batch([], [])

  /** What the chunk loop does: its effects, the batch left at the end, and
      whether an exception ended it. */
  datatype ChunkRun = ChunkRun(acts: seq<Action>, batch: Batch, threw: bool)

  /** The chunk loop from a given batch on. A chunk of more than
      MIN_CHUNK_LENGTH characters is embedded (`None` is an exception from
      the embedder); an embedding of EMBEDDING_DIM values joins the batch;
      a full batch is appended, the `data` directory is created, and the
      index and metadata files are rewritten. */
  function ChunkPlan(rel: string, chunks: seq<string>, embed: string -> Option<seq<int>>, batch: Batch): ChunkRun
    decreases |chunks|
  {
    if chunks == [] then ChunkRun([], batch, false)
    else
      var c := chunks[0];
      if |c| <= MIN_CHUNK_LENGTH then ChunkPlan(rel, chunks[1..], embed, batch)
      else
        match embed(c)
        case None => ChunkRun([], batch, true)
        case Some(e) =>
          if |e| != EMBEDDING_DIM then ChunkPlan(rel, chunks[1..], embed, batch)
          else
            var b := Batch(batch.emb + e, batch.docs + [Document(rel, c)]);
            if |b.docs| >= BATCH_SIZE then
              var r := ChunkPlan(rel, chunks[1..], embed, EMPTY);
              ChunkRun([Flush(b.emb, b.docs), CreateDataDir, SaveIndex, SaveMetadata] + r.acts, r.batch, r.threw)
            else ChunkPlan(rel, chunks[1..], embed, b)
  }

  /** The last, partial batch, appended when it is not empty. */
  function FinalFlush(b: Batch): seq<Action> {
    if b.emb != [] then [Flush(b.emb, b.docs)] else []
  }

  /** Every effect of processing one file, in order. A PDF without text is
      only marked processed. An exception marks the file processed and
      drops the batch in progress. Otherwise the last batch is appended, the
      file is marked processed, and the checkpoint, the index and the
      metadata are written, in that order. */
  function FilePlan(f: SourceFile, content: string, embed: string -> Option<seq<int>>): seq<Action> {
    if SourceText(f.path, content).None? then [MarkProcessed(f.rel)]
    else
      var r := FileRun(f, content, embed);
      if r.threw then r.acts + [MarkProcessed(f.rel)]
      else r.acts + FinalFlush(r.batch) + [MarkProcessed(f.rel), SaveCheckpoint, SaveIndex, SaveMetadata]
  }

  /** The chunk loop over a file's text. */
  function FileRun(f: SourceFile, content: string, embed: string -> Option<seq<int>>): ChunkRun
    requires SourceText(f.path, content).Some?
  {
    ChunkPlan(f.rel, TextUtils.Chunks(SourceText(f.path, content).value), embed, EMPTY)
  }

  /** The effects of one scan: every new file in turn. */
  function CyclePlan(files: seq<SourceFile>, content: string -> string, embed: string -> Option<seq<int>>): seq<Action>
    decreases |files|
  {
    if files == [] then []
    else CyclePlan(files[..|files| - 1], content, embed) + FilePlan(files[|files| - 1], content(files[|files| - 1].path), embed)
  }

  /** A batch holds EMBEDDING_DIM values per document. */
  predicate WellSized(b: Batch) {
    |b.emb| == Times(|b.docs|, EMBEDDING_DIM)
  }

  // ---------------------------------------------------------------------
  // The service

  /** The service's state: the index, the documents, the processed set,
      and what its files hold. */
  class Ingestor {
    const index: VectorIndex.SimpleVectorIndex
    var documents: seq<Document>
    var processed: set<string>
    var disk: Disk

    function State(): World
      reads this, index
    {
      World(index.State(), documents, processed, disk)
    }

    predicate Valid()
      reads this, index
    {
      index.Valid() && index.dimension == EMBEDDING_DIM
    }

    /** Start-up with no index or metadata file: an empty index and the
        processed set read from the checkpoint lines. `dataDir` says whether
        the `data` directory exists; nothing at start-up creates it. */
    constructor(checkpoint: seq<string>, dataDir: bool)
      ensures Valid()
      ensures State() == World(VectorIndex.IndexState([], EMBEDDING_DIM, 0), [], CheckpointSet(checkpoint),
        Disk(VectorIndex.IndexState([], EMBEDDING_DIM, 0), [], CheckpointSet(checkpoint), dataDir))
    {
      index := new VectorIndex.SimpleVectorIndex(EMBEDDING_DIM);
      documents := [];
      var names := LoadCheckpoint(checkpoint);
      processed := names;
      disk := Disk(VectorIndex.IndexState([], EMBEDDING_DIM, 0), [], names, dataDir);
    }

    /** `index.add_batch(batch_docs.size(), ...)` and the documents insert. */
    method Flush(b: Batch)
      requires Valid() && WellSized(b)
      modifies this, index
      ensures Valid()
      ensures State() == Apply(old(State()), Action.Flush(b.emb, b.docs))
    {
      index.AddBatch(|b.docs|, b.emb);
      assert b.emb[..Times(|b.docs|, EMBEDDING_DIM)] == b.emb;
      documents := documents + b.docs;
    }

    /** `fs::create_directories("data")`. */
    method CreateDataDir()
      modifies this
      ensures State() == Apply(old(State()), Action.CreateDataDir)
    {
      disk := disk.(dir := true);
    }

    /** `index.save("data/index.bin")`: the stream is not checked, so
        without the directory nothing is written. */
    method SaveIndex()
      modifies this
      ensures State() == Apply(old(State()), Action.SaveIndex)
    {
      if disk.dir {
        disk := disk.(index := index.State());
      }
    }

    /** The metadata.jsonl rewrite, lost without the directory. */
    method SaveMetadata()
      modifies this
      ensures State() == Apply(old(State()), Action.SaveMetadata)
    {
      if disk.dir {
        disk := disk.(documents := documents);
      }
    }

    /** The processed_files.txt rewrite, lost without the directory. */
    method SaveCheckpoint()
      modifies this
      ensures State() == Apply(old(State()), Action.SaveCheckpoint)
    {
      if disk.dir {
        disk := disk.(processed := processed);
      }
    }

    method MarkProcessed(rel: string)
      modifies this
      ensures State() == Apply(old(State()), Action.MarkProcessed(rel))
    {
      processed := processed + {rel};
    }
  
    /** Processing one file, from reading its text to the final saves,
        with an exception from the embedder caught as the source catches
        it. */
    method ProcessFile(f: SourceFile, content: string, embed: string -> Option<seq<int>>)
      requires Valid()
      modifies this, index
      ensures Valid()
      ensures State() == Run(old(State()), FilePlan(f, content, embed))
    {
      ghost var w0 := State();
      var text := ReadText(f.path, content);
      if text.None? {
        MarkProcessed(f.rel);
        RunSnoc(w0, [], Action.MarkProcessed(f.rel));
        return;
      }
      var chunks := TextUtils.SplitText(text.value);
      ghost var r := ChunkPlan(f.rel, chunks, embed, EMPTY);
      var batch, threw := ChunkLoop(f.rel, chunks, embed);
      if threw {
        MarkProcessed(f.rel);
        RunSnoc(w0, r.acts, Action.MarkProcessed(f.rel));
        return;
      }
      ghost var w1 := State();
      Finish(f.rel, batch);
      RunAppend(w0, r.acts, FinalFlush(batch) + [Action.MarkProcessed(f.rel), Action.SaveCheckpoint, Action.SaveIndex, Action.SaveMetadata]);
      assert r.acts + FinalFlush(r.batch) + [Action.MarkProcessed(f.rel), Action.SaveCheckpoint, Action.SaveIndex, Action.SaveMetadata]
        == r.acts + (FinalFlush(batch) + [Action.MarkProcessed(f.rel), Action.SaveCheckpoint, Action.SaveIndex, Action.SaveMetadata]);
    }

    /** The chunk loop: embed the long chunks, fill the batch, and append
        and save every full batch. It stops at the first exception. */
    method ChunkLoop(rel: string, chunks: seq<string>, embed: string -> Option<seq<int>>) returns (batch: Batch, threw: bool)
      requires Valid()
      modifies this, index
      ensures Valid() && WellSized(batch)
      ensures ChunkPlan(rel, chunks, embed, EMPTY).batch == batch
      ensures ChunkPlan(rel, chunks, embed, EMPTY).threw == threw
      ensures State() == Run(old(State()), ChunkPlan(rel, chunks, embed, EMPTY).acts)
    {
      ghost var w0 := State();
      batch := EMPTY;
      ghost var done: seq<Action> := [];
      var i := 0;
      while i < |chunks|
        invariant Valid() && i <= |chunks|
        invariant WellSized(batch) && |batch.docs| < BATCH_SIZE
        invariant State() == Run(w0, done)
        invariant Prepend(done, ChunkPlan(rel, chunks[i..], embed, batch)) == ChunkPlan(rel, chunks, embed, EMPTY)
      {
        var c := chunks[i];
        if |c| > MIN_CHUNK_LENGTH {
          var e := embed(c);
          if e.None? {
            PlanThrows(rel, chunks, i, embed, batch);
            assert done + [] == done;
            return batch, true;
          }
          if |e.value| == EMBEDDING_DIM {
            PlanJoins(rel, chunks, i, embed, batch);
            batch := Joined(batch, rel, c, e.value);
            if |batch.docs| >= BATCH_SIZE {
              FlushAndSave(batch);
              ghost var group := [Action.Flush(batch.emb, batch.docs), Action.CreateDataDir, Action.SaveIndex, Action.SaveMetadata];
              RunAppend(w0, done, group);
              PrependAppend(done, group, ChunkPlan(rel, chunks[i + 1..], embed, EMPTY));
              done := done + group;
              batch := EMPTY;
            }
          } else {
            PlanSkips(rel, chunks, i, embed, batch);
          }
        } else {
          PlanSkips(rel, chunks, i, embed, batch);
        }
        i := i + 1;
      }
      assert done + [] == done;
      threw := false;
    }

    /** A full batch: add_batch, the documents insert, the `data`
        directory created, then the index and metadata files rewritten. */
    method FlushAndSave(b: Batch)
      requires Valid() && WellSized(b)
      modifies this, index
      ensures Valid()
      ensures State() == Run(old(State()), [Action.Flush(b.emb, b.docs), Action.CreateDataDir, Action.SaveIndex, Action.SaveMetadata])
    {
      ghost var w0 := State();
      ghost var a := Action.Flush(b.emb, b.docs);
      ghost var c := Action.CreateDataDir;
      Flush(b);
      RunSnoc(w0, [], a);
      assert [] + [a] == [a];
      CreateDataDir();
      RunSnoc(w0, [a], c);
      assert [a] + [c] == [a, c];
      SaveIndex();
      RunSnoc(w0, [a, c], Action.SaveIndex);
      assert [a, c] + [Action.SaveIndex] == [a, c, Action.SaveIndex];
      SaveMetadata();
      RunSnoc(w0, [a, c, Action.SaveIndex], Action.SaveMetadata);
      assert [a, c, Action.SaveIndex] + [Action.SaveMetadata] == [a, c, Action.SaveIndex, Action.SaveMetadata];
    }

    /** After the chunk loop: the last batch is appended, the file is marked
        processed, and the checkpoint, index and metadata are written. */
    method Finish(rel: string, b: Batch)
      requires Valid() && WellSized(b)
      modifies this, index
      ensures Valid()
      ensures State() == Run(old(State()),
        FinalFlush(b) + [Action.MarkProcessed(rel), Action.SaveCheckpoint, Action.SaveIndex, Action.SaveMetadata])
    {
      ghost var w0 := State();
      if b.emb != [] {
        Flush(b);
        RunSnoc(w0, [], Action.Flush(b.emb, b.docs));
      }
      ghost var w1 := State();
      assert w1 == Run(w0, FinalFlush(b));
      var m := Action.MarkProcessed(rel);
      MarkProcessed(rel);
      RunSnoc(w1, [], m);
      assert [] + [m] == [m];
      SaveCheckpoint();
      RunSnoc(w1, [m], Action.SaveCheckpoint);
      assert [m] + [Action.SaveCheckpoint] == [m, Action.SaveCheckpoint];
      SaveIndex();
      RunSnoc(w1, [m, Action.SaveCheckpoint], Action.SaveIndex);
      assert [m, Action.SaveCheckpoint] + [Action.SaveIndex] == [m, Action.SaveCheckpoint, Action.SaveIndex];
      SaveMetadata();
      RunSnoc(w1, [m, Action.SaveCheckpoint, Action.SaveIndex], Action.SaveMetadata);
      assert [m, Action.SaveCheckpoint, Action.SaveIndex] + [Action.SaveMetadata]
        == [m, Action.SaveCheckpoint, Action.SaveIndex, Action.SaveMetadata];
      RunAppend(w0, FinalFlush(b), [m, Action.SaveCheckpoint, Action.SaveIndex, Action.SaveMetadata]);
    }

    /** One scan of the main loop: find the new files, then process each. */
    method Cycle(entries: seq<Entry>, content: string -> string, embed: string -> Option<seq<int>>)
      returns (files: seq<SourceFile>)
      requires Valid()
      modifies this, index
      ensures Valid()
      ensures files == NewFiles(entries, old(processed))
      ensures State() == Run(old(State()), CyclePlan(files, content, embed))
    {
      ghost var w0 := State();
      files := FindNewFiles(entries, processed);
      var i := 0;
      while i < |files|
        invariant Valid() && i <= |files|
        invariant State() == Run(w0, CyclePlan(files[..i], content, embed))
      {
        assert files[..i + 1][..i] == files[..i];
        RunAppend(w0, CyclePlan(files[..i], content, embed), FilePlan(files[i], content(files[i].path), embed));
        ProcessFile(files[i], content(files[i].path), embed);
        i := i + 1;
      }
      assert files[..i] == files;
    }
  }

  /** `SourceText` as the if-chain of src/ingestion.cpp:130-151 computes it. */
  method ReadText(path: string, content: string) returns (text: Option<string>)
    ensures text == SourceText(path, content)
  {
    if TextUtils.StringEndsWith(path, ".txt") {
      text := Some(content);
    } else if TextUtils.StringEndsWith(path, ".pdf") {
      if content == [] {
        return None;
      }
      var s := content;
      if |s| > MAX_TEXT_LENGTH {
        s := s[..MAX_TEXT_LENGTH];
      }
      text := Some(s);
    } else {
      text := Some([]);
    }
  }

  /** The chunk loop's run with effects `done` already performed. */
  function Prepend(done: seq<Action>, r: ChunkRun): ChunkRun {
    ChunkRun(done + r.acts, r.batch, r.threw)
  }

  lemma PrependAppend(done: seq<Action>, group: seq<Action>, r: ChunkRun)
    ensures Prepend(done, Prepend(group, r)) == Prepend(done + group, r)
  {
    assert done + (group + r.acts) == (done + group) + r.acts;
  }

  /** The batch with one more embedded chunk. */
  function Joined(batch: Batch, rel: string, c: string, e: seq<int>): (b: Batch)
    requires WellSized(batch) && |e| == EMBEDDING_DIM
    ensures WellSized(b) && |b.docs| == |batch.docs| + 1
  {
    TimesAdd(|batch.docs|, 1, EMBEDDING_DIM);
    Batch(batch.emb + e, batch.docs + [Document(rel, c)])
  }

  /** A chunk that is too short, or whose embedding has the wrong size, is
      passed over. */
  lemma PlanSkips(rel: string, chunks: seq<string>, i: nat, embed: string -> Option<seq<int>>, batch: Batch)
    requires i < |chunks|
    requires |chunks[i]| <= MIN_CHUNK_LENGTH || (embed(chunks[i]).Some? && |embed(chunks[i]).value| != EMBEDDING_DIM)
    ensures ChunkPlan(rel, chunks[i..], embed, batch) == ChunkPlan(rel, chunks[i + 1..], embed, batch)
  {
    assert chunks[i..][0] == chunks[i] && chunks[i..][1..] == chunks[i + 1..];
  }

  /** An exception from the embedder ends the loop. */
  lemma PlanThrows(rel: string, chunks: seq<string>, i: nat, embed: string -> Option<seq<int>>, batch: Batch)
    requires i < |chunks| && |chunks[i]| > MIN_CHUNK_LENGTH && embed(chunks[i]).None?
    ensures ChunkPlan(rel, chunks[i..], embed, batch) == ChunkRun([], batch, true)
  {
    assert chunks[i..][0] == chunks[i];
  }

  /** An embedding joins the batch; a full batch is appended and saved. */
  lemma PlanJoins(rel: string, chunks: seq<string>, i: nat, embed: string -> Option<seq<int>>, batch: Batch)
    requires i < |chunks| && |chunks[i]| > MIN_CHUNK_LENGTH && embed(chunks[i]).Some?
    requires WellSized(batch) && |embed(chunks[i]).value| == EMBEDDING_DIM
    ensures |batch.docs| + 1 < BATCH_SIZE ==>
      ChunkPlan(rel, chunks[i..], embed, batch)
        == ChunkPlan(rel, chunks[i + 1..], embed, Joined(batch, rel, chunks[i], embed(chunks[i]).value))
    ensures |batch.docs| + 1 >= BATCH_SIZE ==>
      ChunkPlan(rel, chunks[i..], embed, batch)
        == Prepend([Flush(Joined(batch, rel, chunks[i], embed(chunks[i]).value).emb,
                          Joined(batch, rel, chunks[i], embed(chunks[i]).value).docs), CreateDataDir, SaveIndex, SaveMetadata],
                   ChunkPlan(rel, chunks[i + 1..], embed, EMPTY))
  {
    assert chunks[i..][0] == chunks[i] && chunks[i..][1..] == chunks[i + 1..];
  }

  // ---------------------------------------------------------------------
  // What the effects do

  /** The index and metadata files match memory. */
  predicate Synced(w: World) {
    w.disk.index == w.index && w.disk.documents == w.documents
  }

  /** The names a restarted service reads back from a checkpoint holding
      `names`, one per line. */
  function TrimmedNames(names: set<string>): set<string> {
    set f | f in names && Trim(f) != [] :: Trim(f)
  }

  /** A restart after a crash: memory is what the files hold. */
  function Restarted(w: World): World {
    World(w.disk.index, w.disk.documents, TrimmedNames(w.disk.processed), w.disk)
  }

  /** Every document names the file `rel`. */
  predicate NamedAfter(docs: seq<Document>, rel: string) {
    forall k :: 0 <= k < |docs| ==> docs[k].filename == rel
  }

  /** The documents the effects append, in order. */
  function FlushedDocs(acts: seq<Action>): seq<Document>
    decreases |acts|
  {
    if acts == [] then []
    else FlushedDocs(acts[..|acts| - 1]) + (if acts[|acts| - 1].Flush? then acts[|acts| - 1].docs else [])
  }

  lemma {:induction false} FlushedDocsAppend(a: seq<Action>, b: seq<Action>)
    ensures FlushedDocs(a + b) == FlushedDocs(a) + FlushedDocs(b)
    decreases |b|
  {
    if b == [] {
      assert a + b == a;
    } else {
      assert (a + b)[..|a + b| - 1] == a + b[..|b| - 1];
      FlushedDocsAppend(a, b[..|b| - 1]);
    }
  }

  /** The documents in memory after the effects are those before, then
      every appended batch. */
  lemma {:induction false} RunDocuments(w: World, acts: seq<Action>)
    ensures Run(w, acts).documents == w.documents + FlushedDocs(acts)
    decreases |acts|
  {
    if acts != [] {
      RunDocuments(w, acts[..|acts| - 1]);
    }
  }

  /** The effects of a full batch: appended, the directory created, and
      both files rewritten. */
  function Group(e: seq<int>, d: seq<Document>): seq<Action> {
    [Flush(e, d), CreateDataDir, SaveIndex, SaveMetadata]
  }

  /** A full batch appended and both files rewritten: since the directory
      now exists, both files match memory, whether it existed before or not. */
  lemma RunGroup(w: World, e: seq<int>, d: seq<Document>)
    ensures var w1 := Apply(w, Flush(e, d));
      Run(w, Group(e, d)) == w1.(disk := w1.disk.(index := w1.index, documents := w1.documents, dir := true))
  {
    var a := Flush(e, d);
    RunSnoc(w, [], a);
    assert [] + [a] == [a];
    RunSnoc(w, [a], CreateDataDir);
    assert [a] + [CreateDataDir] == [a, CreateDataDir];
    RunSnoc(w, [a, CreateDataDir], SaveIndex);
    assert [a, CreateDataDir] + [SaveIndex] == [a, CreateDataDir, SaveIndex];
    RunSnoc(w, [a, CreateDataDir, SaveIndex], SaveMetadata);
    assert [a, CreateDataDir, SaveIndex] + [SaveMetadata] == Group(e, d);
  }

  /** The chunk loop leaves the processed set and the checkpoint alone,
      and leaves the index and metadata files matching memory when they
      matched before. The `data` directory exists afterwards exactly when
      it did before or the loop appended a batch, and a loop that appended
      none leaves everything as it was. */
  lemma {:induction false} ChunkPlanEffects(w: World, rel: string, chunks: seq<string>, embed: string -> Option<seq<int>>, batch: Batch)
    ensures Run(w, ChunkPlan(rel, chunks, embed, batch).acts).processed == w.processed
    ensures Run(w, ChunkPlan(rel, chunks, embed, batch).acts).disk.processed == w.disk.processed
    ensures Synced(w) ==> Synced(Run(w, ChunkPlan(rel, chunks, embed, batch).acts))
    ensures Run(w, ChunkPlan(rel, chunks, embed, batch).acts).disk.dir == (w.disk.dir || ChunkPlan(rel, chunks, embed, batch).acts != [])
    decreases |chunks|
  {
    if chunks != [] {
      var c := chunks[0];
      if |c| <= MIN_CHUNK_LENGTH {
        ChunkPlanEffects(w, rel, chunks[1..], embed, batch);
      } else if embed(c).Some? {
        var e := embed(c).value;
        if |e| != EMBEDDING_DIM {
          ChunkPlanEffects(w, rel, chunks[1..], embed, batch);
        } else {
          var b := Batch(batch.emb + e, batch.docs + [Document(rel, c)]);
          if |b.docs| >= BATCH_SIZE {
            var group := Group(b.emb, b.docs);
            var r := ChunkPlan(rel, chunks[1..], embed, EMPTY);
            RunAppend(w, group, r.acts);
            RunGroup(w, b.emb, b.docs);
            ChunkPlanEffects(Run(w, group), rel, chunks[1..], embed, EMPTY);
          } else {
            ChunkPlanEffects(w, rel, chunks[1..], embed, b);
          }
        }
      }
    }
  }

  /** The batch left by the chunk loop is well sized, not full and names
      the file; when the loop appended a batch, its first four effects are
      a full batch of the file's documents, the directory created and the
      two file rewrites. */
  lemma {:induction false} ChunkPlanShape(rel: string, chunks: seq<string>, embed: string -> Option<seq<int>>, batch: Batch)
    requires WellSized(batch) && |batch.docs| < BATCH_SIZE && NamedAfter(batch.docs, rel)
    ensures var r := ChunkPlan(rel, chunks, embed, batch);
      WellSized(r.batch) && |r.batch.docs| < BATCH_SIZE && NamedAfter(r.batch.docs, rel)
    ensures var r := ChunkPlan(rel, chunks, embed, batch);
      r.acts != [] ==>
        && |r.acts| >= 4 && r.acts[0].Flush? && |r.acts[0].docs| == BATCH_SIZE && NamedAfter(r.acts[0].docs, rel)
        && r.acts[1] == CreateDataDir && r.acts[2] == SaveIndex && r.acts[3] == SaveMetadata
    decreases |chunks|
  {
    if chunks != [] {
      var c := chunks[0];
      if |c| <= MIN_CHUNK_LENGTH {
        ChunkPlanShape(rel, chunks[1..], embed, batch);
      } else if embed(c).Some? {
        var e := embed(c).value;
        if |e| != EMBEDDING_DIM {
          ChunkPlanShape(rel, chunks[1..], embed, batch);
        } else {
          var b := Batch(batch.emb + e, batch.docs + [Document(rel, c)]);
          assert Times(|batch.docs| + 1, EMBEDDING_DIM) == |batch.emb| + |e|;
          if |b.docs| >= BATCH_SIZE {
            ChunkPlanShape(rel, chunks[1..], embed, EMPTY);
          } else {
            ChunkPlanShape(rel, chunks[1..], embed, b);
          }
        }
      }
    }
  }

  // ---------------------------------------------------------------------
  // The documents a file contributes

  /** A chunk long enough to embed on which the embedder throws. */
  predicate Fails(c: string, embed: string -> Option<seq<int>>) {
    |c| > MIN_CHUNK_LENGTH && embed(c).None?
  }

  /** A chunk long enough to embed whose embedding has EMBEDDING_DIM
      values. */
  predicate Embeddable(c: string, embed: string -> Option<seq<int>>) {
    |c| > MIN_CHUNK_LENGTH && embed(c).Some? && |embed(c).value| == EMBEDDING_DIM
  }

  /** The documents a file should contribute, batching aside: one per
      embeddable chunk, in chunk order, named after the file, up to the
      first chunk the embedder throws on. */
  function Kept(rel: string, chunks: seq<string>, embed: string -> Option<seq<int>>): (docs: seq<Document>)
    ensures |docs| <= |chunks|
    decreases |chunks|
  {
    if chunks == [] || Fails(chunks[0], embed) then []
    else (if Embeddable(chunks[0], embed) then [Document(rel, chunks[0])] else []) + Kept(rel, chunks[1..], embed)
  }

  /** Every kept document is an embeddable chunk of the file, named after
      it. */
  lemma {:induction false} KeptSound(rel: string, chunks: seq<string>, embed: string -> Option<seq<int>>)
    ensures forall d :: d in Kept(rel, chunks, embed) ==> d.filename == rel && d.text in chunks && Embeddable(d.text, embed)
    decreases |chunks|
  {
    if chunks != [] && !Fails(chunks[0], embed) {
      KeptSound(rel, chunks[1..], embed);
      forall d | d in Kept(rel, chunks, embed)
        ensures d.filename == rel && d.text in chunks && Embeddable(d.text, embed)
      {
        if d in Kept(rel, chunks[1..], embed) {
          assert d.text in chunks[1..];
        }
      }
    }
  }

  /** When the embedder throws on no chunk, every embeddable chunk is kept. */
  lemma {:induction false} KeptComplete(rel: string, chunks: seq<string>, embed: string -> Option<seq<int>>)
    requires forall i :: 0 <= i < |chunks| ==> !Fails(chunks[i], embed)
    ensures forall i :: 0 <= i < |chunks| && Embeddable(chunks[i], embed) ==> Document(rel, chunks[i]) in Kept(rel, chunks, embed)
    decreases |chunks|
  {
    if chunks != [] {
      KeptComplete(rel, chunks[1..], embed);
      forall i | 0 <= i < |chunks| && Embeddable(chunks[i], embed)
        ensures Document(rel, chunks[i]) in Kept(rel, chunks, embed)
      {
        if i > 0 {
          assert chunks[1..][i - 1] == chunks[i];
        }
      }
    }
  }

  /** The chunk loop, batches and all, appends exactly the kept documents
      after those of the batch it starts with, in order. */
  lemma {:induction false} ChunkPlanKept(rel: string, chunks: seq<string>, embed: string -> Option<seq<int>>, batch: Batch)
    ensures var r := ChunkPlan(rel, chunks, embed, batch);
      FlushedDocs(r.acts) + r.batch.docs == batch.docs + Kept(rel, chunks, embed)
    decreases |chunks|
  {
    if chunks != [] && !Fails(chunks[0], embed) {
      var c := chunks[0];
      var rest := chunks[1..];
      if !Embeddable(c, embed) {
        ChunkPlanKept(rel, rest, embed, batch);
      } else {
        var b := Batch(batch.emb + embed(c).value, batch.docs + [Document(rel, c)]);
        if |b.docs| >= BATCH_SIZE {
          var r := ChunkPlan(rel, rest, embed, EMPTY);
          ChunkPlanKept(rel, rest, embed, EMPTY);
          FlushedDocsAppend(Group(b.emb, b.docs), r.acts);
          FlushedGroup(b.emb, b.docs);
          assert ChunkPlan(rel, chunks, embed, batch).acts == Group(b.emb, b.docs) + r.acts;
          calc {
            FlushedDocs(Group(b.emb, b.docs) + r.acts) + r.batch.docs;
            (b.docs + FlushedDocs(r.acts)) + r.batch.docs;
            b.docs + (FlushedDocs(r.acts) + r.batch.docs);
            b.docs + Kept(rel, rest, embed);
          }
        } else {
          ChunkPlanKept(rel, rest, embed, b);
        }
      }
    }
  }

  /** The chunk loop ends in an exception exactly when the embedder throws
      on some chunk long enough to embed. */
  lemma {:induction false} ChunkPlanThrew(rel: string, chunks: seq<string>, embed: string -> Option<seq<int>>, batch: Batch)
    ensures ChunkPlan(rel, chunks, embed, batch).threw <==> exists i :: 0 <= i < |chunks| && Fails(chunks[i], embed)
    decreases |chunks|
  {
    if chunks != [] && !Fails(chunks[0], embed) {
      var rest := chunks[1..];
      var next := if Embeddable(chunks[0], embed) && |batch.docs| + 1 >= BATCH_SIZE then EMPTY
        else if Embeddable(chunks[0], embed) then Batch(batch.emb + embed(chunks[0]).value, batch.docs + [Document(rel, chunks[0])])
        else batch;
      ChunkPlanThrew(rel, rest, embed, next);
      assert ChunkPlan(rel, chunks, embed, batch).threw == ChunkPlan(rel, rest, embed, next).threw;
      if exists i :: 0 <= i < |chunks| && Fails(chunks[i], embed) {
        var i :| 0 <= i < |chunks| && Fails(chunks[i], embed);
        assert rest[i - 1] == chunks[i];
      }
      if exists i :: 0 <= i < |rest| && Fails(rest[i], embed) {
        var i :| 0 <= i < |rest| && Fails(rest[i], embed);
        assert chunks[i + 1] == rest[i];
      }
    }
  }

  /** A file whose chunk loop runs to the end adds exactly its kept
      documents to memory, in chunk order. */
  lemma FileDocuments(w: World, f: SourceFile, content: string, embed: string -> Option<seq<int>>)
    requires SourceText(f.path, content).Some? && !FileRun(f, content, embed).threw
    ensures Run(w, FilePlan(f, content, embed)).documents
      == w.documents + Kept(f.rel, TextUtils.Chunks(SourceText(f.path, content).value), embed)
  {
    var chunks := TextUtils.Chunks(SourceText(f.path, content).value);
    var r := FileRun(f, content, embed);
    var tail := FinalFlush(r.batch) + [MarkProcessed(f.rel), SaveCheckpoint, SaveIndex, SaveMetadata];
    ChunkPlanShape(f.rel, chunks, embed, EMPTY);
    ChunkPlanKept(f.rel, chunks, embed, EMPTY);
    assert FilePlan(f, content, embed) == r.acts + tail;
    RunDocuments(w, r.acts + tail);
    FlushedDocsAppend(r.acts, tail);
    TailDocs(r.batch, f.rel);
  }

  /** The effects after the chunk loop append the last batch and no other
      document. */
  lemma TailDocs(b: Batch, rel: string)
    requires WellSized(b)
    ensures FlushedDocs(FinalFlush(b) + [MarkProcessed(rel), SaveCheckpoint, SaveIndex, SaveMetadata]) == b.docs
  {
    var rest := [MarkProcessed(rel), SaveCheckpoint, SaveIndex, SaveMetadata];
    FlushedDocsAppend(FinalFlush(b), rest);
    var r1 := [MarkProcessed(rel)];
    var r2 := r1 + [SaveCheckpoint];
    var r3 := r2 + [SaveIndex];
    assert r1[..0] == [];
    assert FlushedDocs(r1) == [];
    assert r2[..1] == r1;
    assert FlushedDocs(r2) == [];
    assert r3[..2] == r2;
    assert FlushedDocs(r3) == [];
    assert (r3 + [SaveMetadata])[..3] == r3;
    assert r3 + [SaveMetadata] == rest;
    if b.emb == [] {
      assert |b.docs| == 0 by { TimesIsProduct(|b.docs|, EMBEDDING_DIM); }
    } else {
      assert FinalFlush(b)[..0] == [];
    }
  }

  /** The relative paths of the files. */
  function Rels(files: seq<SourceFile>): set<string>
    decreases |files|
  {
    if files == [] then {} else Rels(files[..|files| - 1]) + {files[|files| - 1].rel}
  }

  /** Every file of a scan ends up in the processed set, and nothing else
      is added to it. */
  lemma {:induction false} CycleMarksEveryFile(w: World, files: seq<SourceFile>, content: string -> string, embed: string -> Option<seq<int>>)
    ensures Run(w, CyclePlan(files, content, embed)).processed == w.processed + Rels(files)
    decreases |files|
  {
    if files != [] {
      var p := files[..|files| - 1];
      var f := files[|files| - 1];
      CycleMarksEveryFile(w, p, content, embed);
      RunAppend(w, CyclePlan(p, content, embed), FilePlan(f, content(f.path), embed));
      FileMarksProcessed(Run(w, CyclePlan(p, content, embed)), f, content(f.path), embed);
    }
  }

  /** Processing a file adds exactly that file to the processed set,
      whether it was indexed, yielded no text, or failed. */
  lemma FileMarksProcessed(w: World, f: SourceFile, content: string, embed: string -> Option<seq<int>>)
    ensures Run(w, FilePlan(f, content, embed)).processed == w.processed + {f.rel}
  {
    var plan := FilePlan(f, content, embed);
    if SourceText(f.path, content).None? {
      RunSnoc(w, [], MarkProcessed(f.rel));
      assert [] + [MarkProcessed(f.rel)] == plan;
    } else {
      var r := FileRun(f, content, embed);
      ChunkPlanEffects(w, f.rel, TextUtils.Chunks(SourceText(f.path, content).value), embed, EMPTY);
      var w1 := Run(w, r.acts);
      if r.threw {
        RunSnoc(w, r.acts, MarkProcessed(f.rel));
      } else {
        var tail := FinalFlush(r.batch) + [MarkProcessed(f.rel), SaveCheckpoint, SaveIndex, SaveMetadata];
        assert plan == r.acts + tail;
        RunAppend(w, r.acts, tail);
        TailMarks(w1, r.batch, f.rel);
      }
    }
  }

  /** The effects after the chunk loop add the file to the processed set,
      and to the checkpoint when the `data` directory exists; without it
      they leave the files as they were. */
  lemma TailMarks(w: World, b: Batch, rel: string)
    ensures var w' := Run(w, FinalFlush(b) + [MarkProcessed(rel), SaveCheckpoint, SaveIndex, SaveMetadata]);
      && w'.processed == w.processed + {rel}
      && (w.disk.dir ==> w'.disk.processed == w'.processed)
      && (!w.disk.dir ==> w'.disk == w.disk)
  {
    RunAppend(w, FinalFlush(b), [MarkProcessed(rel), SaveCheckpoint, SaveIndex, SaveMetadata]);
    if b.emb != [] {
      RunSnoc(w, [], Flush(b.emb, b.docs));
      assert [] + [Flush(b.emb, b.docs)] == FinalFlush(b);
    }
    FileEnd(Run(w, FinalFlush(b)), rel);
  }

  /** The last four effects of a file write all three files from memory,
      or, without the `data` directory, none of them. */
  lemma FileEnd(w: World, rel: string)
    ensures Run(w, [MarkProcessed(rel), SaveCheckpoint, SaveIndex, SaveMetadata])
      == w.(processed := w.processed + {rel},
            disk := if w.disk.dir then Disk(w.index, w.documents, w.processed + {rel}, true) else w.disk)
  {
    var m := MarkProcessed(rel);
    RunSnoc(w, [], m);
    assert [] + [m] == [m];
    RunSnoc(w, [m], SaveCheckpoint);
    assert [m] + [SaveCheckpoint] == [m, SaveCheckpoint];
    RunSnoc(w, [m, SaveCheckpoint], SaveIndex);
    assert [m, SaveCheckpoint] + [SaveIndex] == [m, SaveCheckpoint, SaveIndex];
    RunSnoc(w, [m, SaveCheckpoint, SaveIndex], SaveMetadata);
    assert [m, SaveCheckpoint, SaveIndex] + [SaveMetadata] == [m, SaveCheckpoint, SaveIndex, SaveMetadata];
  }

  // ---------------------------------------------------------------------
  // Crashes and failures

  /** A file whose chunk loop ran to the end: memory holds every batch of
      the file. When the `data` directory existed or the loop created it,
      both files match memory again and the checkpoint holds the processed
      set; otherwise the files are as they were. */
  lemma FileIndexed(w: World, f: SourceFile, content: string, embed: string -> Option<seq<int>>)
    requires Synced(w)
    requires SourceText(f.path, content).Some? && !FileRun(f, content, embed).threw
    ensures var w' := Run(w, FilePlan(f, content, embed));
      w'.documents == w.documents + Kept(f.rel, TextUtils.Chunks(SourceText(f.path, content).value), embed)
    ensures var w' := Run(w, FilePlan(f, content, embed));
      w.disk.dir || FileRun(f, content, embed).acts != [] ==> Synced(w') && w'.disk.processed == w'.processed
    ensures var w' := Run(w, FilePlan(f, content, embed));
      !w.disk.dir && FileRun(f, content, embed).acts == [] ==> w'.disk == w.disk
  {
    var r := FileRun(f, content, embed);
    var b := r.batch;
    var plan := FilePlan(f, content, embed);
    ChunkPlanEffects(w, f.rel, TextUtils.Chunks(SourceText(f.path, content).value), embed, EMPTY);
    ChunkPlanShape(f.rel, TextUtils.Chunks(SourceText(f.path, content).value), embed, EMPTY);
    var w1 := Run(w, r.acts);
    var rest := [MarkProcessed(f.rel), SaveCheckpoint, SaveIndex, SaveMetadata];
    assert plan == r.acts + (FinalFlush(b) + rest);
    RunAppend(w, r.acts, FinalFlush(b) + rest);
    RunAppend(w1, FinalFlush(b), rest);
    RunDocuments(w, r.acts);
    if b.emb != [] {
      RunSnoc(w1, [], Flush(b.emb, b.docs));
      assert [] + [Flush(b.emb, b.docs)] == FinalFlush(b);
    }
    FileEnd(Run(w1, FinalFlush(b)), f.rel);
    FileDocuments(w, f, content, embed);
  }

  /** A crash after the checkpoint is written and before the final save:
      the last, partial batch of the file's documents is in memory only,
      and, once the `data` directory exists, the checkpoint already names
      the file, so a restart neither has those documents nor scans the
      file again. */
  lemma CheckpointBeforeFinalSave(w: World, f: SourceFile, content: string, embed: string -> Option<seq<int>>)
    requires Synced(w)
    requires SourceText(f.path, content).Some? && !FileRun(f, content, embed).threw
    requires FileRun(f, content, embed).batch.emb != []
    ensures w.disk.dir || FileRun(f, content, embed).acts != [] ==> f.rel in BeforeFinalSave(w, f, content, embed).disk.processed
    ensures !w.disk.dir && FileRun(f, content, embed).acts == [] ==> BeforeFinalSave(w, f, content, embed).disk == w.disk
    ensures |FileRun(f, content, embed).batch.docs| > 0
    ensures BeforeFinalSave(w, f, content, embed).documents
         == Restarted(BeforeFinalSave(w, f, content, embed)).documents + FileRun(f, content, embed).batch.docs
    ensures (w.disk.dir || FileRun(f, content, embed).acts != []) && Trimmed(f.rel) && f.rel != [] ==>
      f.rel in Restarted(BeforeFinalSave(w, f, content, embed)).processed
  {
    var r := FileRun(f, content, embed);
    var b := r.batch;
    var plan := FilePlan(f, content, embed);
    ChunkPlanEffects(w, f.rel, TextUtils.Chunks(SourceText(f.path, content).value), embed, EMPTY);
    ChunkPlanShape(f.rel, TextUtils.Chunks(SourceText(f.path, content).value), embed, EMPTY);
    var w1 := Run(w, r.acts);
    var tail := [Flush(b.emb, b.docs), MarkProcessed(f.rel), SaveCheckpoint];
    assert plan[..|plan| - 2] == r.acts + tail;
    RunAppend(w, r.acts, tail);
    FlushThenCheckpoint(w1, b, f.rel);
    var c := BeforeFinalSave(w, f, content, embed);
    assert c == Run(w1, tail);
    if (w.disk.dir || r.acts != []) && Trimmed(f.rel) && f.rel != [] {
      TrimTrimmed(f.rel);
      assert Trim(f.rel) in TrimmedNames(c.disk.processed);
    }
  }

  /** The world when the service stops between the checkpoint write and
      the final save of the index. */
  function BeforeFinalSave(w: World, f: SourceFile, content: string, embed: string -> Option<seq<int>>): World
    requires SourceText(f.path, content).Some? && !FileRun(f, content, embed).threw
  {
    Run(w, FilePlan(f, content, embed)[..|FilePlan(f, content, embed)| - 2])
  }

  /** The last batch appended, the file marked and the checkpoint written:
      memory holds the batch, the files do not; the checkpoint names the
      file only when the `data` directory exists. */
  lemma FlushThenCheckpoint(w: World, b: Batch, rel: string)
    ensures Run(w, [Flush(b.emb, b.docs), MarkProcessed(rel), SaveCheckpoint]).documents == w.documents + b.docs
    ensures Run(w, [Flush(b.emb, b.docs), MarkProcessed(rel), SaveCheckpoint]).disk
         == if w.disk.dir then w.disk.(processed := w.processed + {rel}) else w.disk
  {
    var a := Flush(b.emb, b.docs);
    RunSnoc(w, [], a);
    assert [] + [a] == [a];
    RunSnoc(w, [a], MarkProcessed(rel));
    assert [a] + [MarkProcessed(rel)] == [a, MarkProcessed(rel)];
    RunSnoc(w, [a, MarkProcessed(rel)], SaveCheckpoint);
    assert [a, MarkProcessed(rel)] + [SaveCheckpoint] == [a, MarkProcessed(rel), SaveCheckpoint];
  }

  /** The documents a full batch and its saves append. */
  lemma FlushedGroup(e: seq<int>, d: seq<Document>)
    ensures FlushedDocs(Group(e, d)) == d
  {
    var g1 := [Flush(e, d)];
    var g2 := g1 + [CreateDataDir];
    var g3 := g2 + [SaveIndex];
    assert g1[..0] == [];
    assert FlushedDocs(g1) == d;
    assert g2[..1] == g1;
    assert FlushedDocs(g2) == d;
    assert g3[..2] == g2;
    assert FlushedDocs(g3) == d;
    assert (g3 + [SaveMetadata])[..3] == g3;
    assert g3 + [SaveMetadata] == Group(e, d);
  }

  /** When the chunk loop of a file appended a batch, the file's effects
      begin with that full batch of its documents, the directory created
      and the two saves. */
  lemma FirstGroup(f: SourceFile, content: string, embed: string -> Option<seq<int>>)
    requires SourceText(f.path, content).Some? && FileRun(f, content, embed).acts != []
    ensures var plan := FilePlan(f, content, embed);
      && |plan| >= 4 && plan[0].Flush? && |plan[0].docs| == BATCH_SIZE && NamedAfter(plan[0].docs, f.rel)
      && plan == Group(plan[0].emb, plan[0].docs) + plan[4..]
  {
    ChunkPlanShape(f.rel, TextUtils.Chunks(SourceText(f.path, content).value), embed, EMPTY);
    var plan := FilePlan(f, content, embed);
    assert plan[..4] == Group(plan[0].emb, plan[0].docs);
    assert plan == plan[..4] + plan[4..];
  }

  /** A crash after the first full batch of a file is saved: the index
      and metadata files hold that batch while the checkpoint does not name
      the file, so after a restart the file is processed again and its
      first batch is stored twice. */
  lemma MidFileCrashDuplicates(w: World, f: SourceFile, content: string, embed: string -> Option<seq<int>>)
    requires Synced(w)
    requires SourceText(f.path, content).Some? && FileRun(f, content, embed).acts != []
    ensures |FilePlan(f, content, embed)| >= 4
    ensures var plan := FilePlan(f, content, embed);
      var c := Run(w, plan[..4]);
      && plan[0].Flush? && |plan[0].docs| == BATCH_SIZE && NamedAfter(plan[0].docs, f.rel)
      && c.disk.documents == w.documents + plan[0].docs
      && c.disk.processed == w.disk.processed
      && |Run(Restarted(c), plan).documents| >= |w.documents| + 2 * BATCH_SIZE
      && Run(Restarted(c), plan).documents[|w.documents|..|w.documents| + 2 * BATCH_SIZE] == plan[0].docs + plan[0].docs
  {
    var plan := FilePlan(f, content, embed);
    FirstGroup(f, content, embed);
    var e := plan[0].emb;
    var d := plan[0].docs;
    var group := Group(e, d);
    assert plan[..4] == group;
    RunGroup(w, e, d);
    var c := Run(w, group);
    RunDocuments(Restarted(c), plan);
    FlushedDocsAppend(group, plan[4..]);
    FlushedGroup(e, d);
    var docs := Run(Restarted(c), plan).documents;
    assert docs == (w.documents + d + d) + FlushedDocs(plan[4..]);
    assert docs[|w.documents|..|w.documents| + 2 * BATCH_SIZE] == d + d;
  }

  /** A crash between the two saves of a full batch: after a restart the
      index holds BATCH_SIZE more vectors than there are documents, so the
      rows past the metadata have no document to name. */
  lemma IndexAheadOfMetadata(w: World, f: SourceFile, content: string, embed: string -> Option<seq<int>>)
    requires Synced(w) && w.index.numVectors == |w.documents|
    requires SourceText(f.path, content).Some? && FileRun(f, content, embed).acts != []
    ensures |FilePlan(f, content, embed)| >= 4
    ensures var plan := FilePlan(f, content, embed);
      var c := Restarted(Run(w, plan[..3]));
      c.index.numVectors == |c.documents| + BATCH_SIZE
  {
    var plan := FilePlan(f, content, embed);
    FirstGroup(f, content, embed);
    var a := plan[0];
    assert plan[..3] == [a, CreateDataDir] + [SaveIndex];
    RunSnoc(w, [], a);
    assert [] + [a] == [a];
    RunSnoc(w, [a], CreateDataDir);
    assert [a] + [CreateDataDir] == [a, CreateDataDir];
    RunSnoc(w, [a, CreateDataDir], SaveIndex);
  }

  /** A file whose chunk loop never fills a batch: nothing in it creates
      the `data` directory. */
  predicate NoFullBatch(f: SourceFile, content: string, embed: string -> Option<seq<int>>) {
    SourceText(f.path, content).None? || FileRun(f, content, embed).acts == []
  }

  /** Without the `data` directory, a file that never fills a batch leaves
      every file on disk as it was: its checkpoint, index and metadata
      writes all fail, though memory marks it processed. */
  lemma FileWithoutDataDir(w: World, f: SourceFile, content: string, embed: string -> Option<seq<int>>)
    requires !w.disk.dir && NoFullBatch(f, content, embed)
    ensures Run(w, FilePlan(f, content, embed)).disk == w.disk
    ensures f.rel in Run(w, FilePlan(f, content, embed)).processed
  {
    FileMarksProcessed(w, f, content, embed);
    var plan := FilePlan(f, content, embed);
    if SourceText(f.path, content).None? {
      RunSnoc(w, [], MarkProcessed(f.rel));
      assert [] + [MarkProcessed(f.rel)] == plan;
    } else {
      var r := FileRun(f, content, embed);
      if r.threw {
        RunSnoc(w, r.acts, MarkProcessed(f.rel));
      } else {
        assert plan == FinalFlush(r.batch) + [MarkProcessed(f.rel), SaveCheckpoint, SaveIndex, SaveMetadata];
        TailMarks(w, r.batch, f.rel);
      }
    }
  }

  /** A fresh install without the `data` directory: until some file fills
      a batch of 50, a scan persists nothing, so a restart after it starts
      from the same files and scans the same sources again. */
  lemma {:induction false} CycleWithoutDataDir(w: World, files: seq<SourceFile>, content: string -> string, embed: string -> Option<seq<int>>)
    requires !w.disk.dir
    requires forall i :: 0 <= i < |files| ==> NoFullBatch(files[i], content(files[i].path), embed)
    ensures Run(w, CyclePlan(files, content, embed)).disk == w.disk
    ensures Restarted(Run(w, CyclePlan(files, content, embed))) == Restarted(w)
    decreases |files|
  {
    if files != [] {
      var p := files[..|files| - 1];
      var f := files[|files| - 1];
      CycleWithoutDataDir(w, p, content, embed);
      RunAppend(w, CyclePlan(p, content, embed), FilePlan(f, content(f.path), embed));
      FileWithoutDataDir(Run(w, CyclePlan(p, content, embed)), f, content(f.path), embed);
    }
  }

  /** A failure inside the chunk loop: the file counts as processed in
      memory and is not scanned again, the checkpoint does not name it,
      and only the batches flushed before the failure are kept. */
  lemma FailureKeepsFlushedBatches(w: World, f: SourceFile, content: string, embed: string -> Option<seq<int>>)
    requires Synced(w)
    requires SourceText(f.path, content).Some? && FileRun(f, content, embed).threw
    ensures var w' := Run(w, FilePlan(f, content, embed));
      && f.rel in w'.processed && w'.disk.processed == w.disk.processed
      && Synced(w') && w'.documents == w.documents + FlushedDocs(FileRun(f, content, embed).acts)
  {
    var r := FileRun(f, content, embed);
    ChunkPlanEffects(w, f.rel, TextUtils.Chunks(SourceText(f.path, content).value), embed, EMPTY);
    RunSnoc(w, r.acts, MarkProcessed(f.rel));
    RunDocuments(w, r.acts);
  }
}
