/** What the collectors hold after any number of chunks, in any order, and why the pipelined, the
    batched and the sequential paths end with the same arrays. */
module Collection {
  import opened Chunking
  import opened Collector
  import opened Options

  /** The job: the files' decoded windows and, per file, window and speaker, the embedding, None for
      an inactive speaker. */
  datatype Job = Job(files: seq<seq<Window>>, cell: (nat, nat, nat) -> Option<Embedding>, speakers: nat, blank: Window)

  /** `e` is chunk `c` embedded window by window, speaker by speaker. */
  ghost predicate Embeds(job: Job, c: Chunk, e: EmbeddedChunk) {
    && WellFormed(e, job.speakers) && e.windows == c.windows
    && (forall k :: 0 <= k < |e.active| ==> e.active[k].0 < |c.windows|)
    && forall l: nat, s: nat :: l < |c.windows| && s < job.speakers ==>
         job.cell(c.file, c.start + l, s) ==
         if (l, s) in e.active then RowOf(e, l, s, job.speakers) else None
  }

  ghost function RowOf(e: EmbeddedChunk, l: nat, s: nat, speakers: nat): Option<Embedding>
    requires WellFormed(e, speakers) && (l, s) in e.active
  {
    assert exists k :: 0 <= k < |e.active| && e.active[k] == (l, s);
    Some(e.rows[MaskIndex(l, s, speakers)])
  }

  ghost predicate CoveredBy(chunks: seq<Chunk>, f: nat, i: nat) {
    exists k :: 0 <= k < |chunks| && Covers(chunks[k], f, i)
  }

  ghost function CountOf(chunks: seq<Chunk>, f: nat): nat {
    if |chunks| == 0 then 0
    else CountOf(chunks[..|chunks| - 1], f) + if chunks[|chunks| - 1].file == f then 1 else 0
  }

  ghost predicate SlotRight(job: Job, v: Slots, f: nat, i: nat)
    requires f < |job.files| && i < |v.seg| && i < |v.emb| && |v.emb[i]| == job.speakers
  {
    && i < |job.files[f]| && v.seg[i] == job.files[f][i]
    && forall s: nat :: s < job.speakers ==> v.emb[i][s] == job.cell(f, i, s)
  }

  ghost predicate SlotBlank(job: Job, v: Slots, i: nat)
    requires i < |v.seg| && i < |v.emb| && |v.emb[i]| == job.speakers
  {
    v.seg[i] == job.blank && forall s: nat :: s < job.speakers ==> v.emb[i][s] == None
  }

  /** The arrays of file f's collector once `chunks` have gone by: every slot of a chunk of the file
      holds its window and embeddings, every other slot is blank, whatever the order was. */
  ghost predicate Collected(job: Job, v: Slots, chunks: seq<Chunk>, f: nat, n: nat)
    requires f < |job.files|
  {
    && v.Shape(n, job.speakers) && n >= |job.files[f]|
    && (forall i: nat :: i < n && CoveredBy(chunks, f, i) ==> SlotRight(job, v, f, i) && i < v.used)
    && (forall i: nat :: i < n && !CoveredBy(chunks, f, i) ==> SlotBlank(job, v, i))
    && v.used <= |job.files[f]| && (v.used > 0 ==> CoveredBy(chunks, f, v.used - 1))
    && v.received == CountOf(chunks, f)
  }

  lemma CoveredStep(chunks: seq<Chunk>, c: Chunk, f: nat, i: nat)
    ensures CoveredBy(chunks + [c], f, i) <==> CoveredBy(chunks, f, i) || Covers(c, f, i)
  {
    var all := chunks + [c];
    if CoveredBy(chunks, f, i) {
      var k :| 0 <= k < |chunks| && Covers(chunks[k], f, i);
      assert Covers(all[k], f, i);
    }
    if Covers(c, f, i) {
      assert Covers(all[|chunks|], f, i);
    }
  }

  lemma CountStep(chunks: seq<Chunk>, c: Chunk, f: nat)
    ensures CountOf(chunks + [c], f) == CountOf(chunks, f) + if c.file == f then 1 else 0
  {
    assert (chunks + [c])[..|chunks|] == chunks;
  }

  lemma NothingCollected(job: Job, f: nat, n: nat)
    requires f < |job.files| && n >= |job.files[f]|
    ensures Collected(job, Empty(n, job.speakers, job.blank), [], f, n)
  {
  }

  lemma SlotAfterAdd(job: Job, v: Slots, chunks: seq<Chunk>, c: Chunk, e: EmbeddedChunk, n: nat, i: nat)
    requires c.file < |job.files| && Collected(job, v, chunks, c.file, n)
    requires IsStretch(job.files, c) && Embeds(job, c, e) && i < n
    ensures var after := Added(v, c.start, e, n, job.speakers);
            if CoveredBy(chunks + [c], c.file, i) then SlotRight(job, after, c.file, i) && i < after.used
            else SlotBlank(job, after, i)
  {
    var after := Added(v, c.start, e, n, job.speakers);
    CoveredStep(chunks, c, c.file, i);
    if Covers(c, c.file, i) {
      var l := i - c.start;
      forall s: nat | s < job.speakers
        ensures after.emb[i][s] == job.cell(c.file, i, s)
      {
        assert job.cell(c.file, c.start + l, s) == if (l, s) in e.active then RowOf(e, l, s, job.speakers) else None;
        if (l, s) !in e.active {
          StillNone(job, v, chunks, c, n, i, s);
        }
      }
    } else {
      forall s: nat | s < job.speakers
        ensures after.emb[i][s] == v.emb[i][s]
      {
        assert i >= c.start ==> forall k :: 0 <= k < |e.active| ==> e.active[k].0 != i - c.start;
      }
    }
  }

  /** A slot about to be written for an inactive speaker holds no embedding. */
  lemma StillNone(job: Job, v: Slots, chunks: seq<Chunk>, c: Chunk, n: nat, i: nat, s: nat)
    requires c.file < |job.files| && Collected(job, v, chunks, c.file, n)
    requires i < n && s < job.speakers && job.cell(c.file, i, s) == None
    ensures v.emb[i][s] == None
  {
    if CoveredBy(chunks, c.file, i) {
      assert SlotRight(job, v, c.file, i);
    } else {
      assert SlotBlank(job, v, i);
    }
  }

  /** Adding one more chunk of the file keeps the collector right. */
  lemma AddKeepsCollected(job: Job, v: Slots, chunks: seq<Chunk>, c: Chunk, e: EmbeddedChunk, n: nat)
    requires c.file < |job.files| && Collected(job, v, chunks, c.file, n)
    requires IsStretch(job.files, c) && Embeds(job, c, e)
    ensures Collected(job, Added(v, c.start, e, n, job.speakers), chunks + [c], c.file, n)
  {
    var after := Added(v, c.start, e, n, job.speakers);
    forall i: nat | i < n
      ensures if CoveredBy(chunks + [c], c.file, i) then SlotRight(job, after, c.file, i) && i < after.used
              else SlotBlank(job, after, i)
    {
      SlotAfterAdd(job, v, chunks, c, e, n, i);
    }
    CountStep(chunks, c, c.file);
    if after.used == c.start + |c.windows| {
      CoveredStep(chunks, c, c.file, after.used - 1);
    } else if v.used > 0 {
      CoveredStep(chunks, c, c.file, v.used - 1);
    }
  }

  /** A chunk of another file changes nothing. */
  lemma OtherFileKeepsCollected(job: Job, v: Slots, chunks: seq<Chunk>, c: Chunk, f: nat, n: nat)
    requires f < |job.files| && c.file != f && Collected(job, v, chunks, f, n)
    ensures Collected(job, v, chunks + [c], f, n)
  {
    forall i: nat
      ensures CoveredBy(chunks + [c], f, i) <==> CoveredBy(chunks, f, i)
    {
      CoveredStep(chunks, c, f, i);
    }
    CountStep(chunks, c, f);
  }

  // --- When a file is complete ----------------------------------------------------------------

  lemma {:induction false} ChunkInAll(capacity: nat, files: seq<seq<Window>>, from: nat, f: nat, c: Chunk)
    requires capacity > 0 && from <= f < |files| && c in ChunksFrom(capacity, f, 0, files[f])
    ensures c in AllFrom(capacity, files, from)
    decreases |files| - from
  {
    if from < f {
      ChunkInAll(capacity, files, from + 1, f, c);
    }
  }

  /** The arrays cut to the slots in use are the file's windows and embeddings. */
  ghost predicate IsComplete(job: Job, v: Slots, f: nat)
    requires f < |job.files|
  {
    && v.used == |job.files[f]| && v.used <= |v.seg| && v.used <= |v.emb|
    && v.seg[..v.used] == job.files[f]
    && (forall i: nat :: i < v.used ==> |v.emb[i]| == job.speakers)
    && forall i: nat, s: nat :: i < v.used && s < job.speakers ==> v.emb[i][s] == job.cell(f, i, s)
  }

  /** Once every chunk of the file has been added the collector is complete. */
  lemma AllAddedIsComplete(job: Job, capacity: nat, v: Slots, chunks: seq<Chunk>, f: nat, n: nat)
    requires capacity > 0 && f < |job.files| && Collected(job, v, chunks, f, n)
    requires forall c :: c in ChunksFrom(capacity, f, 0, job.files[f]) ==> c in chunks
    ensures IsComplete(job, v, f)
  {
    forall i: nat | i < |job.files[f]|
      ensures CoveredBy(chunks, f, i) && SlotRight(job, v, f, i) && i < v.used
    {
      var c := ChunksCoverAll(capacity, f, 0, job.files[f], i);
      var k :| 0 <= k < |chunks| && chunks[k] == c;
      assert Covers(chunks[k], f, i);
    }
    if |job.files[f]| > 0 {
      assert CoveredBy(chunks, f, |job.files[f]| - 1);
    }
    assert v.used == |job.files[f]|;
    assert v.seg[..v.used] == job.files[f] by {
      forall i: nat | i < v.used
        ensures v.seg[i] == job.files[f][i]
      {
        assert CoveredBy(chunks, f, i);
      }
    }
    forall i: nat, s: nat | i < v.used && s < job.speakers
      ensures v.emb[i][s] == job.cell(f, i, s)
    {
      assert CoveredBy(chunks, f, i);
    }
  }
}
