/** The pipelined and the sequential loop over one file's embedded chunks, and counting the chunks of a file. */
module CollectorLoops {
  import opened ChunkPipeline
  import opened Chunking
  import opened Collection
  import opened Collector
  import opened Counting
  import opened SequentialFeed

  /** An embedded chunk of the only file, with the slot of its first window. */
  datatype Placed = Placed(start: nat, embedded: EmbeddedChunk)

  ghost predicate IsMessage(job: Job, p: Placed, c: Chunk) {
    p.start == c.start && IsStretch(job.files, c) && Embeds(job, c, p.embedded)
  }

  /** The messages carry these chunks of the job, in this order. */
  ghost predicate Carries(job: Job, messages: seq<Placed>, chunks: seq<Chunk>) {
    && |messages| == |chunks|
    && forall k :: 0 <= k < |chunks| ==> IsMessage(job, messages[k], chunks[k])
  }

  lemma OneMore(chunks: seq<Chunk>, k: nat)
    requires k < |chunks|
    ensures chunks[..k + 1] == chunks[..k] + [chunks[k]]
  {
  }

  /** Give the collector of the only file one more chunk, at the slot where that chunk starts. */
  method AddChunk(collector: FileCollector, start: nat, e: EmbeddedChunk, ghost job: Job, ghost done: seq<Chunk>,
                  ghost c: Chunk)
    requires |job.files| == 1 && IsStretch(job.files, c) && c.file == 0 && Embeds(job, c, e) && start == c.start
    requires collector.Valid() && collector.speakers == job.speakers
    requires Collected(job, collector.View(), done, 0, collector.slots)
    modifies collector, collector.segArray, collector.embArray
    ensures collector.Valid() && Collected(job, collector.View(), done + [c], 0, collector.slots)
  {
    AddKeepsCollected(job, collector.View(), done, c, e, collector.slots);
    collector.AddAt(start, e);
  }

  // --- One file, chunks in the order they arrive ----------------------------------------------

  method RunPipelined(messages: seq<Placed>, maxSlots: nat, speakers: nat, blank: Window, ghost job: Job,
                      ghost chunks: seq<Chunk>)
    returns (result: Slots)
    requires |job.files| == 1 && maxSlots >= |job.files[0]| && job.speakers == speakers && job.blank == blank
    requires Carries(job, messages, chunks)
    ensures Collected(job, result, chunks, 0, maxSlots)
  {
    var collector := new FileCollector(maxSlots, blank, speakers, |messages|);
    NothingCollected(job, 0, maxSlots);
    for k := 0 to |messages|
      invariant fresh(collector) && fresh(collector.segArray) && fresh(collector.embArray)
      invariant collector.Valid() && collector.slots == maxSlots && collector.speakers == speakers
      invariant Collected(job, collector.View(), chunks[..k], 0, maxSlots)
    {
      assert IsMessage(job, messages[k], chunks[k]);
      OneMore(chunks, k);
      AddChunk(collector, messages[k].start, messages[k].embedded, job, chunks[..k], chunks[k]);
    }
    assert chunks[..|messages|] == chunks;
    result := Slots(collector.segArray[..], collector.embArray[..], collector.maxSlotUsed, collector.chunksReceived);
  }

  // --- One file, chunks in file order ---------------------------------------------------------

  /** Where the first k chunks end, counted in windows from `start`. */
  ghost function EndOf(chunks: seq<Chunk>, start: nat, k: nat): nat
    requires k <= |chunks|
  {
    if k == 0 then start else chunks[k - 1].start + |chunks[k - 1].windows|
  }

  /** The chunks of a file follow on one another without a gap. */
  lemma {:induction false} ChunksFollowOn(capacity: nat, f: nat, start: nat, ws: seq<Window>, k: nat)
    requires capacity > 0 && k <= |ChunksFrom(capacity, f, start, ws)|
    ensures var chunks := ChunksFrom(capacity, f, start, ws);
            EndOf(chunks, start, k) == if k < |chunks| then chunks[k].start else start + |ws|
    decreases k
  {
    if k == 0 {
    } else {
      ChunksFollowOn(capacity, f, start + capacity, ws[Min(capacity, |ws|)..], k - 1);
    }
  }

  method CollectInOrder(messages: seq<Placed>, maxSlots: nat, speakers: nat, blank: Window, ghost capacity: nat,
                        ghost job: Job)
    returns (result: Slots, numChunks: nat)
    requires |job.files| == 1 && maxSlots >= |job.files[0]| && job.speakers == speakers && job.blank == blank
    requires capacity > 0 && Carries(job, messages, ChunksFrom(capacity, 0, 0, job.files[0]))
    ensures IsComplete(job, result, 0) && numChunks == result.used == |job.files[0]|
  {
    ghost var chunks := ChunksFrom(capacity, 0, 0, job.files[0]);
    var collector := new FileCollector(maxSlots, blank, speakers, |messages|);
    NothingCollected(job, 0, maxSlots);
    var seqIdx := 0;
    for k := 0 to |messages|
      invariant fresh(collector) && fresh(collector.segArray) && fresh(collector.embArray)
      invariant collector.Valid() && collector.slots == maxSlots && collector.speakers == speakers
      invariant Collected(job, collector.View(), chunks[..k], 0, maxSlots)
      invariant seqIdx == EndOf(chunks, 0, k)
    {
      assert IsMessage(job, messages[k], chunks[k]);
      ChunksFollowOn(capacity, 0, 0, job.files[0], k);
      OneMore(chunks, k);
      AddChunk(collector, seqIdx, messages[k].embedded, job, chunks[..k], chunks[k]);
      seqIdx := seqIdx + |messages[k].embedded.windows|;
    }
    assert chunks[..|messages|] == chunks;
    ChunksFollowOn(capacity, 0, 0, job.files[0], |messages|);
    AllAddedIsComplete(job, capacity, collector.View(), chunks, 0, maxSlots);
    result := Slots(collector.segArray[..], collector.embArray[..], collector.maxSlotUsed, collector.chunksReceived);
    numChunks := seqIdx;
  }

  /** The only file's chunks, in file order, are all the chunks there are. */
  lemma OnlyFile(capacity: nat, files: seq<seq<Window>>)
    requires capacity > 0 && |files| == 1
    ensures AllFrom(capacity, files, 0) == ChunksFrom(capacity, 0, 0, files[0])
  {
    assert AllFrom(capacity, files, 1) == [];
  }

  /** The loop keeps its own running index and never looks at a chunk's start. It is handed the chunks
      it took in some run of the segmentation thread, the bridge and itself. */
  method RunSequentialChunks(messages: seq<Placed>, maxSlots: nat, speakers: nat, blank: Window,
                             ghost job: Job, ghost cfg: Config, ghost moves: seq<Move>, ghost t: State)
    returns (result: Slots, numChunks: nat)
    requires |job.files| == 1 && maxSlots >= |job.files[0]| && job.speakers == speakers && job.blank == blank
    requires cfg.Valid() && cfg.files == job.files && Runs(cfg, Init(cfg), moves, t) && Drained(cfg, t)
    requires Carries(job, messages, t.delivered)
    ensures IsComplete(job, result, 0) && numChunks == result.used == |job.files[0]|
  {
    TakenInFileOrder(cfg, moves, t);
    OnlyFile(cfg.capacity, cfg.files);
    result, numChunks := CollectInOrder(messages, maxSlots, speakers, blank, cfg.capacity, job);
  }

  /** A complete collector leaves no freedom: same count, same windows, same embeddings. */
  lemma CompleteIsUnique(job: Job, v: Slots, w: Slots, f: nat)
    requires f < |job.files| && IsComplete(job, v, f) && IsComplete(job, w, f)
    ensures v.used == w.used && v.seg[..v.used] == w.seg[..w.used] && v.emb[..v.used] == w.emb[..w.used]
  {
    forall i: nat | i < v.used
      ensures v.emb[i] == w.emb[i]
    {
      assert |v.emb[i]| == |w.emb[i]| == job.speakers;
      assert forall s: nat :: s < job.speakers ==> v.emb[i][s] == job.cell(f, i, s) && w.emb[i][s] == job.cell(f, i, s);
    }
  }

  lemma PipelinedIsComplete(cfg: Config, t: State, job: Job, pipelined: Slots, maxSlots: nat)
    requires cfg.Valid() && cfg.workers > 0 && Reachable(cfg, t) && t.collectorDone
    requires job.files == cfg.files && |cfg.files| == 1
    requires Collected(job, pipelined, t.delivered, 0, maxSlots)
    ensures IsComplete(job, pipelined, 0)
  {
    FinishedDeliversAll(cfg, t);
    forall c | c in ChunksFrom(cfg.capacity, 0, 0, job.files[0])
      ensures c in t.delivered
    {
      ChunkInAll(cfg.capacity, job.files, 0, 0, c);
      assert c in multiset(AllFrom(cfg.capacity, cfg.files, 0));
      assert c in multiset(t.delivered);
    }
    AllAddedIsComplete(job, cfg.capacity, pipelined, t.delivered, 0, maxSlots);
  }

  /** Whatever the interleaving of bridge, workers and GPU worker, the arrays the pipelined loop ends
      with are those of the sequential loop. */
  lemma PipelinedEqualsSequential(cfg: Config, t: State, job: Job, pipelined: Slots, sequential: Slots, maxSlots: nat)
    requires cfg.Valid() && cfg.workers > 0 && Reachable(cfg, t) && t.collectorDone
    requires job.files == cfg.files && |cfg.files| == 1
    requires Collected(job, pipelined, t.delivered, 0, maxSlots)
    requires IsComplete(job, sequential, 0)
    ensures IsComplete(job, pipelined, 0)
    ensures pipelined.used == sequential.used
    ensures pipelined.seg[..pipelined.used] == sequential.seg[..sequential.used]
    ensures pipelined.emb[..pipelined.used] == sequential.emb[..sequential.used]
  {
    PipelinedIsComplete(cfg, t, job, pipelined, maxSlots);
    CompleteIsUnique(job, pipelined, sequential, 0);
  }

  // --- Many files, chunks of all files mixed --------------------------------------------------

  lemma {:induction false} CountAppended(x: seq<Chunk>, y: seq<Chunk>, f: nat)
    ensures CountOf(x + y, f) == CountOf(x, f) + CountOf(y, f)
    decreases |y|
  {
    if |y| == 0 {
      assert x + y == x;
    } else {
      CountAppended(x, y[..|y| - 1], f);
      assert (x + y)[..|x + y| - 1] == x + y[..|y| - 1];
    }
  }

  lemma {:induction false} CountReorders(x: seq<Chunk>, y: seq<Chunk>, f: nat)
    requires multiset(x) == multiset(y)
    ensures CountOf(x, f) == CountOf(y, f)
    decreases |x|
  {
    assert |x| == |multiset(x)| == |y|;
    if |x| == 0 {
    } else {
      var front, last := x[..|x| - 1], x[|x| - 1];
      assert x == front + [last];
      assert last in multiset(y);
      var k :| 0 <= k < |y| && y[k] == last;
      assert y == y[..k] + ([last] + y[k + 1..]);
      var rest := y[..k] + y[k + 1..];
      assert multiset(front) == multiset(x) - multiset{last};
      assert multiset(rest) == multiset(y) - multiset{last};
      CountReorders(front, rest, f);
      CountAppended(y[..k], [last] + y[k + 1..], f);
      CountAppended([last], y[k + 1..], f);
      CountAppended(y[..k], y[k + 1..], f);
    }
  }

  lemma {:induction false} CountUniform(x: seq<Chunk>, g: nat, f: nat)
    requires forall c :: c in x ==> c.file == g
    ensures CountOf(x, f) == if f == g then |x| else 0
  {
    if |x| == 0 {
    } else {
      CountUniform(x[..|x| - 1], g, f);
    }
  }

  /** Among all chunks, those of file f number its windows over the capacity, rounded up. */
  lemma {:induction false} CountInAll(capacity: nat, files: seq<seq<Window>>, from: nat, f: nat)
    requires capacity > 0 && from <= |files|
    ensures CountOf(AllFrom(capacity, files, from), f)
         == if from <= f < |files| then DivCeil(|files[f]|, capacity) else 0
    decreases |files| - from
  {
    if from < |files| {
      CountInAll(capacity, files, from + 1, f);
      ChunksDistinct(capacity, from, 0, files[from]);
      CountUniform(ChunksFrom(capacity, from, 0, files[from]), from, f);
      ChunkCount(capacity, from, 0, files[from]);
      CountAppended(ChunksFrom(capacity, from, 0, files[from]), AllFrom(capacity, files, from + 1), f);
    }
  }

  lemma {:induction false} CountedIfPresent(x: seq<Chunk>, c: Chunk)
    requires c in x
    ensures CountOf(x, c.file) > 0
  {
    var front, last := x[..|x| - 1], x[|x| - 1];
    assert x == front + [last];
    if c != last {
      CountedIfPresent(front, c);
    }
  }
}
