/** From prepared chunks to finished files: what preparation, the channels and the collectors give
    together, in every interleaving. */
module ChunkRun {
  import opened BatchCollection
  import opened BatchedEmbedding
  import opened ChunkPipeline
  import opened ChunkPreparation
  import opened Chunking
  import opened Collection
  import opened Collector
  import opened CollectorLoops
  import opened Counting
  import opened Options
  import opened Strides

  /** The pipeline with what each chunk is embedded from: the model over the audio of its windows, its
      filterbank, and the number of masks of a prediction. */
  datatype Setup = Setup(cfg: Config, model: Chunk -> Model, fbank: Chunk -> Filterbank, numMasks: nat,
                         speakers: nat, blank: Window)
  {
    ghost function All(): seq<Chunk>
      requires cfg.Valid()
    {
      AllFrom(cfg.capacity, cfg.files, 0)
    }

    ghost predicate Decodes(c: Chunk) {
      model(c).speakers == speakers && Decoded(model(c), c.windows)
    }

    /** There is a worker, and a mask for every window and speaker of a chunk. */
    ghost predicate Valid() {
      && cfg.Valid() && cfg.workers > 0 && Multiple(cfg.capacity, speakers) <= numMasks
      && forall c :: c in All() ==> Decodes(c)
    }
  }

  // --- The cells the chunks stand for -----------------------------------------------------------

  /** The chunk of a file tail that covers window i. */
  ghost function ChunkOf(capacity: nat, f: nat, start: nat, ws: seq<Window>, i: nat): (c: Chunk)
    requires capacity > 0 && start <= i < start + |ws|
    decreases |ws|
  {
    var n := Min(capacity, |ws|);
    if i < start + n then Chunk(f, start, ws[..n]) else ChunkOf(capacity, f, start + capacity, ws[n..], i)
  }

  lemma {:induction false} ChunkOfIsUnique(capacity: nat, f: nat, start: nat, ws: seq<Window>, c: Chunk, i: nat)
    requires capacity > 0 && c in ChunksFrom(capacity, f, start, ws) && Covers(c, f, i)
    ensures start <= i < start + |ws| && ChunkOf(capacity, f, start, ws, i) == c
    decreases |ws|
  {
    var n := Min(capacity, |ws|);
    if c != Chunk(f, start, ws[..n]) {
      ChunksDistinct(capacity, f, start + capacity, ws[n..]);
      ChunkOfIsUnique(capacity, f, start + capacity, ws[n..], c, i);
    }
  }

  ghost function CellIn(setup: Setup, c: Chunk, l: nat, s: nat): Option<seq<real>> {
    var m := setup.model(c);
    if Decoded(m, c.windows) && l < |c.windows| && s < m.speakers then ChunkCell(c, m, setup.fbank(c), l, s) else None
  }

  ghost function CellAt(setup: Setup, f: nat, i: nat, s: nat): Option<seq<real>> {
    if setup.cfg.capacity > 0 && f < |setup.cfg.files| && i < |setup.cfg.files[f]| then
      var c := ChunkOf(setup.cfg.capacity, f, 0, setup.cfg.files[f], i);
      if c.start <= i then CellIn(setup, c, i - c.start, s) else None
    else None
  }

  ghost function JobOf(setup: Setup): Job {
    Job(setup.cfg.files, (f: nat, i: nat, s: nat) => CellAt(setup, f, i, s), setup.speakers, setup.blank)
  }

  lemma ChunkHasCells(setup: Setup, c: Chunk)
    requires setup.Valid() && c in setup.All()
    ensures setup.Decodes(c) && c.file < |setup.cfg.files|
    ensures CellsOfChunk(JobOf(setup), c, setup.model(c), setup.fbank(c))
  {
    var f := ChunkInItsFile(setup.cfg.capacity, setup.cfg.files, 0, c);
    forall l: nat, s: nat | l < |c.windows| && s < setup.speakers
      ensures JobOf(setup).cell(f, c.start + l, s) == ChunkCell(c, setup.model(c), setup.fbank(c), l, s)
    {
      ChunkOfIsUnique(setup.cfg.capacity, f, 0, setup.cfg.files[f], c, c.start + l);
    }
  }

  lemma {:induction false} ChunkInItsFile(capacity: nat, files: seq<seq<Window>>, from: nat, c: Chunk) returns (f: nat)
    requires capacity > 0 && from <= |files| && c in AllFrom(capacity, files, from)
    ensures f == c.file < |files| && c in ChunksFrom(capacity, f, 0, files[f])
    decreases |files| - from
  {
    if c in ChunksFrom(capacity, from, 0, files[from]) {
      ChunksDistinct(capacity, from, 0, files[from]);
      f := from;
    } else {
      f := ChunkInItsFile(capacity, files, from + 1, c);
    }
  }

  lemma {:induction false} ChunkFits(capacity: nat, f: nat, start: nat, ws: seq<Window>, c: Chunk)
    requires capacity > 0 && c in ChunksFrom(capacity, f, start, ws)
    ensures |c.windows| <= capacity
    decreases |ws|
  {
    var n := Min(capacity, |ws|);
    if c != Chunk(f, start, ws[..n]) {
      ChunkFits(capacity, f, start + capacity, ws[n..], c);
    }
  }

  /** Preparation and prediction give every chunk of the run the embeddings of its own windows. */
  lemma RunEmbeds(setup: Setup, c: Chunk, e: EmbeddedChunk)
    requires setup.Valid() && c in setup.All()
    requires EmbeddedFrom(setup.model(c), setup.fbank(c), c.windows, setup.numMasks, e)
    ensures Embeds(JobOf(setup), c, e)
  {
    var f := ChunkInItsFile(setup.cfg.capacity, setup.cfg.files, 0, c);
    ChunkFits(setup.cfg.capacity, f, 0, setup.cfg.files[f], c);
    ChunkHasCells(setup, c);
    if |c.windows| < setup.cfg.capacity {
      MultipleIncreases(|c.windows|, setup.cfg.capacity, setup.speakers);
    }
    PreparedChunkEmbeds(JobOf(setup), c, setup.model(c), setup.fbank(c), setup.numMasks, e);
  }

  // --- The files at the end -----------------------------------------------------------------------

  /** Every window of the file in its place, and for every chunk, window and speaker the embedding the
      chunk model gives that speaker's selected weights, or none. */
  ghost predicate HoldsFile(setup: Setup, v: Slots, f: nat)
    requires setup.Valid() && f < |setup.cfg.files|
  {
    && v.used == |setup.cfg.files[f]| && v.used <= |v.seg| && v.used <= |v.emb|
    && v.seg[..v.used] == setup.cfg.files[f]
    && forall c :: c in setup.All() && c.file == f ==> HoldsChunk(setup, v, c)
  }

  ghost predicate HoldsChunk(setup: Setup, v: Slots, c: Chunk) {
    && c.start + |c.windows| <= |v.emb|
    && forall l: nat, s: nat :: l < |c.windows| && s < setup.speakers ==>
         s < |v.emb[c.start + l]| && v.emb[c.start + l][s] == CellIn(setup, c, l, s)
  }

  lemma CompleteHoldsFile(setup: Setup, v: Slots, f: nat)
    requires setup.Valid() && f < |setup.cfg.files| && IsComplete(JobOf(setup), v, f)
    ensures HoldsFile(setup, v, f)
  {
    AllDistinct(setup.cfg.capacity, setup.cfg.files, 0);
    forall c | c in setup.All() && c.file == f
      ensures HoldsChunk(setup, v, c)
    {
      ChunkHasCells(setup, c);
      forall l: nat, s: nat | l < |c.windows| && s < setup.speakers
        ensures s < |v.emb[c.start + l]| && v.emb[c.start + l][s] == CellIn(setup, c, l, s)
      {
        assert JobOf(setup).cell(c.file, c.start + l, s) == ChunkCell(c, setup.model(c), setup.fbank(c), l, s);
      }
    }
  }

  /** The message carries a chunk of the run, prepared and predicted. */
  ghost predicate Delivered(setup: Setup, message: Tagged, c: Chunk)
    requires setup.Valid()
  {
    && Numbered(setup.cfg.files, setup.cfg.capacity, message, c) && setup.Decodes(c)
    && EmbeddedFrom(setup.model(c), setup.fbank(c), c.windows, setup.numMasks, message.embedded)
  }

  lemma DeliveredIsTagged(setup: Setup, message: Tagged, c: Chunk)
    requires setup.Valid() && c in setup.All() && Delivered(setup, message, c)
    ensures IsTagged(JobOf(setup), setup.cfg.capacity, message, c)
  {
    RunEmbeds(setup, c, message.embedded);
  }

  lemma DeliveredChunk(setup: Setup, t: State, k: nat)
    requires setup.Valid() && Reachable(setup.cfg, t) && t.collectorDone && k < |t.delivered|
    ensures t.delivered[k] in setup.All()
  {
    FinishedDeliversAll(setup.cfg, t);
    assert t.delivered[k] in multiset(t.delivered);
    assert t.delivered[k] in multiset(setup.All());
  }

  /** In every run of the many-file pipeline, whoever prepared the chunks and in whatever order they
      arrived, each file ends with its own windows and embeddings. */
  method CollectPrepared(plan: Plan, messages: seq<Tagged>, ghost setup: Setup, ghost t: State)
    returns (results: seq<Option<Slots>>, filesComplete: nat)
    requires setup.Valid() && Reachable(setup.cfg, t) && t.collectorDone
    requires plan.For(JobOf(setup)) && plan.capacity == setup.cfg.capacity
    requires |messages| == |t.delivered|
    requires forall k :: 0 <= k < |messages| ==> Delivered(setup, messages[k], t.delivered[k])
    ensures filesComplete == |results| == |setup.cfg.files|
    ensures forall f :: 0 <= f < |results| ==> results[f].Some? && HoldsFile(setup, results[f].value, f)
  {
    forall k | 0 <= k < |messages|
      ensures IsTagged(JobOf(setup), setup.cfg.capacity, messages[k], t.delivered[k])
    {
      DeliveredChunk(setup, t, k);
      DeliveredIsTagged(setup, messages[k], t.delivered[k]);
    }
    results, filesComplete := CollectRun(plan, messages, JobOf(setup), setup.cfg, t);
    forall f | 0 <= f < |results|
      ensures HoldsFile(setup, results[f].value, f)
    {
      CompleteHoldsFile(setup, results[f].value, f);
    }
  }

  // --- One file -----------------------------------------------------------------------------------

  ghost predicate DeliveredAt(setup: Setup, message: Placed, c: Chunk)
    requires setup.Valid()
  {
    && message.start == c.start && setup.Decodes(c)
    && EmbeddedFrom(setup.model(c), setup.fbank(c), c.windows, setup.numMasks, message.embedded)
  }

  /** The same for the single-file pipeline, whose chunks carry their slot. */
  method CollectPreparedFile(messages: seq<Placed>, maxSlots: nat, speakers: nat, blank: Window,
                             ghost setup: Setup, ghost t: State)
    returns (result: Slots)
    requires setup.Valid() && Reachable(setup.cfg, t) && t.collectorDone
    requires |setup.cfg.files| == 1 && maxSlots >= |setup.cfg.files[0]|
    requires speakers == setup.speakers && blank == setup.blank
    requires |messages| == |t.delivered|
    requires forall k :: 0 <= k < |messages| ==> DeliveredAt(setup, messages[k], t.delivered[k])
    ensures HoldsFile(setup, result, 0)
  {
    ghost var job := JobOf(setup);
    AllDistinct(setup.cfg.capacity, setup.cfg.files, 0);
    forall k | 0 <= k < |messages|
      ensures IsMessage(job, messages[k], t.delivered[k])
    {
      DeliveredChunk(setup, t, k);
      RunEmbeds(setup, t.delivered[k], messages[k].embedded);
    }
    result := RunPipelined(messages, maxSlots, speakers, blank, job, t.delivered);
    PipelinedIsComplete(setup.cfg, t, job, result, maxSlots);
    CompleteHoldsFile(setup, result, 0);
  }
}
