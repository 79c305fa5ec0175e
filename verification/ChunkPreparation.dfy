/** Masks and active list of a chunk before it is embedded, and why the embedded chunk then holds each
    window's and speaker's own embedding. */
module ChunkPreparation {
  import opened BatchedEmbedding
  import opened Chunking
  import opened Collection
  import opened Collector
  import opened MultiMask
  import opened Options
  import opened SpeakerMasks
  import opened Strides

  /** Frames of one mask row. */
  const MASK_FRAMES: nat := 589

  ghost predicate Framed(windows: seq<Window>) {
    forall l :: 0 <= l < |windows| ==> |windows[l]| == MASK_FRAMES
  }

  /** Slots from (l0, s0) on, in window-major order, have not been visited yet. */
  ghost predicate ActiveBefore(m: Model, windows: seq<Window>, numMasks: nat, active: seq<(nat, nat)>, l0: nat, s0: nat)
    requires Decoded(m, windows)
  {
    forall l: nat, s: nat :: (l, s) in active <==>
      && l < |windows| && s < m.speakers && Before(l, s, l0, s0) && At(l, s, m.speakers) < numMasks
      && WeightsOf(m, windows, l, s).Some?
  }

  /** Visited slots hold their masks, and the rest of the buffer is zero. */
  ghost predicate MasksBefore(m: Model, windows: seq<Window>, numMasks: nat, masks: seq<real>, l0: nat, s0: nat)
    requires Decoded(m, windows)
  {
    && |masks| == Multiple(numMasks, MASK_FRAMES)
    && (forall l: nat, s: nat | l < |windows| && s < m.speakers && Before(l, s, l0, s0) ::
          At(l, s, m.speakers) < numMasks ==> MaskAt(m, windows, masks, l, s))
    && ZeroFrom(masks, Multiple(At(l0, s0, m.speakers), MASK_FRAMES))
  }

  ghost predicate MaskAt(m: Model, windows: seq<Window>, masks: seq<real>, l: nat, s: nat)
    requires Decoded(m, windows) && l < |windows| && s < m.speakers
  {
    var k := At(l, s, m.speakers);
    && At(k, 0, MASK_FRAMES) + MASK_FRAMES <= |masks|
    && Row(masks, k, MASK_FRAMES) == MaskOf(m, windows, l, s, MASK_FRAMES)
  }

  lemma EarlierSlots(l: nat, s: nat, l0: nat, s0: nat, speakers: nat)
    requires s < speakers && s0 <= speakers && Before(l, s, l0, s0)
    ensures At(l, s, speakers) < At(l0, s0, speakers)
  {
    if l < l0 {
      MultipleIncreases(l, l0, speakers);
    }
  }

  /** A later slot's write leaves the masks of earlier slots alone. */
  lemma MaskKept(m: Model, windows: seq<Window>, masks: seq<real>, after: seq<real>, l: nat, s: nat, k: nat)
    requires Decoded(m, windows) && l < |windows| && s < m.speakers && MaskAt(m, windows, masks, l, s)
    requires At(l, s, m.speakers) < k && At(k, 0, MASK_FRAMES) <= |masks| == |after|
    requires masks[..At(k, 0, MASK_FRAMES)] == after[..At(k, 0, MASK_FRAMES)]
    ensures MaskAt(m, windows, after, l, s)
  {
    var j := At(l, s, m.speakers);
    RowFits(j, k, MASK_FRAMES);
    var from, to := At(j, 0, MASK_FRAMES), At(k, 0, MASK_FRAMES);
    assert Row(masks, j, MASK_FRAMES) == masks[..to][from..from + MASK_FRAMES];
    assert Row(after, j, MASK_FRAMES) == after[..to][from..from + MASK_FRAMES];
  }

  /** Visit one slot that fits. */
  method VisitSlot(m: Model, windows: seq<Window>, numMasks: nat, masks: array<real>, activeIn: seq<(nat, nat)>,
                   l: nat, s: nat)
    returns (active: seq<(nat, nat)>)
    requires Decoded(m, windows) && Framed(windows) && l < |windows| && s < m.speakers
    requires At(l, s, m.speakers) < numMasks
    requires ActiveBefore(m, windows, numMasks, activeIn, l, s) && MasksBefore(m, windows, numMasks, masks[..], l, s)
    modifies masks
    ensures ActiveBefore(m, windows, numMasks, active, l, s + 1)
    ensures MasksBefore(m, windows, numMasks, masks[..], l, s + 1)
  {
    var k := At(l, s, m.speakers);
    RowFits(k, numMasks, MASK_FRAMES);
    ghost var before := masks[..];
    var on := WriteSlot(m, windows, l, s, masks, k, MASK_FRAMES);
    ActiveIffPositive(windows[l], s, |m.audio(l)|, m.minSamples, MASK_FRAMES);
    active := if on then activeIn + [(l, s)] else activeIn;
    forall x: nat, y: nat | x < |windows| && y < m.speakers && Before(x, y, l, s + 1) && At(x, y, m.speakers) < numMasks
      ensures MaskAt(m, windows, masks[..], x, y)
    {
      if Before(x, y, l, s) {
        EarlierSlots(x, y, l, s, m.speakers);
        MaskKept(m, windows, before, masks[..], x, y, k);
      }
    }
  }

  /** Slots past the buffer are skipped. */
  lemma SkipRest(m: Model, windows: seq<Window>, numMasks: nat, masks: seq<real>, active: seq<(nat, nat)>, l: nat,
                 s: nat)
    requires Decoded(m, windows) && l < |windows|
    requires s <= m.speakers && (s < m.speakers ==> At(l, s, m.speakers) >= numMasks)
    requires ActiveBefore(m, windows, numMasks, active, l, s) && MasksBefore(m, windows, numMasks, masks, l, s)
    ensures ActiveBefore(m, windows, numMasks, active, l + 1, 0) && MasksBefore(m, windows, numMasks, masks, l + 1, 0)
  {
    forall x: nat, y: nat | x < |windows| && y < m.speakers && At(x, y, m.speakers) < numMasks
      ensures Before(x, y, l + 1, 0) <==> Before(x, y, l, s)
    {
    }
    if s < m.speakers {
      SlotsPast(l, s, m.speakers, numMasks);
    }
  }

  lemma SlotsPast(l: nat, s: nat, speakers: nat, numMasks: nat)
    requires s < speakers && At(l, s, speakers) >= numMasks
    ensures Multiple(At(l + 1, 0, speakers), MASK_FRAMES) >= Multiple(numMasks, MASK_FRAMES)
  {
    RowFits(l, l + 1, speakers);
    MultipleIncreases(numMasks, At(l + 1, 0, speakers), MASK_FRAMES);
  }

  /** The masks of the slots that fit the buffer, and the active speakers among them. */
  method CollectChunkMasks(m: Model, windows: seq<Window>, numMasks: nat)
    returns (masks: array<real>, active: seq<(nat, nat)>)
    requires Decoded(m, windows) && Framed(windows)
    ensures fresh(masks)
    ensures ActiveBefore(m, windows, numMasks, active, |windows|, 0)
    ensures MasksBefore(m, windows, numMasks, masks[..], |windows|, 0)
  {
    masks := new real[Multiple(numMasks, MASK_FRAMES)](_ => 0.0);
    active := [];
    for l := 0 to |windows|
      invariant ActiveBefore(m, windows, numMasks, active, l, 0) && MasksBefore(m, windows, numMasks, masks[..], l, 0)
    {
      var s := 0;
      while s < m.speakers
        invariant s <= m.speakers
        invariant ActiveBefore(m, windows, numMasks, active, l, s) && MasksBefore(m, windows, numMasks, masks[..], l, s)
        decreases m.speakers - s
      {
        if At(l, s, m.speakers) >= numMasks {
          break;
        }
        active := VisitSlot(m, windows, numMasks, masks, active, l, s);
        s := s + 1;
      }
      SkipRest(m, windows, numMasks, masks[..], active, l, s);
    }
  }

  /** A buffer with room for every slot loses no active speaker. */
  lemma NothingDropped(m: Model, windows: seq<Window>, numMasks: nat, active: seq<(nat, nat)>, l: nat, s: nat)
    requires Decoded(m, windows) && ActiveBefore(m, windows, numMasks, active, |windows|, 0)
    requires At(|windows|, 0, m.speakers) <= numMasks && l < |windows| && s < m.speakers
    ensures At(l, s, m.speakers) < numMasks
    ensures (l, s) in active <==> WeightsOf(m, windows, l, s).Some?
  {
    EarlierSlots(l, s, |windows|, 0, m.speakers);
  }

  /** The chunk model's output: one row for each mask of the buffer, from the chunk's filterbank. */
  ghost predicate Predicted(m: Model, fbank: Filterbank, masks: seq<real>, numMasks: nat, rows: seq<seq<real>>) {
    && |masks| == Multiple(numMasks, MASK_FRAMES) && |rows| == numMasks
    && forall k: nat :: k < numMasks && At(k, 0, MASK_FRAMES) + MASK_FRAMES <= |masks| ==>
        rows[k] == m.tail(fbank, Row(masks, k, MASK_FRAMES))
  }

  /** The chunk was prepared and predicted: some buffer held its masks, and its rows are the model's output. */
  ghost predicate EmbeddedFrom(m: Model, fbank: Filterbank, windows: seq<Window>, numMasks: nat, e: EmbeddedChunk)
    requires Decoded(m, windows)
  {
    && e.windows == windows && ActiveBefore(m, windows, numMasks, e.active, |windows|, 0)
    && exists masks ::
         MasksBefore(m, windows, numMasks, masks, |windows|, 0) && Predicted(m, fbank, masks, numMasks, e.rows)
  }

  /** Prepare a chunk and predict it, as a preparation worker and the GPU worker do, or the GPU worker alone. */
  method EmbedChunk(m: Model, fbank: Filterbank, windows: seq<Window>, numMasks: nat) returns (e: EmbeddedChunk)
    requires Decoded(m, windows) && Framed(windows)
    ensures EmbeddedFrom(m, fbank, windows, numMasks, e)
  {
    var masks, active := CollectChunkMasks(m, windows, numMasks);
    var inputs := Rows(masks[..], numMasks, MASK_FRAMES);
    e := EmbeddedChunk(windows, active, seq(numMasks, k requires 0 <= k < |inputs| => m.tail(fbank, inputs[k])));
    assert Predicted(m, fbank, masks[..], numMasks, e.rows);
  }

  /** The job's cells for the windows of a chunk are what the chunk model gives their speakers' weights. */
  ghost predicate CellsOfChunk(job: Job, c: Chunk, m: Model, fbank: Filterbank)
    requires Decoded(m, c.windows)
  {
    forall l: nat, s: nat :: l < |c.windows| && s < m.speakers ==>
        job.cell(c.file, c.start + l, s) == ChunkCell(c, m, fbank, l, s)
  }

  ghost function ChunkCell(c: Chunk, m: Model, fbank: Filterbank, l: nat, s: nat): Option<seq<real>>
    requires Decoded(m, c.windows) && l < |c.windows| && s < m.speakers
  {
    if WeightsOf(m, c.windows, l, s).Some? then Some(m.tail(fbank, MaskOf(m, c.windows, l, s, MASK_FRAMES))) else None
  }

  /** It is the embedding of the chunk's filterbank under the weights selected in the speaker's window. */
  lemma ChunkCellIsSelected(c: Chunk, m: Model, fbank: Filterbank, l: nat, s: nat, enough: nat, w: Option<seq<real>>)
    requires Decoded(m, c.windows) && l < |c.windows| && s < m.speakers
    requires |m.audio(l)| > 0 ==> IsLeastCover(|c.windows[l]| * m.minSamples, |m.audio(l)|, enough)
    requires IsSelection(c.windows[l], s, |m.audio(l)|, enough, w)
    ensures ChunkCell(c, m, fbank, l, s) == if w.None? then None else Some(m.tail(fbank, w.value))
  {
    WeightsAreSelection(c.windows[l], s, |m.audio(l)|, m.minSamples, enough);
  }

  /** A prepared and embedded chunk is what the collectors rely on. */
  lemma PreparedChunkEmbeds(job: Job, c: Chunk, m: Model, fbank: Filterbank, numMasks: nat, e: EmbeddedChunk)
    requires Decoded(m, c.windows) && CellsOfChunk(job, c, m, fbank) && job.speakers == m.speakers
    requires At(|c.windows|, 0, m.speakers) <= numMasks
    requires EmbeddedFrom(m, fbank, c.windows, numMasks, e)
    ensures Embeds(job, c, e)
  {
    var masks :| MasksBefore(m, c.windows, numMasks, masks, |c.windows|, 0)
              && Predicted(m, fbank, masks, numMasks, e.rows);
    forall k | 0 <= k < |e.active|
      ensures e.active[k].0 < |c.windows| && e.active[k].1 < m.speakers &&
              MaskIndex(e.active[k].0, e.active[k].1, m.speakers) < |e.rows|
    {
      var (l, s) := e.active[k];
      assert (l, s) in e.active;
      MultipleIsProduct(l, m.speakers);
    }
    forall l: nat, s: nat | l < |c.windows| && s < m.speakers
      ensures job.cell(c.file, c.start + l, s) == if (l, s) in e.active then RowOf(e, l, s, job.speakers) else None
    {
      NothingDropped(m, c.windows, numMasks, e.active, l, s);
      EarlierSlots(l, s, |c.windows|, 0, m.speakers);
      MultipleIsProduct(l, m.speakers);
      assert job.cell(c.file, c.start + l, s) == ChunkCell(c, m, fbank, l, s);
      assert MaskAt(m, c.windows, masks, l, s);
    }
  }
}
