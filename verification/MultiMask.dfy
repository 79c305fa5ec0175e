/** Multi-mask embedding: every speaker of a window has a mask slot, and batches hold whole windows.
    The buffered path keeps a list of masks and tests each for a positive entry; the streaming path
    keeps one flat buffer and a list of flags. Both store what the unbatched map would. */
module MultiMask {
  import opened BatchedEmbedding
  import opened Chunking
  import opened Options
  import opened SpeakerMasks
  import opened Strides

  /** Index of column `col` of row `row` in a buffer of rows of a given width. */
  function At(row: nat, col: nat, width: nat): nat {
    Multiple(row, width) + col
  }

  lemma RowFits(row: nat, rows: nat, width: nat)
    requires row < rows
    ensures At(row, 0, width) + width <= At(rows, 0, width)
    ensures At(row + 1, 0, width) == At(row, 0, width) + width
  {
    MultipleIncreases(row, rows, width);
  }

  /** The mask of a slot: the selected weights, or zeros for an inactive speaker. */
  ghost function MaskOf(m: Model, segs: seq<Window>, c: nat, s: nat, width: nat): seq<real>
    requires Decoded(m, segs) && c < |segs| && s < m.speakers
  {
    var w := WeightsOf(m, segs, c, s);
    if w.Some? then w.value else seq(width, _ => 0.0)
  }

  ghost predicate RowRight(m: Model, segs: seq<Window>, c: nat, row: seq<seq<real>>, width: nat)
    requires Decoded(m, segs) && c < |segs|
  {
    |row| <= m.speakers && forall s :: 0 <= s < |row| ==> row[s] == MaskOf(m, segs, c, s, width)
  }

  lemma RowNext(m: Model, segs: seq<Window>, c: nat, row: seq<seq<real>>, mask: seq<real>, width: nat)
    requires Decoded(m, segs) && c < |segs| && RowRight(m, segs, c, row, width) && |row| < m.speakers
    requires mask == MaskOf(m, segs, c, |row|, width)
    ensures RowRight(m, segs, c, row + [mask], width)
  {
    forall s | 0 <= s < |row| + 1
      ensures (row + [mask])[s] == MaskOf(m, segs, c, s, width)
    {
      if s < |row| {
        assert (row + [mask])[s] == row[s];
      }
    }
  }

  /** The fi-th window of a batch has its own filterbank and, slot by slot, its own masks. */
  ghost predicate WindowRight(m: Model, segs: seq<Window>, chunks: seq<nat>, fbanks: seq<Filterbank>,
                              masks: seq<seq<real>>, width: nat, fi: nat)
    requires Decoded(m, segs)
  {
    && fi < |chunks| && fi < |fbanks| && chunks[fi] < |segs| && fbanks[fi] == m.Fbank(chunks[fi])
    && At(fi, 0, m.speakers) + m.speakers <= |masks|
    && RowRight(m, segs, chunks[fi], masks[At(fi, 0, m.speakers)..At(fi, 0, m.speakers) + m.speakers], width)
  }

  ghost predicate BatchRight(m: Model, segs: seq<Window>, chunks: seq<nat>, fbanks: seq<Filterbank>,
                             masks: seq<seq<real>>, width: nat)
    requires Decoded(m, segs)
  {
    && |fbanks| == |chunks| && |masks| == At(|chunks|, 0, m.speakers)
    && forall fi: nat :: fi < |chunks| ==> WindowRight(m, segs, chunks, fbanks, masks, width, fi)
  }

  lemma AddWindow(m: Model, segs: seq<Window>, chunks: seq<nat>, fbanks: seq<Filterbank>, masks: seq<seq<real>>,
                  width: nat, c: nat, row: seq<seq<real>>)
    requires Decoded(m, segs) && BatchRight(m, segs, chunks, fbanks, masks, width)
    requires c < |segs| && |row| == m.speakers && RowRight(m, segs, c, row, width)
    ensures BatchRight(m, segs, chunks + [c], fbanks + [m.Fbank(c)], masks + row, width)
  {
    forall fi: nat | fi < |chunks| + 1
      ensures WindowRight(m, segs, chunks + [c], fbanks + [m.Fbank(c)], masks + row, width, fi)
    {
      var from := At(fi, 0, m.speakers);
      if fi < |chunks| {
        assert WindowRight(m, segs, chunks, fbanks, masks, width, fi);
        assert (masks + row)[from..from + m.speakers] == masks[from..from + m.speakers];
      } else {
        assert (masks + row)[from..from + m.speakers] == row;
      }
    }
  }

  /** Cells before position (c0, s0) hold what the unbatched map would store; nothing else is stored. */
  ghost predicate StoredBefore(m: Model, segs: seq<Window>, c0: nat, s0: nat, storage: array2<Option<Embedding>>)
    requires Decoded(m, segs) && storage.Length0 >= |segs| && storage.Length1 == m.speakers
    reads storage
  {
    forall c: nat, s: nat :: c < storage.Length0 && s < m.speakers ==>
      storage[c, s] == if c < |segs| && Before(c, s, c0, s0) then Cell(m, segs, c, s) else None
  }

  /** Store one slot of a batch if it is active. */
  method StoreSlot(m: Model, c: nat, s: nat, fbank: Filterbank, mask: seq<real>, active: bool,
                   storage: array2<Option<Embedding>>, ghost segs: seq<Window>, ghost width: nat)
    requires Decoded(m, segs) && storage.Length0 >= |segs| && storage.Length1 == m.speakers
    requires c < |segs| && s < m.speakers && fbank == m.Fbank(c)
    requires mask == MaskOf(m, segs, c, s, width) && active == HasPositive(mask)
    requires StoredBefore(m, segs, c, s, storage)
    modifies storage
    ensures StoredBefore(m, segs, c, s + 1, storage)
  {
    ActiveIffPositive(segs[c], s, |m.audio(c)|, m.minSamples, width);
    if active {
      storage[c, s] := Some(m.tail(fbank, mask));
    }
  }

  lemma NextWindow(m: Model, segs: seq<Window>, c: nat, storage: array2<Option<Embedding>>)
    requires Decoded(m, segs) && storage.Length0 >= |segs| && storage.Length1 == m.speakers
    requires StoredBefore(m, segs, c, m.speakers, storage)
    ensures StoredBefore(m, segs, c + 1, 0, storage)
  {
    forall x: nat, s: nat | x < storage.Length0 && s < m.speakers
      ensures Before(x, s, c, m.speakers) <==> Before(x, s, c + 1, 0)
    {
    }
  }

  /** The window numbers of a batch. */
  function From(first: nat, n: nat): seq<nat> {
    seq(n, k requires 0 <= k => first + k)
  }

  lemma SlotIsRight(m: Model, segs: seq<Window>, chunks: seq<nat>, fbanks: seq<Filterbank>, masks: seq<seq<real>>,
                    width: nat, fi: nat, s0: nat)
    requires Decoded(m, segs) && BatchRight(m, segs, chunks, fbanks, masks, width)
    requires fi < |chunks| && s0 < m.speakers
    ensures At(fi, s0, m.speakers) < |masks| && chunks[fi] < |segs| && fbanks[fi] == m.Fbank(chunks[fi])
    ensures masks[At(fi, s0, m.speakers)] == MaskOf(m, segs, chunks[fi], s0, width)
  {
    assert WindowRight(m, segs, chunks, fbanks, masks, width, fi);
    var from := At(fi, 0, m.speakers);
    assert masks[from..from + m.speakers][s0] == masks[from + s0];
  }

  /** Flush of the buffered path: a slot is stored if its mask has a positive entry. */
  method FlushMultiMask(m: Model, fbanks: seq<Filterbank>, masks: seq<seq<real>>, chunks: seq<nat>,
                        storage: array2<Option<Embedding>>, ghost segs: seq<Window>, ghost width: nat, ghost first: nat)
    requires Decoded(m, segs) && BatchRight(m, segs, chunks, fbanks, masks, width) && chunks == From(first, |chunks|)
    requires storage.Length0 >= |segs| && storage.Length1 == m.speakers
    requires StoredBefore(m, segs, first, 0, storage)
    modifies storage
    ensures StoredBefore(m, segs, first + |chunks|, 0, storage)
  {
    for fi := 0 to |chunks|
      invariant StoredBefore(m, segs, first + fi, 0, storage)
    {
      for s := 0 to m.speakers
        invariant StoredBefore(m, segs, first + fi, s, storage)
      {
        SlotIsRight(m, segs, chunks, fbanks, masks, width, fi, s);
        var mask := masks[At(fi, s, m.speakers)];
        StoreSlot(m, chunks[fi], s, fbanks[fi], mask, HasPositive(mask), storage, segs, width);
      }
      NextWindow(m, segs, first + fi, storage);
    }
  }

  ghost predicate Flagged(active: seq<bool>, masks: seq<seq<real>>) {
    |active| == |masks| && forall k :: 0 <= k < |active| ==> active[k] == HasPositive(masks[k])
  }

  /** The batched filterbank call is the pointwise one. */
  function Fbanks(m: Model, audio: seq<seq<real>>): seq<Filterbank> {
    seq(|audio|, k requires 0 <= k < |audio| => m.filterbank(audio[k]))
  }

  /** Row k of a flat buffer. */
  function Row(flat: seq<real>, k: nat, width: nat): seq<real>
    requires At(k, 0, width) + width <= |flat|
  {
    flat[At(k, 0, width)..At(k, 0, width) + width]
  }

  /** The first `count` rows of a flat buffer. */
  function Rows(flat: seq<real>, count: nat, width: nat): (rows: seq<seq<real>>)
    requires At(count, 0, width) <= |flat|
    ensures |rows| == count
    ensures forall k: nat :: k < count ==> At(k, 0, width) + width <= |flat| && rows[k] == Row(flat, k, width)
  {
    if count == 0 then [] else Rows(flat, count - 1, width) + [Row(flat, count - 1, width)]
  }

  /** Flush of the streaming path: the filterbanks are computed here, and the flags say what is stored. */
  method FlushMultiMaskFlat(m: Model, audio: seq<seq<real>>, flat: array<real>, stride: nat, active: seq<bool>,
                            chunks: seq<nat>, storage: array2<Option<Embedding>>, ghost segs: seq<Window>,
                            ghost first: nat)
    requires Decoded(m, segs) && |audio| == |chunks| && chunks == From(first, |chunks|)
    requires At(At(|audio|, 0, m.speakers), 0, stride) <= flat.Length
    requires Flagged(active, Rows(flat[..], At(|audio|, 0, m.speakers), stride))
    requires BatchRight(m, segs, chunks, Fbanks(m, audio), Rows(flat[..], At(|audio|, 0, m.speakers), stride), stride)
    requires storage.Length0 >= |segs| && storage.Length1 == m.speakers
    requires StoredBefore(m, segs, first, 0, storage)
    modifies storage
    ensures StoredBefore(m, segs, first + |chunks|, 0, storage)
  {
    var fbanks := Fbanks(m, audio);
    var masks := Rows(flat[..], At(|audio|, 0, m.speakers), stride);
    for fi := 0 to |chunks|
      invariant StoredBefore(m, segs, first + fi, 0, storage)
    {
      for s := 0 to m.speakers
        invariant StoredBefore(m, segs, first + fi, s, storage)
      {
        SlotIsRight(m, segs, chunks, fbanks, masks, stride, fi, s);
        var k := At(fi, s, m.speakers);
        StoreSlot(m, chunks[fi], s, fbanks[fi], masks[k], active[k], storage, segs, stride);
      }
      NextWindow(m, segs, first + fi, storage);
    }
  }

  // --- Buffered extraction -------------------------------------------------------------------

  /** One window's masks, an all-zero one for each inactive speaker. */
  method PushMasks(m: Model, segs: seq<Window>, c: nat, masksIn: seq<seq<real>>, ghost chunks: seq<nat>,
                   ghost fbanks: seq<Filterbank>)
    returns (masks: seq<seq<real>>)
    requires Decoded(m, segs) && c < |segs| && BatchRight(m, segs, chunks, fbanks, masksIn, 589)
    ensures BatchRight(m, segs, chunks + [c], fbanks + [m.Fbank(c)], masks, 589)
  {
    masks := masksIn;
    ghost var row: seq<seq<real>> := [];
    for s := 0 to m.speakers
      invariant |row| == s && masks == masksIn + row && RowRight(m, segs, c, row, 589)
    {
      var weights := WeightsOf(m, segs, c, s);
      var mask := if weights.None? then seq(589, _ => 0.0) else weights.value;
      RowNext(m, segs, c, row, mask, 589);
      row := row + [mask];
      masks := masks + [mask];
    }
    AddWindow(m, segs, chunks, fbanks, masksIn, 589, c, row);
  }

  /** The extraction over decoded windows. */
  method ExtractMultiMask(m: Model, segs: seq<Window>, batchSize: nat, storage: array2<Option<Embedding>>)
    requires Decoded(m, segs) && storage.Length0 >= |segs| && storage.Length1 == m.speakers
    requires forall i, j :: 0 <= i < storage.Length0 && 0 <= j < m.speakers ==> storage[i, j] == None
    modifies storage
    ensures forall c: nat, s: nat :: c < storage.Length0 && s < m.speakers ==>
              storage[c, s] == if c < |segs| then Cell(m, segs, c, s) else None
  {
    var fbanks: seq<Filterbank> := [];
    var masks: seq<seq<real>> := [];
    var chunks: seq<nat> := [];
    ghost var first: nat := 0;
    for c := 0 to |segs|
      invariant first + |chunks| == c && chunks == From(first, |chunks|)
      invariant BatchRight(m, segs, chunks, fbanks, masks, 589)
      invariant StoredBefore(m, segs, first, 0, storage)
    {
      masks := PushMasks(m, segs, c, masks, chunks, fbanks);
      fbanks := fbanks + [m.Fbank(c)];
      chunks := chunks + [c];
      assert chunks == From(first, |chunks|);
      if |fbanks| == batchSize {
        FlushMultiMask(m, fbanks, masks, chunks, storage, segs, 589, first);
        first := c + 1;
        fbanks, masks, chunks := [], [], [];
      }
    }
    if |fbanks| != 0 {
      FlushMultiMask(m, fbanks, masks, chunks, storage, segs, 589, first);
    }
  }

  // --- Streaming run -------------------------------------------------------------------------

  ghost predicate ZeroFrom(flat: seq<real>, from: nat) {
    forall i :: from <= i < |flat| ==> flat[i] == 0.0
  }

  lemma {:induction false} RowsAgree(flat: seq<real>, other: seq<real>, count: nat, width: nat)
    requires At(count, 0, width) <= |flat| && At(count, 0, width) <= |other|
    requires flat[..At(count, 0, width)] == other[..At(count, 0, width)]
    ensures Rows(flat, count, width) == Rows(other, count, width)
  {
    if count == 0 {
    } else {
      var from, to := At(count - 1, 0, width), At(count, 0, width);
      assert flat[..from] == flat[..to][..from] && other[..from] == other[..to][..from];
      assert Row(flat, count - 1, width) == flat[..to][from..to] == other[..to][from..to];
      RowsAgree(flat, other, count - 1, width);
    }
  }

  lemma RowsNext(flat: seq<real>, other: seq<real>, count: nat, width: nat, row: seq<real>)
    requires At(count, 0, width) <= |other| && At(count, 0, width) + width <= |flat|
    requires flat[..At(count, 0, width)] == other[..At(count, 0, width)] && Row(flat, count, width) == row
    ensures At(count + 1, 0, width) == At(count, 0, width) + width
    ensures Rows(flat, count + 1, width) == Rows(other, count, width) + [row]
  {
    RowFits(count, count + 1, width);
    RowsAgree(flat, other, count, width);
  }

  /** Write the next slot; an inactive speaker's row is left as the zeros it already holds. */
  method WriteSlot(m: Model, segs: seq<Window>, c: nat, s: nat, flat: array<real>, slot: nat,
                   stride: nat) returns (active: bool)
    requires Decoded(m, segs) && c < |segs| && s < m.speakers && |segs[c]| == stride
    requires At(slot, 0, stride) + stride <= flat.Length && ZeroFrom(flat[..], At(slot, 0, stride))
    modifies flat
    ensures active == HasPositive(MaskOf(m, segs, c, s, stride))
    ensures ZeroFrom(flat[..], At(slot, 0, stride) + stride)
    ensures flat[..At(slot, 0, stride)] == old(flat[..At(slot, 0, stride)])
    ensures Row(flat[..], slot, stride) == MaskOf(m, segs, c, s, stride)
  {
    var offset := At(slot, 0, stride);
    active := WriteSpeakerMaskToSlice(segs[c], s, |m.audio(c)|, m.minSamples, flat, offset, stride);
    ActiveIffPositive(segs[c], s, |m.audio(c)|, m.minSamples, stride);
    ghost var mask := MaskOf(m, segs, c, s, stride);
    assert flat[offset..offset + stride] == mask;
  }

  lemma {:induction false} BatchFits(n: nat, batchSize: nat, speakers: nat, stride: nat)
    requires n <= batchSize
    ensures At(At(n, 0, speakers), 0, stride) <= At(At(batchSize, 0, speakers), 0, stride)
  {
    if n < batchSize {
      RowFits(n, batchSize, speakers);
    }
    var slots, all := At(n, 0, speakers), At(batchSize, 0, speakers);
    if slots < all {
      RowFits(slots, all, stride);
    }
  }

  /** The first rows of the flat buffer are `masks`, each with its flag, and zeros follow. */
  ghost predicate Filled(masks: seq<seq<real>>, flat: seq<real>, active: seq<bool>, stride: nat) {
    && |active| == |masks| && At(|masks|, 0, stride) <= |flat| && ZeroFrom(flat, At(|masks|, 0, stride))
    && Rows(flat, |masks|, stride) == masks && Flagged(active, masks)
  }

  /** Fill the next slot with speaker s of window c. */
  method PushSlot(m: Model, segs: seq<Window>, c: nat, s: nat, flat: array<real>, activeIn: seq<bool>,
                  ghost masks: seq<seq<real>>, stride: nat)
    returns (active: seq<bool>)
    requires Decoded(m, segs) && c < |segs| && s < m.speakers && |segs[c]| == stride
    requires Filled(masks, flat[..], activeIn, stride) && At(|activeIn|, 0, stride) + stride <= flat.Length
    modifies flat
    ensures Filled(masks + [MaskOf(m, segs, c, s, stride)], flat[..], active, stride)
  {
    ghost var flat0, mask := flat[..], MaskOf(m, segs, c, s, stride);
    var on := WriteSlot(m, segs, c, s, flat, |activeIn|, stride);
    RowsNext(flat[..], flat0, |masks|, stride, mask);
    active := activeIn + [on];
  }

  lemma MasksFollow(masks: seq<seq<real>>, row: seq<seq<real>>, mask: seq<real>)
    ensures masks + row + [mask] == masks + (row + [mask])
  {
  }

  /** Fill one slot for each speaker of window c. */
  method PushRow(m: Model, segs: seq<Window>, c: nat, flat: array<real>, activeIn: seq<bool>,
                 ghost masks: seq<seq<real>>, stride: nat)
    returns (active: seq<bool>, ghost row: seq<seq<real>>)
    requires Decoded(m, segs) && c < |segs| && |segs[c]| == stride
    requires Filled(masks, flat[..], activeIn, stride) && At(|masks| + m.speakers, 0, stride) <= flat.Length
    modifies flat
    ensures |row| == m.speakers && RowRight(m, segs, c, row, stride)
    ensures Filled(masks + row, flat[..], active, stride)
  {
    active := activeIn;
    row := [];
    ghost var held := masks;
    for s := 0 to m.speakers
      invariant |row| == s && held == masks + row && RowRight(m, segs, c, row, stride)
      invariant Filled(held, flat[..], active, stride)
    {
      RowFits(|held|, |masks| + m.speakers, stride);
      active := PushSlot(m, segs, c, s, flat, active, held, stride);
      ghost var mask := MaskOf(m, segs, c, s, stride);
      RowNext(m, segs, c, row, mask, stride);
      MasksFollow(masks, row, mask);
      held, row := held + [mask], row + [mask];
    }
  }

  /** The streaming buffers hold the windows from `first` on, and zeros beyond them. */
  ghost predicate Streaming(m: Model, segs: seq<Window>, audio: seq<seq<real>>, flat: seq<real>, active: seq<bool>,
                            chunks: seq<nat>, first: nat, stride: nat)
    requires Decoded(m, segs)
  {
    && |audio| == |chunks| && chunks == From(first, |chunks|)
    && exists masks ::
         Filled(masks, flat, active, stride) && BatchRight(m, segs, chunks, Fbanks(m, audio), masks, stride)
  }

  lemma StartsEmpty(m: Model, segs: seq<Window>, flat: seq<real>, first: nat, stride: nat)
    requires Decoded(m, segs) && ZeroFrom(flat, 0)
    ensures Streaming(m, segs, [], flat, [], [], first, stride)
  {
    assert Filled([], flat, [], stride);
  }

  lemma WindowFollows(m: Model, audio: seq<seq<real>>, c: nat, first: nat, n: nat)
    requires c == first + n
    ensures Fbanks(m, audio + [m.audio(c)]) == Fbanks(m, audio) + [m.Fbank(c)]
    ensures From(first, n) + [c] == From(first, n + 1)
  {
  }

  /** One window's audio, masks, flags and number. */
  method PushWindow(m: Model, segs: seq<Window>, c: nat, audioIn: seq<seq<real>>, flat: array<real>,
                    activeIn: seq<bool>, chunksIn: seq<nat>, stride: nat, ghost first: nat)
    returns (audio: seq<seq<real>>, active: seq<bool>, chunks: seq<nat>)
    requires Decoded(m, segs) && c < |segs| && |segs[c]| == stride && c == first + |chunksIn|
    requires Streaming(m, segs, audioIn, flat[..], activeIn, chunksIn, first, stride)
    requires At(At(|audioIn| + 1, 0, m.speakers), 0, stride) <= flat.Length
    modifies flat
    ensures |audio| == |audioIn| + 1 && Streaming(m, segs, audio, flat[..], active, chunks, first, stride)
  {
    ghost var masks :| Filled(masks, flat[..], activeIn, stride)
                    && BatchRight(m, segs, chunksIn, Fbanks(m, audioIn), masks, stride);
    RowFits(|audioIn|, |audioIn| + 1, m.speakers);
    audio := audioIn + [m.audio(c)];
    chunks := chunksIn + [c];
    ghost var row;
    active, row := PushRow(m, segs, c, flat, activeIn, masks, stride);
    AddWindow(m, segs, chunksIn, Fbanks(m, audioIn), masks, stride, c, row);
    WindowFollows(m, audioIn, c, first, |chunksIn|);
  }

  /** Flush the streaming batch. */
  method FlushStreaming(m: Model, audio: seq<seq<real>>, flat: array<real>, active: seq<bool>, chunks: seq<nat>,
                        stride: nat, storage: array2<Option<Embedding>>, ghost segs: seq<Window>, ghost first: nat)
    requires Decoded(m, segs) && Streaming(m, segs, audio, flat[..], active, chunks, first, stride)
    requires storage.Length0 >= |segs| && storage.Length1 == m.speakers
    requires StoredBefore(m, segs, first, 0, storage)
    modifies storage
    ensures StoredBefore(m, segs, first + |chunks|, 0, storage)
  {
    ghost var masks :| Filled(masks, flat[..], active, stride)
                    && BatchRight(m, segs, chunks, Fbanks(m, audio), masks, stride);
    FlushMultiMaskFlat(m, audio, flat, stride, active, chunks, storage, segs, first);
  }

  method Blank(flat: array<real>)
    modifies flat
    ensures ZeroFrom(flat[..], 0)
  {
    for i := 0 to flat.Length
      invariant forall k :: 0 <= k < i ==> flat[k] == 0.0
    {
      flat[i] := 0.0;
    }
  }

  /** The body of the receive loop: push window c, and flush and blank the buffers when the batch is full. */
  method StreamWindow(m: Model, segs: seq<Window>, c: nat, batchSize: nat, stride: nat, flat: array<real>,
                      storage: array2<Option<Embedding>>, audioIn: seq<seq<real>>, activeIn: seq<bool>,
                      chunksIn: seq<nat>, ghost firstIn: nat)
    returns (audio: seq<seq<real>>, active: seq<bool>, chunks: seq<nat>, ghost first: nat)
    requires Decoded(m, segs) && c < |segs| && |segs[c]| == stride && c == firstIn + |chunksIn|
    requires storage.Length0 >= |segs| && storage.Length1 == m.speakers
    requires |audioIn| < batchSize && flat.Length == At(At(batchSize, 0, m.speakers), 0, stride)
    requires Streaming(m, segs, audioIn, flat[..], activeIn, chunksIn, firstIn, stride)
    requires StoredBefore(m, segs, firstIn, 0, storage)
    modifies flat, storage
    ensures |audio| < batchSize && c + 1 == first + |chunks|
    ensures Streaming(m, segs, audio, flat[..], active, chunks, first, stride)
    ensures StoredBefore(m, segs, first, 0, storage)
  {
    first := firstIn;
    BatchFits(|audioIn| + 1, batchSize, m.speakers, stride);
    audio, active, chunks := PushWindow(m, segs, c, audioIn, flat, activeIn, chunksIn, stride, first);
    if |audio| == batchSize {
      FlushStreaming(m, audio, flat, active, chunks, stride, storage, segs, first);
      Blank(flat);
      first := c + 1;
      audio, active, chunks := [], [], [];
      StartsEmpty(m, segs, flat[..], first, stride);
    }
  }

  /** The streaming run. All windows have `stride` frames, and the flat buffer is sized for one batch. */
  method RunMultiMask(m: Model, received: seq<Window>, totalWindows: nat, batchSize: nat, stride: nat)
    returns (segmentations: seq<Window>, embeddings: seq<seq<Option<Embedding>>>, numChunks: nat)
    requires Decoded(m, received) && |received| <= totalWindows && 0 < batchSize
    requires forall c :: 0 <= c < |received| ==> |received[c]| == stride
    ensures numChunks == |received| && segmentations == received
    ensures |embeddings| == |received| && forall c :: 0 <= c < |received| ==> |embeddings[c]| == m.speakers
    ensures forall c: nat, s: nat :: c < |received| && s < m.speakers ==> embeddings[c][s] == Cell(m, received, c, s)
  {
    var storage := new Option<Embedding>[totalWindows, m.speakers]((_, _) => None);
    segmentations := [];
    var audio: seq<seq<real>> := [];
    var flat := new real[At(At(batchSize, 0, m.speakers), 0, stride)](_ => 0.0);
    var active: seq<bool> := [];
    var chunks: seq<nat> := [];
    ghost var first: nat := 0;
    StartsEmpty(m, received, flat[..], first, stride);
    for c := 0 to |received|
      invariant segmentations == received[..c]
      invariant first + |chunks| == c && |audio| < batchSize
      invariant Streaming(m, received, audio, flat[..], active, chunks, first, stride)
      invariant StoredBefore(m, received, first, 0, storage)
    {
      segmentations := segmentations + [received[c]];
      audio, active, chunks, first :=
        StreamWindow(m, received, c, batchSize, stride, flat, storage, audio, active, chunks, first);
    }
    if |audio| != 0 {
      FlushStreaming(m, audio, flat, active, chunks, stride, storage, received, first);
    }
    numChunks := |received|;
    embeddings := CutTo(storage, numChunks);
  }
}
