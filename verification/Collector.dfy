/** The slot-addressed collector of embedded chunks: chunks of one file may arrive in any order. */
module Collector {
  import opened Chunking
  import opened Counting
  import opened Options
  import opened Strides

  type Embedding = seq<real>

  /** What the GPU worker sends on: the chunk's windows, the (window, speaker) pairs that were
      embedded, and one row per mask. */
  datatype EmbeddedChunk = EmbeddedChunk(windows: seq<Window>, active: seq<(nat, nat)>, rows: seq<Embedding>)

  function MaskIndex(local: nat, speaker: nat, speakers: nat): nat {
    local * speakers + speaker
  }

  ghost predicate WellFormed(e: EmbeddedChunk, speakers: nat) {
    forall k :: 0 <= k < |e.active| ==>
      e.active[k].1 < speakers && MaskIndex(e.active[k].0, e.active[k].1, speakers) < |e.rows|
  }

  /** The collector's arrays as values: one window and one row of embeddings per slot. */
  datatype Slots = Slots(seg: seq<Window>, emb: seq<seq<Option<Embedding>>>, used: nat, received: nat) {
    ghost predicate Shape(n: nat, speakers: nat) {
      |seg| == |emb| == n && used <= n && forall i :: 0 <= i < n ==> |emb[i]| == speakers
    }
  }

  function Empty(n: nat, speakers: nat, blank: Window): Slots {
    Slots(seq(n, _ => blank), seq(n, _ => seq(speakers, _ => None)), 0, 0)
  }

  /** Entry of slot i, speaker s, after the chunk was written from slot `base` on. */
  function CellAfter(before: Option<Embedding>, base: nat, e: EmbeddedChunk, speakers: nat, i: nat,
                     s: nat): Option<Embedding>
    requires WellFormed(e, speakers)
  {
    if i >= base && (i - base, s) in e.active then
      assert exists k :: 0 <= k < |e.active| && e.active[k] == (i - base, s);
      Some(e.rows[MaskIndex(i - base, s, speakers)])
    else before
  }

  /** The arrays after one chunk was added at slot `base`; slots past the end are dropped. */
  function Added(before: Slots, base: nat, e: EmbeddedChunk, n: nat, speakers: nat): (after: Slots)
    requires before.Shape(n, speakers) && WellFormed(e, speakers)
    ensures after.Shape(n, speakers)
  {
    Slots(
      seq(n, i requires 0 <= i < n => if base <= i < base + |e.windows| then e.windows[i - base] else before.seg[i]),
      seq(n, i requires 0 <= i < n =>
        seq(speakers, s requires 0 <= s < speakers => CellAfter(before.emb[i][s], base, e, speakers, i, s))),
      if |e.windows| == 0 || base >= n then before.used else Max(before.used, Min(base + |e.windows|, n)),
      before.received + 1)
  }

  function Cut(v: Slots): Slots
    requires v.used <= |v.seg| && v.used <= |v.emb|
  {
    Slots(v.seg[..v.used], v.emb[..v.used], v.used, v.received)
  }

  class FileCollector {
    const slots: nat
    const speakers: nat
    const segArray: array<Window>
    const embArray: array<seq<Option<Embedding>>>
    var maxSlotUsed: nat
    var chunksReceived: nat
    const expectedChunks: nat

    ghost predicate Valid()
      reads this, embArray
    {
      && segArray.Length == embArray.Length == slots && maxSlotUsed <= slots
      && forall i :: 0 <= i < slots ==> |embArray[i]| == speakers
    }

    ghost function View(): Slots
      reads this, segArray, embArray
    {
      Slots(segArray[..], embArray[..], maxSlotUsed, chunksReceived)
    }

    constructor (maxSlots: nat, blank: Window, numSpeakers: nat, expectedChunks: nat)
      ensures Valid() && slots == maxSlots && speakers == numSpeakers && this.expectedChunks == expectedChunks
      ensures fresh(segArray) && fresh(embArray)
      ensures View() == Empty(maxSlots, numSpeakers, blank)
    {
      slots, speakers, this.expectedChunks := maxSlots, numSpeakers, expectedChunks;
      segArray := new Window[maxSlots](_ => blank);
      embArray := new seq<Option<Embedding>>[maxSlots](_ => seq(numSpeakers, _ => None));
      maxSlotUsed, chunksReceived := 0, 0;
      new;
      assert segArray[..] == Empty(maxSlots, numSpeakers, blank).seg;
      assert embArray[..] == Empty(maxSlots, numSpeakers, blank).emb;
    }

    /** The single-file loops know the slot of the chunk's first window. */
    method AddAt(base: nat, e: EmbeddedChunk)
      requires Valid() && WellFormed(e, speakers)
      modifies this, segArray, embArray
      ensures Valid() && View() == Added(old(View()), base, e, slots, speakers)
    {
      ghost var after := Added(View(), base, e, slots, speakers);
      AddEmbeddings(base, e);
      assert embArray[..] == after.emb by {
        assert forall i :: 0 <= i < slots ==> embArray[i] == after.emb[i];
      }
      AddWindows(base, e);
      assert segArray[..] == after.seg;
      chunksReceived := chunksReceived + 1;
    }

    /** The batch loop knows the number of the chunk in its file. */
    method Add(localStart: nat, capacity: nat, e: EmbeddedChunk)
      requires Valid() && WellFormed(e, speakers)
      modifies this, segArray, embArray
      ensures Valid() && View() == Added(old(View()), Multiple(localStart, capacity), e, slots, speakers)
    {
      MultipleIsProduct(localStart, capacity);
      AddAt(localStart * capacity, e);
    }

    method AddEmbeddings(base: nat, e: EmbeddedChunk)
      requires Valid() && WellFormed(e, speakers)
      modifies embArray
      ensures Valid()
      ensures forall i, s :: 0 <= i < slots && 0 <= s < speakers ==>
                embArray[i][s] == CellAfter(old(embArray[i])[s], base, e, speakers, i, s)
    {
      for k := 0 to |e.active|
        invariant Valid()
        invariant forall i, s :: 0 <= i < slots && 0 <= s < speakers ==>
                    embArray[i][s] == if i >= base && (i - base, s) in e.active[..k]
                                      then CellAfter(old(embArray[i])[s], base, e, speakers, i, s)
                                      else old(embArray[i])[s]
      {
        var (local, speaker) := e.active[k];
        var slot := base + local;
        assert e.active[..k + 1] == e.active[..k] + [(local, speaker)];
        if slot < slots {
          embArray[slot] := embArray[slot][speaker := Some(e.rows[MaskIndex(local, speaker, speakers)])];
        }
      }
      assert e.active[..|e.active|] == e.active;
    }

    method AddWindows(base: nat, e: EmbeddedChunk)
      requires Valid()
      modifies this`maxSlotUsed, segArray
      ensures Valid()
      ensures forall i :: 0 <= i < slots ==>
                segArray[i] == if base <= i < base + |e.windows| then e.windows[i - base] else old(segArray[i])
      ensures maxSlotUsed == if |e.windows| == 0 || base >= slots then old(maxSlotUsed)
                             else Max(old(maxSlotUsed), Min(base + |e.windows|, slots))
    {
      for local := 0 to |e.windows|
        invariant maxSlotUsed <= slots
        invariant forall i :: 0 <= i < slots ==>
                    segArray[i] == if base <= i < base + local then e.windows[i - base] else old(segArray[i])
        invariant maxSlotUsed == if local == 0 || base >= slots then old(maxSlotUsed)
                                 else Max(old(maxSlotUsed), Min(base + local, slots))
      {
        var slot := base + local;
        if slot < slots {
          segArray[slot] := e.windows[local];
          maxSlotUsed := Max(maxSlotUsed, slot + 1);
        }
      }
    }

    predicate IsComplete()
      reads this
    {
      chunksReceived >= expectedChunks
    }

    /** The arrays cut to the slots in use, or nothing if none is. */
    method IntoArtifacts() returns (artifacts: Option<Slots>)
      requires Valid()
      ensures artifacts == if maxSlotUsed == 0 then None else Some(Cut(View()))
    {
      if maxSlotUsed == 0 {
        artifacts := None;
      } else {
        artifacts := Some(Slots(segArray[..maxSlotUsed], embArray[..maxSlotUsed], maxSlotUsed, chunksReceived));
      }
    }
  }
}
