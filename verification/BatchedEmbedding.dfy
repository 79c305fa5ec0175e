/** Embedding in batches: pending speakers share filterbanks that are evicted as batches are flushed,
    and mask batches share one flat buffer. Both must store what the unbatched map would. */
module BatchedEmbedding {
  import opened Chunking
  import opened Options
  import opened SpeakerMasks

  type Filterbank = seq<seq<real>>

  type Embedding = seq<real>

  /** Window audio by number, and the two model calls, each a function of its own inputs. */
  datatype Model = Model(
    audio: nat -> seq<real>, filterbank: seq<real> -> Filterbank, tail: (Filterbank, seq<real>) -> Embedding,
    minSamples: nat, speakers: nat)
  {
    function Fbank(c: nat): Filterbank {
      filterbank(audio(c))
    }
  }

  ghost predicate Decoded(m: Model, segs: seq<Window>) {
    forall c, i {:trigger segs[c][i]} :: 0 <= c < |segs| && 0 <= i < |segs[c]| ==> |segs[c][i]| == m.speakers
  }

  function WeightsOf(m: Model, segs: seq<Window>, c: nat, s: nat): Option<seq<real>>
    requires Decoded(m, segs) && c < |segs| && s < m.speakers
  {
    Weights(segs[c], s, |m.audio(c)|, m.minSamples)
  }

  /** What the unbatched map stores for speaker s of window c: nothing if the speaker is inactive. */
  ghost function Cell(m: Model, segs: seq<Window>, c: nat, s: nat): Option<Embedding>
    requires Decoded(m, segs) && c < |segs| && s < m.speakers
  {
    var w := WeightsOf(m, segs, c, s);
    if w.None? then None else Some(m.tail(m.Fbank(c), w.value))
  }

  /** It is the embedding of the window's own audio under the weights selected for the speaker. */
  lemma CellIsSelected(m: Model, segs: seq<Window>, c: nat, s: nat, enough: nat, w: Option<seq<real>>)
    requires Decoded(m, segs) && c < |segs| && s < m.speakers
    requires |m.audio(c)| > 0 ==> IsLeastCover(|segs[c]| * m.minSamples, |m.audio(c)|, enough)
    requires IsSelection(segs[c], s, |m.audio(c)|, enough, w)
    ensures Cell(m, segs, c, s) == if w.None? then None else Some(m.tail(m.filterbank(m.audio(c)), w.value))
  {
    WeightsAreSelection(segs[c], s, |m.audio(c)|, m.minSamples, enough);
  }

  /** Position (c, s) comes before position (c0, s0) in window-major order. */
  ghost predicate Before(c: nat, s: nat, c0: nat, s0: nat) {
    c < c0 || (c == c0 && s < s0)
  }

  // --- Split path: filterbank, then weighted tail ---------------------------------------------

  datatype Pending = Pending(chunk: nat, speaker: nat, fbankIdx: nat, weights: seq<real>)

  /** The item points at its own window's filterbank and carries its own speaker's weights. */
  ghost predicate Right(m: Model, segs: seq<Window>, item: Pending, fbanks: seq<Filterbank>)
    requires Decoded(m, segs)
  {
    && item.chunk < |segs| && item.speaker < m.speakers
    && item.fbankIdx < |fbanks| && fbanks[item.fbankIdx] == m.Fbank(item.chunk)
    && WeightsOf(m, segs, item.chunk, item.speaker) == Some(item.weights)
  }

  ghost predicate AllRight(m: Model, segs: seq<Window>, pending: seq<Pending>, fbanks: seq<Filterbank>)
    requires Decoded(m, segs)
  {
    forall k :: 0 <= k < |pending| ==> Right(m, segs, pending[k], fbanks)
  }

  ghost predicate Waits(pending: seq<Pending>, c: nat, s: nat) {
    exists k :: 0 <= k < |pending| && pending[k].chunk == c && pending[k].speaker == s
  }

  /** Embed the pending items in one batch and store each at its window and speaker. */
  method FlushSplit(m: Model, pending: seq<Pending>, fbanks: seq<Filterbank>, storage: array2<Option<Embedding>>,
                    ghost segs: seq<Window>)
    requires Decoded(m, segs) && AllRight(m, segs, pending, fbanks)
    requires storage.Length0 >= |segs| && storage.Length1 == m.speakers
    modifies storage
    ensures forall c: nat, s: nat :: c < |segs| && s < m.speakers ==>
              storage[c, s] == if Waits(pending, c, s) then Cell(m, segs, c, s) else old(storage[c, s])
    ensures forall i, j :: |segs| <= i < storage.Length0 && 0 <= j < m.speakers ==> storage[i, j] == old(storage[i, j])
  {
    for k := 0 to |pending|
      invariant forall c: nat, s: nat :: c < |segs| && s < m.speakers ==>
                  storage[c, s] == if Waits(pending[..k], c, s) then Cell(m, segs, c, s) else old(storage[c, s])
      invariant forall i, j :: |segs| <= i < storage.Length0 && 0 <= j < m.speakers ==>
                storage[i, j] == old(storage[i, j])
    {
      var item := pending[k];
      assert Right(m, segs, item, fbanks);
      WaitsAppend(pending[..k], item);
      assert pending[..k + 1] == pending[..k] + [item];
      storage[item.chunk, item.speaker] := Some(m.tail(fbanks[item.fbankIdx], item.weights));
    }
    assert pending[..|pending|] == pending;
  }

  lemma WaitsAppend(pending: seq<Pending>, item: Pending)
    ensures forall c, s :: Waits(pending + [item], c, s) <==>
            Waits(pending, c, s) || (item.chunk == c && item.speaker == s)
  {
    var more := pending + [item];
    forall c, s
      ensures Waits(more, c, s) <==> Waits(pending, c, s) || (item.chunk == c && item.speaker == s)
    {
      if Waits(pending, c, s) {
        var j :| 0 <= j < |pending| && pending[j].chunk == c && pending[j].speaker == s;
        assert more[j] == pending[j];
      }
      assert more[|pending|] == item;
    }
  }

  /** Everything before position (c0, s0) is stored as the unbatched map would, or is active and
      waits in a pending item that points at its own filterbank; nothing else is stored. */
  ghost predicate Progress(m: Model, segs: seq<Window>, storage: array2<Option<Embedding>>,
                           pending: seq<Pending>, fbanks: seq<Filterbank>, c0: nat, s0: nat)
    requires Decoded(m, segs) && storage.Length0 >= |segs| && storage.Length1 == m.speakers
    reads storage
  {
    && AllRight(m, segs, pending, fbanks)
    && (forall k :: 0 <= k < |pending| ==> Before(pending[k].chunk, pending[k].speaker, c0, s0))
    && forall c: nat, s: nat :: c < |segs| && s < m.speakers ==>
         storage[c, s] == if Before(c, s, c0, s0) && !Waits(pending, c, s) then Cell(m, segs, c, s) else None
  }

  /** The body of the window loop: push the window's filterbank, queue its active speakers, and flush
      whenever the batch is full, even between two speakers of the window. */
  method QueueSpeakers(m: Model, segs: seq<Window>, c: nat, batchSize: nat, pendingIn: seq<Pending>,
                       fbanksIn: seq<Filterbank>, storage: array2<Option<Embedding>>)
    returns (pending: seq<Pending>, fbanks: seq<Filterbank>)
    requires Decoded(m, segs) && c < |segs|
    requires storage.Length0 >= |segs| && storage.Length1 == m.speakers
    requires Progress(m, segs, storage, pendingIn, fbanksIn, c, 0)
    modifies storage
    ensures Progress(m, segs, storage, pending, fbanks, c + 1, 0)
    ensures forall i, j :: |segs| <= i < storage.Length0 && 0 <= j < m.speakers ==> storage[i, j] == old(storage[i, j])
  {
    pending, fbanks := pendingIn, fbanksIn + [m.Fbank(c)];
    var current: nat := |fbanks| - 1;
    for s := 0 to m.speakers
      invariant Progress(m, segs, storage, pending, fbanks, c, s)
      invariant s < m.speakers ==> current < |fbanks| && fbanks[current] == m.Fbank(c)
      invariant forall i, j :: |segs| <= i < storage.Length0 && 0 <= j < m.speakers ==>
                storage[i, j] == old(storage[i, j])
    {
      var weights := WeightsOf(m, segs, c, s);
      if weights.Some? {
        pending, fbanks, current :=
          QueueSpeaker(m, segs, c, s, weights.value, batchSize, pending, fbanks, current, storage);
      }
    }
  }

  lemma PushKeepsProgress(m: Model, segs: seq<Window>, c: nat, s: nat, weights: seq<real>, pending: seq<Pending>,
                          fbanks: seq<Filterbank>, current: nat, storage: array2<Option<Embedding>>)
    requires Decoded(m, segs) && c < |segs| && s < m.speakers && WeightsOf(m, segs, c, s) == Some(weights)
    requires storage.Length0 >= |segs| && storage.Length1 == m.speakers
    requires current < |fbanks| && fbanks[current] == m.Fbank(c)
    requires Progress(m, segs, storage, pending, fbanks, c, s)
    ensures Progress(m, segs, storage, pending + [Pending(c, s, current, weights)], fbanks, c, s + 1)
  {
    var item := Pending(c, s, current, weights);
    WaitsAppend(pending, item);
    assert AllRight(m, segs, pending + [item], fbanks);
    forall x: nat, y: nat | x < |segs| && y < m.speakers
      ensures storage[x, y] ==
              if Before(x, y, c, s + 1) && !Waits(pending + [item], x, y) then Cell(m, segs, x, y) else None
    {
      assert Waits(pending + [item], x, y) <==> Waits(pending, x, y) || (x == c && y == s);
    }
  }

  /** After a flush nothing waits, so any filterbanks may be dropped. */
  method FlushAll(m: Model, pending: seq<Pending>, fbanks: seq<Filterbank>, storage: array2<Option<Embedding>>,
                  ghost segs: seq<Window>, ghost c: nat, ghost s: nat)
    requires Decoded(m, segs) && storage.Length0 >= |segs| && storage.Length1 == m.speakers
    requires Progress(m, segs, storage, pending, fbanks, c, s)
    modifies storage
    ensures forall kept :: Progress(m, segs, storage, [], kept, c, s)
    ensures forall i, j :: |segs| <= i < storage.Length0 && 0 <= j < m.speakers ==> storage[i, j] == old(storage[i, j])
  {
    FlushSplit(m, pending, fbanks, storage, segs);
    assert forall x: nat, y: nat :: Waits(pending, x, y) ==> Before(x, y, c, s);
  }

  /** Queue one active speaker, and flush if that fills the batch. */
  method QueueSpeaker(m: Model, segs: seq<Window>, c: nat, s: nat, weights: seq<real>, batchSize: nat,
                      pendingIn: seq<Pending>, fbanksIn: seq<Filterbank>, currentIn: nat,
                      storage: array2<Option<Embedding>>)
    returns (pending: seq<Pending>, fbanks: seq<Filterbank>, current: nat)
    requires Decoded(m, segs) && c < |segs| && s < m.speakers && WeightsOf(m, segs, c, s) == Some(weights)
    requires storage.Length0 >= |segs| && storage.Length1 == m.speakers
    requires currentIn < |fbanksIn| && fbanksIn[currentIn] == m.Fbank(c)
    requires Progress(m, segs, storage, pendingIn, fbanksIn, c, s)
    modifies storage
    ensures Progress(m, segs, storage, pending, fbanks, c, s + 1)
    ensures s + 1 < m.speakers ==> current < |fbanks| && fbanks[current] == m.Fbank(c)
    ensures forall i, j :: |segs| <= i < storage.Length0 && 0 <= j < m.speakers ==> storage[i, j] == old(storage[i, j])
  {
    fbanks, current := fbanksIn, currentIn;
    pending := pendingIn + [Pending(c, s, current, weights)];
    PushKeepsProgress(m, segs, c, s, weights, pendingIn, fbanks, current, storage);
    if |pending| == batchSize {
      FlushAll(m, pending, fbanks, storage, segs, c, s + 1);
      pending := [];
      // the current filterbank survives if later speakers of this window still need it
      if s + 1 < m.speakers {
        var kept := fbanks[current];
        fbanks := [kept];
        current := 0;
      } else {
        fbanks := [];
      }
    }
  }

  /** The buffered extraction over decoded windows. */
  method ExtractSplit(m: Model, segs: seq<Window>, batchSize: nat, storage: array2<Option<Embedding>>)
    requires Decoded(m, segs) && storage.Length0 >= |segs| && storage.Length1 == m.speakers
    requires forall i, j :: 0 <= i < storage.Length0 && 0 <= j < m.speakers ==> storage[i, j] == None
    modifies storage
    ensures forall c: nat, s: nat :: c < storage.Length0 && s < m.speakers ==>
              storage[c, s] == if c < |segs| then Cell(m, segs, c, s) else None
  {
    var pending: seq<Pending> := [];
    var fbanks: seq<Filterbank> := [];
    for c := 0 to |segs|
      invariant Progress(m, segs, storage, pending, fbanks, c, 0)
      invariant forall i, j :: |segs| <= i < storage.Length0 && 0 <= j < m.speakers ==> storage[i, j] == None
    {
      pending, fbanks := QueueSpeakers(m, segs, c, batchSize, pending, fbanks, storage);
    }
    if |pending| != 0 {
      FlushSplit(m, pending, fbanks, storage, segs);
    }
  }

  /** The streaming run: windows are received one by one into arrays sized for the expected number,
      which are cut to the number received at the end. */
  method RunSplit(m: Model, received: seq<Window>, totalWindows: nat, batchSize: nat)
    returns (segmentations: seq<Window>, embeddings: seq<seq<Option<Embedding>>>, numChunks: nat)
    requires Decoded(m, received) && |received| <= totalWindows
    ensures numChunks == |received| && segmentations == received
    ensures |embeddings| == |received|
    ensures forall c :: 0 <= c < |received| ==> |embeddings[c]| == m.speakers
    ensures forall c: nat, s: nat :: c < |received| && s < m.speakers ==> embeddings[c][s] == Cell(m, received, c, s)
  {
    var storage := new Option<Embedding>[totalWindows, m.speakers]((_, _) => None);
    segmentations := [];
    var pending: seq<Pending> := [];
    var fbanks: seq<Filterbank> := [];
    for c := 0 to |received|
      invariant segmentations == received[..c]
      invariant Progress(m, received, storage, pending, fbanks, c, 0)
    {
      segmentations := segmentations + [received[c]];
      pending, fbanks := QueueSpeakers(m, received, c, batchSize, pending, fbanks, storage);
    }
    if |pending| != 0 {
      FlushSplit(m, pending, fbanks, storage, received);
    }
    numChunks := |received|;
    embeddings := CutTo(storage, numChunks);
  }

  /** The first n rows of the storage. */
  method CutTo(storage: array2<Option<Embedding>>, n: nat) returns (rows: seq<seq<Option<Embedding>>>)
    requires n <= storage.Length0
    ensures |rows| == n && forall c :: 0 <= c < n ==> |rows[c]| == storage.Length1
    ensures forall c: nat, s: nat :: c < n && s < storage.Length1 ==> rows[c][s] == storage[c, s]
  {
    rows := [];
    for c := 0 to n
      invariant |rows| == c && forall k :: 0 <= k < c ==> |rows[k]| == storage.Length1
      invariant forall k: nat, s: nat :: k < c && s < storage.Length1 ==> rows[k][s] == storage[k, s]
    {
      var row: seq<Option<Embedding>> := [];
      for s := 0 to storage.Length1
        invariant |row| == s && forall j: nat :: j < s ==> row[j] == storage[c, j]
      {
        row := row + [storage[c, s]];
      }
      rows := rows + [row];
    }
  }
}
