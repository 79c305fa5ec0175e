/** Sliding audio windows: how many there are, what each holds, and which samples they reach. */
module Windows {
  import opened Chunking
  import opened Options
  import opened Strides

  /** Length and step in samples, both positive. */
  datatype Spec = Spec(window: nat, step: nat) {
    ghost predicate Valid() {
      0 < window && 0 < step
    }
  }

  /** Number of windows, in closed form. */
  function WindowCount(audioLen: nat, spec: Spec): nat
    requires spec.Valid()
  {
    if audioLen == 0 then 0
    else if audioLen <= spec.window then 1
    else
      var full := (audioLen - spec.window) / spec.step + 1;
      full + if Multiple(full, spec.step) < audioLen then 1 else 0
  }

  /** The unpadded audio of a window, cut at the end of the recording. */
  function ChunkAudio(audio: seq<real>, spec: Spec, idx: nat): (chunk: seq<real>)
    ensures |chunk| <= spec.window
  {
    var start := Multiple(idx, spec.step);
    if start < |audio| then audio[start..if start + spec.window < |audio| then start + spec.window else |audio|] else []
  }

  function Zeros(n: nat): seq<real> {
    seq(n, _ => 0.0)
  }

  function PaddedTo(chunk: seq<real>, n: nat): seq<real>
    requires |chunk| <= n
  {
    chunk + Zeros(n - |chunk|)
  }

  /** Starts of the full windows, and the zero-padded last one. */
  datatype SegmentationWindows = SegmentationWindows(audio: seq<real>, offsets: seq<nat>, padded: Option<seq<real>>,
                                                     spec: Spec)
  {
    function TotalWindows(): nat {
      |offsets| + if padded.Some? then 1 else 0
    }

    ghost predicate Valid() {
      forall k :: 0 <= k < |offsets| ==> offsets[k] + spec.window <= |audio|
    }

    /** None for an index that is out of range. */
    function Window(idx: nat): Option<seq<real>>
      requires Valid()
    {
      if idx < |offsets| then Some(audio[offsets[idx]..offsets[idx] + spec.window])
      else if idx == |offsets| then padded
      else None
    }
  }

  /** Every index below the closed-form count gets its chunk, padded, and no other index gets anything. */
  ghost predicate Collected(audio: seq<real>, spec: Spec, w: SegmentationWindows)
    requires spec.Valid()
  {
    && w.Valid() && w.TotalWindows() == WindowCount(|audio|, spec)
    && (forall idx: nat :: idx < WindowCount(|audio|, spec) ==>
        w.Window(idx) == Some(PaddedTo(ChunkAudio(audio, spec, idx), spec.window)))
    && forall idx: nat :: idx >= WindowCount(|audio|, spec) ==> w.Window(idx) == None
  }

  lemma QuotientBetween(a: nat, step: nat, k: nat)
    requires 0 < step && Multiple(k, step) <= a < Multiple(k + 1, step)
    ensures a / step == k
  {
    MultipleIsProduct(k, step);
    DivideUnique(a, step, k, a - Multiple(k, step));
  }

  lemma FullWindow(audio: seq<real>, spec: Spec, idx: nat)
    requires spec.Valid() && Multiple(idx, spec.step) + spec.window <= |audio|
    ensures var start := Multiple(idx, spec.step);
            PaddedTo(ChunkAudio(audio, spec, idx), spec.window) == audio[start..start + spec.window]
  {
  }

  /** All full windows, and the rest of the audio after them as the padded one if there is any. */
  ghost predicate Scanned(audio: seq<real>, spec: Spec, offsets: seq<nat>, padded: Option<seq<real>>) {
    var offset := Multiple(|offsets|, spec.step);
    && (forall k: nat :: k < |offsets| ==> offsets[k] == Multiple(k, spec.step) && offsets[k] + spec.window <= |audio|)
    && offset + spec.window > |audio|
    && padded == if offset < |audio| && |audio| > spec.window
                 then Some(audio[offset..] + Zeros(spec.window - (|audio| - offset))) else None
  }

  lemma ScannedCount(audio: seq<real>, spec: Spec, offsets: seq<nat>, padded: Option<seq<real>>)
    requires spec.Valid() && Scanned(audio, spec, offsets, padded) && (|audio| == 0 || spec.window <= |audio|)
    ensures |offsets| + (if padded.Some? then 1 else 0) == WindowCount(|audio|, spec)
  {
    if |offsets| == 0 {
      assert |audio| == 0;
    } else {
      assert offsets[|offsets| - 1] == Multiple(|offsets| - 1, spec.step);
      QuotientBetween(|audio| - spec.window, spec.step, |offsets| - 1);
      if |audio| == spec.window {
        MultipleAtLeast(|offsets| - 1, spec.step);
        assert |offsets| == 1;
      }
    }
  }

  lemma ScannedIsCollected(audio: seq<real>, spec: Spec, offsets: seq<nat>, padded: Option<seq<real>>)
    requires spec.Valid() && Scanned(audio, spec, offsets, padded) && (|audio| == 0 || spec.window <= |audio|)
    ensures Collected(audio, spec, SegmentationWindows(audio, offsets, padded, spec))
  {
    ScannedCount(audio, spec, offsets, padded);
    var w := SegmentationWindows(audio, offsets, padded, spec);
    forall idx: nat | idx < WindowCount(|audio|, spec)
      ensures w.Window(idx) == Some(PaddedTo(ChunkAudio(audio, spec, idx), spec.window))
    {
      if idx < |offsets| {
        FullWindow(audio, spec, idx);
      } else {
        assert idx == |offsets| && ChunkAudio(audio, spec, idx) == audio[Multiple(idx, spec.step)..];
      }
    }
  }

  /** Audio shorter than a window is one padded window. */
  lemma ShortIsCollected(audio: seq<real>, spec: Spec)
    requires spec.Valid() && 0 < |audio| < spec.window
    ensures Collected(audio, spec, SegmentationWindows(audio, [], Some(audio + Zeros(spec.window - |audio|)), spec))
  {
    assert ChunkAudio(audio, spec, 0) == audio;
  }

  method Collect(audio: seq<real>, spec: Spec) returns (w: SegmentationWindows)
    requires spec.Valid()
    ensures Collected(audio, spec, w)
  {
    if |audio| != 0 && |audio| < spec.window {
      var padded := audio + Zeros(spec.window - |audio|);
      ShortIsCollected(audio, spec);
      return SegmentationWindows(audio, [], Some(padded), spec);
    }
    var offsets: seq<nat> := [];
    var offset := 0;
    while offset + spec.window <= |audio|
      invariant offset == Multiple(|offsets|, spec.step)
      invariant forall k: nat :: k < |offsets| ==>
                offsets[k] == Multiple(k, spec.step) && offsets[k] + spec.window <= |audio|
      decreases |audio| - offset
    {
      offsets := offsets + [offset];
      offset := offset + spec.step;
    }
    var padded := None;
    if offset < |audio| && |audio| > spec.window {
      var remaining := |audio| - offset;
      padded := Some(audio[offset..] + Zeros(spec.window - remaining));
    }
    ScannedIsCollected(audio, spec, offsets, padded);
    w := SegmentationWindows(audio, offsets, padded, spec);
  }

  /** Every emitted window starts inside the audio. */
  lemma WindowsStartInside(audioLen: nat, spec: Spec, idx: nat)
    requires spec.Valid() && idx < WindowCount(audioLen, spec)
    ensures Multiple(idx, spec.step) < audioLen
  {
    if audioLen > spec.window {
      var q := (audioLen - spec.window) / spec.step;
      FullWindowsFit(audioLen, spec);
      if idx < q {
        MultipleIncreases(idx, q, spec.step);
      }
    }
  }

  /** The last full window ends inside the audio, and the next would not. */
  lemma FullWindowsFit(audioLen: nat, spec: Spec)
    requires spec.Valid() && spec.window < audioLen
    ensures var q := (audioLen - spec.window) / spec.step;
            Multiple(q, spec.step) + spec.window <= audioLen < Multiple(q + 1, spec.step) + spec.window
  {
    var a := audioLen - spec.window;
    var q := a / spec.step;
    MultipleIsProduct(q, spec.step);
    assert a == spec.step * q + a % spec.step;
  }

  /** Sample j of an emitted window is sample j after its start, or zero past the end of the audio. */
  lemma WindowSamples(audio: seq<real>, spec: Spec, w: SegmentationWindows, idx: nat)
    requires spec.Valid() && Collected(audio, spec, w) && idx < WindowCount(|audio|, spec)
    ensures w.Window(idx).Some? && |w.Window(idx).value| == spec.window
    ensures forall j: nat :: j < spec.window ==>
              w.Window(idx).value[j] == if idx * spec.step + j < |audio| then audio[idx * spec.step + j] else 0.0
  {
    MultipleIsProduct(idx, spec.step);
  }

  /** A window is emitted exactly if it is the first of some audio, or starts inside audio longer than a
      window right after one that was full. */
  lemma EmittedIff(audioLen: nat, spec: Spec, idx: nat)
    requires spec.Valid()
    ensures idx < WindowCount(audioLen, spec)
        <==> audioLen > 0
             && (idx == 0
                 || (audioLen > spec.window && Multiple(idx, spec.step) < audioLen
                     && Multiple(idx - 1, spec.step) + spec.window <= audioLen))
  {
    if audioLen > spec.window {
      var q := (audioLen - spec.window) / spec.step;
      FullWindowsFit(audioLen, spec);
      if idx <= q {
        FullBefore(audioLen, spec, idx, q);
      } else if q + 1 < idx {
        MultipleIncreases(q, idx - 1, spec.step);
      }
    }
  }

  lemma FullBefore(audioLen: nat, spec: Spec, idx: nat, q: nat)
    requires spec.Valid() && idx <= q && Multiple(q, spec.step) + spec.window <= audioLen
    ensures Multiple(idx, spec.step) < audioLen
    ensures idx > 0 ==> Multiple(idx - 1, spec.step) + spec.window <= audioLen
  {
    if idx < q {
      MultipleIncreases(idx, q, spec.step);
    }
  }

  ghost predicate ReachedBy(spec: Spec, idx: nat, i: nat) {
    Multiple(idx, spec.step) <= i < Multiple(idx, spec.step) + spec.window
  }

  ghost predicate Reached(audioLen: nat, spec: Spec, i: nat)
    requires spec.Valid()
  {
    exists idx: nat :: idx < WindowCount(audioLen, spec) && ReachedBy(spec, idx, i)
  }

  /** Steps that do not exceed the window leave no gap before the end of window k. */
  lemma {:induction false} NoGapBefore(spec: Spec, k: nat, i: nat) returns (idx: nat)
    requires spec.Valid() && spec.step <= spec.window && i < Multiple(k, spec.step) + spec.window
    ensures idx <= k && ReachedBy(spec, idx, i)
  {
    idx := k;
    if i < Multiple(k, spec.step) {
      idx := NoGapBefore(spec, k - 1, i);
    }
  }

  lemma AllReached(audioLen: nat, spec: Spec, i: nat)
    requires spec.Valid() && spec.step <= spec.window && i < audioLen
    ensures Reached(audioLen, spec, i)
  {
    if audioLen <= spec.window {
      assert ReachedBy(spec, 0, i);
    } else {
      FullWindowsFit(audioLen, spec);
      var idx := NoGapBefore(spec, WindowCount(audioLen, spec) - 1, i);
    }
  }

  /** Windows reach every sample of every recording exactly when the step fits the window. */
  lemma AllReachedIffStepFits(spec: Spec)
    requires spec.Valid()
    ensures spec.step <= spec.window <==> forall audioLen: nat, i: nat :: i < audioLen ==> Reached(audioLen, spec, i)
  {
    if spec.step <= spec.window {
      forall audioLen: nat, i: nat | i < audioLen
        ensures Reached(audioLen, spec, i)
      {
        AllReached(audioLen, spec, i);
      }
    } else {
      forall idx: nat
        ensures !ReachedBy(spec, idx, spec.window)
      {
        MultipleAtLeast(idx, spec.step);
      }
      assert !Reached(spec.window + 1, spec, spec.window);
    }
  }
}
