/** Choosing the frames a speaker is embedded from: the reference form that builds a clean matrix and
    selects a column, and the fused form that writes the chosen column into a buffer. */
module SpeakerMasks {
  import opened Chunking
  import opened Counting
  import opened Matrices
  import opened Options

  const MIN_SPEAKER_ACTIVITY: real := 10.0

  function CleanRow(row: seq<real>): seq<real> {
    if Total(row) < 2.0 then row else seq(|row|, _ => 0.0)
  }

  /** The activity with every frame of overlapping speakers blanked. */
  function Clean(seg: Window): Window {
    seq(|seg|, i requires 0 <= i < |seg| => CleanRow(seg[i]))
  }

  method CleanMasks(seg: Window) returns (clean: Window)
    ensures clean == Clean(seg)
  {
    clean := seq(|seg|, i requires 0 <= i < |seg| => seq(|seg[i]|, _ => 0.0));
    for i := 0 to |seg|
      invariant |clean| == |seg|
      invariant forall k :: 0 <= k < |seg| ==> clean[k] == if k < i then CleanRow(seg[k]) else seq(|seg[k]|, _ => 0.0)
    {
      if Total(seg[i]) < 2.0 {
        clean := clean[i := seg[i]];
      }
    }
  }

  /** Enough clean frames to embed from them alone. */
  predicate ShouldUseClean(cleanColumn: seq<real>, maskLen: nat, audioLen: nat, minSamples: nat) {
    audioLen > 0 && Total(cleanColumn) > DivCeil(maskLen * minSamples, audioLen) as real
  }

  function SelectSpeakerWeights(seg: Window, clean: Window, s: nat, audioLen: nat, minSamples: nat): Option<seq<real>>
    requires forall i :: 0 <= i < |seg| ==> s < |seg[i]|
    requires |clean| == |seg| && forall i :: 0 <= i < |clean| ==> s < |clean[i]|
  {
    var mask := Column(seg, s);
    if Total(mask) < MIN_SPEAKER_ACTIVITY then None
    else if ShouldUseClean(Column(clean, s), |mask|, audioLen, minSamples) then Some(Column(clean, s))
    else Some(mask)
  }

  /** The reference form. */
  function Weights(seg: Window, s: nat, audioLen: nat, minSamples: nat): (w: Option<seq<real>>)
    requires forall i :: 0 <= i < |seg| ==> s < |seg[i]|
    ensures w.Some? ==> |w.value| == |seg|
  {
    SelectSpeakerWeights(seg, Clean(seg), s, audioLen, minSamples)
  }

  /** Speaker s in the frames where the speakers together stay below two, and 0 in the others. */
  ghost function AloneIn(seg: Window, s: nat): (alone: seq<real>)
    requires forall i :: 0 <= i < |seg| ==> s < |seg[i]|
  {
    seq(|seg|, i requires 0 <= i < |seg| => if Total(seg[i]) < 2.0 then seg[i][s] else 0.0)
  }

  /** A speaker of total activity below ten is not embedded. Any other is embedded from the frames where
      he is alone, if their total is more than `enough`, and else from all his frames. */
  ghost predicate IsSelection(seg: Window, s: nat, audioLen: nat, enough: nat, w: Option<seq<real>>)
    requires forall i :: 0 <= i < |seg| ==> s < |seg[i]|
  {
    var all := seq(|seg|, i requires 0 <= i < |seg| => seg[i][s]);
    if Total(all) < 10.0 then w == None
    else if audioLen > 0 && Total(AloneIn(seg, s)) > enough as real then w == Some(AloneIn(seg, s))
    else w == Some(all)
  }

  /** That is how weights are selected, with the least whole number of frames whose share of the audio
      reaches the minimum length. */
  lemma WeightsAreSelection(seg: Window, s: nat, audioLen: nat, minSamples: nat, enough: nat)
    requires forall i :: 0 <= i < |seg| ==> s < |seg[i]|
    requires audioLen > 0 ==> IsLeastCover(|seg| * minSamples, audioLen, enough)
    ensures IsSelection(seg, s, audioLen, enough, Weights(seg, s, audioLen, minSamples))
  {
    assert Column(seg, s) == seq(|seg|, i requires 0 <= i < |seg| => seg[i][s]);
    assert Column(Clean(seg), s) == AloneIn(seg, s);
    if audioLen > 0 {
      DivCeilIsLeast(|seg| * minSamples, audioLen, enough);
    }
  }

  /** The sum of the clean column, without building the clean matrix. */
  method CleanColumnSum(seg: Window, s: nat) returns (sum: real)
    requires forall i :: 0 <= i < |seg| ==> s < |seg[i]|
    ensures sum == Total(Column(Clean(seg), s))
  {
    var column := Column(Clean(seg), s);
    sum := 0.0;
    for i := 0 to |seg|
      invariant sum == Total(column[..i])
    {
      assert column[..i + 1] == column[..i] + [column[i]];
      TotalAppend(column[..i], column[i]);
      if Total(seg[i]) < 2.0 {
        sum := sum + seg[i][s];
      }
    }
    assert column[..|seg|] == column;
  }

  /** The fused form refines the reference form: it reports a speaker active exactly when weights are
      selected, and then writes those weights into the `room` cells from `offset` on; for an
      inactive speaker, and outside those cells, it writes nothing. */
  method WriteSpeakerMaskToSlice(seg: Window, s: nat, audioLen: nat, minSamples: nat, dest: array<real>, offset: nat,
                                 room: nat)
    returns (active: bool)
    requires forall i :: 0 <= i < |seg| ==> s < |seg[i]|
    requires offset + room <= dest.Length
    modifies dest
    ensures active == Weights(seg, s, audioLen, minSamples).Some?
    ensures forall i :: 0 <= i < dest.Length ==>
              dest[i] == if active && offset <= i < offset + Min(|seg|, room)
                         then Weights(seg, s, audioLen, minSamples).value[i - offset] else old(dest[i])
  {
    var mask := Column(seg, s);
    if Total(mask) < MIN_SPEAKER_ACTIVITY {
      return false;
    }
    var cleanSum := CleanColumnSum(seg, s);
    var useClean := audioLen > 0 && cleanSum > DivCeil(|seg| * minSamples, audioLen) as real;
    var copyLen := Min(|seg|, room);
    ghost var weights := Weights(seg, s, audioLen, minSamples).value;
    if useClean {
      for row := 0 to copyLen
        invariant forall i :: 0 <= i < dest.Length ==>
                    dest[i] == if offset <= i < offset + row then weights[i - offset] else old(dest[i])
      {
        dest[offset + row] := if Total(seg[row]) < 2.0 then seg[row][s] else 0.0;
      }
    } else {
      for row := 0 to copyLen
        invariant forall i :: 0 <= i < dest.Length ==>
                    dest[i] == if offset <= i < offset + row then weights[i - offset] else old(dest[i])
      {
        dest[offset + row] := mask[row];
      }
    }
    return true;
  }

  predicate HasPositive(v: seq<real>) {
    exists i :: 0 <= i < |v| && v[i] > 0.0
  }

  lemma {:induction false} PositiveTotal(v: seq<real>)
    requires Total(v) > 0.0
    ensures HasPositive(v)
  {
    var front, last := v[..|v| - 1], v[|v| - 1];
    if last <= 0.0 {
      PositiveTotal(front);
      var i :| 0 <= i < |front| && front[i] > 0.0;
      assert v[i] > 0.0;
    } else {
      assert v[|v| - 1] > 0.0;
    }
  }

  /** The selected weights always have a positive entry, so that testing a mask for one tells active
      speakers from inactive ones, whose mask is all zero. */
  lemma ActiveIffPositive(seg: Window, s: nat, audioLen: nat, minSamples: nat, width: nat)
    requires forall i :: 0 <= i < |seg| ==> s < |seg[i]|
    ensures var w := Weights(seg, s, audioLen, minSamples);
            HasPositive(if w.Some? then w.value else seq(width, _ => 0.0)) <==> w.Some?
  {
    var w := Weights(seg, s, audioLen, minSamples);
    if w.Some? {
      assert Total(w.value) > 0.0;
      PositiveTotal(w.value);
    }
  }
}
