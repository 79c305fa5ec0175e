/** Turning per-frame scores into activity: hysteresis, removal of short regions, filling of short
    gaps, and padding. */
module Binarize {
  import opened Matrices
  import opened Runs

  // --- Hysteresis ------------------------------------------------------------------------------

  /** The state after frame i. */
  function StateAfter(scores: seq<real>, onset: real, offset: real, i: nat): bool
    requires i < |scores|
  {
    var before := i > 0 && StateAfter(scores, onset, offset, i - 1);
    if !before && scores[i] >= onset then true
    else if before && scores[i] < offset then false
    else before
  }

  method Hysteresis(scores: seq<real>, onset: real, offset: real) returns (active: seq<bool>)
    ensures |active| == |scores|
    ensures forall i :: 0 <= i < |scores| ==> active[i] == StateAfter(scores, onset, offset, i)
  {
    active := [];
    var state := false;
    for i := 0 to |scores|
      invariant |active| == i
      invariant forall k :: 0 <= k < i ==> active[k] == StateAfter(scores, onset, offset, k)
      invariant state == (i > 0 && StateAfter(scores, onset, offset, i - 1))
    {
      if !state && scores[i] >= onset {
        state := true;
      } else if state && scores[i] < offset {
        state := false;
      }
      active := active + [state];
    }
  }

  /** Frame j crosses the onset and no later frame up to i is below the offset. */
  ghost predicate LatchedSince(scores: seq<real>, onset: real, offset: real, j: int, i: int) {
    && 0 <= j <= i < |scores| && scores[j] >= onset
    && forall k :: j < k <= i ==> scores[k] >= offset
  }

  ghost predicate Latched(scores: seq<real>, onset: real, offset: real, i: nat) {
    exists j :: LatchedSince(scores, onset, offset, j, i)
  }

  lemma {:induction false} StateIsLatched(scores: seq<real>, onset: real, offset: real, i: nat)
    requires offset <= onset && i < |scores|
    ensures StateAfter(scores, onset, offset, i) <==> Latched(scores, onset, offset, i)
  {
    if i == 0 {
    } else {
      StateIsLatched(scores, onset, offset, i - 1);
    }
    if Latched(scores, onset, offset, i) {
      var j :| LatchedSince(scores, onset, offset, j, i);
      assert j < i ==> LatchedSince(scores, onset, offset, j, i - 1);
    }
    if StateAfter(scores, onset, offset, i) {
      if scores[i] >= onset {
        assert LatchedSince(scores, onset, offset, i, i);
      } else {
        var j :| LatchedSince(scores, onset, offset, j, i - 1);
        assert LatchedSince(scores, onset, offset, j, i);
      }
    }
  }

  /** The latching reading of the thresholds is right exactly when the offset is at most the onset. */
  lemma LatchedIffOrdered(onset: real, offset: real)
    ensures offset <= onset <==>
            forall scores, i: nat :: i < |scores| ==>
              (StateAfter(scores, onset, offset, i) <==> Latched(scores, onset, offset, i))
  {
    if offset <= onset {
      forall scores, i: nat | i < |scores|
        ensures StateAfter(scores, onset, offset, i) <==> Latched(scores, onset, offset, i)
      {
        StateIsLatched(scores, onset, offset, i);
      }
    } else {
      var scores := [onset, onset];
      assert StateAfter(scores, onset, offset, 0);
      assert !StateAfter(scores, onset, offset, 1);
      assert LatchedSince(scores, onset, offset, 1, 1);
    }
  }

  /** Frames j to i all lie between the thresholds, and the frame before them, if there is one, does not. */
  ghost predicate Undecided(scores: seq<real>, onset: real, offset: real, j: nat, i: int) {
    && j <= i + 1 && i < |scores| && (forall k :: j <= k <= i ==> onset <= scores[k] < offset)
    && (j > 0 ==> !(onset <= scores[j - 1] < offset))
  }

  /** With the offset above the onset a frame at the offset or above is on and one below the onset is
      off, and every frame in between switches: so the state depends on how many there were since. */
  lemma {:induction false} CrossedStateSwitches(scores: seq<real>, onset: real, offset: real, j: nat, i: nat)
    requires onset < offset && i < |scores| && Undecided(scores, onset, offset, j, i)
    ensures StateAfter(scores, onset, offset, i)
        <==> (j > 0 && scores[j - 1] >= offset) == ((i + 1 - j) % 2 == 0)
  {
    if i == 0 {
    } else {
      if j <= i {
        CrossedStateSwitches(scores, onset, offset, j, i - 1);
      }
    }
  }

  // --- Removing and filling ------------------------------------------------------------------

  method Fill(a: array<bool>, from: nat, to: nat, value: bool)
    requires from <= to <= a.Length
    modifies a
    ensures forall i :: 0 <= i < a.Length ==> a[i] == if from <= i < to then value else old(a[i])
  {
    for i := from to to
      invariant forall k :: 0 <= k < a.Length ==> a[k] == if from <= k < i then value else old(a[k])
    {
      a[i] := value;
    }
  }

  predicate LongOn(a: seq<bool>, min: nat, i: nat)
    requires i < |a|
  {
    a[i] && RunLength(a, i) >= min
  }

  predicate ShortGap(a: seq<bool>, min: nat, i: nat)
    requires i < |a|
  {
    !a[i] && RunStart(a, i) > 0 && RunEnd(a, i) < |a| && RunLength(a, i) < min
  }

  /** Frames of active regions of at least `min` frames. */
  function Removed(a: seq<bool>, min: nat): (r: seq<bool>)
    ensures |r| == |a|
  {
    seq(|a|, i requires 0 <= i < |a| => LongOn(a, min, i))
  }

  /** Active frames and those of interior gaps shorter than `min`. */
  function Filled(a: seq<bool>, min: nat): (r: seq<bool>)
    ensures |r| == |a|
  {
    seq(|a|, i requires 0 <= i < |a| => a[i] || ShortGap(a, min, i))
  }

  /** Frame i is in one of the first n runs. */
  ghost predicate Visited(runs: seq<(nat, nat)>, n: nat, i: nat)
    requires n <= |runs|
  {
    InSome(runs[..n], i)
  }

  lemma VisitedNext(runs: seq<(nat, nat)>, n: nat, i: nat)
    requires n < |runs|
    ensures Visited(runs, n + 1, i) <==> Visited(runs, n, i) || runs[n].0 <= i < runs[n].1
  {
    assert runs[..n + 1] == runs[..n] + [runs[n]];
    InSomeAppend(runs[..n], runs[n], i);
  }

  lemma VisitedAll(a: seq<bool>, target: bool, runs: seq<(nat, nat)>, i: nat)
    requires AreRuns(a, target, runs, |a|) && i < |a|
    ensures Visited(runs, |runs|, i) <==> a[i] == target
  {
    assert runs[..|runs|] == runs;
  }

  method RemoveShortOn(active: array<bool>, min: nat)
    modifies active
    ensures active[..] == Removed(old(active[..]), min)
  {
    if min == 0 {
      return;
    }
    var before := active[..];
    var runs := FindRuns(before, true);
    for r := 0 to |runs|
      invariant forall i: nat :: i < active.Length ==>
                active[i] == if Visited(runs, r, i) then LongOn(before, min, i) else before[i]
    {
      var (start, end) := runs[r];
      RunFacts(before, true, start, end);
      forall i: nat
        ensures Visited(runs, r + 1, i) <==> Visited(runs, r, i) || start <= i < end
      {
        VisitedNext(runs, r, i);
      }
      if end - start < min {
        Fill(active, start, end, false);
      }
    }
    forall i: nat | i < active.Length
      ensures active[i] == LongOn(before, min, i)
    {
      VisitedAll(before, true, runs, i);
    }
  }

  method FillShortOff(active: array<bool>, min: nat)
    modifies active
    ensures active[..] == Filled(old(active[..]), min)
  {
    if min == 0 {
      return;
    }
    var before := active[..];
    var runs := FindRuns(before, false);
    for r := 0 to |runs|
      invariant forall i: nat :: i < active.Length ==>
                active[i] == (before[i] || (Visited(runs, r, i) && ShortGap(before, min, i)))
    {
      var (start, end) := runs[r];
      RunFacts(before, false, start, end);
      forall i: nat
        ensures Visited(runs, r + 1, i) <==> Visited(runs, r, i) || start <= i < end
      {
        VisitedNext(runs, r, i);
      }
      // only interior gaps
      if start > 0 && end < active.Length && end - start < min {
        Fill(active, start, end, true);
      }
    }
    forall i: nat | i < active.Length
      ensures active[i] == (before[i] || ShortGap(before, min, i))
    {
      VisitedAll(before, false, runs, i);
    }
  }

  /** Every active region has at least `min` frames. */
  ghost predicate OnAtLeast(a: seq<bool>, min: nat) {
    forall s: nat, e: nat :: IsRun(a, true, s, e) ==> e - s >= min
  }

  /** Every gap between two active regions has at least `min` frames. */
  ghost predicate GapsAtLeast(a: seq<bool>, min: nat) {
    forall s: nat, e: nat :: IsRun(a, false, s, e) && 0 < s && e < |a| ==> e - s >= min
  }

  lemma RemovedRuns(a: seq<bool>, min: nat)
    ensures OnAtLeast(Removed(a, min), min)
  {
    var r := Removed(a, min);
    forall s: nat, e: nat | IsRun(r, true, s, e)
      ensures e - s >= min
    {
      assert r[s] && LongOn(a, min, s);
      RunIsMaximal(a, s);
      var y := RunEnd(a, s);
      RunFacts(a, true, RunStart(a, s), y);
      assert s > 0 ==> !r[s - 1] && !LongOn(a, min, s - 1);
      assert RunStart(a, s) == s;
      assert e < y ==> r[e] == LongOn(a, min, e);
    }
  }

  /** A frame of a filled gap has an active left neighbour after filling. */
  lemma FilledFromLeft(a: seq<bool>, min: nat, i: nat)
    requires i < |a| && ShortGap(a, min, i)
    ensures i > 0 && Filled(a, min)[i - 1]
  {
    RunIsMaximal(a, i);
    RunFacts(a, false, RunStart(a, i), RunEnd(a, i));
  }

  /** Filling only lengthens active regions. */
  lemma FilledKeepsOn(a: seq<bool>, minOn: nat, minOff: nat)
    requires OnAtLeast(a, minOn)
    ensures OnAtLeast(Filled(a, minOff), minOn)
  {
    var f := Filled(a, minOff);
    forall s: nat, e: nat | IsRun(f, true, s, e)
      ensures e - s >= minOn
    {
      if !a[s] {
        assert f[s];
        FilledFromLeft(a, minOff, s);
      } else {
        RunIsMaximal(a, s);
        assert s > 0 ==> !f[s - 1];
        assert forall k: nat :: s <= k < RunEnd(a, s) ==> f[k];
      }
    }
  }

  /** A gap that is left between active regions was a gap before, and was too long to fill. */
  lemma FilledGaps(a: seq<bool>, min: nat)
    ensures GapsAtLeast(Filled(a, min), min)
  {
    var f := Filled(a, min);
    forall s: nat, e: nat | IsRun(f, false, s, e) && 0 < s && e < |f|
      ensures e - s >= min
    {
      assert !f[s] && !a[s];
      var x, y := RunStart(a, s), RunEnd(a, s);
      RunIsMaximal(a, s);
      RunFacts(a, false, x, y);
      assert forall k: nat :: x <= k < y ==> !f[k];
      assert x == s;
      assert y == e by {
        assert y < |a| ==> a[y] && f[y];
      }
    }
  }

  // --- Padding -------------------------------------------------------------------------------

  /** Frame i is within reach of an active frame. */
  ghost predicate Reached(a: seq<bool>, padOnset: nat, padOffset: nat, i: int) {
    exists j :: 0 <= j < |a| && a[j] && j - padOnset <= i <= j + padOffset
  }

  /** Frame i is in the padded form of one of the first n runs. */
  ghost predicate Padded(runs: seq<(nat, nat)>, n: nat, padOnset: nat, padOffset: nat, i: int)
    requires n <= |runs|
  {
    exists k :: 0 <= k < n && runs[k].0 - padOnset <= i < runs[k].1 + padOffset
  }

  lemma PaddedNext(runs: seq<(nat, nat)>, n: nat, padOnset: nat, padOffset: nat, i: int)
    requires n < |runs|
    ensures Padded(runs, n + 1, padOnset, padOffset, i) <==>
              Padded(runs, n, padOnset, padOffset, i) || runs[n].0 - padOnset <= i < runs[n].1 + padOffset
  {
    if Padded(runs, n, padOnset, padOffset, i) {
      var k :| 0 <= k < n && runs[k].0 - padOnset <= i < runs[k].1 + padOffset;
      assert 0 <= k < n + 1;
    }
  }

  lemma PaddedIsReached(a: seq<bool>, runs: seq<(nat, nat)>, padOnset: nat, padOffset: nat, i: int)
    requires AreRuns(a, true, runs, |a|) && 0 <= i < |a|
    ensures a[i] || Padded(runs, |runs|, padOnset, padOffset, i) <==> Reached(a, padOnset, padOffset, i)
  {
    if Padded(runs, |runs|, padOnset, padOffset, i) {
      var k :| 0 <= k < |runs| && runs[k].0 - padOnset <= i < runs[k].1 + padOffset;
      var j := if i < runs[k].0 then runs[k].0 else if i < runs[k].1 then i else runs[k].1 - 1;
      assert a[j];
    }
    if Reached(a, padOnset, padOffset, i) {
      var j :| 0 <= j < |a| && a[j] && j - padOnset <= i <= j + padOffset;
      assert InSome(runs, j);
      var k :| 0 <= k < |runs| && runs[k].0 <= j < runs[k].1;
      assert Padded(runs, |runs|, padOnset, padOffset, i);
    }
  }

  method PadRegions(active: array<bool>, padOnset: nat, padOffset: nat)
    modifies active
    ensures forall i: nat :: i < active.Length ==> active[i] == Reached(old(active[..]), padOnset, padOffset, i)
  {
    ghost var a := active[..];
    if padOnset == 0 && padOffset == 0 {
      assert forall i: nat :: i < active.Length && a[i] ==> Reached(a, 0, 0, i);
      return;
    }
    var runs := FindRuns(active[..], true);
    for r := 0 to |runs|
      invariant forall i: nat :: i < active.Length ==> active[i] == (a[i] || Padded(runs, r, padOnset, padOffset, i))
    {
      var (start, end) := runs[r];
      assert IsRun(a, true, start, end);
      var padStart := if padOnset < start then start - padOnset else 0;
      var padEnd := if end + padOffset < active.Length then end + padOffset else active.Length;
      forall i: nat | i < active.Length
        ensures Padded(runs, r + 1, padOnset, padOffset, i) <==>
                Padded(runs, r, padOnset, padOffset, i) || padStart <= i < padEnd
      {
        PaddedNext(runs, r, padOnset, padOffset, i);
      }
      Fill(active, padStart, padEnd, true);
    }
    forall i: nat | i < active.Length
      ensures active[i] == Reached(a, padOnset, padOffset, i)
    {
      PaddedIsReached(a, runs, padOnset, padOffset, i);
    }
  }

  // --- One column ----------------------------------------------------------------------------

  datatype Config = Config(onset: real, offset: real, minOn: nat, minOff: nat, padOnset: nat, padOffset: nat)

  function Raw(scores: seq<real>, config: Config): (a: seq<bool>)
    ensures |a| == |scores|
  {
    seq(|scores|, i requires 0 <= i < |scores| => StateAfter(scores, config.onset, config.offset, i))
  }

  /** The activity of one speaker before padding. */
  function Smoothed(scores: seq<real>, config: Config): (a: seq<bool>)
    ensures |a| == |scores|
  {
    Filled(Removed(Raw(scores, config), config.minOn), config.minOff)
  }

  method BinarizeColumn(scores: seq<real>, config: Config) returns (active: array<bool>)
    ensures fresh(active) && active.Length == |scores|
    ensures forall i: nat :: i < |scores| ==>
            active[i] == Reached(Smoothed(scores, config), config.padOnset, config.padOffset, i)
  {
    var raw := Hysteresis(scores, config.onset, config.offset);
    assert raw == Raw(scores, config);
    active := new bool[|raw|](i requires 0 <= i < |raw| => raw[i]);
    assert active[..] == raw;
    RemoveShortOn(active, config.minOn);
    FillShortOff(active, config.minOff);
    assert active[..] == Smoothed(scores, config);
    PadRegions(active, config.padOnset, config.padOffset);
  }

  /** Frames s to e - 1 are a maximal active region of at least `min` frames. */
  ghost predicate IsLong(a: seq<bool>, min: nat, s: nat, e: nat) {
    IsRun(a, true, s, e) && e - s >= min
  }

  ghost predicate InLong(a: seq<bool>, min: nat, i: nat) {
    exists s: nat, e: nat :: IsLong(a, min, s, e) && s <= i < e
  }

  /** Frame i lies between the end e of a long region and the start s of the next one, not far behind. */
  ghost predicate IsBridge(a: seq<bool>, minOn: nat, minOff: nat, e: nat, s: nat) {
    && e < s && s - e < minOff
    && (exists x: nat :: IsLong(a, minOn, x, e)) && (exists y: nat :: IsLong(a, minOn, s, y))
    && forall x: nat, y: nat :: IsLong(a, minOn, x, y) ==> y <= e || s <= x
  }

  ghost predicate Bridged(a: seq<bool>, minOn: nat, minOff: nat, i: nat) {
    exists e: nat, s: nat :: IsBridge(a, minOn, minOff, e, s) && e <= i < s
  }

  lemma LongOnIsInLong(a: seq<bool>, min: nat, i: nat)
    requires i < |a|
    ensures LongOn(a, min, i) <==> InLong(a, min, i)
  {
    if LongOn(a, min, i) {
      RunIsMaximal(a, i);
      assert IsLong(a, min, RunStart(a, i), RunEnd(a, i));
    }
    if InLong(a, min, i) {
      var s: nat, e: nat :| IsLong(a, min, s, e) && s <= i < e;
      RunFacts(a, true, s, e);
    }
  }

  lemma RemovedIsInLong(a: seq<bool>, min: nat)
    ensures forall i: nat :: i < |a| ==> (Removed(a, min)[i] <==> InLong(a, min, i))
  {
    forall i: nat | i < |a|
      ensures Removed(a, min)[i] <==> InLong(a, min, i)
    {
      LongOnIsInLong(a, min, i);
    }
  }

  /** A long region that reaches just up to a frame outside all long regions ends there. */
  lemma LongBefore(a: seq<bool>, min: nat, i: nat) returns (s: nat)
    requires 0 < i < |a| && InLong(a, min, i - 1) && !InLong(a, min, i)
    ensures IsLong(a, min, s, i)
  {
    var e: nat;
    s, e :| IsLong(a, min, s, e) && s <= i - 1 < e;
    assert !(s <= i < e);
  }

  lemma LongAfter(a: seq<bool>, min: nat, i: nat) returns (e: nat)
    requires 0 < i < |a| && !InLong(a, min, i - 1) && InLong(a, min, i)
    ensures IsLong(a, min, i, e)
  {
    var s: nat;
    s, e :| IsLong(a, min, s, e) && s <= i < e;
    assert !(s <= i - 1 < e);
  }

  /** A short gap of what removal left is the stretch between two neighbouring long regions. */
  lemma ShortGapIsBridge(a: seq<bool>, minOn: nat, minOff: nat, i: nat)
    requires i < |a| && ShortGap(Removed(a, minOn), minOff, i)
    ensures Bridged(a, minOn, minOff, i)
  {
    var r := Removed(a, minOn);
    var e, s := RunStart(r, i), RunEnd(r, i);
    RunIsMaximal(r, i);
    RemovedIsInLong(a, minOn);
    var x := LongBefore(a, minOn, e);
    var y := LongAfter(a, minOn, s);
    forall p: nat, q: nat | IsLong(a, minOn, p, q)
      ensures q <= e || s <= p
    {
      LongMissesGap(a, minOn, p, q, e, s);
    }
    assert IsBridge(a, minOn, minOff, e, s);
  }

  lemma LongMissesGap(a: seq<bool>, min: nat, p: nat, q: nat, e: nat, s: nat)
    requires IsLong(a, min, p, q) && e < s <= |a| && forall k: nat :: e <= k < s ==> !InLong(a, min, k)
    ensures q <= e || s <= p
  {
    if e < q && p < s {
      var k := if p < e then e else p;
      assert p <= k < q && e <= k < s;
      assert InLong(a, min, k);
    }
  }

  lemma BridgeIsShortGap(a: seq<bool>, minOn: nat, minOff: nat, e: nat, s: nat, i: nat)
    requires IsBridge(a, minOn, minOff, e, s) && e <= i < s
    ensures i < |a| && ShortGap(Removed(a, minOn), minOff, i)
  {
    var r := Removed(a, minOn);
    var x: nat :| IsLong(a, minOn, x, e);
    var y: nat :| IsLong(a, minOn, s, y);
    RemovedIsInLong(a, minOn);
    assert InLong(a, minOn, e - 1) && InLong(a, minOn, s);
    forall k: nat | e <= k < s
      ensures !r[k]
    {
    }
    assert IsRun(r, false, e, s);
    RunFacts(r, false, e, s);
  }

  /** Before padding exactly the long regions of the raw state are active, and the short stretches
      between neighbouring ones: a short region neither stays nor helps to bridge a gap. */
  lemma SmoothedIsBridgedLong(scores: seq<real>, config: Config, i: nat)
    requires i < |scores|
    ensures var raw := Raw(scores, config);
            Smoothed(scores, config)[i]
            <==> InLong(raw, config.minOn, i) || Bridged(raw, config.minOn, config.minOff, i)
  {
    var raw := Raw(scores, config);
    RemovedIsInLong(raw, config.minOn);
    if ShortGap(Removed(raw, config.minOn), config.minOff, i) {
      ShortGapIsBridge(raw, config.minOn, config.minOff, i);
    }
    if Bridged(raw, config.minOn, config.minOff, i) {
      var e: nat, s: nat :| IsBridge(raw, config.minOn, config.minOff, e, s) && e <= i < s;
      BridgeIsShortGap(raw, config.minOn, config.minOff, e, s, i);
    }
  }

  /** The durations hold of the activity before padding. */
  lemma SmoothedDurations(scores: seq<real>, config: Config)
    ensures OnAtLeast(Smoothed(scores, config), config.minOn)
    ensures GapsAtLeast(Smoothed(scores, config), config.minOff)
  {
    var raw := Raw(scores, config);
    RemovedRuns(raw, config.minOn);
    FilledKeepsOn(Removed(raw, config.minOn), config.minOn, config.minOff);
    FilledGaps(Removed(raw, config.minOn), config.minOff);
  }

  function Scores(a: seq<bool>): seq<real> {
    seq(|a|, i requires 0 <= i < |a| => if a[i] then 1.0 else 0.0)
  }

  lemma {:induction false} HysteresisKeepsBinary(a: seq<bool>, onset: real, offset: real, i: nat)
    requires 0.0 < onset <= 1.0 && 0.0 < offset <= 1.0 && i < |a|
    ensures StateAfter(Scores(a), onset, offset, i) == a[i]
  {
    if i == 0 {
    } else {
      HysteresisKeepsBinary(a, onset, offset, i - 1);
    }
  }

  lemma DurationsAreKept(a: seq<bool>, minOn: nat, minOff: nat)
    requires OnAtLeast(a, minOn) && GapsAtLeast(a, minOff)
    ensures Filled(Removed(a, minOn), minOff) == a
  {
    forall i: nat | i < |a|
      ensures LongOn(a, minOn, i) == a[i] && !ShortGap(a, minOff, i)
    {
      RunIsMaximal(a, i);
    }
    assert Removed(a, minOn) == a;
  }

  /** Without padding, and with thresholds that tell 0 from 1, a second pass changes nothing. */
  lemma SmoothingIsIdempotent(scores: seq<real>, config: Config)
    requires 0.0 < config.onset <= 1.0 && 0.0 < config.offset <= 1.0
    ensures Smoothed(Scores(Smoothed(scores, config)), config) == Smoothed(scores, config)
  {
    var a := Smoothed(scores, config);
    forall i: nat | i < |a|
      ensures StateAfter(Scores(a), config.onset, config.offset, i) == a[i]
    {
      HysteresisKeepsBinary(a, config.onset, config.offset, i);
    }
    assert Raw(Scores(a), config) == a;
    SmoothedDurations(scores, config);
    DurationsAreKept(a, config.minOn, config.minOff);
  }

  // --- The whole function --------------------------------------------------------------------

  /** One speaker's output: 1 within reach of the smoothed activity, and 0 elsewhere. */
  ghost function Binarized(scores: seq<real>, config: Config): seq<real> {
    seq(|scores|, i requires 0 <= i < |scores| =>
      if Reached(Smoothed(scores, config), config.padOnset, config.padOffset, i) then 1.0 else 0.0)
  }

  method WriteColumn(output: array2<real>, s: nat, active: array<bool>)
    requires s < output.Length1 && active.Length == output.Length0
    modifies output
    ensures forall f: nat, k: nat :: f < output.Length0 && k < output.Length1 ==>
              output[f, k] == if k == s then (if active[f] then 1.0 else 0.0) else old(output[f, k])
  {
    for f := 0 to active.Length
      invariant forall i: nat, k: nat :: i < output.Length0 && k < output.Length1 ==>
                  output[i, k] == if k == s && i < f then (if active[i] then 1.0 else 0.0) else old(output[i, k])
    {
      output[f, s] := if active[f] then 1.0 else 0.0;
    }
  }

  ghost predicate IsBinarized(probs: seq<seq<real>>, config: Config, output: array2<real>, s: nat)
    requires (forall f :: 0 <= f < |probs| ==> s < |probs[f]|) && output.Length0 == |probs| && s < output.Length1
    reads output
  {
    forall f: nat :: f < |probs| ==> output[f, s] == Binarized(Column(probs, s), config)[f]
  }

  method Binarize(probs: seq<seq<real>>, speakers: nat, config: Config) returns (output: array2<real>)
    requires forall f :: 0 <= f < |probs| ==> |probs[f]| == speakers
    ensures output.Length0 == |probs| && output.Length1 == speakers
    ensures forall s: nat :: s < speakers ==> IsBinarized(probs, config, output, s)
  {
    output := new real[|probs|, speakers]((_, _) => 0.0);
    for speaker := 0 to speakers
      invariant forall s: nat :: s < speaker ==> IsBinarized(probs, config, output, s)
    {
      var active := BinarizeColumn(Column(probs, speaker), config);
      label Before:
      WriteColumn(output, speaker, active);
      forall s: nat | s <= speaker
        ensures IsBinarized(probs, config, output, s)
      {
        assert s < speaker ==> old@Before(IsBinarized(probs, config, output, s));
      }
    }
  }

  lemma NoPadding(scores: seq<real>, config: Config)
    requires config.padOnset == 0 && config.padOffset == 0
    ensures Binarized(scores, config) == Scores(Smoothed(scores, config))
  {
    forall i | 0 <= i < |scores|
      ensures Reached(Smoothed(scores, config), 0, 0, i) <==> Smoothed(scores, config)[i]
    {
    }
  }

  lemma BinarizeIsIdempotent(scores: seq<real>, config: Config)
    requires config.padOnset == 0 && config.padOffset == 0
    requires 0.0 < config.onset <= 1.0 && 0.0 < config.offset <= 1.0
    ensures Binarized(Binarized(scores, config), config) == Binarized(scores, config)
  {
    NoPadding(scores, config);
    NoPadding(Binarized(scores, config), config);
    SmoothingIsIdempotent(scores, config);
  }
}
