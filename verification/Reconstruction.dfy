/** Frame-level speakers out of overlapping windows: how many speak in a frame, how strongly each
    cluster does, and the choice of the strongest. */
module Reconstruction {
  import opened Chunking
  import opened Counting
  import opened Matrices

  /** Decoded windows, the cluster of each window's speakers (negative for none), the output frame at
      which each window starts, and the frames to ignore at both ends of a window. */
  datatype Input = Input(segs: seq<Window>, frames: nat, speakers: nat, clusters: seq<seq<int>>, starts: seq<nat>,
                         warmup: nat)
  {
    ghost predicate Valid() {
      && (forall k :: 0 <= k < |segs| ==> |segs[k]| == frames && Rectangular(segs[k], speakers))
      && |clusters| == |segs| && forall k :: 0 <= k < |clusters| ==> |clusters[k]| == speakers
    }

    function Chunks(): nat {
      if |starts| < |segs| then |starts| else |segs|
    }

    function WarmupEnd(): nat {
      if warmup < frames then frames - warmup else 0
    }

    /** Window k contributes to output frame f. */
    predicate Covers(k: nat, f: nat) {
      k < |starts| && starts[k] + warmup <= f < starts[k] + WarmupEnd()
    }

    function Row(k: nat, f: nat): (row: seq<real>)
      requires Valid() && k < Chunks() && Covers(k, f)
      ensures |row| == speakers
    {
      segs[k][f - starts[k]]
    }
  }

  /** Frame f of the output is a frame of window k, and neither one of its first `warmup` nor of its last. */
  ghost predicate InCore(input: Input, k: nat, f: nat) {
    k < |input.starts| && input.starts[k] + input.warmup <= f && f + input.warmup < input.starts[k] + input.frames
  }

  /** The windows among the first n that contribute to frame f. */
  ghost function CoveringWindows(input: Input, f: nat, n: nat): set<nat> {
    set k: nat | k < n && InCore(input, k, f)
  }

  // --- Speaker count -----------------------------------------------------------------------------

  /** Total activity of the first n windows in frame f. */
  function Activity(input: Input, f: nat, n: nat): real
    requires input.Valid() && n <= input.Chunks()
  {
    if n == 0 then 0.0
    else Activity(input, f, n - 1) + if input.Covers(n - 1, f) then Total(input.Row(n - 1, f)) else 0.0
  }

  /** Number of the first n windows that contribute to frame f. */
  function Coverage(input: Input, f: nat, n: nat): nat
    requires input.Valid() && n <= input.Chunks()
  {
    if n == 0 then 0 else Coverage(input, f, n - 1) + if input.Covers(n - 1, f) then 1 else 0
  }

  /** The coverage is the number of contributing windows. */
  lemma {:induction false} CoverageCounts(input: Input, f: nat, n: nat)
    requires input.Valid() && n <= input.Chunks()
    ensures Coverage(input, f, n) == |CoveringWindows(input, f, n)|
  {
    if n == 0 {
    } else {
      CoverageCounts(input, f, n - 1);
      WindowsNext(input, f, n - 1);
    }
  }

  lemma WindowsNext(input: Input, f: nat, n: nat)
    ensures CoveringWindows(input, f, n + 1)
         == CoveringWindows(input, f, n) + if InCore(input, n, f) then {n} else {}
  {
  }

  /** `sums` has the summed row of each window that contributes to frame f, and 0 for the others. */
  ghost predicate RowTotals(input: Input, f: nat, sums: seq<real>)
    requires input.Valid() && |sums| <= input.Chunks()
  {
    forall k: nat :: k < |sums| ==>
      sums[k] == if InCore(input, k, f) then Total(input.segs[k][f - input.starts[k]]) else 0.0
  }

  lemma {:induction false} ActivityIsTotal(input: Input, f: nat, sums: seq<real>)
    requires input.Valid() && |sums| <= input.Chunks() && RowTotals(input, f, sums)
    ensures Activity(input, f, |sums|) == Total(sums)
  {
    if sums == [] {
    } else {
      ActivityIsTotal(input, f, sums[..|sums| - 1]);
    }
  }

  const EPSILON: real := 0.000001

  function RoundTiesEven(value: real): int {
    var lower := value.Floor;
    var fraction := value - lower as real;
    if fraction < 0.5 - EPSILON then lower
    else if fraction > 0.5 + EPSILON then lower + 1
    else if lower % 2 == 0 then lower
    else lower + 1
  }

  /** r is the integer nearest to x, or an even one if x lies within a millionth of a tie. */
  ghost predicate IsRounded(x: real, r: int) {
    -0.499999 < x - r as real < 0.499999 || (r % 2 == 0 && -0.500001 <= x - r as real <= 0.500001)
  }

  lemma RoundIsNearest(value: real)
    ensures IsRounded(value, RoundTiesEven(value))
  {
  }

  /** There is only one such integer. */
  lemma RoundedIsUnique(x: real, r: int, s: int)
    requires IsRounded(x, r) && IsRounded(x, s)
    ensures r == s
  {
    assert -2 < r - s < 2;
  }

  /** The average activity of the windows that contribute, rounded. */
  function CountAt(input: Input, f: nat): nat
    requires input.Valid()
  {
    var weight := Coverage(input, f, input.Chunks());
    if weight == 0 then 0
    else
      var rounded := RoundTiesEven(Activity(input, f, input.Chunks()) / weight as real);
      if rounded > 0 then rounded else 0
  }

  /** A frame counts the rounded mean of the speakers of its windows, at least none, and none without a
      window. */
  lemma CountIsRoundedMean(input: Input, f: nat, sums: seq<real>) returns (r: int)
    requires input.Valid() && |sums| == input.Chunks() && RowTotals(input, f, sums)
    ensures var windows := CoveringWindows(input, f, |sums|);
            if windows == {} then CountAt(input, f) == 0
            else IsRounded(Total(sums) / |windows| as real, r) && CountAt(input, f) == if r > 0 then r else 0
  {
    var windows := CoveringWindows(input, f, |sums|);
    CoverageCounts(input, f, |sums|);
    ActivityIsTotal(input, f, sums);
    if windows == {} {
      r := 0;
    } else {
      r := RoundTiesEven(Total(sums) / |windows| as real);
      RoundIsNearest(Total(sums) / |windows| as real);
    }
  }

  /** The buffers hold the sums over the first n windows. */
  ghost predicate Summed(input: Input, numerator: array<real>, denominator: array<nat>, n: nat)
    requires input.Valid() && n <= input.Chunks() && numerator.Length == denominator.Length
    reads numerator, denominator
  {
    forall f: nat :: f < numerator.Length ==>
        numerator[f] == Activity(input, f, n) && denominator[f] == Coverage(input, f, n)
  }

  /** Add window k to the sums, frame by frame. */
  method AddWindow(input: Input, k: nat, numerator: array<real>, denominator: array<nat>)
    requires input.Valid() && k < input.Chunks() && numerator.Length == denominator.Length
    requires Summed(input, numerator, denominator, k)
    modifies numerator, denominator
    ensures Summed(input, numerator, denominator, k + 1)
  {
    var start := input.starts[k];
    var frame := input.warmup;
    while frame < input.WarmupEnd()
      invariant input.warmup <= frame
      invariant forall f: nat :: f < numerator.Length ==>
                  if input.Covers(k, f) && f < start + frame
                  then numerator[f] == Activity(input, f, k + 1) && denominator[f] == Coverage(input, f, k + 1)
                  else numerator[f] == Activity(input, f, k) && denominator[f] == Coverage(input, f, k)
      decreases input.WarmupEnd() - frame
    {
      var out := start + frame;
      if out < numerator.Length {
        numerator[out] := numerator[out] + Total(input.segs[k][frame]);
        denominator[out] := denominator[out] + 1;
      }
      frame := frame + 1;
    }
  }

  method SpeakerCount(input: Input, outputFrames: nat) returns (counts: seq<nat>)
    requires input.Valid()
    ensures |counts| == if |input.segs| == 0 then 0 else outputFrames
    ensures forall f: nat :: f < |counts| ==> counts[f] == CountAt(input, f)
  {
    if |input.segs| == 0 {
      return [];
    }
    var numerator := new real[outputFrames](_ => 0.0);
    var denominator := new nat[outputFrames](_ => 0);
    for k := 0 to input.Chunks()
      invariant Summed(input, numerator, denominator, k)
    {
      AddWindow(input, k, numerator, denominator);
    }
    counts := [];
    for f := 0 to outputFrames
      invariant |counts| == f && Summed(input, numerator, denominator, input.Chunks())
      invariant forall i: nat :: i < f ==> counts[i] == CountAt(input, i)
    {
      var count := 0;
      if denominator[f] != 0 {
        var rounded := RoundTiesEven(numerator[f] / denominator[f] as real);
        count := if rounded > 0 then rounded else 0;
      }
      counts := counts + [count];
    }
  }

  // --- Cluster activations -----------------------------------------------------------------------

  /** Numbers below n whose label is c, in increasing order. */
  function Members(labels: seq<int>, c: int, n: nat): seq<nat>
    requires n <= |labels|
  {
    if n == 0 then [] else if labels[n - 1] == c then Members(labels, c, n - 1) + [n - 1] else Members(labels, c, n - 1)
  }

  lemma {:induction false} MembersBelow(labels: seq<int>, c: int, n: nat)
    requires n <= |labels|
    ensures forall l :: l in Members(labels, c, n) <==> 0 <= l < n && labels[l] == c
    ensures InRange(Members(labels, c, n), n)
  {
    if n == 0 {
    } else {
      MembersBelow(labels, c, n - 1);
    }
  }

  lemma {:induction false} MembersInOrder(labels: seq<int>, c: int, n: nat)
    requires n <= |labels|
    ensures forall i, j :: 0 <= i < j < |Members(labels, c, n)| ==> Members(labels, c, n)[i] < Members(labels, c, n)[j]
  {
    if n == 0 {
    } else {
      MembersInOrder(labels, c, n - 1);
      MembersBelow(labels, c, n - 1);
    }
  }

  method BuildClusterMapping(labels: seq<int>, numClusters: nat) returns (mapping: seq<seq<nat>>)
    requires forall l :: 0 <= l < |labels| ==> labels[l] < numClusters
    ensures |mapping| == numClusters
    ensures forall c: nat :: c < numClusters ==> mapping[c] == Members(labels, c, |labels|)
    ensures forall c: nat :: c < numClusters ==>
              && (forall l :: l in mapping[c] <==> 0 <= l < |labels| && labels[l] == c)
              && forall i, j :: 0 <= i < j < |mapping[c]| ==> mapping[c][i] < mapping[c][j]
  {
    mapping := seq(numClusters, _ => []);
    for l := 0 to |labels|
      invariant |mapping| == numClusters
      invariant forall c: nat :: c < numClusters ==> mapping[c] == Members(labels, c, l)
    {
      if labels[l] >= 0 {
        mapping := mapping[labels[l] := mapping[labels[l]] + [l]];
      }
    }
    forall c: nat | c < numClusters
      ensures mapping[c] == Members(labels, c, |labels|)
      ensures forall l :: l in mapping[c] <==> 0 <= l < |labels| && labels[l] == c
      ensures forall i, j :: 0 <= i < j < |mapping[c]| ==> mapping[c][i] < mapping[c][j]
    {
      MembersBelow(labels, c, |labels|);
      MembersInOrder(labels, c, |labels|);
    }
  }

  predicate InRange(members: seq<nat>, n: nat) {
    forall i :: 0 <= i < |members| ==> members[i] < n
  }

  /** Largest of zero and the listed entries. */
  function Strongest(row: seq<real>, members: seq<nat>): real
    requires InRange(members, |row|)
  {
    if members == [] then 0.0
    else MaxReal(Strongest(row, members[..|members| - 1]), row[members[|members| - 1]])
  }

  /** It bounds every listed entry, and is zero or one of them. */
  lemma {:induction false} StrongestIsMaximum(row: seq<real>, members: seq<nat>)
    requires InRange(members, |row|)
    ensures Strongest(row, members) >= 0.0
    ensures forall i :: 0 <= i < |members| ==> row[members[i]] <= Strongest(row, members)
    ensures Strongest(row, members) == 0.0 ||
            exists i :: 0 <= i < |members| && row[members[i]] == Strongest(row, members)
  {
    if members == [] {
    } else {
      var front, last := members[..|members| - 1], members[|members| - 1];
      StrongestIsMaximum(row, front);
      if Strongest(row, front) == Strongest(row, members) && Strongest(row, front) != 0.0 {
        var i :| 0 <= i < |front| && row[front[i]] == Strongest(row, front);
        assert members[i] == front[i];
      }
      assert members[|members| - 1] == last;
    }
  }

  function ScoreIn(input: Input, k: nat, c: nat, f: nat): real
    requires input.Valid() && k < input.Chunks() && input.Covers(k, f)
  {
    MembersBelow(input.clusters[k], c, input.speakers);
    Strongest(input.Row(k, f), Members(input.clusters[k], c, input.speakers))
  }

  /** Activation of cluster c in frame f over the first n windows: the sum of its strongest speaker in
      each window that contributes. */
  function Activation(input: Input, c: nat, f: nat, n: nat): real
    requires input.Valid() && n <= input.Chunks()
  {
    if n == 0 then 0.0
    else Activation(input, c, f, n - 1) + if input.Covers(n - 1, f) then ScoreIn(input, n - 1, c, f) else 0.0
  }

  /** x is the largest entry of the cluster's speakers in window k at frame f, or 0 if none exceeds it. */
  ghost predicate IsPeak(input: Input, k: nat, c: nat, f: nat, x: real)
    requires input.Valid() && k < input.Chunks() && InCore(input, k, f)
  {
    var row := input.segs[k][f - input.starts[k]];
    && x >= 0.0 && (forall l: nat :: l < input.speakers && input.clusters[k][l] == c ==> row[l] <= x)
    && (x == 0.0 || exists l: nat :: l < input.speakers && input.clusters[k][l] == c && row[l] == x)
  }

  lemma ScoreIsPeak(input: Input, k: nat, c: nat, f: nat)
    requires input.Valid() && k < input.Chunks() && input.Covers(k, f)
    ensures IsPeak(input, k, c, f, ScoreIn(input, k, c, f))
  {
    var row, members := input.Row(k, f), Members(input.clusters[k], c, input.speakers);
    MembersBelow(input.clusters[k], c, input.speakers);
    StrongestIsMaximum(row, members);
    forall l: nat | l < input.speakers && input.clusters[k][l] == c
      ensures row[l] <= Strongest(row, members)
    {
      assert l in members;
    }
    if Strongest(row, members) != 0.0 {
      var i :| 0 <= i < |members| && row[members[i]] == Strongest(row, members);
      assert members[i] in members;
    }
  }

  lemma PeakIsUnique(input: Input, k: nat, c: nat, f: nat, x: real, y: real)
    requires input.Valid() && k < input.Chunks() && InCore(input, k, f)
    requires IsPeak(input, k, c, f, x) && IsPeak(input, k, c, f, y)
    ensures x == y
  {
  }

  /** `peaks` has the cluster's peak in each window that contributes to frame f, and 0 for the others. */
  ghost predicate Peaks(input: Input, c: nat, f: nat, peaks: seq<real>)
    requires input.Valid() && |peaks| <= input.Chunks()
  {
    forall k: nat :: k < |peaks| ==> if InCore(input, k, f) then IsPeak(input, k, c, f, peaks[k]) else peaks[k] == 0.0
  }

  /** An activation is the sum of the cluster's peaks over the windows. */
  lemma {:induction false} ActivationIsTotal(input: Input, c: nat, f: nat, peaks: seq<real>)
    requires input.Valid() && |peaks| <= input.Chunks() && Peaks(input, c, f, peaks)
    ensures Activation(input, c, f, |peaks|) == Total(peaks)
  {
    if peaks == [] {
    } else {
      var k := |peaks| - 1;
      ActivationIsTotal(input, c, f, peaks[..k]);
      if InCore(input, k, f) {
        ScoreIsPeak(input, k, c, f);
        PeakIsUnique(input, k, c, f, peaks[k], ScoreIn(input, k, c, f));
      }
    }
  }

  /** Cluster numbers below n are complete up to window k, the others up to the window before it. */
  ghost predicate Activated(input: Input, activations: array2<real>, k: nat, n: nat)
    requires input.Valid() && k < input.Chunks()
    reads activations
  {
    forall f: nat, c: nat :: f < activations.Length0 && c < activations.Length1 ==>
      activations[f, c] == Activation(input, c, f, if c < n then k + 1 else k)
  }

  method FindStrongest(row: seq<real>, members: seq<nat>) returns (score: real)
    requires InRange(members, |row|)
    ensures score == Strongest(row, members)
  {
    score := 0.0;
    for i := 0 to |members|
      invariant score == Strongest(row, members[..i])
    {
      assert members[..i + 1][..i] == members[..i];
      score := MaxReal(score, row[members[i]]);
    }
    assert members[..|members|] == members;
  }

  /** Of cluster c the frames before `upto` are complete up to window k, the others up to the one before. */
  ghost predicate ClusterActivated(input: Input, activations: array2<real>, k: nat, c: nat, upto: nat)
    requires input.Valid() && k < input.Chunks() && c < activations.Length1
    reads activations
  {
    forall f: nat :: f < activations.Length0 ==>
      activations[f, c] == Activation(input, c, f, if f < upto then k + 1 else k)
  }

  /** Window k adds nothing outside the frames it contributes to. */
  lemma OutsideAddsNothing(input: Input, k: nat, c: nat)
    requires input.Valid() && k < input.Chunks()
    ensures forall f: nat :: !input.Covers(k, f) ==> Activation(input, c, f, k + 1) == Activation(input, c, f, k)
  {
  }

  /** Add the strongest member's score in one frame of window k. */
  method AddFrame(input: Input, k: nat, c: nat, members: seq<nat>, activations: array2<real>, start: nat, frame: nat)
    requires input.Valid() && k < input.Chunks() && c < activations.Length1 && start == input.starts[k]
    requires members == Members(input.clusters[k], c, input.speakers) && InRange(members, input.speakers)
    requires input.warmup <= frame < input.WarmupEnd()
    requires ClusterActivated(input, activations, k, c, start + frame)
    modifies activations
    ensures forall f: nat, j: nat :: f < activations.Length0 && j < activations.Length1 && j != c ==>
              activations[f, j] == old(activations[f, j])
    ensures ClusterActivated(input, activations, k, c, start + frame + 1)
  {
    var out := start + frame;
    if out < activations.Length0 {
      var score := FindStrongest(input.segs[k][frame], members);
      activations[out, c] := activations[out, c] + score;
    }
  }

  /** Add window k's scores of cluster c. */
  method AddCluster(input: Input, k: nat, c: nat, members: seq<nat>, activations: array2<real>)
    requires input.Valid() && k < input.Chunks() && c < activations.Length1
    requires members == Members(input.clusters[k], c, input.speakers)
    requires Activated(input, activations, k, c)
    modifies activations
    ensures Activated(input, activations, k, c + 1)
  {
    MembersBelow(input.clusters[k], c, input.speakers);
    OutsideAddsNothing(input, k, c);
    if |members| == 0 {
      return;
    }
    var start := input.starts[k];
    var frame := input.warmup;
    while frame < input.WarmupEnd()
      invariant input.warmup <= frame
      invariant forall f: nat, j: nat :: f < activations.Length0 && j < activations.Length1 && j != c ==>
                  activations[f, j] == old(activations[f, j])
      invariant ClusterActivated(input, activations, k, c, start + frame)
      decreases input.WarmupEnd() - frame
    {
      AddFrame(input, k, c, members, activations, start, frame);
      frame := frame + 1;
    }
  }

  /** One more than the largest cluster number, or zero. */
  function NumClusters(clusters: seq<seq<int>>): (n: nat)
    ensures forall k, l :: 0 <= k < |clusters| && 0 <= l < |clusters[k]| ==> clusters[k][l] < n
  {
    if clusters == [] then 0
    else Max(NumClusters(clusters[..|clusters| - 1]), AboveAll(clusters[|clusters| - 1]))
  }

  function AboveAll(labels: seq<int>): (n: nat)
    ensures forall l :: 0 <= l < |labels| ==> labels[l] < n
  {
    if labels == [] then 0
    else
      var last := labels[|labels| - 1];
      Max(AboveAll(labels[..|labels| - 1]), if last >= 0 then last + 1 else 0)
  }

  function MaxCount(counts: seq<nat>): (n: nat)
    ensures forall f :: 0 <= f < |counts| ==> counts[f] <= n
  {
    if counts == [] then 0 else Max(MaxCount(counts[..|counts| - 1]), counts[|counts| - 1])
  }

  /** There is no more than one column too many: the last cluster number is some speaker's label. */
  lemma {:induction false} AboveAllIsLeast(labels: seq<int>)
    ensures AboveAll(labels) > 0 ==> exists l :: 0 <= l < |labels| && labels[l] == AboveAll(labels) - 1
  {
    if labels == [] {
    } else {
      var front := labels[..|labels| - 1];
      AboveAllIsLeast(front);
      if AboveAll(labels) == AboveAll(front) > 0 {
        var l :| 0 <= l < |front| && front[l] == AboveAll(front) - 1;
        assert labels[l] == AboveAll(labels) - 1;
      }
    }
  }

  ghost predicate HasLabel(clusters: seq<seq<int>>, c: int) {
    exists k, l :: 0 <= k < |clusters| && 0 <= l < |clusters[k]| && clusters[k][l] == c
  }

  lemma {:induction false} NumClustersIsLeast(clusters: seq<seq<int>>)
    ensures NumClusters(clusters) > 0 ==> HasLabel(clusters, NumClusters(clusters) - 1)
  {
    if clusters == [] {
    } else {
      var front, last := clusters[..|clusters| - 1], clusters[|clusters| - 1];
      NumClustersIsLeast(front);
      AboveAllIsLeast(last);
      if NumClusters(clusters) == NumClusters(front) > 0 {
        var k, l :| 0 <= k < |front| && 0 <= l < |front[k]| && front[k][l] == NumClusters(front) - 1;
        assert clusters[k][l] == NumClusters(clusters) - 1;
      } else if NumClusters(clusters) > 0 {
        var l :| 0 <= l < |last| && last[l] == AboveAll(last) - 1;
        assert clusters[|clusters| - 1][l] == NumClusters(clusters) - 1;
      }
    }
  }

  lemma {:induction false} MaxCountIsReached(counts: seq<nat>)
    ensures MaxCount(counts) > 0 ==> MaxCount(counts) in counts
  {
    if counts == [] {
    } else {
      MaxCountIsReached(counts[..|counts| - 1]);
    }
  }

  /** Number of columns: one for each cluster, and enough for every frame's count. */
  function Columns(input: Input, counts: seq<nat>): nat {
    Max(NumClusters(input.clusters), MaxCount(counts))
  }

  /** The output has just enough columns for every cluster number and every frame's count. */
  lemma ColumnsAreNeeded(input: Input, counts: seq<nat>)
    ensures var n := Columns(input, counts);
            && (forall k, l :: 0 <= k < |input.clusters| && 0 <= l < |input.clusters[k]| ==> input.clusters[k][l] < n)
            && (forall f :: 0 <= f < |counts| ==> counts[f] <= n)
            && (n > 0 ==> HasLabel(input.clusters, n - 1) || n in counts)
  {
    NumClustersIsLeast(input.clusters);
    MaxCountIsReached(counts);
  }

  lemma {:induction false} NoMembers(labels: seq<int>, c: int, n: nat)
    requires n <= |labels| && forall l :: 0 <= l < |labels| ==> labels[l] < c
    ensures Members(labels, c, n) == []
  {
    if n == 0 {
    } else {
      NoMembers(labels, c, n - 1);
    }
  }

  /** A cluster that no window's speaker belongs to has no activation. */
  lemma {:induction false} UnusedCluster(input: Input, c: nat, f: nat, n: nat)
    requires input.Valid() && n <= input.Chunks() && NumClusters(input.clusters) <= c
    ensures Activation(input, c, f, n) == 0.0
  {
    if n == 0 {
    } else {
      UnusedCluster(input, c, f, n - 1);
      NoMembers(input.clusters[n - 1], c, input.speakers);
    }
  }

  method FrameActivations(input: Input, counts: seq<nat>) returns (activations: array2<real>)
    requires input.Valid()
    ensures fresh(activations) && activations.Length0 == |counts| && activations.Length1 == Columns(input, counts)
    ensures forall f: nat, c: nat :: f < |counts| && c < activations.Length1 ==>
            activations[f, c] == Activation(input, c, f, input.Chunks())
  {
    var numClusters := NumClusters(input.clusters);
    activations := new real[|counts|, numClusters]((_, _) => 0.0);
    for k := 0 to input.Chunks()
      invariant forall f: nat, c: nat :: f < |counts| && c < numClusters ==>
                activations[f, c] == Activation(input, c, f, k)
    {
      var mapping := BuildClusterMapping(input.clusters[k], numClusters);
      for c := 0 to numClusters
        invariant Activated(input, activations, k, c)
      {
        AddCluster(input, k, c, mapping[c], activations);
      }
    }
    var most := MaxCount(counts);
    if numClusters < most {
      var clusters := activations;
      activations := new real[|counts|, most]((f, c) reads clusters =>
        if 0 <= c < numClusters && 0 <= f < |counts| then clusters[f, c] else 0.0);
      forall f: nat, c: nat | f < |counts| && c < most
        ensures activations[f, c] == Activation(input, c, f, input.Chunks())
      {
        if numClusters <= c {
          UnusedCluster(input, c, f, input.Chunks());
        }
      }
    }
  }

  // --- Strongest columns -------------------------------------------------------------------------

  /** Column a goes before column b: a larger score, or an equal one further left. */
  predicate Better(row: seq<real>, a: nat, b: nat)
    requires a < |row| && b < |row|
  {
    row[a] > row[b] || (row[a] == row[b] && a < b)
  }

  /** Insertion of column n: after everything that scores at least as much. */
  function InsertColumn(row: seq<real>, order: seq<nat>, n: nat): (r: seq<nat>)
    requires n < |row| && InRange(order, n)
    ensures |r| == |order| + 1 && InRange(r, n + 1)
  {
    if order == [] || row[order[|order| - 1]] >= row[n] then order + [n]
    else InsertColumn(row, order[..|order| - 1], n) + [order[|order| - 1]]
  }

  /** The library's stable sort of the columns by descending score. */
  function SortColumns(row: seq<real>, n: nat): (r: seq<nat>)
    requires n <= |row|
    ensures |r| == n && InRange(r, n)
  {
    if n == 0 then [] else InsertColumn(row, SortColumns(row, n - 1), n - 1)
  }

  ghost predicate BestFirst(row: seq<real>, order: seq<nat>) {
    InRange(order, |row|) && forall i, j :: 0 <= i < j < |order| ==> Better(row, order[i], order[j])
  }

  lemma {:induction false} InsertMembers(row: seq<real>, order: seq<nat>, n: nat)
    requires n < |row| && InRange(order, n)
    ensures forall c: nat :: c in InsertColumn(row, order, n) <==> c in order || c == n
  {
    if order == [] {
    } else {
      var front, last := order[..|order| - 1], order[|order| - 1];
      assert order == front + [last];
      InsertMembers(row, front, n);
    }
  }

  lemma {:induction false} InsertIsBestFirst(row: seq<real>, order: seq<nat>, n: nat)
    requires n < |row| && InRange(order, n) && BestFirst(row, order)
    ensures BestFirst(row, InsertColumn(row, order, n))
  {
    var r := InsertColumn(row, order, n);
    if order != [] && row[order[|order| - 1]] < row[n] {
      var front, last := order[..|order| - 1], order[|order| - 1];
      InsertIsBestFirst(row, front, n);
      InsertMembers(row, front, n);
      forall i | 0 <= i < |order|
        ensures Better(row, r[i], last)
      {
        assert r[i] in InsertColumn(row, front, n);
        if r[i] != n {
          var j :| 0 <= j < |front| && front[j] == r[i];
          assert Better(row, order[j], order[|order| - 1]);
        }
      }
    } else {
      forall i | 0 <= i < |order|
        ensures Better(row, order[i], n)
      {
        assert i < |order| - 1 ==> Better(row, order[i], order[|order| - 1]);
      }
    }
  }

  lemma {:induction false} SortedColumns(row: seq<real>, n: nat)
    requires n <= |row|
    ensures BestFirst(row, SortColumns(row, n)) && forall c: nat :: c < n <==> c in SortColumns(row, n)
  {
    if n == 0 {
    } else {
      SortedColumns(row, n - 1);
      InsertIsBestFirst(row, SortColumns(row, n - 1), n - 1);
      InsertMembers(row, SortColumns(row, n - 1), n - 1);
    }
  }

  /** k distinct columns, each better than every column that is not chosen. */
  ghost predicate IsTopK(row: seq<real>, k: nat, chosen: seq<nat>) {
    && |chosen| == k && InRange(chosen, |row|) && Distinct(chosen)
    && forall c, d: nat :: c in chosen && d < |row| && d !in chosen ==> Better(row, c, d)
  }

  lemma AfterPrefix(order: seq<nat>, k: nat, d: nat) returns (j: nat)
    requires k <= |order| && d in order && d !in order[..k]
    ensures k <= j < |order| && order[j] == d
  {
    assert order == order[..k] + order[k..];
    var i :| 0 <= i < |order| - k && order[k..][i] == d;
    j := k + i;
  }

  method TopK(row: seq<real>, k: nat) returns (chosen: seq<nat>)
    ensures IsTopK(row, if k < |row| then k else |row|, chosen)
  {
    if k >= |row| {
      chosen := seq(|row|, c requires 0 <= c => c);
      forall d: nat | d < |row|
        ensures d in chosen
      {
        assert chosen[d] == d;
      }
      return;
    }
    var order := SortColumns(row, |row|);
    SortedColumns(row, |row|);
    chosen := order[..k];
    forall c, d: nat | c in chosen && d < |row| && d !in chosen
      ensures Better(row, c, d)
    {
      assert d in order;
      var i :| 0 <= i < k && order[i] == c;
      var j := AfterPrefix(order, k, d);
    }
    forall i, j | 0 <= i < j < k
      ensures chosen[i] != chosen[j]
    {
      assert Better(row, order[i], order[j]);
    }
  }

  // --- Reconstruction ----------------------------------------------------------------------------

  function ActivationRow(input: Input, counts: seq<nat>, f: nat): (row: seq<real>)
    requires input.Valid()
    ensures |row| == Columns(input, counts)
  {
    seq(Columns(input, counts), c requires 0 <= c => Activation(input, c, f, input.Chunks()))
  }

  ghost predicate Marks(discrete: array2<real>, f: nat, chosen: seq<nat>)
    requires f < discrete.Length0
    reads discrete
  {
    forall c: nat :: c < discrete.Length1 ==> discrete[f, c] == if c in chosen then 1.0 else 0.0
  }

  /** Frame f marks exactly as many clusters as it has speakers, the most active ones. */
  ghost predicate FrameRight(input: Input, counts: seq<nat>, discrete: array2<real>, f: nat)
    requires input.Valid() && f < |counts| && f < discrete.Length0
    reads discrete
  {
    exists chosen :: IsTopK(ActivationRow(input, counts, f), counts[f], chosen) && Marks(discrete, f, chosen)
  }

  method MarkFrame(discrete: array2<real>, f: nat, chosen: seq<nat>)
    requires f < discrete.Length0 && InRange(chosen, discrete.Length1)
    requires forall c :: 0 <= c < discrete.Length1 ==> discrete[f, c] == 0.0
    modifies discrete
    ensures Marks(discrete, f, chosen)
    ensures forall g, c :: 0 <= g < discrete.Length0 && 0 <= c < discrete.Length1 && g != f ==>
            discrete[g, c] == old(discrete[g, c])
  {
    for i := 0 to |chosen|
      invariant Marks(discrete, f, chosen[..i])
      invariant forall g, c :: 0 <= g < discrete.Length0 && 0 <= c < discrete.Length1 && g != f ==>
                discrete[g, c] == old(discrete[g, c])
    {
      assert chosen[..i + 1] == chosen[..i] + [chosen[i]];
      discrete[f, chosen[i]] := 1.0;
    }
    assert chosen[..|chosen|] == chosen;
  }

  method Reconstruct(input: Input, counts: seq<nat>) returns (discrete: array2<real>)
    requires input.Valid()
    ensures discrete.Length0 == |counts| && discrete.Length1 == Columns(input, counts)
    ensures forall f: nat :: f < |counts| ==> FrameRight(input, counts, discrete, f)
  {
    var activations := FrameActivations(input, counts);
    discrete := new real[|counts|, activations.Length1]((_, _) => 0.0);
    for f := 0 to |counts|
      invariant forall g: nat, c: nat :: g < |counts| && c < activations.Length1 ==>
                  activations[g, c] == Activation(input, c, g, input.Chunks())
      invariant forall g: nat :: g < f ==> FrameRight(input, counts, discrete, g)
      invariant forall g, c :: f <= g < |counts| && 0 <= c < discrete.Length1 ==> discrete[g, c] == 0.0
    {
      var row := seq(activations.Length1,
                     c requires 0 <= c < activations.Length1 reads activations => activations[f, c]);
      assert row == ActivationRow(input, counts, f);
      var chosen := TopK(row, counts[f]);
      label Before:
      MarkFrame(discrete, f, chosen);
      forall g: nat | g <= f
        ensures FrameRight(input, counts, discrete, g)
      {
        assert g < f ==> old@Before(FrameRight(input, counts, discrete, g));
      }
    }
  }

  // --- Smoothed reconstruction -------------------------------------------------------------------

  /** The smoothed comparison puts a before b: among close scores the speaker of the previous frame
      goes first, otherwise the larger score does. */
  predicate GoesBefore(row: seq<real>, previous: seq<nat>, epsilon: real, a: nat, b: nat)
    requires a < |row| && b < |row|
  {
    var diff := row[b] - row[a];
    if -epsilon < diff < epsilon then a in previous && b !in previous else row[a] > row[b]
  }

  ghost predicate Tied(row: seq<real>, previous: seq<nat>, epsilon: real, a: nat, b: nat)
    requires a < |row| && b < |row|
  {
    !GoesBefore(row, previous, epsilon, a, b) && !GoesBefore(row, previous, epsilon, b, a)
  }

  /** The comparison is one a sort may rely on: what it ties is tied transitively, and so is its order. */
  ghost predicate Consistent(row: seq<real>, previous: seq<nat>, epsilon: real) {
    && (forall a: nat, b: nat, c: nat | a < |row| && b < |row| && c < |row| ::
          GoesBefore(row, previous, epsilon, a, b) && GoesBefore(row, previous, epsilon, b, c) ==>
            GoesBefore(row, previous, epsilon, a, c))
    && (forall a: nat, b: nat, c: nat | a < |row| && b < |row| && c < |row| ::
          Tied(row, previous, epsilon, a, b) && Tied(row, previous, epsilon, b, c) ==>
            Tied(row, previous, epsilon, a, c))
  }

  /** A small step down from a to b and another from b to c, together no small step, and no speaker of
      the previous frame that would go first for it. */
  ghost predicate Slips(row: seq<real>, previous: seq<nat>, epsilon: real, a: nat, b: nat, c: nat)
    requires a < |row| && b < |row| && c < |row|
  {
    && 0.0 <= row[a] - row[b] < epsilon && 0.0 <= row[b] - row[c] < epsilon && epsilon <= row[a] - row[c]
    && (a in previous ==> b in previous) && (b in previous ==> c in previous)
  }

  ghost predicate NoSlip(row: seq<real>, previous: seq<nat>, epsilon: real) {
    forall a: nat, b: nat, c: nat | a < |row| && b < |row| && c < |row| :: !Slips(row, previous, epsilon, a, b, c)
  }

  /** Neither goes before the other, and the steps compose, unless one of the orders of a, b, c slips. */
  lemma OrderedTriple(row: seq<real>, previous: seq<nat>, epsilon: real, a: nat, b: nat, c: nat)
    requires 0.0 < epsilon && a < |row| && b < |row| && c < |row|
    requires NoSlip(row, previous, epsilon)
    ensures (GoesBefore(row, previous, epsilon, a, b) && GoesBefore(row, previous, epsilon, b, c)) ==>
            GoesBefore(row, previous, epsilon, a, c)
    ensures (Tied(row, previous, epsilon, a, b) && Tied(row, previous, epsilon, b, c)) ==>
            Tied(row, previous, epsilon, a, c)
  {
    assert !Slips(row, previous, epsilon, a, b, c) && !Slips(row, previous, epsilon, c, b, a);
    assert !Slips(row, previous, epsilon, b, c, a) && !Slips(row, previous, epsilon, c, a, b);
    assert !Slips(row, previous, epsilon, a, c, b) && !Slips(row, previous, epsilon, b, a, c);
  }

  lemma SlipIsInconsistent(row: seq<real>, previous: seq<nat>, epsilon: real, a: nat, b: nat, c: nat)
    requires 0.0 < epsilon && a < |row| && b < |row| && c < |row| && Slips(row, previous, epsilon, a, b, c)
    ensures !Consistent(row, previous, epsilon)
  {
    assert GoesBefore(row, previous, epsilon, a, c);
    assert Tied(row, previous, epsilon, a, b) || GoesBefore(row, previous, epsilon, b, a);
    assert Tied(row, previous, epsilon, b, c) || GoesBefore(row, previous, epsilon, c, b);
  }

  /** The comparison is consistent exactly when no triple of columns slips. */
  lemma ConsistentIffNoSlip(row: seq<real>, previous: seq<nat>, epsilon: real)
    requires 0.0 < epsilon
    ensures Consistent(row, previous, epsilon) <==> NoSlip(row, previous, epsilon)
  {
    if NoSlip(row, previous, epsilon) {
      forall a: nat, b: nat, c: nat | a < |row| && b < |row| && c < |row|
        ensures (GoesBefore(row, previous, epsilon, a, b) && GoesBefore(row, previous, epsilon, b, c)) ==>
                GoesBefore(row, previous, epsilon, a, c)
        ensures (Tied(row, previous, epsilon, a, b) && Tied(row, previous, epsilon, b, c)) ==>
                Tied(row, previous, epsilon, a, c)
      {
        OrderedTriple(row, previous, epsilon, a, b, c);
      }
    } else {
      var a: nat, b: nat, c: nat :| a < |row| && b < |row| && c < |row| && Slips(row, previous, epsilon, a, b, c);
      SlipIsInconsistent(row, previous, epsilon, a, b, c);
    }
  }

  /** Column a goes before column b, or is tied with it and further left. */
  ghost predicate MayPrecede(row: seq<real>, previous: seq<nat>, epsilon: real, a: nat, b: nat)
    requires a < |row| && b < |row|
  {
    !GoesBefore(row, previous, epsilon, b, a) && (Tied(row, previous, epsilon, a, b) ==> a < b)
  }

  /** What the library's stable sort promises: the columns, each once, and, if the comparison is
      consistent, in order, tied columns from left to right. */
  ghost predicate IsSortOutcome(row: seq<real>, previous: seq<nat>, epsilon: real, order: seq<nat>) {
    && IsPermutation(order, |row|)
    && (Consistent(row, previous, epsilon) ==>
          forall i, j :: 0 <= i < j < |order| ==> MayPrecede(row, previous, epsilon, order[i], order[j]))
  }

  /** k distinct columns; with a consistent comparison each goes before every unchosen one, or is tied
      with it and further left. */
  ghost predicate IsSmoothedTopK(row: seq<real>, previous: seq<nat>, epsilon: real, k: nat, chosen: seq<nat>) {
    && |chosen| == k && InRange(chosen, |row|) && Distinct(chosen)
    && (Consistent(row, previous, epsilon) ==>
          forall c, d: nat :: c in chosen && d < |row| && d !in chosen ==> MayPrecede(row, previous, epsilon, c, d))
  }

  method SmoothedTopK(row: seq<real>, k: nat, previous: seq<nat>, epsilon: real, order: seq<nat>)
    returns (chosen: seq<nat>)
    requires IsSortOutcome(row, previous, epsilon, order)
    ensures IsSmoothedTopK(row, previous, epsilon, if k < |row| then k else |row|, chosen)
  {
    if k >= |row| {
      chosen := seq(|row|, c requires 0 <= c => c);
      forall d: nat | d < |row|
        ensures d in chosen
      {
        assert chosen[d] == d;
      }
      return;
    }
    chosen := order[..k];
    forall d: nat | d < |row| && d !in chosen
      ensures exists j :: k <= j < |order| && order[j] == d
    {
      PermutationHits(order, |row|, d);
      var j := AfterPrefix(order, k, d);
    }
  }

  /** Where the scores of a frame are at least the tolerance apart, smoothing changes nothing. */
  lemma SmoothedIsTopK(row: seq<real>, previous: seq<nat>, epsilon: real, k: nat, chosen: seq<nat>)
    requires epsilon > 0.0 && IsSmoothedTopK(row, previous, epsilon, k, chosen)
    requires forall a, b :: 0 <= a < b < |row| ==> row[a] - row[b] >= epsilon || row[b] - row[a] >= epsilon
    ensures IsTopK(row, k, chosen)
  {
    forall a: nat, b: nat | a < |row| && b < |row|
      ensures GoesBefore(row, previous, epsilon, a, b) <==> row[a] > row[b]
      ensures Tied(row, previous, epsilon, a, b) <==> a == b
    {
    }
    assert Consistent(row, previous, epsilon);
  }

  ghost function Previous(choices: seq<seq<nat>>, f: nat): seq<nat>
    requires f <= |choices|
  {
    if f == 0 then [] else choices[f - 1]
  }

  ghost predicate ChoiceRight(input: Input, counts: seq<nat>, epsilon: real, previous: seq<nat>, f: nat,
                              chosen: seq<nat>)
    requires input.Valid() && f < |counts|
  {
    IsSmoothedTopK(ActivationRow(input, counts, f), previous, epsilon, counts[f], chosen)
  }

  /** The choices of the first n frames, each made with the choice before it as the previous speakers. */
  ghost predicate Choices(input: Input, counts: seq<nat>, epsilon: real, choices: seq<seq<nat>>, n: nat)
    requires input.Valid() && n <= |counts|
  {
    |choices| == n && forall f: nat :: f < n ==>
      ChoiceRight(input, counts, epsilon, Previous(choices, f), f, choices[f])
  }

  // --- Windows of zeros and ones -------------------------------------------------------------------

  /** Every entry of every window is 0 or 1, as hard decoding leaves them. */
  ghost predicate BinaryWindows(input: Input) {
    forall k, i, l {:trigger input.segs[k][i][l]} ::
      0 <= k < |input.segs| && 0 <= i < |input.segs[k]| && 0 <= l < |input.segs[k][i]| ==>
        input.segs[k][i][l] == 0.0 || input.segs[k][i][l] == 1.0
  }

  ghost predicate Whole(x: real) {
    x.Floor as real == x
  }

  lemma WholeGap(x: real, y: real)
    requires Whole(x) && Whole(y)
    ensures x == y || x + 1.0 <= y || y + 1.0 <= x
  {
    assert x.Floor as real == x && y.Floor as real == y;
    assert x.Floor == y.Floor || x.Floor + 1 <= y.Floor || y.Floor + 1 <= x.Floor;
  }

  lemma WholeSum(x: real, y: real)
    requires Whole(x) && Whole(y)
    ensures Whole(x + y)
  {
    assert x + y == (x.Floor + y.Floor) as real;
  }

  lemma {:induction false} StrongestIsWhole(row: seq<real>, members: seq<nat>)
    requires InRange(members, |row|) && forall l :: 0 <= l < |row| ==> row[l] == 0.0 || row[l] == 1.0
    ensures Whole(Strongest(row, members))
  {
    if members == [] {
    } else {
      StrongestIsWhole(row, members[..|members| - 1]);
    }
  }

  /** On such windows every activation is a whole number. */
  lemma {:induction false} ActivationIsWhole(input: Input, c: nat, f: nat, n: nat)
    requires input.Valid() && BinaryWindows(input) && n <= input.Chunks()
    ensures Whole(Activation(input, c, f, n))
  {
    if n == 0 {
    } else {
      ActivationIsWhole(input, c, f, n - 1);
      var score := if input.Covers(n - 1, f) then ScoreIn(input, n - 1, c, f) else 0.0;
      if input.Covers(n - 1, f) {
        MembersBelow(input.clusters[n - 1], c, input.speakers);
        StrongestIsWhole(input.Row(n - 1, f), Members(input.clusters[n - 1], c, input.speakers));
      }
      WholeSum(Activation(input, c, f, n - 1), score);
    }
  }

  /** Window k contributes to frame f and has a speaker of the cluster talking there. */
  ghost predicate Talks(input: Input, k: nat, c: nat, f: nat)
    requires input.Valid() && k < input.Chunks()
  {
    InCore(input, k, f)
    && exists l: nat ::
         l < input.speakers && input.clusters[k][l] == c && input.segs[k][f - input.starts[k]][l] == 1.0
  }

  ghost function TalkingWindows(input: Input, c: nat, f: nat, n: nat): set<nat>
    requires input.Valid() && n <= input.Chunks()
  {
    set k: nat | k < n && Talks(input, k, c, f)
  }

  lemma BinaryPeak(input: Input, k: nat, c: nat, f: nat)
    requires input.Valid() && BinaryWindows(input) && k < input.Chunks() && InCore(input, k, f)
    ensures IsPeak(input, k, c, f, if Talks(input, k, c, f) then 1.0 else 0.0)
  {
    var row := input.segs[k][f - input.starts[k]];
    assert forall l :: 0 <= l < |row| ==> row[l] == 0.0 || row[l] == 1.0;
  }

  lemma TalkingNext(input: Input, c: nat, f: nat, n: nat)
    requires input.Valid() && n < input.Chunks()
    ensures TalkingWindows(input, c, f, n + 1)
         == TalkingWindows(input, c, f, n) + if Talks(input, n, c, f) then {n} else {}
  {
  }

  /** On windows of zeros and ones an activation is the number of windows in which the cluster talks. */
  lemma {:induction false} ActivationCounts(input: Input, c: nat, f: nat, n: nat)
    requires input.Valid() && BinaryWindows(input) && n <= input.Chunks()
    ensures Activation(input, c, f, n) == |TalkingWindows(input, c, f, n)| as real
  {
    if n == 0 {
    } else {
      var k := n - 1;
      ActivationCounts(input, c, f, k);
      TalkingNext(input, c, f, k);
      if InCore(input, k, f) {
        ScoreIsPeak(input, k, c, f);
        BinaryPeak(input, k, c, f);
        PeakIsUnique(input, k, c, f, ScoreIn(input, k, c, f), if Talks(input, k, c, f) then 1.0 else 0.0);
      }
    }
  }

  /** In a frame the clusters that talk in the most windows are marked, ties from left to right. */
  lemma BinaryFrameIsMajority(input: Input, counts: seq<nat>, f: nat, chosen: seq<nat>, c: nat, d: nat)
    requires input.Valid() && BinaryWindows(input) && f < |counts|
    requires IsTopK(ActivationRow(input, counts, f), counts[f], chosen)
    requires c in chosen && d < Columns(input, counts) && d !in chosen
    ensures var m, n := |TalkingWindows(input, c, f, input.Chunks())|, |TalkingWindows(input, d, f, input.Chunks())|;
            m > n || (m == n && c < d)
  {
    var row := ActivationRow(input, counts, f);
    ActivationCounts(input, c, f, input.Chunks());
    ActivationCounts(input, d, f, input.Chunks());
    assert Better(row, c, d);
  }

  ghost predicate WholeRow(row: seq<real>) {
    forall c :: 0 <= c < |row| ==> Whole(row[c])
  }

  /** On whole scores and a tolerance of at most one the comparison is consistent. */
  lemma WholeIsConsistent(row: seq<real>, previous: seq<nat>, epsilon: real)
    requires WholeRow(row) && 0.0 < epsilon <= 1.0
    ensures Consistent(row, previous, epsilon)
  {
    forall a: nat, b: nat, c: nat | a < |row| && b < |row| && c < |row|
      ensures !Slips(row, previous, epsilon, a, b, c)
    {
      WholeGap(row[a], row[b]);
      WholeGap(row[b], row[c]);
    }
    ConsistentIffNoSlip(row, previous, epsilon);
  }

  /** Every chosen column scores at least as much as every unchosen one; among equal scores the speakers
      of the previous frame are chosen first, and otherwise from left to right. */
  ghost predicate Favours(row: seq<real>, previous: seq<nat>, chosen: seq<nat>) {
    && InRange(chosen, |row|)
    && forall c, d: nat :: c in chosen && d < |row| && d !in chosen ==> Preferred(row, previous, c, d)
  }

  ghost predicate Preferred(row: seq<real>, previous: seq<nat>, c: nat, d: nat)
    requires c < |row| && d < |row|
  {
    || row[c] > row[d]
    || (row[c] == row[d] && (d in previous ==> c in previous) && ((c in previous <==> d in previous) ==> c < d))
  }

  /** On windows of zeros and ones the smoothed choice is the strongest one, ties going to the speakers
      of the previous frame. */
  lemma BinaryChoiceFavours(input: Input, counts: seq<nat>, epsilon: real, previous: seq<nat>, f: nat, chosen: seq<nat>)
    requires input.Valid() && BinaryWindows(input) && 0.0 < epsilon <= 1.0 && f < |counts|
    requires ChoiceRight(input, counts, epsilon, previous, f, chosen)
    ensures Favours(ActivationRow(input, counts, f), previous, chosen)
  {
    var row := ActivationRow(input, counts, f);
    forall c | 0 <= c < |row|
      ensures Whole(row[c])
    {
      ActivationIsWhole(input, c, f, input.Chunks());
    }
    WholeChoiceFavours(row, previous, epsilon, counts[f], chosen);
  }

  lemma WholeChoiceFavours(row: seq<real>, previous: seq<nat>, epsilon: real, k: nat, chosen: seq<nat>)
    requires WholeRow(row) && 0.0 < epsilon <= 1.0 && IsSmoothedTopK(row, previous, epsilon, k, chosen)
    ensures Favours(row, previous, chosen)
  {
    WholeIsConsistent(row, previous, epsilon);
    forall c, d: nat | c in chosen && d < |row| && d !in chosen
      ensures Preferred(row, previous, c, d)
    {
      assert MayPrecede(row, previous, epsilon, c, d);
      WholeGap(row[c], row[d]);
    }
  }

  lemma ChoicesNext(input: Input, counts: seq<nat>, epsilon: real, choices: seq<seq<nat>>, n: nat, chosen: seq<nat>)
    requires input.Valid() && n < |counts| && Choices(input, counts, epsilon, choices, n)
    requires ChoiceRight(input, counts, epsilon, Previous(choices, n), n, chosen)
    ensures Choices(input, counts, epsilon, choices + [chosen], n + 1)
  {
    var all := choices + [chosen];
    forall f: nat | f < n + 1
      ensures Previous(all, f) == Previous(choices, f) && all[f] == if f < n then choices[f] else chosen
    {
    }
  }

  lemma ChoicesInTurn(input: Input, counts: seq<nat>, epsilon: real, choices: seq<seq<nat>>)
    requires input.Valid() && Choices(input, counts, epsilon, choices, |counts|)
    ensures |counts| > 0 ==> ChoiceRight(input, counts, epsilon, [], 0, choices[0])
    ensures forall f: nat :: 0 < f < |counts| ==>
              ChoiceRight(input, counts, epsilon, choices[f - 1], f, choices[f])
    ensures BinaryWindows(input) && 0.0 < epsilon <= 1.0 ==>
              && (|counts| > 0 ==> Favours(ActivationRow(input, counts, 0), [], choices[0]))
              && forall f: nat :: 0 < f < |counts| ==>
                   Favours(ActivationRow(input, counts, f), choices[f - 1], choices[f])
  {
    if BinaryWindows(input) && 0.0 < epsilon <= 1.0 {
      forall f: nat | f < |counts|
        ensures Favours(ActivationRow(input, counts, f), Previous(choices, f), choices[f])
      {
        BinaryChoiceFavours(input, counts, epsilon, Previous(choices, f), f, choices[f]);
      }
    }
  }

  /** Each frame marks exactly as many clusters as it has speakers. The library sort is a parameter. */
  method ReconstructSmoothed(input: Input, counts: seq<nat>, epsilon: real, sort: (seq<real>, seq<nat>) -> seq<nat>)
    returns (discrete: array2<real>, ghost choices: seq<seq<nat>>)
    requires input.Valid()
    requires forall row, previous :: IsSortOutcome(row, previous, epsilon, sort(row, previous))
    ensures discrete.Length0 == |counts| && discrete.Length1 == Columns(input, counts)
    ensures |choices| == |counts| && forall f: nat :: f < |counts| ==> Marks(discrete, f, choices[f])
    ensures |counts| > 0 ==> ChoiceRight(input, counts, epsilon, [], 0, choices[0])
    ensures forall f: nat :: 0 < f < |counts| ==>
              ChoiceRight(input, counts, epsilon, choices[f - 1], f, choices[f])
    ensures BinaryWindows(input) && 0.0 < epsilon <= 1.0 ==>
              && (|counts| > 0 ==> Favours(ActivationRow(input, counts, 0), [], choices[0]))
              && forall f: nat :: 0 < f < |counts| ==>
                   Favours(ActivationRow(input, counts, f), choices[f - 1], choices[f])
  {
    var activations := FrameActivations(input, counts);
    discrete := new real[|counts|, activations.Length1]((_, _) => 0.0);
    var previous: seq<nat> := [];
    choices := [];
    for f := 0 to |counts|
      invariant forall g: nat, c: nat :: g < |counts| && c < activations.Length1 ==>
                  activations[g, c] == Activation(input, c, g, input.Chunks())
      invariant Choices(input, counts, epsilon, choices, f) && previous == Previous(choices, f)
      invariant forall g: nat :: g < f ==> Marks(discrete, g, choices[g])
      invariant forall g, c :: f <= g < |counts| && 0 <= c < discrete.Length1 ==> discrete[g, c] == 0.0
    {
      var row := seq(activations.Length1,
                     c requires 0 <= c < activations.Length1 reads activations => activations[f, c]);
      assert row == ActivationRow(input, counts, f);
      var chosen := SmoothedTopK(row, counts[f], previous, epsilon, sort(row, previous));
      label Before:
      MarkFrame(discrete, f, chosen);
      forall g: nat | g < f
        ensures Marks(discrete, g, choices[g])
      {
        assert old@Before(Marks(discrete, g, choices[g]));
      }
      ChoicesNext(input, counts, epsilon, choices, f, chosen);
      choices := choices + [chosen];
      previous := chosen;
    }
    ChoicesInTurn(input, counts, epsilon, choices);
  }
}
