/** Merging neighbouring segments of one speaker across short gaps. */
module SegmentMerging {
  import opened SegmentExtraction
  import opened Segments

  predicate Joins(merged: seq<Segment>, s: Segment, maxGap: real) {
    merged != [] && s.speaker == merged[|merged| - 1].speaker && s.start - merged[|merged| - 1].end < maxGap
  }

  /** The next segment is taken into the last one, or follows it. */
  function Absorb(merged: seq<Segment>, s: Segment, maxGap: real): (r: seq<Segment>)
    ensures r != []
  {
    if Joins(merged, s, maxGap) then merged[..|merged| - 1] + [merged[|merged| - 1].(end := s.end)] else merged + [s]
  }

  function Merged(segs: seq<Segment>, maxGap: real): (r: seq<Segment>)
    ensures r == [] <==> segs == []
  {
    if segs == [] then [] else Absorb(Merged(segs[..|segs| - 1], maxGap), segs[|segs| - 1], maxGap)
  }

  lemma MergedNext(segs: seq<Segment>, k: nat, maxGap: real)
    requires k < |segs|
    ensures Merged(segs[..k + 1], maxGap) == Absorb(Merged(segs[..k], maxGap), segs[k], maxGap)
  {
    assert segs[..k + 1][..k] == segs[..k];
  }

  lemma ReplaceLast(segs: seq<Segment>, last: Segment)
    requires segs != []
    ensures segs[|segs| - 1 := last] == segs[..|segs| - 1] + [last]
  {
  }

  method MergeSegments(segs: seq<Segment>, maxGap: real) returns (merged: seq<Segment>)
    ensures merged == Merged(segs, maxGap)
  {
    if |segs| == 0 {
      return [];
    }
    merged := [segs[0]];
    assert segs[..1] == [segs[0]];
    for k := 1 to |segs|
      invariant merged == Merged(segs[..k], maxGap)
    {
      var s := segs[k];
      MergedNext(segs, k, maxGap);
      var last := merged[|merged| - 1];
      if s.speaker == last.speaker && s.start - last.end < maxGap {
        ReplaceLast(merged, last.(end := s.end));
        merged := merged[|merged| - 1 := last.(end := s.end)];
      } else {
        merged := merged + [s];
      }
    }
    assert segs[..|segs|] == segs;
  }

  // --- What merging does to disjoint segments --------------------------------------------------

  ghost predicate Covers(segs: seq<Segment>, speaker: string, t: real) {
    exists y :: y in segs && y.speaker == speaker && y.start <= t < y.end
  }

  /** The k-th segment follows one of its own speaker across a gap below the limit. */
  ghost predicate Bridged(segs: seq<Segment>, k: int, maxGap: real) {
    0 < k < |segs| && segs[k].speaker == segs[k - 1].speaker && segs[k].start - segs[k - 1].end < maxGap
  }

  ghost predicate InGap(segs: seq<Segment>, k: int, speaker: string, t: real) {
    0 < k < |segs| && segs[k].speaker == speaker && segs[k - 1].end <= t < segs[k].start
  }

  /** t lies in a gap below the limit between two neighbouring segments of the speaker. */
  ghost predicate InShortGap(segs: seq<Segment>, speaker: string, t: real, maxGap: real) {
    exists k :: Bridged(segs, k, maxGap) && InGap(segs, k, speaker, t)
  }

  ghost predicate StartsWith(segs: seq<Segment>, m: Segment) {
    exists y :: y in segs && y.speaker == m.speaker && y.start == m.start
  }

  ghost predicate EndsWith(segs: seq<Segment>, m: Segment) {
    exists y :: y in segs && y.speaker == m.speaker && y.end == m.end
  }

  /** Each merged segment starts and ends with segments of its speaker, and the last ones agree. */
  ghost predicate Traces(merged: seq<Segment>, segs: seq<Segment>) {
    && (forall m :: m in merged ==> StartsWith(segs, m) && EndsWith(segs, m))
    && |merged| <= |segs|
    && (segs != [] ==> merged != [] && SameEnd(merged[|merged| - 1], segs[|segs| - 1]))
  }

  ghost predicate SameEnd(a: Segment, b: Segment) {
    a.speaker == b.speaker && a.end == b.end
  }

  lemma WithLonger(front: seq<Segment>, s: Segment, m: Segment)
    ensures StartsWith(front, m) ==> StartsWith(front + [s], m)
    ensures EndsWith(front, m) ==> EndsWith(front + [s], m)
    ensures s.speaker == m.speaker && s.start == m.start ==> StartsWith(front + [s], m)
    ensures s.speaker == m.speaker && s.end == m.end ==> EndsWith(front + [s], m)
  {
    var all := front + [s];
    assert s in all;
    assert forall y :: y in front ==> y in all;
  }

  lemma TracesNext(merged: seq<Segment>, front: seq<Segment>, s: Segment, maxGap: real)
    requires Traces(merged, front)
    ensures Traces(Absorb(merged, s, maxGap), front + [s])
  {
    var next := Absorb(merged, s, maxGap);
    forall m | m in next
      ensures StartsWith(front + [s], m) && EndsWith(front + [s], m)
    {
      WithLonger(front, s, m);
      if m !in merged && Joins(merged, s, maxGap) {
        var before := merged[|merged| - 1];
        assert before in merged && m == before.(end := s.end);
        assert StartsWith(front, before);
        assert StartsWith(front, m);
      }
    }
  }

  lemma FrontIsDisjoint(segs: seq<Segment>)
    requires Disjoint(segs) && segs != []
    ensures Disjoint(segs[..|segs| - 1])
  {
  }

  lemma {:induction false} MergedTraces(segs: seq<Segment>, maxGap: real)
    ensures Traces(Merged(segs, maxGap), segs)
  {
    if segs == [] {
    } else {
      var front, last := segs[..|segs| - 1], segs[|segs| - 1];
      MergedTraces(front, maxGap);
      TracesNext(Merged(front, maxGap), front, last, maxGap);
      assert segs == front + [last];
    }
  }

  /** Merging keeps segments in order and disjoint for each speaker. */
  lemma {:induction false} MergedIsDisjoint(segs: seq<Segment>, maxGap: real)
    requires Disjoint(segs)
    ensures Disjoint(Merged(segs, maxGap))
  {
    if segs == [] {
    } else {
      var front, last := segs[..|segs| - 1], segs[|segs| - 1];
      FrontIsDisjoint(segs);
      MergedIsDisjoint(front, maxGap);
      MergedTraces(front, maxGap);
      MergedIsBefore(Merged(front, maxGap), segs);
      AbsorbIsDisjoint(Merged(front, maxGap), last, maxGap);
    }
  }

  ghost predicate IsBefore(m: Segment, s: Segment) {
    m.start <= s.start && (m.speaker == s.speaker ==> m.end < s.start)
  }

  lemma MergedIsBefore(merged: seq<Segment>, segs: seq<Segment>)
    requires segs != [] && Disjoint(segs) && Traces(merged, segs[..|segs| - 1])
    ensures forall k :: 0 <= k < |merged| ==> IsBefore(merged[k], segs[|segs| - 1])
  {
    var front, last := segs[..|segs| - 1], segs[|segs| - 1];
    forall y | y in front
      ensures IsBefore(y, last)
    {
    }
    forall k | 0 <= k < |merged|
      ensures IsBefore(merged[k], last)
    {
      assert merged[k] in merged;
      assert StartsWith(front, merged[k]) && EndsWith(front, merged[k]);
    }
  }

  lemma AbsorbIsDisjoint(merged: seq<Segment>, last: Segment, maxGap: real)
    requires Disjoint(merged) && last.start <= last.end
    requires forall k :: 0 <= k < |merged| ==> IsBefore(merged[k], last)
    ensures Disjoint(Absorb(merged, last, maxGap))
  {
  }

  lemma CoversNext(front: seq<Segment>, last: Segment, speaker: string, t: real)
    ensures Covers(front + [last], speaker, t) <==>
            Covers(front, speaker, t) || (last.speaker == speaker && last.start <= t < last.end)
  {
    var all := front + [last];
    assert last in all;
    assert forall y :: y in front ==> y in all;
  }

  lemma GapNext(front: seq<Segment>, last: Segment, speaker: string, t: real, maxGap: real)
    ensures InShortGap(front + [last], speaker, t, maxGap) <==>
              InShortGap(front, speaker, t, maxGap) ||
              (Joins(front, last, maxGap) && last.speaker == speaker && front[|front| - 1].end <= t < last.start)
  {
    var all := front + [last];
    forall k
      ensures Bridged(all, k, maxGap) && InGap(all, k, speaker, t) <==>
                || (Bridged(front, k, maxGap) && InGap(front, k, speaker, t))
                || (k == |front| && Joins(front, last, maxGap) && last.speaker == speaker
                    && front[|front| - 1].end <= t < last.start)
    {
    }
    assert Joins(front, last, maxGap) ==> Bridged(all, |front|, maxGap);
  }

  lemma AbsorbCovers(merged: seq<Segment>, last: Segment, maxGap: real, speaker: string, t: real)
    requires Disjoint(merged) && last.start <= last.end
    requires forall k :: 0 <= k < |merged| ==> IsBefore(merged[k], last)
    ensures Covers(Absorb(merged, last, maxGap), speaker, t) <==>
              Covers(merged, speaker, t) || (last.speaker == speaker && last.start <= t < last.end) ||
              (Joins(merged, last, maxGap) && last.speaker == speaker && merged[|merged| - 1].end <= t < last.start)
  {
    if Joins(merged, last, maxGap) {
      var kept, before := merged[..|merged| - 1], merged[|merged| - 1];
      assert merged == kept + [before];
      CoversNext(kept, before, speaker, t);
      CoversNext(kept, before.(end := last.end), speaker, t);
    } else {
      CoversNext(merged, last, speaker, t);
    }
  }

  /** One more segment after the merged front. */
  lemma MergedCoversNext(merged: seq<Segment>, front: seq<Segment>, last: Segment, maxGap: real, speaker: string,
                         t: real)
    requires Disjoint(merged) && Traces(merged, front) && (merged == [] <==> front == []) && last.start <= last.end
    requires forall k :: 0 <= k < |merged| ==> IsBefore(merged[k], last)
    requires Covers(merged, speaker, t) <==> Covers(front, speaker, t) || InShortGap(front, speaker, t, maxGap)
    ensures Covers(Absorb(merged, last, maxGap), speaker, t) <==>
            Covers(front + [last], speaker, t) || InShortGap(front + [last], speaker, t, maxGap)
  {
    CoversNext(front, last, speaker, t);
    GapNext(front, last, speaker, t, maxGap);
    SameJoin(merged, front, last, maxGap);
    AbsorbCovers(merged, last, maxGap, speaker, t);
  }

  lemma SameJoin(merged: seq<Segment>, front: seq<Segment>, last: Segment, maxGap: real)
    requires Traces(merged, front) && (merged == [] <==> front == [])
    ensures Joins(merged, last, maxGap) <==> Joins(front, last, maxGap)
    ensures front != [] ==> merged[|merged| - 1].end == front[|front| - 1].end
  {
  }

  /** A merged speaker is covered where the segments were, and in the short gaps, and nowhere else. */
  lemma {:induction false} MergedCovers(segs: seq<Segment>, maxGap: real, speaker: string, t: real)
    requires Disjoint(segs)
    ensures Covers(Merged(segs, maxGap), speaker, t) <==>
            Covers(segs, speaker, t) || InShortGap(segs, speaker, t, maxGap)
  {
    if segs == [] {
    } else {
      var front, last := segs[..|segs| - 1], segs[|segs| - 1];
      FrontIsDisjoint(segs);
      MergedCovers(front, maxGap, speaker, t);
      MergedTraces(front, maxGap);
      MergedIsDisjoint(front, maxGap);
      MergedIsBefore(Merged(front, maxGap), segs);
      assert segs == front + [last];
      MergedCoversNext(Merged(front, maxGap), front, last, maxGap, speaker, t);
    }
  }

  // --- When merging changes nothing --------------------------------------------------------------

  ghost predicate NoneBridged(segs: seq<Segment>, maxGap: real) {
    forall k: nat :: !Bridged(segs, k, maxGap)
  }

  lemma BridgedNext(front: seq<Segment>, last: Segment, maxGap: real)
    ensures NoneBridged(front + [last], maxGap) <==> NoneBridged(front, maxGap) && !Joins(front, last, maxGap)
  {
    var all := front + [last];
    forall k: nat
      ensures Bridged(all, k, maxGap) <==>
                Bridged(front, k, maxGap) || (k == |front| && Joins(front, last, maxGap))
    {
    }
    if Joins(front, last, maxGap) {
      assert Bridged(all, |front|, maxGap);
    }
  }

  /** Whatever the segments and the limit, merging changes nothing if and only if no segment follows one
      of its own speaker across a gap below the limit; otherwise the list gets shorter. */
  lemma {:induction false} MergedUnchangedIff(segs: seq<Segment>, maxGap: real)
    ensures Merged(segs, maxGap) == segs <==> NoneBridged(segs, maxGap)
    ensures |Merged(segs, maxGap)| == |segs| <==> NoneBridged(segs, maxGap)
  {
    if segs == [] {
    } else {
      var front, last := segs[..|segs| - 1], segs[|segs| - 1];
      assert segs == front + [last];
      MergedUnchangedIff(front, maxGap);
      MergedTraces(front, maxGap);
      BridgedNext(front, last, maxGap);
    }
  }

  /** Disjoint segments have no negative gaps, so with limit 0 they stay as they are. */
  lemma MergedWithoutGap(segs: seq<Segment>)
    requires Disjoint(segs)
    ensures Merged(segs, 0.0) == segs
  {
    MergedUnchangedIff(segs, 0.0);
    forall k: nat
      ensures !Bridged(segs, k, 0.0)
    {
    }
  }

  // --- When merging loses covered time -----------------------------------------------------------

  /** The last segment of the chain of bridged neighbours that segment k belongs to. */
  ghost function ChainEnd(segs: seq<Segment>, k: nat, maxGap: real): (e: nat)
    requires k < |segs|
    ensures k <= e && IsChainEnd(segs, e, maxGap) && segs[e].speaker == segs[k].speaker
    ensures ChainStart(segs, e, maxGap) <= k
    decreases |segs| - k
  {
    if Bridged(segs, k + 1, maxGap) then ChainEnd(segs, k + 1, maxGap) else k
  }

  /** The first one. */
  ghost function ChainStart(segs: seq<Segment>, k: nat, maxGap: real): (b: nat)
    requires k < |segs|
    ensures b <= k && segs[b].speaker == segs[k].speaker && !Bridged(segs, b, maxGap)
    ensures forall e: nat :: IsChainEnd(segs, e, maxGap) && e < k ==> e < b
    decreases k
  {
    if Bridged(segs, k, maxGap) then ChainStart(segs, k - 1, maxGap) else k
  }

  ghost predicate IsChainEnd(segs: seq<Segment>, e: nat, maxGap: real) {
    e < |segs| && !Bridged(segs, e + 1, maxGap)
  }

  /** A chain as one segment: from the start of its first to the end of its last. */
  ghost function Joined(segs: seq<Segment>, e: nat, maxGap: real): Segment
    requires e < |segs|
  {
    Segment(segs[ChainStart(segs, e, maxGap)].start, segs[e].end, segs[e].speaker)
  }

  /** The chains that end before segment n. */
  ghost function Chains(segs: seq<Segment>, n: nat, maxGap: real): seq<Segment>
    requires n <= |segs|
  {
    if n == 0 then []
    else if IsChainEnd(segs, n - 1, maxGap) then Chains(segs, n - 1, maxGap) + [Joined(segs, n - 1, maxGap)]
    else Chains(segs, n - 1, maxGap)
  }

  lemma {:induction false} ChainStartOfFront(segs: seq<Segment>, k: nat, n: nat, maxGap: real)
    requires k < n <= |segs|
    ensures ChainStart(segs[..n], k, maxGap) == ChainStart(segs, k, maxGap)
    decreases k
  {
    if Bridged(segs, k, maxGap) {
      ChainStartOfFront(segs, k - 1, n, maxGap);
    }
  }

  lemma {:induction false} ChainsOfFront(segs: seq<Segment>, k: nat, n: nat, maxGap: real)
    requires k < n <= |segs|
    ensures Chains(segs[..n], k, maxGap) == Chains(segs, k, maxGap)
    decreases k
  {
    if k == 0 {
    } else {
      ChainsOfFront(segs, k - 1, n, maxGap);
      ChainStartOfFront(segs, k - 1, n, maxGap);
      assert Bridged(segs[..n], k, maxGap) <==> Bridged(segs, k, maxGap);
    }
  }

  /** Merging yields one segment for each chain, in order. */
  lemma {:induction false} MergedAreChains(segs: seq<Segment>, maxGap: real)
    ensures Merged(segs, maxGap) == Chains(segs, |segs|, maxGap)
  {
    if segs == [] {
    } else {
      var n := |segs| - 1;
      var front, last := segs[..n], segs[n];
      MergedAreChains(front, maxGap);
      MergedTraces(front, maxGap);
      if front != [] {
        ChainsOfFront(segs, n - 1, n, maxGap);
        ChainStartOfFront(segs, n - 1, n, maxGap);
        assert Merged(front, maxGap) == Chains(segs, n - 1, maxGap) + [Joined(segs, n - 1, maxGap)];
        assert Joins(Merged(front, maxGap), last, maxGap) <==> Bridged(segs, n, maxGap);
      }
    }
  }

  ghost predicate IsJoined(segs: seq<Segment>, n: nat, y: Segment, maxGap: real) {
    exists e: nat :: e < n && IsChainEnd(segs, e, maxGap) && y == Joined(segs, e, maxGap)
  }

  lemma {:induction false} ChainMembers(segs: seq<Segment>, n: nat, maxGap: real)
    requires n <= |segs|
    ensures forall y :: y in Chains(segs, n, maxGap) <==> IsJoined(segs, n, y, maxGap)
  {
    if n == 0 {
    } else {
      ChainMembers(segs, n - 1, maxGap);
    }
  }

  /** Well-formed segments in order of start, of any speakers, overlapping or not. */
  ghost predicate Ordered(segs: seq<Segment>) {
    SortedByStart(segs) && forall k :: 0 <= k < |segs| ==> segs[k].start <= segs[k].end
  }

  /** No covered instant is lost. */
  ghost predicate LosesNothing(segs: seq<Segment>, maxGap: real) {
    forall speaker, t :: Covers(segs, speaker, t) ==> Covers(Merged(segs, maxGap), speaker, t)
  }

  /** Some chain of the speaker runs across t. */
  ghost predicate Across(segs: seq<Segment>, speaker: string, t: real, maxGap: real) {
    exists e: nat :: IsChainEnd(segs, e, maxGap) && RunsAcross(segs, e, speaker, t, maxGap)
  }

  ghost predicate RunsAcross(segs: seq<Segment>, e: nat, speaker: string, t: real, maxGap: real)
    requires e < |segs|
  {
    segs[e].speaker == speaker && segs[ChainStart(segs, e, maxGap)].start <= t < segs[e].end
  }

  lemma CoveredAcross(segs: seq<Segment>, speaker: string, t: real, maxGap: real)
    ensures Covers(Merged(segs, maxGap), speaker, t) <==> Across(segs, speaker, t, maxGap)
  {
    MergedAreChains(segs, maxGap);
    ChainMembers(segs, |segs|, maxGap);
    if Covers(Merged(segs, maxGap), speaker, t) {
      var y :| y in Merged(segs, maxGap) && y.speaker == speaker && y.start <= t < y.end;
      var e: nat :| e < |segs| && IsChainEnd(segs, e, maxGap) && y == Joined(segs, e, maxGap);
      assert RunsAcross(segs, e, speaker, t, maxGap);
    }
    if Across(segs, speaker, t, maxGap) {
      var e: nat :| IsChainEnd(segs, e, maxGap) && RunsAcross(segs, e, speaker, t, maxGap);
      assert IsJoined(segs, |segs|, Joined(segs, e, maxGap), maxGap);
    }
  }

  /** Wherever a chain ends inside a segment of its speaker, another chain of the speaker runs across.
      By CoveredAcross that is coverage of the merged list, asked for at the chain ends alone; for one
      speaker LosesNothingIffChainsEndLast has a condition on the given segments. */
  ghost predicate EndsAreBridged(segs: seq<Segment>, maxGap: real) {
    forall e: nat, k: nat :: IsChainEnd(segs, e, maxGap) && k < |segs| && EndsInside(segs, e, k) ==>
      Across(segs, segs[e].speaker, segs[e].end, maxGap)
  }

  ghost predicate EndsInside(segs: seq<Segment>, e: nat, k: nat)
    requires e < |segs| && k < |segs|
  {
    segs[k].speaker == segs[e].speaker && segs[k].start <= segs[e].end < segs[k].end
  }

  /** The latest chain end of the speaker at or before t, among those before n and from `from` on. */
  lemma {:induction false} LatestEnd(segs: seq<Segment>, speaker: string, from: real, t: real, first: nat, n: nat,
                                     maxGap: real)
    returns (e: nat)
    requires first < n <= |segs| && IsChainEnd(segs, first, maxGap) && Eligible(segs, first, speaker, from, t)
    ensures IsChainEnd(segs, e, maxGap) && Eligible(segs, e, speaker, from, t)
    ensures forall x: nat :: x < n && IsChainEnd(segs, x, maxGap) && Eligible(segs, x, speaker, from, t) ==>
            segs[x].end <= segs[e].end
    decreases n
  {
    if first == n - 1 {
      e := first;
      if exists x: nat :: x < n - 1 && IsChainEnd(segs, x, maxGap) && Eligible(segs, x, speaker, from, t) {
        var x: nat :| x < n - 1 && IsChainEnd(segs, x, maxGap) && Eligible(segs, x, speaker, from, t);
        var y := LatestEnd(segs, speaker, from, t, x, n - 1, maxGap);
        e := if segs[first].end < segs[y].end then y else first;
      }
    } else {
      e := LatestEnd(segs, speaker, from, t, first, n - 1, maxGap);
      if IsChainEnd(segs, n - 1, maxGap) && Eligible(segs, n - 1, speaker, from, t) && segs[e].end < segs[n - 1].end {
        e := n - 1;
      }
    }
  }

  ghost predicate Eligible(segs: seq<Segment>, e: nat, speaker: string, from: real, t: real)
    requires e < |segs|
  {
    segs[e].speaker == speaker && from <= segs[e].end <= t
  }

  lemma StartsInOrder(segs: seq<Segment>, j: nat, k: nat)
    requires Ordered(segs) && j <= k < |segs|
    ensures segs[j].start <= segs[k].start <= segs[k].end
  {
  }

  /** An instant of segment k stays covered if every chain that ends inside a segment is run across. */
  lemma InstantKept(segs: seq<Segment>, maxGap: real, k: nat, t: real)
    requires Ordered(segs) && EndsAreBridged(segs, maxGap) && k < |segs| && segs[k].start <= t < segs[k].end
    ensures Across(segs, segs[k].speaker, t, maxGap)
  {
    var speaker, own := segs[k].speaker, ChainEnd(segs, k, maxGap);
    StartsInOrder(segs, ChainStart(segs, own, maxGap), k);
    StartsInOrder(segs, k, own);
    if segs[own].end <= t {
      var e := LatestEnd(segs, speaker, segs[k].start, t, own, |segs|, maxGap);
      assert EndsInside(segs, e, k);
      var x: nat :| IsChainEnd(segs, x, maxGap) && RunsAcross(segs, x, speaker, segs[e].end, maxGap);
      assert !Eligible(segs, x, speaker, segs[k].start, t);
      assert RunsAcross(segs, x, speaker, t, maxGap);
    } else {
      assert RunsAcross(segs, own, speaker, t, maxGap);
    }
  }

  /** Merging loses no covered time exactly when, wherever a chain of bridged neighbours ends inside a
      segment of its speaker, another chain of the speaker runs across that instant. */
  lemma LosesNothingIff(segs: seq<Segment>, maxGap: real)
    requires Ordered(segs)
    ensures LosesNothing(segs, maxGap) <==> EndsAreBridged(segs, maxGap)
  {
    if EndsAreBridged(segs, maxGap) {
      forall speaker, t | Covers(segs, speaker, t)
        ensures Covers(Merged(segs, maxGap), speaker, t)
      {
        var y :| y in segs && y.speaker == speaker && y.start <= t < y.end;
        var k: nat :| k < |segs| && segs[k] == y;
        InstantKept(segs, maxGap, k, t);
        CoveredAcross(segs, speaker, t, maxGap);
      }
    }
    if LosesNothing(segs, maxGap) {
      forall e: nat, k: nat | IsChainEnd(segs, e, maxGap) && k < |segs| && EndsInside(segs, e, k)
        ensures Across(segs, segs[e].speaker, segs[e].end, maxGap)
      {
        assert segs[k] in segs;
        assert Covers(segs, segs[e].speaker, segs[e].end);
        CoveredAcross(segs, segs[e].speaker, segs[e].end, maxGap);
      }
    }
  }

  /** No segment ends after the last one of its chain. */
  ghost predicate ChainsEndLast(segs: seq<Segment>, maxGap: real) {
    forall k: nat :: k < |segs| ==> segs[k].end <= segs[ChainEnd(segs, k, maxGap)].end
  }

  /** With one speaker and a positive gap limit no chain runs across the end of another. */
  lemma NoneAcross(segs: seq<Segment>, maxGap: real, e: nat)
    requires Ordered(segs) && 0.0 < maxGap && IsChainEnd(segs, e, maxGap)
    requires forall k :: 0 <= k < |segs| ==> segs[k].speaker == segs[e].speaker
    ensures !Across(segs, segs[e].speaker, segs[e].end, maxGap)
  {
    forall x: nat | IsChainEnd(segs, x, maxGap)
      ensures !RunsAcross(segs, x, segs[e].speaker, segs[e].end, maxGap)
    {
      if e < x {
        var b := ChainStart(segs, x, maxGap);
        StartsInOrder(segs, e + 1, b);
      } else if x < e {
        StartsInOrder(segs, x + 1, e);
      }
    }
  }

  /** For one speaker and a positive gap limit: nothing is lost exactly when no segment ends after the
      last one of its chain. */
  lemma LosesNothingIffChainsEndLast(segs: seq<Segment>, maxGap: real, speaker: string)
    requires Ordered(segs) && 0.0 < maxGap && forall k :: 0 <= k < |segs| ==> segs[k].speaker == speaker
    ensures LosesNothing(segs, maxGap) <==> ChainsEndLast(segs, maxGap)
  {
    LosesNothingIff(segs, maxGap);
    if EndsAreBridged(segs, maxGap) {
      forall k: nat | k < |segs|
        ensures segs[k].end <= segs[ChainEnd(segs, k, maxGap)].end
      {
        var e := ChainEnd(segs, k, maxGap);
        StartsInOrder(segs, k, e);
        NoneAcross(segs, maxGap, e);
        assert !EndsInside(segs, e, k);
      }
    }
    if ChainsEndLast(segs, maxGap) {
      forall e: nat, k: nat | IsChainEnd(segs, e, maxGap) && k < |segs|
        ensures !EndsInside(segs, e, k)
      {
        var own := ChainEnd(segs, k, maxGap);
        ChainsApart(segs, maxGap, e, own, k);
      }
    }
  }

  /** An earlier chain ends before a later one starts, so none ends inside a segment of another. */
  lemma ChainsApart(segs: seq<Segment>, maxGap: real, e: nat, own: nat, k: nat)
    requires Ordered(segs) && 0.0 < maxGap && forall j, k :: 0 <= j < k < |segs| ==> segs[j].speaker == segs[k].speaker
    requires IsChainEnd(segs, e, maxGap) && k < |segs| && own == ChainEnd(segs, k, maxGap) &&
             segs[k].end <= segs[own].end
    ensures !EndsInside(segs, e, k)
  {
    if own < e {
      StartsInOrder(segs, own + 1, e);
    } else if e < own {
      var b := ChainStart(segs, own, maxGap);
      StartsInOrder(segs, e + 1, b);
      StartsInOrder(segs, b, k);
    }
  }
}
