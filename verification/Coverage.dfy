/** Length of time covered by a union of intervals, and the overlap comparison of two timelines. */
module Coverage {
  import opened Counting

  datatype Interval = Interval(start: real, end: real)

  /** `t` lies in one of the half-open intervals. */
  ghost predicate Contains(cover: seq<Interval>, t: real) {
    exists k :: 0 <= k < |cover| && cover[k].start <= t < cover[k].end
  }

  /** Length of the part of [lo, hi) outside every interval: the first interval cuts off the
      part before it and the part after it, the others are taken out of those. */
  ghost function Uncovered(lo: real, hi: real, cover: seq<Interval>): real
    decreases |cover|
  {
    if hi <= lo then 0.0
    else if |cover| == 0 then hi - lo
    else if cover[0].end <= cover[0].start then Uncovered(lo, hi, cover[1..])
    else Uncovered(lo, MinReal(hi, cover[0].start), cover[1..]) + Uncovered(MaxReal(lo, cover[0].end), hi, cover[1..])
  }

  ghost function Covered(lo: real, hi: real, cover: seq<Interval>): real {
    (if hi <= lo then 0.0 else hi - lo) - Uncovered(lo, hi, cover)
  }

  /** The measure is additive. */
  lemma {:induction false} UncoveredSplits(lo: real, mid: real, hi: real, cover: seq<Interval>)
    requires lo <= mid <= hi
    ensures Uncovered(lo, hi, cover) == Uncovered(lo, mid, cover) + Uncovered(mid, hi, cover)
    decreases |cover|
  {
    if |cover| == 0 {
    } else {
      var a, rest := cover[0], cover[1..];
      if a.end <= a.start {
        UncoveredSplits(lo, mid, hi, rest);
      } else {
        if lo <= mid <= MinReal(hi, a.start) {
          UncoveredSplits(lo, mid, MinReal(hi, a.start), rest);
        }
        if MaxReal(lo, a.end) <= mid {
          UncoveredSplits(MaxReal(lo, a.end), mid, hi, rest);
        }
      }
    }
  }

  /** Where every point is covered nothing is left over. */
  lemma {:induction false} NothingUncovered(lo: real, hi: real, cover: seq<Interval>)
    requires forall t :: lo <= t < hi ==> Contains(cover, t)
    ensures Uncovered(lo, hi, cover) == 0.0
    decreases |cover|
  {
    if lo < hi {
      assert Contains(cover, lo);
      var a, rest := cover[0], cover[1..];
      forall t | lo <= t < hi && !(a.start <= t < a.end)
        ensures Contains(rest, t)
      {
        assert Contains(cover, t);
        var k :| 0 <= k < |cover| && cover[k].start <= t < cover[k].end;
        assert rest[k - 1] == cover[k];
      }
      if a.end <= a.start {
        NothingUncovered(lo, hi, rest);
      } else {
        NothingUncovered(lo, MinReal(hi, a.start), rest);
        NothingUncovered(MaxReal(lo, a.end), hi, rest);
      }
    }
  }

  /** Where no point is covered everything is left over. */
  lemma {:induction false} AllUncovered(lo: real, hi: real, cover: seq<Interval>)
    requires forall t :: lo <= t < hi ==> !Contains(cover, t)
    ensures Uncovered(lo, hi, cover) == if hi <= lo then 0.0 else hi - lo
    decreases |cover|
  {
    if lo < hi && |cover| != 0 {
      var a, rest := cover[0], cover[1..];
      forall t | lo <= t < hi
        ensures !Contains(rest, t) && !(a.start <= t < a.end)
      {
        assert !Contains(cover, t);
        assert forall k :: 0 <= k < |rest| ==> rest[k] == cover[k + 1];
        assert !(cover[0].start <= t < cover[0].end);
      }
      assert a.end <= a.start || hi <= a.start || a.end <= lo by {
        var t := MaxReal(lo, a.start);
        assert lo <= t < hi ==> !Contains(cover, t) && !(cover[0].start <= t < cover[0].end);
      }
      AllUncovered(lo, hi, rest);
    }
  }

  lemma UncoveredCons(lo: real, hi: real, a: Interval, rest: seq<Interval>)
    ensures Uncovered(lo, hi, [a] + rest) ==
            if hi <= lo then 0.0
            else if a.end <= a.start then Uncovered(lo, hi, rest)
            else Uncovered(lo, MinReal(hi, a.start), rest) + Uncovered(MaxReal(lo, a.end), hi, rest)
  {
    assert ([a] + rest)[1..] == rest;
  }

  /** Both intervals taken out of [lo, hi), in whichever order. */
  lemma UncoveredTwo(lo: real, hi: real, a: Interval, b: Interval, rest: seq<Interval>)
    requires a.start < a.end && b.start < b.end && lo < hi
    ensures Uncovered(lo, hi, [a, b] + rest) ==
              Uncovered(lo, MinReal(hi, MinReal(a.start, b.start)), rest)
            + Uncovered(MaxReal(lo, b.end), MinReal(hi, a.start), rest)
            + Uncovered(MaxReal(lo, a.end), MinReal(hi, b.start), rest)
            + Uncovered(MaxReal(lo, MaxReal(a.end, b.end)), hi, rest)
  {
    assert [a, b] + rest == [a] + ([b] + rest);
    UncoveredCons(lo, hi, a, [b] + rest);
    UncoveredCons(lo, MinReal(hi, a.start), b, rest);
    UncoveredCons(MaxReal(lo, a.end), hi, b, rest);
  }

  lemma UncoveredSwap(lo: real, hi: real, a: Interval, b: Interval, rest: seq<Interval>)
    ensures Uncovered(lo, hi, [a, b] + rest) == Uncovered(lo, hi, [b, a] + rest)
  {
    if lo < hi {
      if a.start < a.end && b.start < b.end {
        UncoveredTwo(lo, hi, a, b, rest);
        UncoveredTwo(lo, hi, b, a, rest);
      } else {
        UncoveredSkip(lo, hi, a, b, rest);
        UncoveredSkip(lo, hi, b, a, rest);
      }
    }
  }

  /** With an empty interval among two, only the other one counts. */
  lemma UncoveredSkip(lo: real, hi: real, a: Interval, b: Interval, rest: seq<Interval>)
    requires a.end <= a.start || b.end <= b.start
    ensures Uncovered(lo, hi, [a, b] + rest) == Uncovered(lo, hi, [if a.end <= a.start then b else a] + rest)
  {
    assert [a, b] + rest == [a] + ([b] + rest);
    UncoveredCons(lo, hi, a, [b] + rest);
    UncoveredCons(lo, hi, a, rest);
    UncoveredCons(lo, MinReal(hi, a.start), b, rest);
    UncoveredCons(MaxReal(lo, a.end), hi, b, rest);
    UncoveredCons(lo, hi, b, rest);
  }

  /** The two leave the same length uncovered in every window. */
  ghost predicate SameMeasure(x: seq<Interval>, y: seq<Interval>) {
    forall lo, hi :: Uncovered(lo, hi, x) == Uncovered(lo, hi, y)
  }

  lemma UncoveredCongruent(lo: real, hi: real, a: Interval, x: seq<Interval>, y: seq<Interval>)
    requires SameMeasure(x, y)
    ensures Uncovered(lo, hi, [a] + x) == Uncovered(lo, hi, [a] + y)
  {
    UncoveredCons(lo, hi, a, x);
    UncoveredCons(lo, hi, a, y);
  }

  lemma {:induction false} UncoveredToFront(lo: real, hi: real, pre: seq<Interval>, x: Interval, post: seq<Interval>)
    ensures Uncovered(lo, hi, pre + ([x] + post)) == Uncovered(lo, hi, [x] + (pre + post))
    decreases |pre|
  {
    if |pre| == 0 {
      assert pre + ([x] + post) == [x] + (pre + post);
    } else {
      var a, tail := pre[0], pre[1..];
      forall l, h
        ensures Uncovered(l, h, tail + ([x] + post)) == Uncovered(l, h, [x] + (tail + post))
      {
        UncoveredToFront(l, h, tail, x, post);
      }
      UncoveredCongruent(lo, hi, a, tail + ([x] + post), [x] + (tail + post));
      UncoveredSwap(lo, hi, a, x, tail + post);
      assert pre + ([x] + post) == [a] + (tail + ([x] + post));
      assert [a] + ([x] + (tail + post)) == [a, x] + (tail + post);
      assert [x] + (pre + post) == [x, a] + (tail + post);
    }
  }

  lemma TakeOut(a: Interval, tail: seq<Interval>, y: seq<Interval>) returns (k: nat)
    requires multiset([a] + tail) == multiset(y)
    ensures k < |y| && y[k] == a && multiset(tail) == multiset(y[..k] + y[k + 1..])
  {
    assert a in multiset([a] + tail);
    k :| 0 <= k < |y| && y[k] == a;
    assert y == y[..k] + [a] + y[k + 1..];
    assert multiset(tail) == multiset([a] + tail) - multiset{a};
    assert multiset(y[..k] + y[k + 1..]) == multiset(y) - multiset{a};
  }

  /** The order of the intervals does not matter. */
  lemma {:induction false} UncoveredReorders(lo: real, hi: real, x: seq<Interval>, y: seq<Interval>)
    requires multiset(x) == multiset(y)
    ensures Uncovered(lo, hi, x) == Uncovered(lo, hi, y)
    decreases |x|
  {
    assert |x| == |multiset(x)| == |y|;
    if |x| == 0 {
    } else {
      var a, tail := x[0], x[1..];
      assert x == [a] + tail;
      var k := TakeOut(a, tail, y);
      var rest := y[..k] + y[k + 1..];
      forall l, h
        ensures Uncovered(l, h, tail) == Uncovered(l, h, rest)
      {
        UncoveredReorders(l, h, tail, rest);
      }
      UncoveredCongruent(lo, hi, a, tail, rest);
      UncoveredToFront(lo, hi, y[..k], a, y[k + 1..]);
      assert y == y[..k] + ([a] + y[k + 1..]);
    }
  }

  /** Two touching intervals cover what their hull covers. */
  lemma UncoveredMerge(lo: real, hi: real, a: Interval, b: Interval, rest: seq<Interval>)
    requires a.start <= a.end && b.start <= b.end && a.start <= b.start <= a.end
    ensures Uncovered(lo, hi, [a, b] + rest)
         == Uncovered(lo, hi, [Interval(a.start, MaxReal(a.end, b.end))] + rest)
  {
    var hull := Interval(a.start, MaxReal(a.end, b.end));
    UncoveredCons(lo, hi, hull, rest);
    if a.start < a.end && b.start < b.end {
      if lo < hi {
        UncoveredTwo(lo, hi, a, b, rest);
      }
    } else {
      UncoveredSkip(lo, hi, a, b, rest);
      assert hull == if a.end <= a.start then b else a;
    }
  }

  // --- Comparison of two timelines ------------------------------------------------------------

  /** A turn of the compared files: start and duration, speakers ignored. */
  datatype Turn = Turn(start: real, duration: real) {
    function Span(): Interval {
      Interval(start, start + duration)
    }
  }

  function Spans(turns: seq<Turn>): (r: seq<Interval>)
    ensures |r| == |turns| && forall k :: 0 <= k < |r| ==> r[k] == turns[k].Span()
  {
    seq(|turns|, k requires 0 <= k < |turns| => turns[k].Span())
  }

  ghost predicate SortedByStart(s: seq<Interval>) {
    forall i, j :: 0 <= i < j < |s| ==> s[i].start <= s[j].start
  }

  /** Stable insertion behind the elements that start no later. */
  function InsertByStart(s: seq<Interval>, x: Interval): (r: seq<Interval>)
    requires SortedByStart(s)
    ensures multiset(r) == multiset(s) + multiset{x}
    ensures SortedByStart(r)
    ensures forall y :: y in r ==> y in s || y == x
  {
    if |s| == 0 then [x]
    else if x.start < s[|s| - 1].start then
      assert s == s[..|s| - 1] + [s[|s| - 1]];
      var front := InsertByStart(s[..|s| - 1], x);
      assert forall k :: 0 <= k < |front| ==> front[k] in front;
      front + [s[|s| - 1]]
    else s + [x]
  }

  /** The library's stable sort by start time. */
  function SortByStart(s: seq<Interval>): (r: seq<Interval>)
    ensures multiset(r) == multiset(s) && SortedByStart(r)
  {
    if |s| == 0 then []
    else
      assert s == s[..|s| - 1] + [s[|s| - 1]];
      InsertByStart(SortByStart(s[..|s| - 1]), s[|s| - 1])
  }

  /** Sorted, with a gap between any two neighbours. */
  ghost predicate Separated(s: seq<Interval>) {
    && (forall k :: 0 <= k < |s| ==> s[k].start <= s[k].end)
    && forall i, j :: 0 <= i < j < |s| ==> s[i].end < s[j].start
  }

  lemma MergeBehind(front: seq<Interval>, a: Interval, b: Interval, rest: seq<Interval>)
    requires a.start <= a.end && b.start <= b.end && a.start <= b.start <= a.end
    ensures SameMeasure(front + ([Interval(a.start, MaxReal(a.end, b.end))] + rest), front + ([a, b] + rest))
  {
    var hull := Interval(a.start, MaxReal(a.end, b.end));
    forall l, h
      ensures Uncovered(l, h, [hull] + rest) == Uncovered(l, h, [a, b] + rest)
    {
      UncoveredMerge(l, h, a, b, rest);
    }
    forall lo, hi
      ensures Uncovered(lo, hi, front + ([hull] + rest)) == Uncovered(lo, hi, front + ([a, b] + rest))
    {
      UncoveredPrefix(lo, hi, front, [hull] + rest, [a, b] + rest);
    }
  }

  /** Merging keeps the measure of what is not covered, inside every window. */
  method MergeIntervals(intervals: seq<Interval>) returns (merged: seq<Interval>)
    requires SortedByStart(intervals) && forall k :: 0 <= k < |intervals| ==> intervals[k].start <= intervals[k].end
    requires |intervals| > 0
    ensures Separated(merged)
    ensures SameMeasure(merged, intervals)
  {
    merged := [intervals[0]];
    for k := 1 to |intervals|
      invariant |merged| > 0 && Separated(merged)
      invariant merged[|merged| - 1].start <= intervals[k - 1].start
      invariant SameMeasure(merged + intervals[k..], intervals)
    {
      var last, next := merged[|merged| - 1], intervals[k];
      var front, rest := merged[..|merged| - 1], intervals[k + 1..];
      assert merged + intervals[k..] == front + ([last, next] + rest);
      if next.start <= last.end {
        var hull := Interval(last.start, MaxReal(last.end, next.end));
        MergeBehind(front, last, next, rest);
        merged := front + [hull];
        assert merged + intervals[k + 1..] == front + ([hull] + rest);
      } else {
        merged := merged + [next];
        assert merged + intervals[k + 1..] == front + ([last, next] + rest);
      }
    }
    assert merged + intervals[|intervals|..] == merged;
  }

  lemma {:induction false} UncoveredPrefix(lo: real, hi: real, front: seq<Interval>, x: seq<Interval>, y: seq<Interval>)
    requires SameMeasure(x, y)
    ensures Uncovered(lo, hi, front + x) == Uncovered(lo, hi, front + y)
    decreases |front|
  {
    if |front| == 0 {
      assert front + x == x && front + y == y;
    } else {
      forall l, h
        ensures Uncovered(l, h, front[1..] + x) == Uncovered(l, h, front[1..] + y)
      {
        UncoveredPrefix(l, h, front[1..], x, y);
      }
      assert front + x == [front[0]] + (front[1..] + x) && front + y == [front[0]] + (front[1..] + y);
      UncoveredCongruent(lo, hi, front[0], front[1..] + x, front[1..] + y);
    }
  }

  /** What one turn adds: its overlap with each merged interval it meets. */
  ghost function OverlapSum(lo: real, hi: real, merged: seq<Interval>): real {
    if |merged| == 0 || merged[0].start >= hi then 0.0
    else
      OverlapSum(lo, hi, merged[1..])
      + if merged[0].end <= lo then 0.0 else MinReal(hi, merged[0].end) - MaxReal(lo, merged[0].start)
  }

  lemma {:induction false} StartsTooLate(lo: real, hi: real, s: seq<Interval>)
    requires forall k :: 0 <= k < |s| ==> s[k].start >= hi
    ensures Uncovered(lo, hi, s) == if hi <= lo then 0.0 else hi - lo
  {
    forall t | lo <= t < hi
      ensures !Contains(s, t)
    {
    }
    AllUncovered(lo, hi, s);
  }

  /** On separated intervals the sum of overlaps is the covered measure: leaving the scan at the
      first interval that starts too late skips nothing. */
  lemma {:induction false} OverlapSumIsCovered(lo: real, hi: real, merged: seq<Interval>)
    requires Separated(merged) && lo <= hi
    ensures OverlapSum(lo, hi, merged) == Covered(lo, hi, merged)
    decreases |merged|
  {
    if |merged| == 0 {
    } else {
      var a, rest := merged[0], merged[1..];
      assert merged == [a] + rest;
      assert forall k :: 0 <= k < |rest| ==> a.end < rest[k].start;
      UncoveredCons(lo, hi, a, rest);
      if a.start >= hi {
        StartsTooLate(lo, hi, merged);
      } else {
        OverlapSumIsCovered(lo, hi, rest);
        StartsTooLate(lo, a.start, rest);
        if lo < a.end <= hi {
          UncoveredSplits(lo, a.end, hi, rest);
          StartsTooLate(lo, a.end, rest);
        } else if hi < a.end {
          StartsTooLate(lo, hi, rest);
        }
      }
    }
  }

  /** Speech time of `a` that `b` covers, turn by turn. */
  ghost function CoveredSpeech(a: seq<Turn>, b: seq<Turn>): real {
    if |a| == 0 then 0.0
    else CoveredSpeech(a[..|a| - 1], b) + Covered(a[|a| - 1].Span().start, a[|a| - 1].Span().end, Spans(b))
  }

  /** `spans` are the stretches of time of the turns. */
  ghost predicate AreSpans(turns: seq<Turn>, spans: seq<Interval>) {
    && |spans| == |turns|
    && forall k :: 0 <= k < |turns| ==>
         spans[k].start == turns[k].start && spans[k].end - spans[k].start == turns[k].duration
  }

  /** It is the sum, over the turns of `a`, of the time from the turn's start on, for its duration, that
      the turns of `b` cover together. */
  lemma {:induction false} CoveredSpeechIsTotal(a: seq<Turn>, b: seq<Turn>, spans: seq<Interval>, parts: seq<real>)
    requires AreSpans(b, spans) && |parts| == |a|
    requires forall k :: 0 <= k < |a| ==> parts[k] == Covered(a[k].start, a[k].start + a[k].duration, spans)
    ensures CoveredSpeech(a, b) == Total(parts)
  {
    assert spans == Spans(b);
    if |a| == 0 {
    } else {
      CoveredSpeechIsTotal(a[..|a| - 1], b, spans, parts[..|a| - 1]);
    }
  }

  lemma {:induction false} CoveredByNothing(a: seq<Turn>)
    ensures CoveredSpeech(a, []) == 0.0
  {
    if |a| == 0 {
    } else {
      CoveredByNothing(a[..|a| - 1]);
    }
  }

  /** The scan of one turn over the merged intervals. */
  method AddOverlap(before: real, segStart: real, segEnd: real, merged: seq<Interval>) returns (covered: real)
    ensures covered == before + OverlapSum(segStart, segEnd, merged)
  {
    covered := before;
    var k := 0;
    while k < |merged|
      invariant 0 <= k <= |merged|
      invariant covered + OverlapSum(segStart, segEnd, merged[k..]) == before + OverlapSum(segStart, segEnd, merged)
      decreases |merged| - k
    {
      assert merged[k..][1..] == merged[k + 1..];
      if merged[k].start >= segEnd {
        break;
      }
      if merged[k].end > segStart {
        covered := covered + (MinReal(segEnd, merged[k].end) - MaxReal(segStart, merged[k].start));
      }
      k := k + 1;
    }
  }

  method TimelineOverlap(a: seq<Turn>, b: seq<Turn>) returns (covered: real)
    requires forall k :: 0 <= k < |a| ==> a[k].duration >= 0.0
    requires forall k :: 0 <= k < |b| ==> b[k].duration >= 0.0
    ensures covered == CoveredSpeech(a, b)
  {
    var intervals := SortByStart(Spans(b));
    if |intervals| == 0 {
      assert |multiset(Spans(b))| == 0;
      assert b == [];
      CoveredByNothing(a);
      return 0.0;
    }
    forall k | 0 <= k < |intervals|
      ensures intervals[k].start <= intervals[k].end
    {
      assert intervals[k] in multiset(Spans(b));
    }
    var merged := MergeIntervals(intervals);
    covered := 0.0;
    for s := 0 to |a|
      invariant covered == CoveredSpeech(a[..s], b)
    {
      var segStart, segEnd := a[s].start, a[s].start + a[s].duration;
      covered := AddOverlap(covered, segStart, segEnd, merged);
      OverlapSumIsCovered(segStart, segEnd, merged);
      UncoveredReorders(segStart, segEnd, intervals, Spans(b));
      assert a[..s + 1][..s] == a[..s];
    }
    assert a[..|a|] == a;
  }
}
