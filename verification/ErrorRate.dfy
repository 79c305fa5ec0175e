/** Scoring of a hypothesis against a reference: time is cut at every segment boundary, each
    elementary window is scored by who speaks in it, and speakers are matched one to one. */
module ErrorRate {
  import opened Counting
  import opened ScoringTrack
  import opened Segments
  import opened SpeakerMapping

  datatype DerResult = DerResult(missed: real, falseAlarm: real, confusion: real, total: real) {
    function Der(): real {
      if total == 0.0 then 0.0 else (missed + falseAlarm + confusion) / total
    }
  }

  /** The rate is the share of the reference time that is in error, and 0 without reference time. */
  lemma RateIsShare(r: DerResult)
    ensures r.Der() * r.total == if r.total == 0.0 then 0.0 else r.missed + r.falseAlarm + r.confusion
    ensures r.total == 0.0 ==> r.Der() == 0.0
  {
  }

  // --- Boundaries -----------------------------------------------------------------------------

  ghost predicate StrictlySorted(s: seq<real>) {
    forall i, j :: 0 <= i < j < |s| ==> s[i] < s[j]
  }

  /** Insertion into an ordered set kept as a sorted sequence. */
  function Insert(s: seq<real>, x: real): seq<real> {
    if |s| == 0 then [x]
    else if x < s[0] then [x] + s
    else if x == s[0] then s
    else [s[0]] + Insert(s[1..], x)
  }

  lemma {:induction false} InsertMembers(s: seq<real>, x: real, y: real)
    ensures y in Insert(s, x) <==> y in s || y == x
  {
    if |s| == 0 || x <= s[0] {
    } else {
      InsertMembers(s[1..], x, y);
      assert s == [s[0]] + s[1..];
    }
  }

  lemma {:induction false} InsertIsSorted(s: seq<real>, x: real)
    requires StrictlySorted(s)
    ensures StrictlySorted(Insert(s, x))
  {
    if |s| == 0 || x <= s[0] {
    } else {
      InsertIsSorted(s[1..], x);
      var rest := Insert(s[1..], x);
      forall i | 0 <= i < |rest|
        ensures s[0] < rest[i]
      {
        InsertMembers(s[1..], x, rest[i]);
      }
    }
  }

  ghost predicate HasBoundary(segments: seq<Segment>, x: real) {
    exists k :: 0 <= k < |segments| && (x == segments[k].start || x == segments[k].end)
  }

  function Boundaries(segments: seq<Segment>): (r: seq<real>)
    ensures StrictlySorted(r)
    ensures forall x :: x in r <==> HasBoundary(segments, x)
  {
    if |segments| == 0 then []
    else
      var front, last := segments[..|segments| - 1], segments[|segments| - 1];
      BoundariesNext(Boundaries(front), front, last);
      assert segments == front + [last];
      Insert(Insert(Boundaries(front), last.start), last.end)
  }

  lemma BoundariesNext(before: seq<real>, front: seq<Segment>, last: Segment)
    requires StrictlySorted(before) && forall x :: x in before <==> HasBoundary(front, x)
    ensures StrictlySorted(Insert(Insert(before, last.start), last.end))
    ensures forall x :: x in Insert(Insert(before, last.start), last.end) <==> HasBoundary(front + [last], x)
  {
    var first := Insert(before, last.start);
    InsertIsSorted(before, last.start);
    InsertIsSorted(first, last.end);
    forall x
      ensures x in Insert(first, last.end) <==> HasBoundary(front + [last], x)
    {
      InsertMembers(before, last.start, x);
      InsertMembers(first, last.end, x);
      LastBoundary(front, last, x);
    }
  }

  lemma LastBoundary(front: seq<Segment>, last: Segment, x: real)
    ensures HasBoundary(front + [last], x) <==> HasBoundary(front, x) || x == last.start || x == last.end
  {
    var all := front + [last];
    assert all[|front|] == last;
    assert forall k :: 0 <= k < |front| ==> all[k] == front[k];
  }

  // --- Speakers -------------------------------------------------------------------------------

  ghost predicate HasSpeaker(segments: seq<Segment>, s: string) {
    exists k :: 0 <= k < |segments| && segments[k].speaker == s
  }

  /** The speakers in order of first appearance. */
  function UniqueSpeakers(segments: seq<Segment>): (r: seq<string>)
    ensures Distinct(r)
    ensures forall s :: s in r <==> HasSpeaker(segments, s)
  {
    if |segments| == 0 then []
    else
      var front, last := segments[..|segments| - 1], segments[|segments| - 1];
      assert segments == front + [last];
      assert forall s :: HasSpeaker(front, s) ==> HasSpeaker(segments, s);
      var seen := UniqueSpeakers(front);
      if last.speaker in seen then seen else seen + [last.speaker]
  }

  /** Segment k is the speaker's first. */
  ghost predicate FirstAt(segments: seq<Segment>, s: string, k: nat) {
    k < |segments| && segments[k].speaker == s && forall j :: 0 <= j < k ==> segments[j].speaker != s
  }

  /** Of two listed speakers the one listed first has the earlier first segment. */
  lemma {:induction false} ListedByAppearance(segments: seq<Segment>, i: nat, j: nat, k: nat, l: nat)
    requires i < j < |UniqueSpeakers(segments)|
    requires FirstAt(segments, UniqueSpeakers(segments)[i], k) && FirstAt(segments, UniqueSpeakers(segments)[j], l)
    ensures k < l
  {
    var n := |segments| - 1;
    var front := segments[..n];
    var seen := UniqueSpeakers(front);
    assert seen[i] in seen;
    assert HasSpeaker(front, seen[i]);
    assert k < n;
    if j < |seen| {
      assert seen[j] in seen;
      assert HasSpeaker(front, seen[j]);
      assert l < n;
      ListedByAppearance(front, i, j, k, l);
    } else {
      assert segments[n].speaker !in seen;
      assert forall m :: 0 <= m < n ==> HasSpeaker(front, front[m].speaker);
    }
  }

  method CollectSpeakers(segments: seq<Segment>) returns (seen: seq<string>)
    ensures seen == UniqueSpeakers(segments)
  {
    seen := [];
    for k := 0 to |segments|
      invariant seen == UniqueSpeakers(segments[..k])
    {
      assert segments[..k + 1][..k] == segments[..k];
      if segments[k].speaker !in seen {
        seen := seen + [segments[k].speaker];
      }
    }
    assert segments[..|segments|] == segments;
  }

  function Position(list: seq<string>, s: string): (i: nat)
    requires s in list
    ensures i < |list| && list[i] == s
  {
    if list[0] == s then 0 else 1 + Position(list[1..], s)
  }

  /** `speaker` talks at time `t`. */
  ghost predicate Speaks(segments: seq<Segment>, speaker: string, t: real) {
    exists k :: 0 <= k < |segments| && segments[k].speaker == speaker && segments[k].start <= t < segments[k].end
  }

  /** Numbers of the speakers in `list` that talk at `t`, each once. */
  function ActiveAt(segments: seq<Segment>, t: real, list: seq<string>): (r: seq<nat>)
    requires Distinct(list)
    ensures Distinct(r)
    ensures forall i: nat :: i in r <==> i < |list| && Speaks(segments, list[i], t)
  {
    if |segments| == 0 then []
    else
      var front, last := segments[..|segments| - 1], segments[|segments| - 1];
      assert segments == front + [last];
      var before := ActiveAt(front, t, list);
      assert forall s :: Speaks(segments, s, t) <==>
                Speaks(front, s, t) || (last.speaker == s && last.start <= t < last.end) by {
        ActiveStep(front, last, t);
      }
      assert forall i: nat :: i < |list| && list[i] == last.speaker ==> i == Position(list, last.speaker);
      if last.start <= t < last.end && last.speaker in list && Position(list, last.speaker) !in before
      then before + [Position(list, last.speaker)]
      else before
  }

  lemma ActiveStep(front: seq<Segment>, last: Segment, t: real)
    ensures forall s :: Speaks(front + [last], s, t) <==>
              Speaks(front, s, t) || (last.speaker == s && last.start <= t < last.end)
  {
    var all := front + [last];
    forall s
      ensures Speaks(all, s, t) <==> Speaks(front, s, t) || (last.speaker == s && last.start <= t < last.end)
    {
      if Speaks(front, s, t) {
        var k :| 0 <= k < |front| && front[k].speaker == s && front[k].start <= t < front[k].end;
        assert all[k] == front[k];
      }
      if last.speaker == s && last.start <= t < last.end {
        assert all[|front|] == last;
      }
    }
  }

  method ActiveSpeakersAt(segments: seq<Segment>, tStart: real, tEnd: real, list: seq<string>)
    returns (active: seq<nat>)
    requires Distinct(list)
    ensures active == ActiveAt(segments, (tStart + tEnd) / 2.0, list)
  {
    var mid := (tStart + tEnd) / 2.0;
    active := [];
    for k := 0 to |segments|
      invariant active == ActiveAt(segments[..k], mid, list)
    {
      assert segments[..k + 1][..k] == segments[..k];
      if segments[k].start <= mid < segments[k].end && segments[k].speaker in list {
        var idx := Position(list, segments[k].speaker);
        if idx !in active {
          active := active + [idx];
        }
      }
    }
    assert segments[..|segments|] == segments;
  }

  // --- The track of elementary windows --------------------------------------------------------

  ghost function WindowAt(reference: seq<Segment>, hypothesis: seq<Segment>, bs: seq<real>, w: nat): Window
    requires w + 1 < |bs|
  {
    var mid := (bs[w] + bs[w + 1]) / 2.0;
    Window(bs[w + 1] - bs[w],
           ActiveAt(reference, mid, UniqueSpeakers(reference)),
           ActiveAt(hypothesis, mid, UniqueSpeakers(hypothesis)))
  }

  /** The first k windows, without those of no length. */
  ghost function TrackUpTo(reference: seq<Segment>, hypothesis: seq<Segment>, bs: seq<real>, k: nat): seq<Window>
    requires k == 0 || k < |bs|
  {
    if k == 0 then []
    else
      TrackUpTo(reference, hypothesis, bs, k - 1)
      + if bs[k] - bs[k - 1] <= 0.0 then [] else [WindowAt(reference, hypothesis, bs, k - 1)]
  }

  lemma TrackStep(reference: seq<Segment>, hypothesis: seq<Segment>, bs: seq<real>, k: nat)
    requires k + 1 < |bs|
    ensures TrackUpTo(reference, hypothesis, bs, k + 1) == TrackUpTo(reference, hypothesis, bs, k)
              + if bs[k + 1] - bs[k] <= 0.0 then [] else [WindowAt(reference, hypothesis, bs, k)]
  {
  }

  lemma WindowIsValid(reference: seq<Segment>, hypothesis: seq<Segment>, bs: seq<real>, k: nat)
    requires k + 1 < |bs| && bs[k + 1] - bs[k] > 0.0
    ensures Valid([WindowAt(reference, hypothesis, bs, k)], |UniqueSpeakers(reference)|, |UniqueSpeakers(hypothesis)|)
  {
    var w := WindowAt(reference, hypothesis, bs, k);
    assert forall i :: 0 <= i < |w.ref| ==> w.ref[i] in w.ref;
    assert forall i :: 0 <= i < |w.hyp| ==> w.hyp[i] in w.hyp;
  }

  lemma StaysValid(reference: seq<Segment>, hypothesis: seq<Segment>, bs: seq<real>, k: nat, track: seq<Window>)
    requires k + 1 < |bs| && Valid(track, |UniqueSpeakers(reference)|, |UniqueSpeakers(hypothesis)|)
    ensures Valid(track + if bs[k + 1] - bs[k] <= 0.0 then [] else [WindowAt(reference, hypothesis, bs, k)],
                  |UniqueSpeakers(reference)|, |UniqueSpeakers(hypothesis)|)
  {
    if bs[k + 1] - bs[k] > 0.0 {
      WindowIsValid(reference, hypothesis, bs, k);
      ValidAppend(track, WindowAt(reference, hypothesis, bs, k),
                  |UniqueSpeakers(reference)|, |UniqueSpeakers(hypothesis)|);
    }
  }

  lemma {:induction false} TrackIsValid(reference: seq<Segment>, hypothesis: seq<Segment>, bs: seq<real>, k: nat)
    requires k == 0 || k < |bs|
    ensures Valid(TrackUpTo(reference, hypothesis, bs, k), |UniqueSpeakers(reference)|, |UniqueSpeakers(hypothesis)|)
  {
    if k == 0 {
    } else {
      TrackIsValid(reference, hypothesis, bs, k - 1);
      StaysValid(reference, hypothesis, bs, k - 1, TrackUpTo(reference, hypothesis, bs, k - 1));
    }
  }

  function WindowCount(bs: seq<real>): nat {
    if |bs| == 0 then 0 else |bs| - 1
  }

  ghost function Track(reference: seq<Segment>, hypothesis: seq<Segment>): (track: seq<Window>)
    ensures Valid(track, |UniqueSpeakers(reference)|, |UniqueSpeakers(hypothesis)|)
  {
    var bs := Boundaries(reference + hypothesis);
    TrackIsValid(reference, hypothesis, bs, WindowCount(bs));
    TrackUpTo(reference, hypothesis, bs, WindowCount(bs))
  }

  method CollectBoundaries(segments: seq<Segment>) returns (bs: seq<real>)
    ensures bs == Boundaries(segments)
  {
    bs := [];
    for k := 0 to |segments|
      invariant bs == Boundaries(segments[..k])
    {
      assert segments[..k + 1][..k] == segments[..k];
      bs := Insert(bs, segments[k].start);
      bs := Insert(bs, segments[k].end);
    }
    assert segments[..|segments|] == segments;
  }

  /** Add a window's length to the entry of every pair of speakers active in it. */
  method AddTogether(c: seq<seq<real>>, w: Window, rows: nat, cols: nat) returns (r: seq<seq<real>>)
    requires Valid([w], rows, cols)
    requires |c| == rows && forall i :: 0 <= i < rows ==> |c[i]| == cols
    ensures |r| == rows && forall i :: 0 <= i < rows ==> |r[i]| == cols
    ensures forall i, j :: 0 <= i < rows && 0 <= j < cols ==> r[i][j] == c[i][j] + Shared(w, i, j)
  {
    assert [w][0] == w;
    r := c;
    for a := 0 to |w.ref|
      invariant |r| == rows && forall i :: 0 <= i < rows ==> |r[i]| == cols
      invariant forall i, j :: 0 <= i < rows && 0 <= j < cols ==>
                  r[i][j] == c[i][j] + if i in w.ref[..a] then Shared(w, i, j) else 0.0
    {
      var ri := w.ref[a];
      ghost var row, loopStart := r[ri], r;
      assert ri !in w.ref[..a];
      for b := 0 to |w.hyp|
        invariant |r| == rows && forall i :: 0 <= i < rows ==> |r[i]| == cols
        invariant forall i :: 0 <= i < rows && i != ri ==> r[i] == loopStart[i]
        invariant forall j :: 0 <= j < cols ==> r[ri][j] == row[j] + if j in w.hyp[..b] then w.dt else 0.0
      {
        var hi := w.hyp[b];
        assert hi !in w.hyp[..b];
        assert w.hyp[..b + 1] == w.hyp[..b] + [hi];
        r := r[ri := r[ri][hi := r[ri][hi] + w.dt]];
      }
      assert w.hyp[..|w.hyp|] == w.hyp;
      assert w.ref[..a + 1] == w.ref[..a] + [ri];
    }
    assert w.ref[..|w.ref|] == w.ref;
  }

  method CountMatched(w: Window, mapping: map<nat, nat>) returns (count: nat)
    requires Distinct(w.ref)
    ensures count == |Matched(w, mapping)|
  {
    count := 0;
    ghost var found: set<nat> := {};
    for a := 0 to |w.ref|
      invariant found == set i | i in w.ref[..a] && i in mapping && mapping[i] in w.hyp
      invariant count == |found|
    {
      var ri := w.ref[a];
      assert w.ref[..a + 1] == w.ref[..a] + [ri];
      if ri in mapping && mapping[ri] in w.hyp {
        assert ri !in w.ref[..a];
        found := found + {ri};
        count := count + 1;
      }
    }
    assert w.ref[..|w.ref|] == w.ref;
    assert found == Matched(w, mapping);
  }

  // --- Scoring --------------------------------------------------------------------------------

  ghost function TotalDuration(segments: seq<Segment>): real {
    if |segments| == 0 then 0.0
    else TotalDuration(segments[..|segments| - 1]) + segments[|segments| - 1].Duration()
  }

  lemma {:induction false} DurationIsTotal(segments: seq<Segment>, lengths: seq<real>)
    requires |lengths| == |segments|
    requires forall k :: 0 <= k < |segments| ==> lengths[k] == segments[k].end - segments[k].start
    ensures TotalDuration(segments) == Total(lengths)
  {
    if |segments| == 0 {
    } else {
      DurationIsTotal(segments[..|segments| - 1], lengths[..|segments| - 1]);
    }
  }

  ghost function ScoreOf(track: seq<Window>, m: map<nat, nat>): DerResult {
    DerResult(MissedTime(track), FalseAlarmTime(track), ConfusionTime(track, m), RefTime(track))
  }

  ghost function CooccurrenceOf(reference: seq<Segment>, hypothesis: seq<Segment>): seq<seq<real>> {
    Cooccurrence(Track(reference, hypothesis), |UniqueSpeakers(reference)|, |UniqueSpeakers(hypothesis)|)
  }

  /** `r` scores the track under some best mapping of its co-occurrence matrix. */
  ghost predicate IsScore(reference: seq<Segment>, hypothesis: seq<Segment>, r: DerResult) {
    exists m ::
      && IsBestMapping(CooccurrenceOf(reference, hypothesis),
                       |UniqueSpeakers(reference)|, |UniqueSpeakers(hypothesis)|, m)
      && r == ScoreOf(Track(reference, hypothesis), m)
  }

  /** The window a pass of either loop looks at. */
  method ActiveWindow(reference: seq<Segment>, hypothesis: seq<Segment>, bs: seq<real>, k: nat,
                      refSpeakers: seq<string>, hypSpeakers: seq<string>) returns (w: Window)
    requires k + 1 < |bs|
    requires refSpeakers == UniqueSpeakers(reference) && hypSpeakers == UniqueSpeakers(hypothesis)
    ensures w == WindowAt(reference, hypothesis, bs, k)
  {
    var activeRef := ActiveSpeakersAt(reference, bs[k], bs[k + 1], refSpeakers);
    var activeHyp := ActiveSpeakersAt(hypothesis, bs[k], bs[k + 1], hypSpeakers);
    w := Window(bs[k + 1] - bs[k], activeRef, activeHyp);
  }

  ghost predicate Counts(c: seq<seq<real>>, track: seq<Window>, rows: nat, cols: nat) {
    && |c| == rows && (forall i :: 0 <= i < rows ==> |c[i]| == cols)
    && forall i, j :: 0 <= i < rows && 0 <= j < cols ==> c[i][j] == TimeTogether(track, i, j)
  }

  lemma CountsStep(c: seq<seq<real>>, d: seq<seq<real>>, track: seq<Window>, w: Window, rows: nat, cols: nat)
    requires Counts(c, track, rows, cols)
    requires |d| == rows && forall i :: 0 <= i < rows ==> |d[i]| == cols
    requires forall i, j :: 0 <= i < rows && 0 <= j < cols ==> d[i][j] == c[i][j] + Shared(w, i, j)
    ensures Counts(d, track + [w], rows, cols)
  {
    assert (track + [w])[..|track|] == track;
  }

  lemma CountsAreCooccurrence(c: seq<seq<real>>, track: seq<Window>, rows: nat, cols: nat)
    requires Counts(c, track, rows, cols)
    ensures c == Cooccurrence(track, rows, cols)
  {
    forall i | 0 <= i < rows
      ensures c[i] == Cooccurrence(track, rows, cols)[i]
    {
      assert forall j :: 0 <= j < cols ==> c[i][j] == Cooccurrence(track, rows, cols)[i][j];
    }
  }

  /** The first pass over the windows: how long each pair of speakers talks together. */
  method BuildCooccurrence(reference: seq<Segment>, hypothesis: seq<Segment>, bs: seq<real>,
                           refSpeakers: seq<string>, hypSpeakers: seq<string>) returns (c: seq<seq<real>>)
    requires refSpeakers == UniqueSpeakers(reference) && hypSpeakers == UniqueSpeakers(hypothesis)
    ensures c == Cooccurrence(TrackUpTo(reference, hypothesis, bs, WindowCount(bs)), |refSpeakers|, |hypSpeakers|)
  {
    var rows, cols := |refSpeakers|, |hypSpeakers|;
    c := seq(rows, _ => seq(cols, _ => 0.0));
    ghost var track: seq<Window> := [];
    for k := 0 to WindowCount(bs)
      invariant track == TrackUpTo(reference, hypothesis, bs, k)
      invariant Counts(c, track, rows, cols)
    {
      TrackStep(reference, hypothesis, bs, k);
      if bs[k + 1] - bs[k] <= 0.0 {
        assert track + [] == track;
        continue;
      }
      var w := ActiveWindow(reference, hypothesis, bs, k, refSpeakers, hypSpeakers);
      WindowIsValid(reference, hypothesis, bs, k);
      ghost var before := c;
      c := AddTogether(c, w, rows, cols);
      CountsStep(before, c, track, w, rows, cols);
      track := track + [w];
    }
    CountsAreCooccurrence(c, track, rows, cols);
  }

  method ComputeDer(reference: seq<Segment>, hypothesis: seq<Segment>) returns (r: DerResult)
    ensures |reference| == 0 ==> r == DerResult(0.0, TotalDuration(hypothesis), 0.0, 0.0)
    ensures |reference| != 0 ==> IsScore(reference, hypothesis, r)
  {
    if |reference| == 0 {
      var falseAlarm := 0.0;
      for k := 0 to |hypothesis|
        invariant falseAlarm == TotalDuration(hypothesis[..k])
      {
        assert hypothesis[..k + 1][..k] == hypothesis[..k];
        falseAlarm := falseAlarm + hypothesis[k].Duration();
      }
      assert hypothesis[..|hypothesis|] == hypothesis;
      return DerResult(0.0, falseAlarm, 0.0, 0.0);
    }
    var bs := CollectBoundaries(reference + hypothesis);
    var refSpeakers := CollectSpeakers(reference);
    var hypSpeakers := CollectSpeakers(hypothesis);
    var cooccurrence := BuildCooccurrence(reference, hypothesis, bs, refSpeakers, hypSpeakers);
    var mapping := OptimalMapping(cooccurrence, |refSpeakers|, |hypSpeakers|);
    r := Accumulate(reference, hypothesis, bs, refSpeakers, hypSpeakers, mapping);
    assert r == ScoreOf(Track(reference, hypothesis), mapping);
  }

  lemma ScoreStep(track: seq<Window>, w: Window, m: map<nat, nat>)
    ensures ScoreOf(track + [w], m) == DerResult(
              MissedTime(track) + Times(Surplus(|w.ref|, |w.hyp|), w.dt),
              FalseAlarmTime(track) + Times(Surplus(|w.hyp|, |w.ref|), w.dt),
              ConfusionTime(track, m) + Times(Min(|w.ref|, |w.hyp|) - |Matched(w, m)|, w.dt),
              RefTime(track) + Times(|w.ref|, w.dt))
  {
    assert (track + [w])[..|track|] == track;
  }

  /** What one window adds to the totals. */
  method ScoreWindow(w: Window, mapping: map<nat, nat>, rows: nat, cols: nat, before: DerResult)
    returns (after: DerResult)
    requires Valid([w], rows, cols) && PartialInjection(mapping, rows, cols)
    ensures after == DerResult(
              before.missed + Times(Surplus(|w.ref|, |w.hyp|), w.dt),
              before.falseAlarm + Times(Surplus(|w.hyp|, |w.ref|), w.dt),
              before.confusion + Times(Min(|w.ref|, |w.hyp|) - |Matched(w, mapping)|, w.dt),
              before.total + Times(|w.ref|, w.dt))
  {
    MatchedAtMostPairable(w, rows, cols, mapping);
    assert [w][0] == w;
    var nCorrect := CountMatched(w, mapping);
    var nRef, nHyp := |w.ref|, |w.hyp|;
    var total := TimeOf(nRef, w.dt);
    var missed := TimeOf(Surplus(nRef, nHyp), w.dt);
    var falseAlarm := TimeOf(Surplus(nHyp, nRef), w.dt);
    var confusion := TimeOf(Min(nRef, nHyp) - nCorrect, w.dt);
    after := DerResult(before.missed + missed, before.falseAlarm + falseAlarm,
                       before.confusion + confusion, before.total + total);
  }

  method TimeOf(count: nat, dt: real) returns (time: real)
    ensures time == Times(count, dt)
  {
    TimesIsProduct(count, dt);
    time := count as real * dt;
  }

  /** One pass of the scoring loop: window k, unless it has no length. */
  method ScorePass(reference: seq<Segment>, hypothesis: seq<Segment>, bs: seq<real>, k: nat,
                   refSpeakers: seq<string>, hypSpeakers: seq<string>, mapping: map<nat, nat>, before: DerResult)
    returns (after: DerResult)
    requires k + 1 < |bs|
    requires refSpeakers == UniqueSpeakers(reference) && hypSpeakers == UniqueSpeakers(hypothesis)
    requires PartialInjection(mapping, |refSpeakers|, |hypSpeakers|)
    requires before == ScoreOf(TrackUpTo(reference, hypothesis, bs, k), mapping)
    ensures after == ScoreOf(TrackUpTo(reference, hypothesis, bs, k + 1), mapping)
  {
    ghost var track := TrackUpTo(reference, hypothesis, bs, k);
    TrackStep(reference, hypothesis, bs, k);
    if bs[k + 1] - bs[k] <= 0.0 {
      assert track + [] == track;
      return before;
    }
    var w := ActiveWindow(reference, hypothesis, bs, k, refSpeakers, hypSpeakers);
    WindowIsValid(reference, hypothesis, bs, k);
    after := ScoreWindow(w, mapping, |refSpeakers|, |hypSpeakers|, before);
    ScoreStep(track, w, mapping);
  }

  /** The second pass over the windows: the three errors and the reference time. */
  method Accumulate(reference: seq<Segment>, hypothesis: seq<Segment>, bs: seq<real>,
                    refSpeakers: seq<string>, hypSpeakers: seq<string>, mapping: map<nat, nat>) returns (r: DerResult)
    requires refSpeakers == UniqueSpeakers(reference) && hypSpeakers == UniqueSpeakers(hypothesis)
    requires PartialInjection(mapping, |refSpeakers|, |hypSpeakers|)
    ensures r == ScoreOf(TrackUpTo(reference, hypothesis, bs, WindowCount(bs)), mapping)
  {
    r := DerResult(0.0, 0.0, 0.0, 0.0);
    for k := 0 to WindowCount(bs)
      invariant r == ScoreOf(TrackUpTo(reference, hypothesis, bs, k), mapping)
    {
      r := ScorePass(reference, hypothesis, bs, k, refSpeakers, hypSpeakers, mapping, r);
    }
  }
}
