/** What a computed error rate means, for every reference and hypothesis. */
module ErrorRateTheorems {
  import opened Counting
  import opened Coverage
  import opened ErrorRate
  import opened ScoringTrack
  import opened Segments
  import opened SpeakerMapping

  /** No boundary of `segments` lies strictly between two neighbouring elements of bs. */
  ghost predicate Cut(segments: seq<Segment>, bs: seq<real>) {
    && StrictlySorted(bs)
    && forall k :: 0 <= k < |segments| ==> segments[k].start in bs && segments[k].end in bs
  }

  lemma BoundariesCut(reference: seq<Segment>, hypothesis: seq<Segment>)
    ensures Cut(reference, Boundaries(reference + hypothesis))
    ensures Cut(hypothesis, Boundaries(reference + hypothesis))
  {
    var all := reference + hypothesis;
    assert forall k :: 0 <= k < |reference| ==> all[k] == reference[k];
    assert forall k :: 0 <= k < |hypothesis| ==> all[|reference| + k] == hypothesis[k];
  }

  /** A window's midpoint decides for the whole window: who speaks there speaks throughout it. */
  lemma MidpointIsExact(segments: seq<Segment>, bs: seq<real>, w: nat, speaker: string, t: real)
    requires Cut(segments, bs) && w + 1 < |bs| && bs[w] <= t < bs[w + 1]
    ensures Speaks(segments, speaker, t) <==> Speaks(segments, speaker, (bs[w] + bs[w + 1]) / 2.0)
  {
    var mid := (bs[w] + bs[w + 1]) / 2.0;
    assert bs[w] < mid < bs[w + 1];
    forall k | 0 <= k < |segments|
      ensures segments[k].start <= t < segments[k].end <==> segments[k].start <= mid < segments[k].end
    {
      NotStrictlyInside(bs, w, segments[k].start);
      NotStrictlyInside(bs, w, segments[k].end);
    }
  }

  lemma NotStrictlyInside(bs: seq<real>, w: nat, x: real)
    requires StrictlySorted(bs) && w + 1 < |bs| && x in bs
    ensures x <= bs[w] || x >= bs[w + 1]
  {
    var i :| 0 <= i < |bs| && bs[i] == x;
    assert i < w ==> bs[i] < bs[w];
    assert i > w + 1 ==> bs[w + 1] < bs[i];
  }

  // --- The reference time is measured speaker by speaker --------------------------------------

  /** The turns of one speaker as intervals. */
  ghost function TurnsOf(segments: seq<Segment>, speaker: string): seq<Interval> {
    if |segments| == 0 then []
    else
      var last := segments[|segments| - 1];
      TurnsOf(segments[..|segments| - 1], speaker)
      + if last.speaker == speaker then [Interval(last.start, last.end)] else []
  }

  lemma {:induction false} TurnsContain(segments: seq<Segment>, speaker: string, t: real)
    ensures Contains(TurnsOf(segments, speaker), t) <==> Speaks(segments, speaker, t)
  {
    if |segments| == 0 {
    } else {
      var front, last := segments[..|segments| - 1], segments[|segments| - 1];
      TurnsContain(front, speaker, t);
      assert segments == front + [last];
      ActiveStep(front, last, t);
      var turns := TurnsOf(front, speaker);
      if last.speaker == speaker {
        ContainsStep(turns, Interval(last.start, last.end), t);
      } else {
        assert turns + [] == turns;
      }
    }
  }

  lemma ContainsStep(cover: seq<Interval>, x: Interval, t: real)
    ensures Contains(cover + [x], t) <==> Contains(cover, t) || x.start <= t < x.end
  {
    if Contains(cover, t) {
      var k :| 0 <= k < |cover| && cover[k].start <= t < cover[k].end;
      assert (cover + [x])[k] == cover[k];
    }
    assert (cover + [x])[|cover|] == x;
  }

  /** Inside one window a speaker's turns cover all of it or none. */
  lemma WindowMeasure(segments: seq<Segment>, bs: seq<real>, w: nat, speaker: string)
    requires Cut(segments, bs) && w + 1 < |bs|
    ensures Covered(bs[w], bs[w + 1], TurnsOf(segments, speaker))
         == if Speaks(segments, speaker, (bs[w] + bs[w + 1]) / 2.0) then bs[w + 1] - bs[w] else 0.0
  {
    var turns := TurnsOf(segments, speaker);
    forall t | bs[w] <= t < bs[w + 1]
      ensures Contains(turns, t) <==> Speaks(segments, speaker, (bs[w] + bs[w + 1]) / 2.0)
    {
      TurnsContain(segments, speaker, t);
      MidpointIsExact(segments, bs, w, speaker, t);
    }
    if Speaks(segments, speaker, (bs[w] + bs[w + 1]) / 2.0) {
      NothingUncovered(bs[w], bs[w + 1], turns);
    } else {
      AllUncovered(bs[w], bs[w + 1], turns);
    }
  }

  lemma SpeakerTimeStep(track: seq<Window>, w: Window, i: nat)
    ensures SpeakerTime(track + [w], i) == SpeakerTime(track, i) + if i in w.ref then w.dt else 0.0
  {
    assert (track + [w])[..|track|] == track;
  }

  /** What window k adds for a speaker. */
  ghost function Gain(segments: seq<Segment>, bs: seq<real>, k: nat, speaker: string): real
    requires k + 1 < |bs|
  {
    if Speaks(segments, speaker, (bs[k] + bs[k + 1]) / 2.0) then bs[k + 1] - bs[k] else 0.0
  }

  lemma CountedGain(reference: seq<Segment>, hypothesis: seq<Segment>, bs: seq<real>, k: nat, i: nat)
    requires Cut(reference, bs) && k + 1 < |bs| && i < |UniqueSpeakers(reference)|
    ensures SpeakerTime(TrackUpTo(reference, hypothesis, bs, k + 1), i)
         == SpeakerTime(TrackUpTo(reference, hypothesis, bs, k), i)
            + Gain(reference, bs, k, UniqueSpeakers(reference)[i])
  {
    TrackStep(reference, hypothesis, bs, k);
    SpeakerTimeStep(TrackUpTo(reference, hypothesis, bs, k), WindowAt(reference, hypothesis, bs, k), i);
  }

  lemma MeasuredGain(segments: seq<Segment>, bs: seq<real>, k: nat, speaker: string)
    requires Cut(segments, bs) && k + 1 < |bs|
    ensures Covered(bs[0], bs[k + 1], TurnsOf(segments, speaker))
         == Covered(bs[0], bs[k], TurnsOf(segments, speaker)) + Gain(segments, bs, k, speaker)
  {
    WindowMeasure(segments, bs, k, speaker);
    assert k > 0 ==> bs[0] < bs[k];
    UncoveredSplits(bs[0], bs[k], bs[k + 1], TurnsOf(segments, speaker));
  }

  lemma NothingCovered(lo: real, turns: seq<Interval>)
    ensures Covered(lo, lo, turns) == 0.0
  {
  }

  /** What the first k windows add for a speaker. */
  ghost function Gains(segments: seq<Segment>, bs: seq<real>, k: nat, speaker: string): real
    requires k < |bs|
  {
    if k == 0 then 0.0 else Gains(segments, bs, k - 1, speaker) + Gain(segments, bs, k - 1, speaker)
  }

  lemma {:induction false} CountedGains(reference: seq<Segment>, hypothesis: seq<Segment>, bs: seq<real>, k: nat,
                                        i: nat)
    requires Cut(reference, bs) && k < |bs| && i < |UniqueSpeakers(reference)|
    ensures SpeakerTime(TrackUpTo(reference, hypothesis, bs, k), i)
         == Gains(reference, bs, k, UniqueSpeakers(reference)[i])
  {
    if k == 0 {
    } else {
      var before, gain := SpeakerTime(TrackUpTo(reference, hypothesis, bs, k - 1), i),
                          Gain(reference, bs, k - 1, UniqueSpeakers(reference)[i]);
      assert before == Gains(reference, bs, k - 1, UniqueSpeakers(reference)[i]) by {
        CountedGains(reference, hypothesis, bs, k - 1, i);
      }
      assert SpeakerTime(TrackUpTo(reference, hypothesis, bs, k), i) == before + gain by {
        CountedGain(reference, hypothesis, bs, k - 1, i);
      }
    }
  }

  lemma {:induction false} MeasuredGains(segments: seq<Segment>, bs: seq<real>, k: nat, speaker: string)
    requires Cut(segments, bs) && k < |bs|
    ensures Covered(bs[0], bs[k], TurnsOf(segments, speaker)) == Gains(segments, bs, k, speaker)
  {
    if k == 0 {
      NothingCovered(bs[0], TurnsOf(segments, speaker));
    } else {
      MeasuredGains(segments, bs, k - 1, speaker);
      MeasuredGain(segments, bs, k - 1, speaker);
    }
  }

  lemma SpeakerTimeIsMeasure(reference: seq<Segment>, hypothesis: seq<Segment>, bs: seq<real>, k: nat, i: nat,
                             speaker: string)
    requires Cut(reference, bs) && k < |bs|
    requires i < |UniqueSpeakers(reference)| && speaker == UniqueSpeakers(reference)[i]
    ensures SpeakerTime(TrackUpTo(reference, hypothesis, bs, k), i)
         == Covered(bs[0], bs[k], TurnsOf(reference, speaker))
  {
    CountedGains(reference, hypothesis, bs, k, i);
    MeasuredGains(reference, bs, k, speaker);
  }

  /** Sum over the first k listed speakers of the measure of the union of their turns. */
  ghost function UnionTime(segments: seq<Segment>, speakers: seq<string>, lo: real, hi: real, k: nat): real
    requires k <= |speakers|
  {
    if k == 0 then 0.0
    else UnionTime(segments, speakers, lo, hi, k - 1) + Covered(lo, hi, TurnsOf(segments, speakers[k - 1]))
  }

  lemma {:induction false} SpeakersTimeIsMeasure(track: seq<Window>, segments: seq<Segment>, speakers: seq<string>,
                                                 lo: real, hi: real, k: nat)
    requires k <= |speakers|
    requires forall i :: 0 <= i < k ==> SpeakerTime(track, i) == Covered(lo, hi, TurnsOf(segments, speakers[i]))
    ensures SpeakersTime(track, k) == UnionTime(segments, speakers, lo, hi, k)
  {
    if k == 0 {
    } else {
      SpeakersTimeIsMeasure(track, segments, speakers, lo, hi, k - 1);
    }
  }

  /** Where every speaker is counted for the time his turns cover, the total is that of the unions. */
  lemma MeasuredTrackTime(track: seq<Window>, segments: seq<Segment>, speakers: seq<string>, cols: nat,
                          lo: real, hi: real)
    requires Valid(track, |speakers|, cols)
    requires forall i :: 0 <= i < |speakers| ==>
               SpeakerTime(track, i) == Covered(lo, hi, TurnsOf(segments, speakers[i]))
    ensures RefTime(track) == UnionTime(segments, speakers, lo, hi, |speakers|)
  {
    RefTimeBySpeaker(track, |speakers|, cols);
    SpeakersTimeIsMeasure(track, segments, speakers, lo, hi, |speakers|);
  }

  lemma BoundariesNonEmpty(segments: seq<Segment>)
    requires |segments| > 0
    ensures |Boundaries(segments)| > 0
  {
    assert HasBoundary(segments, segments[0].start);
  }

  lemma TotalIsRefTime(reference: seq<Segment>, hypothesis: seq<Segment>, r: DerResult)
    requires IsScore(reference, hypothesis, r)
    ensures r.total == RefTime(Track(reference, hypothesis))
  {
  }

  /** The reported total is the sum over reference speakers of the time their turns cover,
      overlapping turns of one speaker counted once. */
  lemma TotalIsUnionTime(reference: seq<Segment>, hypothesis: seq<Segment>, r: DerResult, bs: seq<real>)
    requires |reference| != 0 && IsScore(reference, hypothesis, r)
    requires bs == Boundaries(reference + hypothesis)
    ensures |bs| > 0
    ensures r.total == UnionTime(reference, UniqueSpeakers(reference), bs[0], bs[|bs| - 1], |UniqueSpeakers(reference)|)
  {
    TotalIsRefTime(reference, hypothesis, r);
    RefTimeIsUnionTime(reference, hypothesis, bs);
  }

  lemma CutRefTime(reference: seq<Segment>, hypothesis: seq<Segment>, bs: seq<real>)
    requires Cut(reference, bs) && |bs| > 0
    ensures RefTime(TrackUpTo(reference, hypothesis, bs, |bs| - 1))
         == UnionTime(reference, UniqueSpeakers(reference), bs[0], bs[|bs| - 1], |UniqueSpeakers(reference)|)
  {
    var track, speakers := TrackUpTo(reference, hypothesis, bs, |bs| - 1), UniqueSpeakers(reference);
    TrackIsValid(reference, hypothesis, bs, |bs| - 1);
    forall i | 0 <= i < |speakers|
      ensures SpeakerTime(track, i) == Covered(bs[0], bs[|bs| - 1], TurnsOf(reference, speakers[i]))
    {
      SpeakerTimeIsMeasure(reference, hypothesis, bs, |bs| - 1, i, speakers[i]);
    }
    MeasuredTrackTime(track, reference, speakers, |UniqueSpeakers(hypothesis)|, bs[0], bs[|bs| - 1]);
  }

  lemma RefTimeIsUnionTime(reference: seq<Segment>, hypothesis: seq<Segment>, bs: seq<real>)
    requires |reference| != 0 && bs == Boundaries(reference + hypothesis)
    ensures |bs| > 0
    ensures RefTime(Track(reference, hypothesis))
         == UnionTime(reference, UniqueSpeakers(reference), bs[0], bs[|bs| - 1], |UniqueSpeakers(reference)|)
  {
    BoundariesNonEmpty(reference + hypothesis);
    BoundariesCut(reference, hypothesis);
    CutRefTime(reference, hypothesis, bs);
  }

  lemma TracksExchange(reference: seq<Segment>, hypothesis: seq<Segment>, bs: seq<real>, k: nat)
    requires k == 0 || k < |bs|
    ensures Exchanged(TrackUpTo(reference, hypothesis, bs, k), TrackUpTo(hypothesis, reference, bs, k))
  {
  }

  /** The time of hypothesis speech is the sum over hypothesis speakers of the time their turns cover. */
  lemma HypTimeIsUnionTime(reference: seq<Segment>, hypothesis: seq<Segment>, bs: seq<real>)
    requires |hypothesis| != 0 && bs == Boundaries(reference + hypothesis)
    ensures |bs| > 0
    ensures HypTime(Track(reference, hypothesis))
         == UnionTime(hypothesis, UniqueSpeakers(hypothesis), bs[0], bs[|bs| - 1], |UniqueSpeakers(hypothesis)|)
  {
    BoundariesNonEmpty(reference + hypothesis);
    BoundariesCut(reference, hypothesis);
    CutRefTime(hypothesis, reference, bs);
    TracksExchange(reference, hypothesis, bs, |bs| - 1);
    ExchangedTime(Track(reference, hypothesis), TrackUpTo(hypothesis, reference, bs, |bs| - 1));
  }

  // --- Accounting and least confusion ---------------------------------------------------------

  /** The score is that of a best mapping m, and `matched` is the time m matches. */
  lemma ScoreAccounts(reference: seq<Segment>, hypothesis: seq<Segment>, r: DerResult)
    returns (m: map<nat, nat>, matched: real)
    requires IsScore(reference, hypothesis, r)
    ensures IsBestMapping(CooccurrenceOf(reference, hypothesis),
                          |UniqueSpeakers(reference)|, |UniqueSpeakers(hypothesis)|, m)
    ensures r == ScoreOf(Track(reference, hypothesis), m) && matched == MatchedTime(Track(reference, hypothesis), m)
    ensures r.missed >= 0.0 && r.falseAlarm >= 0.0 && r.confusion >= 0.0 && matched >= 0.0
    ensures r.total == r.missed + r.confusion + matched
    ensures HypTime(Track(reference, hypothesis)) == r.falseAlarm + r.confusion + matched
  {
    var track, rows, cols := Track(reference, hypothesis), |UniqueSpeakers(reference)|, |UniqueSpeakers(hypothesis)|;
    m :| IsBestMapping(CooccurrenceOf(reference, hypothesis), rows, cols, m) && r == ScoreOf(track, m);
    ErrorsNonNegative(track, rows, cols, m);
    ReferenceAccounting(track, rows, cols, m);
    HypothesisAccounting(track, rows, cols, m);
    matched := MatchedTime(track, m);
  }

  /** No one-to-one mapping of speakers, whether or not it maps them all, confuses less. */
  lemma ConfusionIsLeast(reference: seq<Segment>, hypothesis: seq<Segment>, r: DerResult, other: map<nat, nat>)
    requires IsScore(reference, hypothesis, r)
    requires PartialInjection(other, |UniqueSpeakers(reference)|, |UniqueSpeakers(hypothesis)|)
    ensures r.confusion <= ConfusionTime(Track(reference, hypothesis), other)
  {
    var track, rows, cols := Track(reference, hypothesis), |UniqueSpeakers(reference)|, |UniqueSpeakers(hypothesis)|;
    var m :| IsBestMapping(CooccurrenceOf(reference, hypothesis), rows, cols, m) && r == ScoreOf(track, m);
    BestMappingConfusesLeast(track, rows, cols, m, other);
  }

  // --- Relabelling ----------------------------------------------------------------------------

  /** The hypothesis consists of the reference's turns, in any order and any number of copies,
      under other names that keep different speakers apart. */
  ghost predicate IsRelabelling(reference: seq<Segment>, hypothesis: seq<Segment>, f: map<string, string>) {
    && (forall k :: 0 <= k < |reference| ==>
          reference[k].speaker in f && reference[k].(speaker := f[reference[k].speaker]) in hypothesis)
    && (forall k :: 0 <= k < |hypothesis| ==>
          exists i :: 0 <= i < |reference| && reference[i].speaker in f
                      && hypothesis[k] == reference[i].(speaker := f[reference[i].speaker]))
    && forall s, t :: s in f && t in f && f[s] == f[t] ==> s == t
  }

  lemma RelabellingSpeaks(reference: seq<Segment>, hypothesis: seq<Segment>, f: map<string, string>, s: string, t: real)
    requires IsRelabelling(reference, hypothesis, f) && s in f
    ensures Speaks(hypothesis, f[s], t) <==> Speaks(reference, s, t)
  {
    if Speaks(reference, s, t) {
      var k :| 0 <= k < |reference| && reference[k].speaker == s && reference[k].start <= t < reference[k].end;
      var i :| 0 <= i < |hypothesis| && hypothesis[i] == reference[k].(speaker := f[s]);
      assert Speaks(hypothesis, f[s], t);
    }
    if Speaks(hypothesis, f[s], t) {
      var k :| 0 <= k < |hypothesis| && hypothesis[k].speaker == f[s] && hypothesis[k].start <= t < hypothesis[k].end;
      var i :| 0 <= i < |reference| && reference[i].speaker in f
               && hypothesis[k] == reference[i].(speaker := f[reference[i].speaker]);
      assert Speaks(reference, s, t);
    }
  }

  /** Speaker numbers follow the relabelling. */
  ghost function SpeakerMap(reference: seq<Segment>, hypothesis: seq<Segment>,
                            f: map<string, string>): (m: map<nat, nat>)
    requires IsRelabelling(reference, hypothesis, f)
    ensures PartialInjection(m, |UniqueSpeakers(reference)|, |UniqueSpeakers(hypothesis)|)
    ensures forall i: nat :: i < |UniqueSpeakers(reference)| ==>
              && i in m && UniqueSpeakers(reference)[i] in f && m[i] < |UniqueSpeakers(hypothesis)|
              && UniqueSpeakers(hypothesis)[m[i]] == f[UniqueSpeakers(reference)[i]]
  {
    var refs, hyps := UniqueSpeakers(reference), UniqueSpeakers(hypothesis);
    NamesAreMapped(reference, hypothesis, f);
    var m := map i: nat | i < |refs| :: Position(hyps, f[refs[i]]);
    SpeakersDiffer(refs, hyps, f, m);
    m
  }

  lemma SpeakersDiffer(refs: seq<string>, hyps: seq<string>, f: map<string, string>, m: map<nat, nat>)
    requires Distinct(refs) && forall s, t :: s in f && t in f && f[s] == f[t] ==> s == t
    requires forall i :: i in m ==> i < |refs| && refs[i] in f && m[i] < |hyps| && hyps[m[i]] == f[refs[i]]
    ensures PartialInjection(m, |refs|, |hyps|)
  {
    forall i, j | i in m && j in m && m[i] == m[j]
      ensures i == j
    {
      assert f[refs[i]] == f[refs[j]];
      assert refs[i] == refs[j];
    }
  }

  lemma NamesAreMapped(reference: seq<Segment>, hypothesis: seq<Segment>, f: map<string, string>)
    requires IsRelabelling(reference, hypothesis, f)
    ensures forall i :: 0 <= i < |UniqueSpeakers(reference)| ==>
              UniqueSpeakers(reference)[i] in f && f[UniqueSpeakers(reference)[i]] in UniqueSpeakers(hypothesis)
    ensures forall j :: 0 <= j < |UniqueSpeakers(hypothesis)| ==>
              exists s :: s in UniqueSpeakers(reference) && s in f && f[s] == UniqueSpeakers(hypothesis)[j]
  {
    var refs, hyps := UniqueSpeakers(reference), UniqueSpeakers(hypothesis);
    forall i | 0 <= i < |refs|
      ensures refs[i] in f && f[refs[i]] in hyps
    {
      assert refs[i] in refs;
      assert HasSpeaker(reference, refs[i]);
      var k :| 0 <= k < |reference| && reference[k].speaker == refs[i];
      var h :| 0 <= h < |hypothesis| && hypothesis[h] == reference[k].(speaker := f[refs[i]]);
    }
    forall j | 0 <= j < |hyps|
      ensures exists s :: s in refs && s in f && f[s] == hyps[j]
    {
      assert hyps[j] in hyps;
      assert HasSpeaker(hypothesis, hyps[j]);
      var h :| 0 <= h < |hypothesis| && hypothesis[h].speaker == hyps[j];
      var i :| 0 <= i < |reference| && reference[i].speaker in f
               && hypothesis[h] == reference[i].(speaker := f[reference[i].speaker]);
      assert HasSpeaker(reference, reference[i].speaker);
    }
  }

  /** In every window the hypothesis speakers are the images of the reference speakers. */
  lemma RelabelledWindowAt(reference: seq<Segment>, hypothesis: seq<Segment>, f: map<string, string>, bs: seq<real>,
                           k: nat)
    requires IsRelabelling(reference, hypothesis, f) && k + 1 < |bs|
    ensures Relabels([WindowAt(reference, hypothesis, bs, k)], SpeakerMap(reference, hypothesis, f))
  {
    var m := SpeakerMap(reference, hypothesis, f);
    var w := WindowAt(reference, hypothesis, bs, k);
    forall i: nat | i in w.ref
      ensures i in m && m[i] in w.hyp
    {
      assert i < |UniqueSpeakers(reference)|;
      RelabellingSpeaks(reference, hypothesis, f, UniqueSpeakers(reference)[i], (bs[k] + bs[k + 1]) / 2.0);
    }
    forall j: nat | j in w.hyp
      ensures exists i :: i in w.ref && i in m && m[i] == j
    {
      var i := Origin(reference, hypothesis, f, bs, k, j);
    }
  }

  lemma Origin(reference: seq<Segment>, hypothesis: seq<Segment>, f: map<string, string>, bs: seq<real>, k: nat, j: nat)
    returns (i: nat)
    requires IsRelabelling(reference, hypothesis, f) && k + 1 < |bs|
    requires j in WindowAt(reference, hypothesis, bs, k).hyp
    ensures i in WindowAt(reference, hypothesis, bs, k).ref
    ensures i in SpeakerMap(reference, hypothesis, f) && SpeakerMap(reference, hypothesis, f)[i] == j
  {
    var refs, hyps := UniqueSpeakers(reference), UniqueSpeakers(hypothesis);
    NamesAreMapped(reference, hypothesis, f);
    var s :| s in refs && s in f && f[s] == hyps[j];
    i :| 0 <= i < |refs| && refs[i] == s;
    RelabellingSpeaks(reference, hypothesis, f, s, (bs[k] + bs[k + 1]) / 2.0);
    assert hyps[SpeakerMap(reference, hypothesis, f)[i]] == hyps[j];
  }

  lemma {:induction false} RelabelledTrack(reference: seq<Segment>, hypothesis: seq<Segment>, m: map<nat, nat>,
                                           bs: seq<real>, k: nat)
    requires k == 0 || k < |bs|
    requires forall w :: 0 <= w < k ==> Relabels([WindowAt(reference, hypothesis, bs, w)], m)
    ensures Relabels(TrackUpTo(reference, hypothesis, bs, k), m)
  {
    if k == 0 {
    } else {
      RelabelledTrack(reference, hypothesis, m, bs, k - 1);
      RelabelsAppend(TrackUpTo(reference, hypothesis, bs, k - 1), WindowAt(reference, hypothesis, bs, k - 1), m);
      TrackStep(reference, hypothesis, bs, k - 1);
    }
  }

  lemma RelabelsAppend(track: seq<Window>, w: Window, m: map<nat, nat>)
    requires Relabels(track, m) && Relabels([w], m)
    ensures Relabels(track + [w], m)
  {
    assert [w][0] == w;
  }

  /** Scored against a reordered and injectively relabelled copy, a reference has no error. */
  lemma RelabelledScoresZero(reference: seq<Segment>, hypothesis: seq<Segment>, f: map<string, string>, r: DerResult)
    requires IsRelabelling(reference, hypothesis, f) && IsScore(reference, hypothesis, r)
    ensures r.missed == r.falseAlarm == r.confusion == 0.0 && r.Der() == 0.0
  {
    var m := SpeakerMap(reference, hypothesis, f);
    RelabellingHasNoError(reference, hypothesis, f, m);
    ConfusionIsLeast(reference, hypothesis, r, m);
    var _, _ := ScoreAccounts(reference, hypothesis, r);
    NoErrorNoRate(r);
  }

  lemma NoErrorNoRate(r: DerResult)
    requires r.missed == r.falseAlarm == r.confusion == 0.0
    ensures r.Der() == 0.0
  {
  }

  lemma RelabellingHasNoError(reference: seq<Segment>, hypothesis: seq<Segment>, f: map<string, string>,
                              m: map<nat, nat>)
    requires IsRelabelling(reference, hypothesis, f) && m == SpeakerMap(reference, hypothesis, f)
    ensures var track := Track(reference, hypothesis);
            MissedTime(track) == FalseAlarmTime(track) == ConfusionTime(track, m) == 0.0
  {
    var bs := Boundaries(reference + hypothesis);
    forall w | 0 <= w < WindowCount(bs)
      ensures Relabels([WindowAt(reference, hypothesis, bs, w)], m)
    {
      RelabelledWindowAt(reference, hypothesis, f, bs, w);
    }
    RelabelledTrack(reference, hypothesis, m, bs, WindowCount(bs));
    RelabelledHasNoError(Track(reference, hypothesis), |UniqueSpeakers(reference)|, |UniqueSpeakers(hypothesis)|, m);
  }
}
