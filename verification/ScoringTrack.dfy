/** The algebra of scoring over a track: a sequence of elementary windows, each with its length and
    the numbers of the reference and the hypothesis speakers active in it. */
module ScoringTrack {
  import opened Counting
  import opened SpeakerMapping

  datatype Window = Window(dt: real, ref: seq<nat>, hyp: seq<nat>)

  /** Speakers are listed once each and numbered below `rows` (reference) and `cols` (hypothesis). */
  ghost predicate ValidWindow(w: Window, rows: nat, cols: nat) {
    && w.dt > 0.0
    && Distinct(w.ref) && Distinct(w.hyp)
    && (forall k :: 0 <= k < |w.ref| ==> w.ref[k] < rows)
    && (forall k :: 0 <= k < |w.hyp| ==> w.hyp[k] < cols)
  }

  ghost predicate Valid(track: seq<Window>, rows: nat, cols: nat) {
    forall w :: 0 <= w < |track| ==> ValidWindow(track[w], rows, cols)
  }

  lemma ValidAppend(track: seq<Window>, w: Window, rows: nat, cols: nat)
    requires Valid(track, rows, cols) && Valid([w], rows, cols)
    ensures Valid(track + [w], rows, cols)
  {
    assert [w][0] == w;
  }

  /** The reference speakers of a window whose mapped partner is active too. */
  ghost function Matched(w: Window, m: map<nat, nat>): set<nat> {
    set i | i in w.ref && i in m && m[i] in w.hyp
  }

  ghost function RefTime(track: seq<Window>): real {
    if |track| == 0 then 0.0
    else var w := track[|track| - 1]; RefTime(track[..|track| - 1]) + Times(|w.ref|, w.dt)
  }

  ghost function HypTime(track: seq<Window>): real {
    if |track| == 0 then 0.0
    else var w := track[|track| - 1]; HypTime(track[..|track| - 1]) + Times(|w.hyp|, w.dt)
  }

  /** The same windows with reference and hypothesis exchanged. */
  ghost predicate Exchanged(track: seq<Window>, other: seq<Window>) {
    && |track| == |other|
    && forall w :: 0 <= w < |track| ==> track[w] == Window(other[w].dt, other[w].hyp, other[w].ref)
  }

  lemma {:induction false} ExchangedTime(track: seq<Window>, other: seq<Window>)
    requires Exchanged(track, other)
    ensures HypTime(track) == RefTime(other)
  {
    if |track| == 0 {
    } else {
      ExchangedTime(track[..|track| - 1], other[..|other| - 1]);
    }
  }

  ghost function MatchedTime(track: seq<Window>, m: map<nat, nat>): real {
    if |track| == 0 then 0.0
    else var w := track[|track| - 1]; MatchedTime(track[..|track| - 1], m) + Times(|Matched(w, m)|, w.dt)
  }

  /** Time during which min(reference, hypothesis) speakers talk, counted with multiplicity. */
  ghost function PairableTime(track: seq<Window>): real {
    if |track| == 0 then 0.0
    else var w := track[|track| - 1]; PairableTime(track[..|track| - 1]) + Times(Min(|w.ref|, |w.hyp|), w.dt)
  }

  ghost function Shared(w: Window, i: nat, j: nat): real {
    if i in w.ref && j in w.hyp then w.dt else 0.0
  }

  /** Time during which reference speaker i and hypothesis speaker j both talk. */
  ghost function TimeTogether(track: seq<Window>, i: nat, j: nat): real {
    if |track| == 0 then 0.0
    else
      var w := track[|track| - 1];
      TimeTogether(track[..|track| - 1], i, j) + Shared(w, i, j)
  }

  ghost function Cooccurrence(track: seq<Window>, rows: nat, cols: nat): (c: seq<seq<real>>)
    ensures |c| == rows && forall i :: 0 <= i < rows ==> |c[i]| == cols
    ensures forall i, j :: 0 <= i < rows && 0 <= j < cols ==> c[i][j] == TimeTogether(track, i, j)
  {
    seq(rows, i requires 0 <= i < rows => seq(cols, j requires 0 <= j < cols => TimeTogether(track, i, j)))
  }

  lemma {:induction false} TimeTogetherNonNegative(track: seq<Window>, rows: nat, cols: nat, i: nat, j: nat)
    requires Valid(track, rows, cols)
    ensures TimeTogether(track, i, j) >= 0.0
  {
    if |track| == 0 {
    } else {
      TimeTogetherNonNegative(track[..|track| - 1], rows, cols, i, j);
    }
  }

  /** In no window does a mapping match more speakers than either side has. */
  lemma MatchedAtMostPairable(w: Window, rows: nat, cols: nat, m: map<nat, nat>)
    requires Valid([w], rows, cols) && PartialInjection(m, rows, cols)
    ensures |Matched(w, m)| <= Min(|w.ref|, |w.hyp|)
  {
    assert [w][0] == w;
    var matched := Matched(w, m);
    var pairs := map i | i in matched :: m[i];
    assert matched <= Elements(w.ref);
    DistinctSize(w.ref);
    SubsetSize(matched, Elements(w.ref));
    InjectionSize(pairs, rows, cols);
    assert pairs.Keys == matched;
    assert pairs.Values <= Elements(w.hyp);
    DistinctSize(w.hyp);
    SubsetSize(pairs.Values, Elements(w.hyp));
  }

  ghost function MatchedBelow(w: Window, m: map<nat, nat>, k: nat): set<nat> {
    set i | i in Matched(w, m) && i < k
  }

  lemma MatchedBelowStep(w: Window, m: map<nat, nat>, k: nat)
    ensures |MatchedBelow(w, m, k + 1)| == |MatchedBelow(w, m, k)| + if k in Matched(w, m) then 1 else 0
  {
    assert MatchedBelow(w, m, k + 1) == MatchedBelow(w, m, k) + if k in Matched(w, m) then {k} else {};
  }

  /** What one more window adds to the entries picked among the first k rows. */
  lemma {:induction false} WindowAddsMatched(before: seq<seq<real>>, after: seq<seq<real>>, w: Window,
                                             rows: nat, cols: nat, m: map<nat, nat>, k: nat)
    requires |before| == |after| == rows && k <= rows
    requires forall i :: 0 <= i < rows ==> |before[i]| == |after[i]| == cols
    requires forall i, j :: 0 <= i < rows && 0 <= j < cols ==>
               after[i][j] == before[i][j] + Shared(w, i, j)
    requires PartialInjection(m, rows, cols)
    ensures MappingValue(after, m, k) == MappingValue(before, m, k) + Times(|MatchedBelow(w, m, k)|, w.dt)
  {
    if k == 0 {
      assert MatchedBelow(w, m, 0) == {};
    } else {
      WindowAddsMatched(before, after, w, rows, cols, m, k - 1);
      MatchedBelowStep(w, m, k - 1);
      if k - 1 in m {
        assert after[k - 1][m[k - 1]] == before[k - 1][m[k - 1]] + Shared(w, k - 1, m[k - 1]);
      }
    }
  }

  /** Exchange of sums: the entries a mapping picks from the co-occurrence matrix add up to the
      time it matches. */
  lemma {:induction false} PickedIsMatchedTime(track: seq<Window>, rows: nat, cols: nat, m: map<nat, nat>)
    requires Valid(track, rows, cols) && PartialInjection(m, rows, cols)
    ensures MappingValue(Cooccurrence(track, rows, cols), m, rows) == MatchedTime(track, m)
  {
    if |track| == 0 {
      NothingPicked(Cooccurrence(track, rows, cols), rows, cols, m, rows);
    } else {
      var front, w := track[..|track| - 1], track[|track| - 1];
      PickedIsMatchedTime(front, rows, cols, m);
      WindowAddsMatched(Cooccurrence(front, rows, cols), Cooccurrence(track, rows, cols), w, rows, cols, m, rows);
      assert MatchedBelow(w, m, rows) == Matched(w, m);
    }
  }

  lemma {:induction false} NothingPicked(c: seq<seq<real>>, rows: nat, cols: nat, m: map<nat, nat>, k: nat)
    requires |c| == rows && k <= rows && forall i :: 0 <= i < rows ==> |c[i]| == cols
    requires forall i, j :: 0 <= i < rows && 0 <= j < cols ==> c[i][j] == 0.0
    requires PartialInjection(m, rows, cols)
    ensures MappingValue(c, m, k) == 0.0
  {
    if k == 0 {
    } else {
      NothingPicked(c, rows, cols, m, k - 1);
    }
  }

  // --- Reference time speaker by speaker ------------------------------------------------------

  ghost function SpeakerTime(track: seq<Window>, i: nat): real {
    if |track| == 0 then 0.0
    else var w := track[|track| - 1]; SpeakerTime(track[..|track| - 1], i) + if i in w.ref then w.dt else 0.0
  }

  ghost function SpeakersTime(track: seq<Window>, k: nat): real {
    if k == 0 then 0.0 else SpeakersTime(track, k - 1) + SpeakerTime(track, k - 1)
  }

  ghost function RefBelow(w: Window, k: nat): set<nat> {
    set i | i in w.ref && i < k
  }

  lemma {:induction false} WindowAddsSpeakers(track: seq<Window>, k: nat)
    requires |track| > 0
    ensures SpeakersTime(track, k) == SpeakersTime(track[..|track| - 1], k)
              + Times(|RefBelow(track[|track| - 1], k)|, track[|track| - 1].dt)
  {
    var w := track[|track| - 1];
    if k == 0 {
      assert RefBelow(w, 0) == {};
    } else {
      WindowAddsSpeakers(track, k - 1);
      assert RefBelow(w, k) == RefBelow(w, k - 1) + if k - 1 in w.ref then {k - 1} else {};
    }
  }

  /** The reference time is the sum of each reference speaker's own time. */
  lemma {:induction false} RefTimeBySpeaker(track: seq<Window>, rows: nat, cols: nat)
    requires Valid(track, rows, cols)
    ensures RefTime(track) == SpeakersTime(track, rows)
  {
    if |track| == 0 {
      NoSpeakersTime(rows);
    } else {
      var w := track[|track| - 1];
      RefTimeBySpeaker(track[..|track| - 1], rows, cols);
      WindowAddsSpeakers(track, rows);
      assert RefBelow(w, rows) == Elements(w.ref);
      DistinctSize(w.ref);
    }
  }

  lemma {:induction false} NoSpeakersTime(k: nat)
    ensures SpeakersTime([], k) == 0.0
  {
    if k == 0 {
    } else {
      NoSpeakersTime(k - 1);
    }
  }

  // --- The three errors -----------------------------------------------------------------------

  function Surplus(a: nat, b: nat): nat {
    if a > b then a - b else 0
  }

  ghost function MissedTime(track: seq<Window>): real {
    if |track| == 0 then 0.0
    else var w := track[|track| - 1]; MissedTime(track[..|track| - 1]) + Times(Surplus(|w.ref|, |w.hyp|), w.dt)
  }

  ghost function FalseAlarmTime(track: seq<Window>): real {
    if |track| == 0 then 0.0
    else var w := track[|track| - 1]; FalseAlarmTime(track[..|track| - 1]) + Times(Surplus(|w.hyp|, |w.ref|), w.dt)
  }

  ghost function ConfusionTime(track: seq<Window>, m: map<nat, nat>): real {
    if |track| == 0 then 0.0
    else
      var w := track[|track| - 1];
      ConfusionTime(track[..|track| - 1], m) + Times(Min(|w.ref|, |w.hyp|) - |Matched(w, m)|, w.dt)
  }

  lemma WindowAccounting(w: Window, rows: nat, cols: nat, m: map<nat, nat>)
    requires Valid([w], rows, cols) && PartialInjection(m, rows, cols)
    ensures |Matched(w, m)| <= Min(|w.ref|, |w.hyp|)
    ensures Times(|w.ref|, w.dt) == Times(Surplus(|w.ref|, |w.hyp|), w.dt)
              + Times(Min(|w.ref|, |w.hyp|) - |Matched(w, m)|, w.dt) + Times(|Matched(w, m)|, w.dt)
    ensures Times(|w.hyp|, w.dt) == Times(Surplus(|w.hyp|, |w.ref|), w.dt)
              + Times(Min(|w.ref|, |w.hyp|) - |Matched(w, m)|, w.dt) + Times(|Matched(w, m)|, w.dt)
    ensures Times(Min(|w.ref|, |w.hyp|) - |Matched(w, m)|, w.dt)
         == Times(Min(|w.ref|, |w.hyp|), w.dt) - Times(|Matched(w, m)|, w.dt)
    ensures Times(Surplus(|w.ref|, |w.hyp|), w.dt) >= 0.0 && Times(Surplus(|w.hyp|, |w.ref|), w.dt) >= 0.0
    ensures Times(Min(|w.ref|, |w.hyp|) - |Matched(w, m)|, w.dt) >= 0.0 && Times(|Matched(w, m)|, w.dt) >= 0.0
  {
    assert [w][0].dt > 0.0;
    MatchedAtMostPairable(w, rows, cols, m);
    var pairable, matched := Min(|w.ref|, |w.hyp|), |Matched(w, m)|;
    TimesAdds(pairable, Surplus(|w.ref|, |w.hyp|), w.dt);
    TimesAdds(pairable, Surplus(|w.hyp|, |w.ref|), w.dt);
    TimesAdds(matched, pairable - matched, w.dt);
    TimesAdds(0, matched, w.dt);
  }

  /** In a single window the surplus is on one side only: time is missed, or it is a false alarm, or
      neither, and never both. */
  lemma OneSidedSurplus(w: Window)
    ensures |w.ref| <= |w.hyp| ==> MissedTime([w]) == 0.0
    ensures |w.hyp| <= |w.ref| ==> FalseAlarmTime([w]) == 0.0
  {
    assert [w][..0] == [];
  }

  /** The three errors of a track are those of its windows, added up. */
  lemma ErrorsAddUp(track: seq<Window>, w: Window, m: map<nat, nat>)
    ensures MissedTime(track + [w]) == MissedTime(track) + MissedTime([w])
    ensures FalseAlarmTime(track + [w]) == FalseAlarmTime(track) + FalseAlarmTime([w])
    ensures ConfusionTime(track + [w], m) == ConfusionTime(track, m) + ConfusionTime([w], m)
  {
    assert (track + [w])[..|track|] == track && [w][..0] == [];
  }

  lemma {:induction false} ErrorsNonNegative(track: seq<Window>, rows: nat, cols: nat, m: map<nat, nat>)
    requires Valid(track, rows, cols) && PartialInjection(m, rows, cols)
    ensures MissedTime(track) >= 0.0 && FalseAlarmTime(track) >= 0.0
    ensures ConfusionTime(track, m) >= 0.0 && MatchedTime(track, m) >= 0.0
  {
    if |track| == 0 {
    } else {
      ErrorsNonNegative(track[..|track| - 1], rows, cols, m);
      WindowAccounting(track[|track| - 1], rows, cols, m);
    }
  }

  lemma {:induction false} ConfusionIsUnmatched(track: seq<Window>, rows: nat, cols: nat, m: map<nat, nat>)
    requires Valid(track, rows, cols) && PartialInjection(m, rows, cols)
    ensures ConfusionTime(track, m) == PairableTime(track) - MatchedTime(track, m)
  {
    if |track| == 0 {
    } else {
      ConfusionIsUnmatched(track[..|track| - 1], rows, cols, m);
      WindowAccounting(track[|track| - 1], rows, cols, m);
    }
  }

  /** Every second of reference speech is missed, confused or matched. */
  lemma {:induction false} ReferenceAccounting(track: seq<Window>, rows: nat, cols: nat, m: map<nat, nat>)
    requires Valid(track, rows, cols) && PartialInjection(m, rows, cols)
    ensures RefTime(track) == MissedTime(track) + ConfusionTime(track, m) + MatchedTime(track, m)
  {
    if |track| == 0 {
    } else {
      ReferenceAccounting(track[..|track| - 1], rows, cols, m);
      WindowAccounting(track[|track| - 1], rows, cols, m);
    }
  }

  /** Every second of hypothesis speech is a false alarm, confused or matched. */
  lemma {:induction false} HypothesisAccounting(track: seq<Window>, rows: nat, cols: nat, m: map<nat, nat>)
    requires Valid(track, rows, cols) && PartialInjection(m, rows, cols)
    ensures HypTime(track) == FalseAlarmTime(track) + ConfusionTime(track, m) + MatchedTime(track, m)
  {
    if |track| == 0 {
    } else {
      HypothesisAccounting(track[..|track| - 1], rows, cols, m);
      WindowAccounting(track[|track| - 1], rows, cols, m);
    }
  }

  /** A best mapping of the co-occurrence matrix causes the least confusion any one-to-one
      speaker mapping, full-size or not, could cause. */
  lemma BestMappingConfusesLeast(track: seq<Window>, rows: nat, cols: nat, best: map<nat, nat>, other: map<nat, nat>)
    requires Valid(track, rows, cols)
    requires IsBestMapping(Cooccurrence(track, rows, cols), rows, cols, best)
    requires PartialInjection(other, rows, cols)
    ensures ConfusionTime(track, best) <= ConfusionTime(track, other)
  {
    var c := Cooccurrence(track, rows, cols);
    forall i, j | 0 <= i < rows && 0 <= j < cols
      ensures c[i][j] >= 0.0
    {
      TimeTogetherNonNegative(track, rows, cols, i, j);
    }
    PickedIsMatchedTime(track, rows, cols, best);
    PickedIsMatchedTime(track, rows, cols, other);
    ConfusionIsUnmatched(track, rows, cols, best);
    ConfusionIsUnmatched(track, rows, cols, other);
  }

  /** The hypothesis speakers of every window are the images of its reference speakers. */
  ghost predicate Relabels(track: seq<Window>, m: map<nat, nat>) {
    forall w :: 0 <= w < |track| ==>
      && (forall i :: i in track[w].ref ==> i in m && m[i] in track[w].hyp)
      && (forall j :: j in track[w].hyp ==> exists i :: i in track[w].ref && i in m && m[i] == j)
  }

  lemma RelabelledWindow(w: Window, rows: nat, cols: nat, m: map<nat, nat>)
    requires Valid([w], rows, cols) && PartialInjection(m, rows, cols) && Relabels([w], m)
    ensures |w.ref| == |w.hyp| == |Matched(w, m)|
  {
    assert [w][0] == w;
    var pairs := map i | i in Matched(w, m) :: m[i];
    assert Matched(w, m) == Elements(w.ref);
    assert pairs.Keys == Matched(w, m);
    forall j | j in w.hyp
      ensures j in pairs.Values
    {
      var i :| i in w.ref && i in m && m[i] == j;
      assert i in pairs && pairs[i] == j;
    }
    assert pairs.Values == Elements(w.hyp);
    InjectionSize(pairs, rows, cols);
    DistinctSize(w.ref);
    DistinctSize(w.hyp);
  }

  /** A hypothesis that only relabels the reference scores no error at all. */
  lemma {:induction false} RelabelledHasNoError(track: seq<Window>, rows: nat, cols: nat, m: map<nat, nat>)
    requires Valid(track, rows, cols) && PartialInjection(m, rows, cols) && Relabels(track, m)
    ensures MissedTime(track) == FalseAlarmTime(track) == ConfusionTime(track, m) == 0.0
  {
    if |track| == 0 {
    } else {
      RelabelledHasNoError(track[..|track| - 1], rows, cols, m);
      RelabelledWindow(track[|track| - 1], rows, cols, m);
    }
  }
}
