/** Speaker segments out of a frame-by-speaker activation matrix. */
module SegmentExtraction {
  import opened Counting
  import opened Matrices
  import opened Runs
  import opened Segments

  // --- Labels ----------------------------------------------------------------------------------

  function Digit(d: nat): char
    requires d < 10
  {
    ('0' as int + d) as char
  }

  function Digits(n: nat): (s: string)
    ensures 0 < |s|
  {
    if n < 10 then [Digit(n)] else Digits(n / 10) + [Digit(n % 10)]
  }

  /** At least two digits. */
  function Label(n: nat): string {
    "SPEAKER_" + if n < 10 then ['0', Digit(n)] else Digits(n)
  }

  ghost function ValueOf(s: string): int {
    if s == [] then 0 else 10 * ValueOf(s[..|s| - 1]) + (s[|s| - 1] as int - '0' as int)
  }

  lemma {:induction false} ValueOfDigits(n: nat)
    ensures ValueOf(Digits(n)) == n
  {
    if n >= 10 {
      ValueOfDigits(n / 10);
      assert Digits(n)[..|Digits(n)| - 1] == Digits(n / 10);
    } else {
      assert Digits(n)[..0] == [];
    }
  }

  lemma LabelsDiffer(m: nat, n: nat)
    requires Label(m) == Label(n)
    ensures m == n
  {
    LabelValue(m);
    LabelValue(n);
  }

  lemma LabelValue(n: nat)
    ensures ValueOf(Label(n)[8..]) == n
  {
    if n < 10 {
      var s := ['0', Digit(n)];
      assert Label(n)[8..] == s;
      assert s[..1] == ['0'];
      assert ['0'][..0] == [];
      assert ValueOf(['0']) == 0;
    } else {
      assert Label(n)[8..] == Digits(n);
      ValueOfDigits(n);
    }
  }

  ghost predicate AllDigits(s: string) {
    forall k :: 0 <= k < |s| ==> '0' <= s[k] <= '9'
  }

  lemma {:induction false} DigitsAreDigits(n: nat)
    ensures AllDigits(Digits(n)) && Digits(n) != []
    ensures n >= 10 ==> |Digits(n)| >= 2 && Digits(n)[0] != '0'
    ensures 0 < n ==> Digits(n)[0] != '0'
  {
    if n >= 10 {
      DigitsAreDigits(n / 10);
    }
  }

  /** A label is the fixed word and the speaker's number in decimal, with a leading zero exactly if the
      number has one digit. */
  lemma LabelIsPadded(n: nat)
    ensures var text := Label(n);
            && |text| >= 10 && text[..8] == "SPEAKER_" && AllDigits(text[8..]) && ValueOf(text[8..]) == n
            && (n < 10 ==> |text| == 10) && (n >= 10 ==> text[8] != '0')
  {
    LabelValue(n);
    if n < 10 {
      assert Label(n)[8..] == ['0', Digit(n)];
    } else {
      DigitsAreDigits(n);
      assert Label(n)[8..] == Digits(n);
    }
  }

  // --- One speaker -----------------------------------------------------------------------------

  /** Timestamp of a frame: frame steps and half a frame's duration. */
  function FrameMiddle(frame: nat, step: real, duration: real): real {
    Times(frame, step) + 0.5 * duration
  }

  /** It lies halfway between the frame's start, a whole number of steps, and its end. */
  lemma MiddleOfFrame(frame: nat, step: real, duration: real)
    ensures var start := frame as real * step;
            FrameMiddle(frame, step, duration) - start == (start + duration) - FrameMiddle(frame, step, duration)
  {
    TimesIsProduct(frame, step);
  }

  lemma MiddleNext(frame: nat, step: real, duration: real)
    ensures FrameMiddle(frame + 1, step, duration) == FrameMiddle(frame, step, duration) + step
  {
  }

  lemma {:induction false} MiddleIncreases(a: nat, b: nat, step: real, duration: real)
    requires a < b && 0.0 < step
    ensures FrameMiddle(a, step, duration) < FrameMiddle(b, step, duration)
    decreases b
  {
    MiddleNext(b - 1, step, duration);
    if a < b - 1 {
      MiddleIncreases(a, b - 1, step, duration);
    }
  }

  /** Activity after frame f; a value of exactly one half changes nothing. */
  function ActiveAfter(column: seq<real>, f: nat): bool
    requires f < |column|
  {
    if f > 0 && ActiveAfter(column, f - 1) then column[f] >= 0.5 else column[f] > 0.5
  }

  /** Frame j rises above one half and no later frame up to f falls below it. */
  ghost predicate OnSince(column: seq<real>, j: nat, f: nat) {
    j <= f < |column| && column[j] > 0.5 && forall k :: j < k <= f ==> column[k] >= 0.5
  }

  /** A speaker is active exactly if his column was above one half and has not been below it since. */
  lemma {:induction false} ActiveIsLatched(column: seq<real>, f: nat)
    requires f < |column|
    ensures ActiveAfter(column, f) <==> exists j: nat :: OnSince(column, j, f)
  {
    if f == 0 {
    } else {
      ActiveIsLatched(column, f - 1);
    }
    if ActiveAfter(column, f) {
      if column[f] > 0.5 {
        assert OnSince(column, f, f);
      } else {
        var j: nat :| OnSince(column, j, f - 1);
        assert OnSince(column, j, f);
      }
    }
    if j: nat :| OnSince(column, j, f) {
      assert j < f ==> OnSince(column, j, f - 1);
    }
  }

  ghost function Activity(column: seq<real>): (a: seq<bool>)
    ensures |a| == |column|
  {
    seq(|column|, f requires 0 <= f < |column| => ActiveAfter(column, f))
  }

  /** The segment of a run: it ends at the first inactive frame, or at the last frame. */
  ghost function TurnOf(run: (nat, nat), frames: nat, name: string, step: real, duration: real): Segment {
    var last := if run.1 < frames then run.1 else if frames > 0 then frames - 1 else 0;
    Segment(FrameMiddle(run.0, step, duration), FrameMiddle(last, step, duration), name)
  }

  ghost predicate TurnsOf(segs: seq<Segment>, runs: seq<(nat, nat)>, frames: nat, name: string, step: real,
                          duration: real) {
    |segs| == |runs| && forall k :: 0 <= k < |segs| ==> segs[k] == TurnOf(runs[k], frames, name, step, duration)
  }

  function Time(segs: seq<Segment>): real {
    if segs == [] then 0.0 else Time(segs[..|segs| - 1]) + segs[|segs| - 1].Duration()
  }

  /** A step for each active frame below n. */
  ghost function ActiveTime(a: seq<bool>, n: nat, step: real): real
    requires n <= |a|
  {
    if n == 0 then 0.0 else ActiveTime(a, n - 1, step) + if a[n - 1] then step else 0.0
  }

  /** One segment for each maximal run of active frames, in order, lasting a step for each active frame
      but the last of the recording. */
  ghost predicate IsColumn(segs: seq<Segment>, column: seq<real>, name: string, step: real, duration: real) {
    && (exists runs ::
          AreRuns(Activity(column), true, runs, |column|) && TurnsOf(segs, runs, |column|, name, step, duration))
    && (column != [] ==> Time(segs) == ActiveTime(Activity(column), |column| - 1, step))
  }

  /** The scan between two frames: the segments and runs closed so far, and since which frame, and from
      what time, the speaker has been active. */
  datatype Scanning = Scanning(segs: seq<Segment>, runs: seq<(nat, nat)>, active: bool, start: real, since: nat)

  /** The scan's state at frame f. */
  ghost predicate Scan(column: seq<real>, name: string, step: real, duration: real, s: Scanning, f: nat) {
    && s.since <= f < |column| && s.active == Activity(column)[f] && s.start == FrameMiddle(s.since, step, duration)
    && RunsFound(Activity(column), s, f) && TurnsOf(s.segs, s.runs, |column|, name, step, duration)
    && TimeFound(Activity(column), step, duration, s, f)
  }

  /** The closed segments and the time since the last onset last a step for each active frame before f. */
  ghost predicate TimeFound(a: seq<bool>, step: real, duration: real, s: Scanning, f: nat)
    requires f <= |a|
  {
    Time(s.segs) + (if s.active then FrameMiddle(f, step, duration) - s.start else 0.0) == ActiveTime(a, f, step)
  }

  ghost predicate RunsFound(a: seq<bool>, s: Scanning, f: nat)
    requires s.since <= f < |a|
  {
    && AreRuns(a, true, s.runs, if s.active then s.since else f)
    && (s.active ==> forall k :: s.since <= k <= f ==> a[k])
    && (s.active && s.since > 0 ==> !a[s.since - 1])
  }

  lemma TimeAppend(segs: seq<Segment>, s: Segment)
    ensures Time(segs + [s]) == Time(segs) + s.Duration()
  {
    assert (segs + [s])[..|segs|] == segs;
  }

  lemma RunsAppend(a: seq<bool>, runs: seq<(nat, nat)>, run: (nat, nat), n: nat)
    requires AreRuns(a, true, runs, run.0) && IsRun(a, true, run.0, run.1) && run.1 <= n
    requires forall i :: run.1 <= i < n && i < |a| ==> !a[i]
    ensures AreRuns(a, true, runs + [run], n)
  {
    forall i | 0 <= i < n && i < |a| && a[i]
      ensures InSome(runs + [run], i)
    {
      InSomeAppend(runs, run, i);
    }
  }

  lemma ScanBegins(column: seq<real>, name: string, step: real, duration: real)
    requires column != []
    ensures Scan(column, name, step, duration,
                 Scanning([], [], column[0] > 0.5, FrameMiddle(0, step, duration), 0), 0)
  {
  }

  lemma ScanStarts(column: seq<real>, name: string, step: real, duration: real, s: Scanning, f: nat)
    requires Scan(column, name, step, duration, s, f) && !s.active
    requires f + 1 < |column| && column[f + 1] > 0.5
    ensures Scan(column, name, step, duration,
                 s.(active := true, start := FrameMiddle(f + 1, step, duration), since := f + 1), f + 1)
  {
  }

  /** The run since `since` is closed with frame f. */
  lemma RunEnds(a: seq<bool>, s: Scanning, f: nat)
    requires s.since <= f < |a| && s.active && RunsFound(a, s, f)
    requires f + 1 < |a| ==> !a[f + 1]
    ensures IsRun(a, true, s.since, f + 1) && AreRuns(a, true, s.runs + [(s.since, f + 1)], f + 1)
  {
    RunsAppend(a, s.runs, (s.since, f + 1), f + 1);
  }

  lemma TurnsAppend(segs: seq<Segment>, runs: seq<(nat, nat)>, run: (nat, nat), frames: nat, name: string,
                    step: real, duration: real)
    requires TurnsOf(segs, runs, frames, name, step, duration)
    ensures TurnsOf(segs + [TurnOf(run, frames, name, step, duration)], runs + [run], frames, name, step, duration)
  {
  }

  /** The open segment, ended at frame f, takes over the time since its onset. */
  lemma TimeCloses(a: seq<bool>, name: string, step: real, duration: real, s: Scanning, f: nat)
    requires f <= |a| && s.active && TimeFound(a, step, duration, s, f)
    ensures Time(s.segs + [Segment(s.start, FrameMiddle(f, step, duration), name)]) == ActiveTime(a, f, step)
  {
    TimeAppend(s.segs, Segment(s.start, FrameMiddle(f, step, duration), name));
  }

  lemma TimeGoesOn(a: seq<bool>, step: real, duration: real, s: Scanning, f: nat)
    requires f < |a| && s.active == a[f] && TimeFound(a, step, duration, s, f)
    ensures TimeFound(a, step, duration, s, f + 1)
  {
    MiddleNext(f, step, duration);
  }

  lemma ScanStays(column: seq<real>, name: string, step: real, duration: real, s: Scanning, f: nat)
    requires Scan(column, name, step, duration, s, f)
    requires f + 1 < |column| && if s.active then column[f + 1] >= 0.5 else column[f + 1] <= 0.5
    ensures Scan(column, name, step, duration, s, f + 1)
  {
    TimeGoesOn(Activity(column), step, duration, s, f);
  }

  lemma ScanEnds(column: seq<real>, name: string, step: real, duration: real, s: Scanning, f: nat)
    requires Scan(column, name, step, duration, s, f) && s.active
    requires f + 1 < |column| && column[f + 1] < 0.5
    ensures var now := FrameMiddle(f + 1, step, duration);
            var turn, run := Segment(s.start, now, name), (s.since, f + 1);
            Scan(column, name, step, duration, Scanning(s.segs + [turn], s.runs + [run], false, now, f + 1), f + 1)
  {
    var a := Activity(column);
    TimeGoesOn(a, step, duration, s, f);
    TimeCloses(a, name, step, duration, s, f + 1);
    RunEnds(a, s, f);
    TurnsAppend(s.segs, s.runs, (s.since, f + 1), |column|, name, step, duration);
  }

  lemma RunsToTheEnd(a: seq<bool>, runs: seq<(nat, nat)>)
    requires a != [] && AreRuns(a, true, runs, |a| - 1) && !a[|a| - 1]
    ensures AreRuns(a, true, runs, |a|)
  {
  }

  lemma ColumnFrom(segs: seq<Segment>, runs: seq<(nat, nat)>, column: seq<real>, name: string, step: real,
                   duration: real)
    requires column != [] && AreRuns(Activity(column), true, runs, |column|)
    requires TurnsOf(segs, runs, |column|, name, step, duration)
    requires Time(segs) == ActiveTime(Activity(column), |column| - 1, step)
    ensures IsColumn(segs, column, name, step, duration)
  {
  }

  /** At the end of the column an open segment is closed with the last frame. */
  lemma OpenScanCloses(column: seq<real>, name: string, step: real, duration: real, s: Scanning)
    requires column != [] && Scan(column, name, step, duration, s, |column| - 1) && s.active
    ensures IsColumn(s.segs + [Segment(s.start, FrameMiddle(|column| - 1, step, duration), name)],
                     column, name, step, duration)
  {
    var turn := Segment(s.start, FrameMiddle(|column| - 1, step, duration), name);
    TimeCloses(Activity(column), name, step, duration, s, |column| - 1);
    LastRun(column, name, step, duration, s);
    ColumnFrom(s.segs + [turn], s.runs + [(s.since, |column|)], column, name, step, duration);
  }

  lemma LastRun(column: seq<real>, name: string, step: real, duration: real, s: Scanning)
    requires column != [] && Scan(column, name, step, duration, s, |column| - 1) && s.active
    ensures AreRuns(Activity(column), true, s.runs + [(s.since, |column|)], |column|)
    ensures TurnsOf(s.segs + [Segment(s.start, FrameMiddle(|column| - 1, step, duration), name)],
                    s.runs + [(s.since, |column|)], |column|, name, step, duration)
  {
    RunEnds(Activity(column), s, |column| - 1);
    TurnsAppend(s.segs, s.runs, (s.since, |column|), |column|, name, step, duration);
  }

  lemma ClosedScanIsColumn(column: seq<real>, name: string, step: real, duration: real, s: Scanning)
    requires column != [] && Scan(column, name, step, duration, s, |column| - 1) && !s.active
    ensures IsColumn(s.segs, column, name, step, duration)
  {
    RunsToTheEnd(Activity(column), s.runs);
    ColumnFrom(s.segs, s.runs, column, name, step, duration);
  }

  /** What frame f does to the scan. */
  ghost function ScanFrame(column: seq<real>, name: string, step: real, duration: real, s: Scanning, f: nat): Scanning
    requires f < |column|
  {
    var now := FrameMiddle(f, step, duration);
    if s.active then
      if column[f] >= 0.5 then s
      else Scanning(s.segs + [Segment(s.start, now, name)], s.runs + [(s.since, f)], false, now, f)
    else if column[f] > 0.5 then s.(active := true, start := now, since := f)
    else s
  }

  lemma ScanGoesOn(column: seq<real>, name: string, step: real, duration: real, s: Scanning, f: nat)
    requires 0 < f < |column| && Scan(column, name, step, duration, s, f - 1)
    ensures Scan(column, name, step, duration, ScanFrame(column, name, step, duration, s, f), f)
  {
    if s.active && column[f] < 0.5 {
      ScanEnds(column, name, step, duration, s, f - 1);
    } else if !s.active && column[f] > 0.5 {
      ScanStarts(column, name, step, duration, s, f - 1);
    } else {
      ScanStays(column, name, step, duration, s, f - 1);
    }
  }

  /** The scan of frames 0 to f. */
  ghost function ScanUpTo(column: seq<real>, name: string, step: real, duration: real, f: nat): Scanning
    requires f < |column|
  {
    if f == 0 then Scanning([], [], column[0] > 0.5, FrameMiddle(0, step, duration), 0)
    else ScanFrame(column, name, step, duration, ScanUpTo(column, name, step, duration, f - 1), f)
  }

  lemma {:induction false} ScanHolds(column: seq<real>, name: string, step: real, duration: real, f: nat)
    requires f < |column|
    ensures Scan(column, name, step, duration, ScanUpTo(column, name, step, duration, f), f)
  {
    if f == 0 {
      ScanBegins(column, name, step, duration);
    } else {
      ScanHolds(column, name, step, duration, f - 1);
      ScanGoesOn(column, name, step, duration, ScanUpTo(column, name, step, duration, f - 1), f);
    }
  }

  /** The segments once the last frame has closed an open one. */
  ghost function ColumnOf(column: seq<real>, name: string, step: real, duration: real): seq<Segment>
    requires column != []
  {
    var s := ScanUpTo(column, name, step, duration, |column| - 1);
    if s.active then s.segs + [Segment(s.start, FrameMiddle(|column| - 1, step, duration), name)] else s.segs
  }

  lemma ScanCloses(column: seq<real>, name: string, step: real, duration: real)
    requires column != []
    ensures IsColumn(ColumnOf(column, name, step, duration), column, name, step, duration)
  {
    var s := ScanUpTo(column, name, step, duration, |column| - 1);
    ScanHolds(column, name, step, duration, |column| - 1);
    if s.active {
      OpenScanCloses(column, name, step, duration, s);
    } else {
      ClosedScanIsColumn(column, name, step, duration, s);
    }
  }

  lemma NoColumn(column: seq<real>, name: string, step: real, duration: real)
    requires column == []
    ensures IsColumn([], column, name, step, duration)
  {
    assert AreRuns(Activity(column), true, [], 0) && TurnsOf([], [], 0, name, step, duration);
  }

  method ColumnSegments(column: seq<real>, name: string, step: real, duration: real) returns (segs: seq<Segment>)
    ensures IsColumn(segs, column, name, step, duration)
  {
    segs := [];
    if |column| == 0 {
      NoColumn(column, name, step, duration);
      return;
    }
    var start := FrameMiddle(0, step, duration);
    var active := column[0] > 0.5;
    var last := start;
    ghost var s := ScanUpTo(column, name, step, duration, 0);
    for f := 1 to |column|
      invariant s == ScanUpTo(column, name, step, duration, f - 1)
      invariant s.segs == segs && s.active == active && s.start == start
      invariant last == FrameMiddle(f - 1, step, duration)
    {
      s := ScanFrame(column, name, step, duration, s, f);
      var timestamp := FrameMiddle(f, step, duration);
      last := timestamp;
      if active {
        if column[f] < 0.5 {
          segs := segs + [Segment(start, timestamp, name)];
          start := timestamp;
          active := false;
        }
      } else if column[f] > 0.5 {
        start := timestamp;
        active := true;
      }
    }
    if active {
      segs := segs + [Segment(start, last, name)];
    }
    assert segs == ColumnOf(column, name, step, duration);
    ScanCloses(column, name, step, duration);
  }

  // --- All speakers ----------------------------------------------------------------------------

  /** Well-formed segments, each over before the next begins. */
  ghost predicate Separated(segs: seq<Segment>) {
    && (forall k :: 0 <= k < |segs| ==> segs[k].start <= segs[k].end)
    && forall j, k :: 0 <= j < k < |segs| ==> segs[j].end < segs[k].start
  }

  lemma TurnIsForward(a: seq<bool>, run: (nat, nat), name: string, step: real, duration: real)
    requires 0.0 < step && IsRun(a, true, run.0, run.1)
    ensures var turn := TurnOf(run, |a|, name, step, duration); turn.start <= turn.end && turn.speaker == name
  {
    var to := if run.1 < |a| then run.1 else |a| - 1;
    if run.0 < to {
      MiddleIncreases(run.0, to, step, duration);
    }
  }

  lemma TurnsAreApart(a: seq<bool>, x: (nat, nat), y: (nat, nat), name: string, step: real, duration: real)
    requires 0.0 < step && IsRun(a, true, x.0, x.1) && IsRun(a, true, y.0, y.1) && x.1 <= y.0
    ensures TurnOf(x, |a|, name, step, duration).end < TurnOf(y, |a|, name, step, duration).start
  {
    assert !a[x.1] && a[y.0];
    MiddleIncreases(x.1, y.0, step, duration);
  }

  lemma ColumnIsSeparated(segs: seq<Segment>, column: seq<real>, name: string, step: real, duration: real)
    requires 0.0 < step && IsColumn(segs, column, name, step, duration)
    ensures Separated(segs) && forall k :: 0 <= k < |segs| ==> segs[k].speaker == name
  {
    var n, a := |column|, Activity(column);
    var runs: seq<(nat, nat)> :| AreRuns(a, true, runs, n) && TurnsOf(segs, runs, n, name, step, duration);
    forall k | 0 <= k < |segs|
      ensures segs[k].start <= segs[k].end && segs[k].speaker == name
    {
      TurnIsForward(a, runs[k], name, step, duration);
    }
    forall j, k | 0 <= j < k < |segs|
      ensures segs[j].end < segs[k].start
    {
      TurnsAreApart(a, runs[j], runs[k], name, step, duration);
    }
  }

  ghost predicate SortedByStart(segs: seq<Segment>) {
    forall j, k :: 0 <= j < k < |segs| ==> segs[j].start <= segs[k].start
  }

  function Insert(segs: seq<Segment>, x: Segment): seq<Segment> {
    if segs == [] then [x]
    else
      var front, last := segs[..|segs| - 1], segs[|segs| - 1];
      if x.start < last.start then Insert(front, x) + [last] else segs + [x]
  }

  /** The library's stable sort. */
  function Sort(segs: seq<Segment>): seq<Segment> {
    if segs == [] then [] else Insert(Sort(segs[..|segs| - 1]), segs[|segs| - 1])
  }

  function OfSpeaker(segs: seq<Segment>, name: string): seq<Segment> {
    if segs == [] then []
    else if segs[|segs| - 1].speaker == name then OfSpeaker(segs[..|segs| - 1], name) + [segs[|segs| - 1]]
    else OfSpeaker(segs[..|segs| - 1], name)
  }

  lemma InsertBehind(front: seq<Segment>, last: Segment, x: Segment)
    requires x.start < last.start
    ensures Insert(front + [last], x) == Insert(front, x) + [last]
  {
    assert (front + [last])[..|front|] == front;
  }

  lemma SortAppend(front: seq<Segment>, last: Segment)
    ensures Sort(front + [last]) == Insert(Sort(front), last)
  {
    assert (front + [last])[..|front|] == front;
  }

  lemma OfSpeakerLast(front: seq<Segment>, last: Segment, name: string)
    ensures OfSpeaker(front + [last], name) ==
            if last.speaker == name then OfSpeaker(front, name) + [last] else OfSpeaker(front, name)
  {
    assert (front + [last])[..|front|] == front;
  }

  lemma {:induction false} InsertMembers(segs: seq<Segment>, x: Segment)
    ensures forall y :: y in Insert(segs, x) <==> y in segs || y == x
  {
    if segs == [] {
    } else {
      var front, last := segs[..|segs| - 1], segs[|segs| - 1];
      assert segs == front + [last];
      InsertMembers(front, x);
    }
  }

  lemma {:induction false} SortMembers(segs: seq<Segment>)
    ensures forall y :: y in Sort(segs) <==> y in segs
  {
    if segs == [] {
    } else {
      var front, last := segs[..|segs| - 1], segs[|segs| - 1];
      assert segs == front + [last];
      SortMembers(front);
      InsertMembers(Sort(front), last);
    }
  }

  lemma {:induction false} OfSpeakerMembers(segs: seq<Segment>, name: string)
    ensures forall y :: y in OfSpeaker(segs, name) <==> y in segs && y.speaker == name
  {
    if segs == [] {
    } else {
      var front, last := segs[..|segs| - 1], segs[|segs| - 1];
      assert segs == front + [last];
      OfSpeakerMembers(front, name);
    }
  }

  lemma {:induction false} InsertSorts(segs: seq<Segment>, x: Segment)
    requires SortedByStart(segs)
    ensures SortedByStart(Insert(segs, x))
  {
    if segs != [] && x.start < segs[|segs| - 1].start {
      var front, last := segs[..|segs| - 1], segs[|segs| - 1];
      InsertSorts(front, x);
      InsertMembers(front, x);
      var r := Insert(front, x);
      forall k | 0 <= k < |r|
        ensures r[k].start <= last.start
      {
        assert r[k] in r;
      }
    }
  }

  lemma {:induction false} SortSorts(segs: seq<Segment>)
    ensures SortedByStart(Sort(segs))
  {
    if segs == [] {
    } else {
      SortSorts(segs[..|segs| - 1]);
      InsertSorts(Sort(segs[..|segs| - 1]), segs[|segs| - 1]);
    }
  }

  lemma {:induction false} OfSpeakerAppend(a: seq<Segment>, b: seq<Segment>, name: string)
    ensures OfSpeaker(a + b, name) == OfSpeaker(a, name) + OfSpeaker(b, name)
  {
    if b == [] {
      assert a + b == a;
    } else {
      var front, last := b[..|b| - 1], b[|b| - 1];
      assert a + b == a + front + [last];
      OfSpeakerLast(a + front, last, name);
      OfSpeakerAppend(a, front, name);
    }
  }

  lemma {:induction false} OnlySpeaker(segs: seq<Segment>, speaker: string, name: string)
    requires forall k :: 0 <= k < |segs| ==> segs[k].speaker == speaker
    ensures OfSpeaker(segs, name) == if speaker == name then segs else []
  {
    if segs == [] {
    } else {
      OnlySpeaker(segs[..|segs| - 1], speaker, name);
      assert segs == segs[..|segs| - 1] + [segs[|segs| - 1]];
    }
  }

  lemma InsertLast(segs: seq<Segment>, x: Segment)
    requires forall y :: y in segs ==> y.start <= x.start
    ensures Insert(segs, x) == segs + [x]
  {
    if segs != [] {
      assert segs[|segs| - 1] in segs;
    }
  }

  /** Insertion leaves each speaker's own order alone. */
  lemma {:induction false} InsertOfSpeaker(segs: seq<Segment>, x: Segment, name: string)
    requires SortedByStart(segs)
    ensures OfSpeaker(Insert(segs, x), name) ==
            if x.speaker == name then Insert(OfSpeaker(segs, name), x) else OfSpeaker(segs, name)
  {
    if segs == [] || segs[|segs| - 1].start <= x.start {
      InsertLastOfSpeaker(segs, x, name);
    } else {
      var front, last := segs[..|segs| - 1], segs[|segs| - 1];
      assert segs == front + [last];
      InsertOfSpeaker(front, x, name);
      InsertBehindOfSpeaker(front, last, x, name);
    }
  }

  lemma InsertLastOfSpeaker(segs: seq<Segment>, x: Segment, name: string)
    requires SortedByStart(segs) && (segs == [] || segs[|segs| - 1].start <= x.start)
    ensures OfSpeaker(Insert(segs, x), name) ==
            if x.speaker == name then Insert(OfSpeaker(segs, name), x) else OfSpeaker(segs, name)
  {
    var own := OfSpeaker(segs, name);
    OfSpeakerMembers(segs, name);
    assert Insert(segs, x) == segs + [x] by {
      InsertLast(segs, x);
    }
    assert Insert(own, x) == own + [x] by {
      InsertLast(own, x);
    }
    OfSpeakerLast(segs, x, name);
  }

  lemma InsertBehindOfSpeaker(front: seq<Segment>, last: Segment, x: Segment, name: string)
    requires x.start < last.start
    requires OfSpeaker(Insert(front, x), name) ==
             if x.speaker == name then Insert(OfSpeaker(front, name), x) else OfSpeaker(front, name)
    ensures OfSpeaker(Insert(front + [last], x), name) ==
            if x.speaker == name then Insert(OfSpeaker(front + [last], name), x) else OfSpeaker(front + [last], name)
  {
    var all, longer, own := front + [last], Insert(front, x), OfSpeaker(front, name);
    assert Insert(all, x) == longer + [last] by {
      InsertBehind(front, last, x);
    }
    OfSpeakerLast(longer, last, name);
    OfSpeakerLast(front, last, name);
    assert Insert(own + [last], x) == Insert(own, x) + [last] by {
      InsertBehind(own, last, x);
    }
  }

  lemma {:induction false} SortOfSpeaker(segs: seq<Segment>, name: string)
    ensures OfSpeaker(Sort(segs), name) == Sort(OfSpeaker(segs, name))
  {
    if segs == [] {
    } else {
      var front, last := segs[..|segs| - 1], segs[|segs| - 1];
      SortOfSpeaker(front, name);
      SortSorts(front);
      var sorted, own := Sort(front), OfSpeaker(front, name);
      assert Sort(segs) == Insert(sorted, last);
      InsertOfSpeaker(sorted, last, name);
      assert OfSpeaker(segs, name) == if last.speaker == name then own + [last] else own;
      assert Sort(own + [last]) == Insert(Sort(own), last) by {
        SortAppend(own, last);
      }
    }
  }

  lemma {:induction false} SortKeepsSorted(segs: seq<Segment>)
    requires SortedByStart(segs)
    ensures Sort(segs) == segs
  {
    if segs == [] {
    } else {
      var front, last := segs[..|segs| - 1], segs[|segs| - 1];
      SortedFront(segs);
      SortKeepsSorted(front);
      InsertLast(front, last);
      assert segs == front + [last];
    }
  }

  lemma SortedFront(segs: seq<Segment>)
    requires SortedByStart(segs) && segs != []
    ensures SortedByStart(segs[..|segs| - 1])
    ensures forall y :: y in segs[..|segs| - 1] ==> y.start <= segs[|segs| - 1].start
  {
  }

  /** The segments of speakers below n are those of their columns, and there are no others. */
  ghost predicate AreColumns(segs: seq<Segment>, activations: seq<seq<real>>, n: nat, step: real, duration: real)
    requires forall f :: 0 <= f < |activations| ==> n <= |activations[f]|
  {
    && (forall s: nat :: s < n ==>
          IsColumn(OfSpeaker(segs, Label(s)), Column(activations, s), Label(s), step, duration))
    && forall y :: y in segs ==> exists s: nat :: s < n && y.speaker == Label(s)
  }

  lemma AddColumn(segs: seq<Segment>, more: seq<Segment>, activations: seq<seq<real>>, n: nat, step: real,
                  duration: real)
    requires 0.0 < step && forall f :: 0 <= f < |activations| ==> n < |activations[f]|
    requires AreColumns(segs, activations, n, step, duration)
    requires IsColumn(more, Column(activations, n), Label(n), step, duration)
    ensures AreColumns(segs + more, activations, n + 1, step, duration)
  {
    ColumnIsSeparated(more, Column(activations, n), Label(n), step, duration);
    NoSegments(segs, activations, n, step, duration);
    forall s: nat | s < n + 1
      ensures OfSpeaker(segs + more, Label(s)) == if s < n then OfSpeaker(segs, Label(s)) else more
    {
      AddedSpeaker(segs, more, n, s);
    }
  }

  lemma AddedSpeaker(segs: seq<Segment>, more: seq<Segment>, n: nat, s: nat)
    requires s <= n && (forall k :: 0 <= k < |more| ==> more[k].speaker == Label(n)) && OfSpeaker(segs, Label(n)) == []
    ensures OfSpeaker(segs + more, Label(s)) == if s < n then OfSpeaker(segs, Label(s)) else more
  {
    OfSpeakerAppend(segs, more, Label(s));
    OnlySpeaker(more, Label(n), Label(s));
    if s < n && Label(s) == Label(n) {
      LabelsDiffer(s, n);
    }
  }

  lemma NoSegments(segs: seq<Segment>, activations: seq<seq<real>>, n: nat, step: real, duration: real)
    requires forall f :: 0 <= f < |activations| ==> n <= |activations[f]|
    requires AreColumns(segs, activations, n, step, duration)
    ensures OfSpeaker(segs, Label(n)) == []
  {
    var own := OfSpeaker(segs, Label(n));
    OfSpeakerMembers(segs, Label(n));
    if own != [] {
      assert own[0] in own;
      var s: nat :| s < n && own[0].speaker == Label(s);
      LabelsDiffer(s, n);
    }
  }

  lemma SortedColumns(segs: seq<Segment>, activations: seq<seq<real>>, n: nat, step: real, duration: real)
    requires 0.0 < step && forall f :: 0 <= f < |activations| ==> n <= |activations[f]|
    requires AreColumns(segs, activations, n, step, duration)
    ensures AreColumns(Sort(segs), activations, n, step, duration)
  {
    SortMembers(segs);
    forall s: nat | s < n
      ensures OfSpeaker(Sort(segs), Label(s)) == OfSpeaker(segs, Label(s))
    {
      ColumnIsSeparated(OfSpeaker(segs, Label(s)), Column(activations, s), Label(s), step, duration);
      SortOfSpeaker(segs, Label(s));
      SortKeepsSorted(OfSpeaker(segs, Label(s)));
    }
  }

  /** The speaker of y has no larger number than that of x. */
  ghost predicate NotAfter(y: Segment, x: Segment) {
    forall s: nat, n: nat :: y.speaker == Label(s) && x.speaker == Label(n) ==> s <= n
  }

  /** Of segments that start together the one of the smaller speaker number comes first. */
  ghost predicate TiesInOrder(segs: seq<Segment>) {
    forall j, k :: 0 <= j < k < |segs| && segs[j].start == segs[k].start ==> NotAfter(segs[j], segs[k])
  }

  /** Insertion puts a segment behind all that start with it. */
  lemma {:induction false} InsertKeepsTies(segs: seq<Segment>, x: Segment)
    requires SortedByStart(segs) && TiesInOrder(segs) && forall y :: y in segs ==> NotAfter(y, x)
    ensures TiesInOrder(Insert(segs, x))
  {
    if segs != [] && x.start < segs[|segs| - 1].start {
      var front, last := segs[..|segs| - 1], segs[|segs| - 1];
      InsertKeepsTies(front, x);
      InsertMembers(front, x);
      var r := Insert(front, x);
      forall j | 0 <= j < |r| && r[j].start == last.start
        ensures NotAfter(r[j], last)
      {
        assert r[j] in front;
      }
    }
  }

  /** Sorting segments listed by speaker number leaves ties in that order. */
  lemma {:induction false} SortKeepsTies(segs: seq<Segment>)
    requires forall j, k :: 0 <= j < k < |segs| ==> NotAfter(segs[j], segs[k])
    ensures TiesInOrder(Sort(segs))
  {
    if segs != [] {
      var front, last := segs[..|segs| - 1], segs[|segs| - 1];
      SortKeepsTies(front);
      SortSorts(front);
      SortMembers(front);
      InsertKeepsTies(Sort(front), last);
    }
  }

  /** The segments are listed by speaker number, all below n. */
  ghost predicate ListedByNumber(segs: seq<Segment>, n: nat) {
    && (forall j, k :: 0 <= j < k < |segs| ==> NotAfter(segs[j], segs[k]))
    && forall k :: 0 <= k < |segs| ==> exists s: nat :: s < n && segs[k].speaker == Label(s)
  }

  lemma ListNext(segs: seq<Segment>, more: seq<Segment>, n: nat)
    requires ListedByNumber(segs, n) && forall k :: 0 <= k < |more| ==> more[k].speaker == Label(n)
    ensures ListedByNumber(segs + more, n + 1)
  {
    forall k | 0 <= k < |segs + more|
      ensures exists s: nat :: s < n + 1 && (segs + more)[k].speaker == Label(s)
    {
      if k < |segs| {
        var s: nat :| s < n && segs[k].speaker == Label(s);
        assert s < n + 1;
      } else {
        assert (segs + more)[k].speaker == Label(n);
      }
    }
    forall j, k | 0 <= j < k < |segs + more| && k >= |segs|
      ensures NotAfter((segs + more)[j], (segs + more)[k])
    {
      var i: nat :| i <= n && (segs + more)[j].speaker == Label(i);
      forall s: nat, m: nat | (segs + more)[j].speaker == Label(s) && (segs + more)[k].speaker == Label(m)
        ensures s <= m
      {
        LabelsDiffer(i, s);
        LabelsDiffer(n, m);
      }
    }
  }

  method ToSegments(activations: seq<seq<real>>, speakers: nat, step: real, duration: real) returns (segs: seq<Segment>)
    requires forall f :: 0 <= f < |activations| ==> |activations[f]| == speakers
    ensures SortedByStart(segs) && TiesInOrder(segs)
    ensures 0.0 < step ==> AreColumns(segs, activations, speakers, step, duration)
  {
    segs := [];
    for s := 0 to speakers
      invariant ListedByNumber(segs, s)
      invariant 0.0 < step ==> AreColumns(segs, activations, s, step, duration)
    {
      var more := ColumnSegments(Column(activations, s), Label(s), step, duration);
      if 0.0 < step {
        AddColumn(segs, more, activations, s, step, duration);
      }
      ListNext(segs, more, s);
      segs := segs + more;
    }
    SortSorts(segs);
    SortKeepsTies(segs);
    if 0.0 < step {
      SortedColumns(segs, activations, speakers, step, duration);
    }
    segs := Sort(segs);
  }

  // --- Durations on binary activations ----------------------------------------------------------

  /** Number of active frames below n. */
  ghost function ActiveFrames(column: seq<real>, n: nat): nat
    requires n <= |column|
  {
    if n == 0 then 0 else ActiveFrames(column, n - 1) + if column[n - 1] == 1.0 then 1 else 0
  }

  lemma BinaryActivity(column: seq<real>, f: nat)
    requires f < |column| && Binary(column)
    ensures Activity(column)[f] <==> column[f] == 1.0
  {
  }

  lemma {:induction false} BinaryTime(column: seq<real>, n: nat, step: real)
    requires n <= |column| && Binary(column)
    ensures ActiveTime(Activity(column), n, step) == Times(ActiveFrames(column, n), step)
  {
    if n == 0 {
    } else {
      BinaryTime(column, n - 1, step);
      BinaryActivity(column, n - 1);
    }
  }

  lemma ColumnDuration(segs: seq<Segment>, column: seq<real>, name: string, step: real, duration: real)
    requires IsColumn(segs, column, name, step, duration) && Binary(column) && column != []
    ensures Time(segs) == Times(ActiveFrames(column, |column| - 1), step)
  {
    BinaryTime(column, |column| - 1, step);
  }

  /** On binary activations each speaker's segments last a step for each frame at 1 but the last. */
  lemma SpeakerDuration(segs: seq<Segment>, activations: seq<seq<real>>, speakers: nat, step: real, duration: real,
                        s: nat)
    requires (forall f :: 0 <= f < |activations| ==> |activations[f]| == speakers) && activations != [] && s < speakers
    requires AreColumns(segs, activations, speakers, step, duration) && Binary(Column(activations, s))
    ensures Time(OfSpeaker(segs, Label(s))) == Times(ActiveFrames(Column(activations, s), |activations| - 1), step)
  {
    ColumnDuration(OfSpeaker(segs, Label(s)), Column(activations, s), Label(s), step, duration);
  }

  lemma {:induction false} OfSpeakerSeparated(segs: seq<Segment>, name: string, i: nat, j: nat)
    requires Separated(OfSpeaker(segs, name)) && i < j < |segs| && segs[i].speaker == name && segs[j].speaker == name
    ensures segs[i].end < segs[j].start
    decreases |segs|
  {
    var front, last := segs[..|segs| - 1], segs[|segs| - 1];
    var own := OfSpeaker(front, name);
    OfSpeakerMembers(front, name);
    assert forall k :: 0 <= k < |own| ==> OfSpeaker(segs, name)[k] == own[k];
    if j < |segs| - 1 {
      OfSpeakerSeparated(front, name, i, j);
    } else {
      assert front[i] in own;
      var k :| 0 <= k < |own| && own[k] == front[i];
      assert OfSpeaker(segs, name)[k] == segs[i] && OfSpeaker(segs, name)[|own|] == last;
    }
  }

  /** Well-formed segments of which no two of one speaker overlap or touch, in order of start. */
  ghost predicate Disjoint(segs: seq<Segment>) {
    && SortedByStart(segs) && (forall k :: 0 <= k < |segs| ==> segs[k].start <= segs[k].end)
    && forall i, j :: 0 <= i < j < |segs| && segs[i].speaker == segs[j].speaker ==> segs[i].end < segs[j].start
  }

  /** So the segments of one speaker never overlap or touch. */
  lemma SegmentsAreDisjoint(segs: seq<Segment>, activations: seq<seq<real>>, speakers: nat, step: real, duration: real)
    requires 0.0 < step && forall f :: 0 <= f < |activations| ==> |activations[f]| == speakers
    requires SortedByStart(segs) && AreColumns(segs, activations, speakers, step, duration)
    ensures Disjoint(segs)
  {
    forall k | 0 <= k < |segs|
      ensures segs[k].start <= segs[k].end
      ensures Separated(OfSpeaker(segs, segs[k].speaker))
    {
      assert segs[k] in segs;
      var s: nat :| s < speakers && segs[k].speaker == Label(s);
      var own := OfSpeaker(segs, Label(s));
      ColumnIsSeparated(own, Column(activations, s), Label(s), step, duration);
      OfSpeakerMembers(segs, Label(s));
      assert segs[k] in own;
    }
    forall i, j | 0 <= i < j < |segs| && segs[i].speaker == segs[j].speaker
      ensures segs[i].end < segs[j].start
    {
      OfSpeakerSeparated(segs, segs[i].speaker, i, j);
    }
  }
}
