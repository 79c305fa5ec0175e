/** Where windows of output frames start, and how many output frames a recording has. */
module Layout {
  const WINDOW_SECONDS: real := 10.0
  const FRAME_DURATION: real := 0.0619375
  const FRAME_STEP: real := 0.016875

  /** Frames the model emits for one window. */
  const WINDOW_FRAMES: nat := 589

  function Round(x: real): int {
    (x + 0.5).Floor
  }

  function ClosestFrame(timestamp: real): int {
    Round((timestamp - 0.5 * FRAME_DURATION) / FRAME_STEP)
  }

  function StartFrame(k: nat, step: real): int {
    ClosestFrame(k as real * step + 0.5 * FRAME_DURATION)
  }

  function OutputFrames(n: nat, step: real): int {
    if n == 0 then 0 else ClosestFrame(WINDOW_SECONDS + (n - 1) as real * step + 0.5 * FRAME_DURATION) + 1
  }

  lemma RoundBounds(x: real)
    ensures Round(x) as real <= x + 0.5 < Round(x) as real + 1.0
  {
  }

  /** A frame lasts 27/1600 s. */
  lemma FrameAt(seconds: real)
    ensures var f := ClosestFrame(seconds + 0.5 * FRAME_DURATION);
            (f as real) * 27.0 <= seconds * 1600.0 + 13.5 < (f as real + 1.0) * 27.0
  {
    RoundBounds((seconds + 0.5 * FRAME_DURATION - 0.5 * FRAME_DURATION) / FRAME_STEP);
    assert FRAME_STEP * 1600.0 == 27.0;
  }

  /** Frame f is the one nearest to the time, in frames of 27/1600 s, the later one for a tie. */
  ghost predicate IsNearestFrame(f: int, seconds: real) {
    f as real * 27.0 - 13.5 <= seconds * 1600.0 < f as real * 27.0 + 13.5
  }

  /** Window k starts at the frame nearest to k steps. */
  lemma StartIsNearest(k: nat, step: real)
    ensures IsNearestFrame(StartFrame(k, step), k as real * step)
  {
    FrameAt(k as real * step);
  }

  /** The output ends with the frame nearest to the end of the last ten-second window; without a window
      there is no output. */
  lemma OutputIsNearest(n: nat, step: real)
    ensures n == 0 ==> OutputFrames(n, step) == 0
    ensures n > 0 ==> IsNearestFrame(OutputFrames(n, step) - 1, 10.0 + (n - 1) as real * step)
  {
    if n > 0 {
      FrameAt(WINDOW_SECONDS + (n - 1) as real * step);
    }
  }

  ghost predicate SupportedStep(step: real) {
    step == 1.0 || step == 2.0
  }

  /** One-second steps advance by 59 or 60 frames, two-second steps by 118 or 119. */
  lemma StartFramesAdvance(k: nat, step: real)
    requires SupportedStep(step)
    ensures var hop := StartFrame(k + 1, step) - StartFrame(k, step);
            if step == 1.0 then hop == 59 || hop == 60 else hop == 118 || hop == 119
  {
    FrameAt(k as real * step);
    FrameAt((k + 1) as real * step);
  }

  lemma FirstStart(step: real)
    ensures StartFrame(0, step) == 0
  {
    FrameAt(0.0);
  }

  lemma {:induction false} StartFramesIncrease(j: nat, k: nat, step: real)
    requires SupportedStep(step) && j < k
    ensures StartFrame(j, step) + 59 <= StartFrame(k, step)
    decreases k
  {
    StartFramesAdvance(k - 1, step);
    if j < k - 1 {
      StartFramesIncrease(j, k - 1, step);
    }
  }

  /** The last window ends four or five frames before the output does. */
  lemma LastWindowEnds(n: nat, step: real)
    requires SupportedStep(step) && 0 < n
    ensures var spare := OutputFrames(n, step) - (StartFrame(n - 1, step) + WINDOW_FRAMES); spare == 4 || spare == 5
  {
    var last := (n - 1) as real * step;
    FrameAt(last);
    FrameAt(WINDOW_SECONDS + last);
  }

  /** No window reaches past the output, so overlap-add drops nothing. */
  lemma WindowsFit(n: nat, step: real, k: nat)
    requires SupportedStep(step) && k < n
    ensures 0 <= StartFrame(k, step) && StartFrame(k, step) + WINDOW_FRAMES <= OutputFrames(n, step)
  {
    LastWindowEnds(n, step);
    FirstStart(step);
    if 0 < k {
      StartFramesIncrease(0, k, step);
    }
    if k < n - 1 {
      StartFramesIncrease(k, n - 1, step);
    }
  }

  ghost predicate InWindow(step: real, k: nat, f: int) {
    StartFrame(k, step) <= f < StartFrame(k, step) + WINDOW_FRAMES
  }

  lemma {:induction false} NoGapBefore(step: real, k: nat, f: int) returns (j: nat)
    requires SupportedStep(step) && 0 <= f < StartFrame(k, step) + WINDOW_FRAMES
    ensures j <= k && InWindow(step, j, f)
  {
    j := k;
    if k == 0 {
      FirstStart(step);
    } else if f < StartFrame(k, step) {
      StartFramesAdvance(k - 1, step);
      j := NoGapBefore(step, k - 1, f);
    }
  }

  /** A frame is covered by one of n windows exactly when it lies before the end of the last one. */
  lemma CoveredFrames(n: nat, step: real, f: int)
    requires SupportedStep(step) && 0 < n && 0 <= f < OutputFrames(n, step)
    ensures (exists k: nat :: k < n && InWindow(step, k, f)) <==> f < StartFrame(n - 1, step) + WINDOW_FRAMES
    ensures f < OutputFrames(n, step) - 5 ==> exists k: nat :: k < n && InWindow(step, k, f)
    ensures f >= OutputFrames(n, step) - 4 ==> !exists k: nat :: k < n && InWindow(step, k, f)
  {
    LastWindowEnds(n, step);
    forall k: nat | k < n
      ensures StartFrame(k, step) <= StartFrame(n - 1, step)
    {
      if k < n - 1 {
        StartFramesIncrease(k, n - 1, step);
      }
    }
    if f < StartFrame(n - 1, step) + WINDOW_FRAMES {
      var j := NoGapBefore(step, n - 1, f);
    }
  }
}
