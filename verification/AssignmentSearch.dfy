/** Exhaustive search for the best one-to-one assignment of a chunk's active speakers to clusters. */
module AssignmentSearch {
  import opened Counting
  import opened Options
  import opened SpeakerMapping

  /** A choice of clusters for some of the active speakers, as (place in the active list, cluster). */
  type Choice = seq<(nat, nat)>

  ghost predicate Covering(scores: seq<seq<real>>, active: seq<nat>, clusters: nat) {
    forall p :: 0 <= p < |active| ==> active[p] < |scores| && |scores[active[p]]| >= clusters
  }

  /** A choice among the places from `position` on and the clusters not in use, places increasing
      and clusters different. */
  ghost predicate Completes(rows: nat, position: nat, used: seq<bool>, choice: Choice) {
    && (forall k :: 0 <= k < |choice| ==>
          position <= choice[k].0 < rows && choice[k].1 < |used| && !used[choice[k].1])
    && (forall j, k :: 0 <= j < k < |choice| ==> choice[j].0 < choice[k].0 && choice[j].1 != choice[k].1)
  }

  ghost function Score(scores: seq<seq<real>>, active: seq<nat>, clusters: nat, choice: Choice): real
    requires Covering(scores, active, clusters)
    requires forall k :: 0 <= k < |choice| ==> choice[k].0 < |active| && choice[k].1 < clusters
  {
    if |choice| == 0 then 0.0
    else scores[active[choice[0].0]][choice[0].1] + Score(scores, active, clusters, choice[1..])
  }

  function Pairs(active: seq<nat>, choice: Choice): seq<(nat, nat)>
    requires forall k :: 0 <= k < |choice| ==> choice[k].0 < |active|
  {
    seq(|choice|, k requires 0 <= k < |choice| => (active[choice[k].0], choice[k].1))
  }

  /** A choice cannot be longer than the places it has. */
  lemma {:induction false} ChoiceFits(rows: nat, position: nat, used: seq<bool>, choice: Choice)
    requires Completes(rows, position, used, choice) && position <= rows
    ensures |choice| <= rows - position
    decreases |choice|
  {
    if |choice| == 0 {
    } else {
      ChoiceFits(rows, choice[0].0 + 1, used, choice[1..]);
    }
  }

  /** A choice either takes a cluster for `position` and completes from the next place without that
      cluster, or completes from the next place as it is. */
  lemma ChoiceSplits(rows: nat, position: nat, used: seq<bool>, choice: Choice)
    requires Completes(rows, position, used, choice)
    ensures if |choice| > 0 && choice[0].0 == position
            then Completes(rows, position + 1, used[choice[0].1 := true], choice[1..])
            else Completes(rows, position + 1, used, choice)
  {
    if |choice| > 0 {
      assert forall k :: 0 < k < |choice| ==> choice[0].0 < choice[k].0 && choice[0].1 != choice[k].1;
    }
  }

  lemma ChoiceJoins(rows: nat, position: nat, used: seq<bool>, c: nat, rest: Choice)
    requires position < rows && c < |used| && !used[c]
    requires Completes(rows, position + 1, used[c := true], rest)
    ensures Completes(rows, position, used, [(position, c)] + rest)
  {
  }

  /** The order in which the search meets the choices of one size: at the first place where two of them
      differ, leaving the place out comes first, and then the clusters in increasing order. */
  ghost predicate Earlier(x: Choice, y: Choice) {
    exists k: nat :: PartsAt(x, y, k)
  }

  /** They agree before their k-th pairs, and there x is the earlier one. */
  ghost predicate PartsAt(x: Choice, y: Choice, k: nat) {
    && k < |x| && k < |y| && x[..k] == y[..k]
    && (x[k].0 > y[k].0 || (x[k].0 == y[k].0 && x[k].1 < y[k].1))
  }

  lemma EarlierTail(x: Choice, y: Choice)
    requires |x| > 0 && |y| > 0 && x[0] == y[0] && Earlier(x, y)
    ensures Earlier(x[1..], y[1..])
  {
    var k: nat :| PartsAt(x, y, k);
    assert x[1..][..k - 1] == x[..k][1..] && y[1..][..k - 1] == y[..k][1..];
    assert PartsAt(x[1..], y[1..], k - 1);
  }

  /** An earlier choice than one that starts with (p, c) leaves p out, gives it a lower cluster, or
      starts with the same pair. */
  lemma EarlierHead(x: Choice, y: Choice)
    requires |x| > 0 && |y| > 0 && Earlier(x, y)
    ensures x[0] == y[0] || x[0].0 > y[0].0 || (x[0].0 == y[0].0 && x[0].1 < y[0].1)
  {
    var k: nat :| PartsAt(x, y, k);
    if k > 0 {
      assert x[0] == x[..k][0] == y[..k][0] == y[0];
    }
  }

  /** Of two different choices of one size one is earlier. */
  lemma {:induction false} EarlierIsTotal(x: Choice, y: Choice)
    requires |x| == |y| && x != y
    ensures Earlier(x, y) || Earlier(y, x)
  {
    if x[0] != y[0] {
      assert PartsAt(x, y, 0) || PartsAt(y, x, 0);
    } else {
      assert x == [x[0]] + x[1..] && y == [y[0]] + y[1..];
      EarlierIsTotal(x[1..], y[1..]);
      if Earlier(x[1..], y[1..]) {
        EarlierFromTail(x, y);
      } else {
        EarlierFromTail(y, x);
      }
    }
  }

  lemma EarlierFromTail(x: Choice, y: Choice)
    requires |x| > 0 && |y| > 0 && x[0] == y[0] && Earlier(x[1..], y[1..])
    ensures Earlier(x, y)
  {
    var k: nat :| PartsAt(x[1..], y[1..], k);
    assert x[..k + 1] == [x[0]] + x[1..][..k] && y[..k + 1] == [y[0]] + y[1..][..k];
    assert PartsAt(x, y, k + 1);
  }

  /** `best` is at least `x`; nothing yet counts as minus infinity. */
  predicate AtLeast(best: Option<real>, x: real) {
    best.Some? && best.value >= x
  }

  /** The best score so far, none being minus infinity, and the pairs that reach it. */
  datatype Best = Best(score: Option<real>, pairs: seq<(nat, nat)>)

  datatype Problem = Problem(scores: seq<seq<real>>, active: seq<nat>, clusters: nat, target: nat) {
    ghost predicate Valid() {
      Covering(scores, active, clusters)
    }

    /** A completion, from `position` on, of a partial assignment of `held` pairs. */
    ghost predicate Candidate(position: nat, used: seq<bool>, held: nat, choice: Choice) {
      |used| == clusters && Completes(|active|, position, used, choice) && held + |choice| == target
    }

    ghost function Value(choice: Choice): real
      requires Valid() && forall k :: 0 <= k < |choice| ==> choice[k].0 < |active| && choice[k].1 < clusters
    {
      Score(scores, active, clusters, choice)
    }

    /** `best` is at least what any candidate reaches. */
    ghost predicate Dominates(best: Option<real>, position: nat, used: seq<bool>, held: nat, score: real)
      requires Valid()
    {
      forall choice: Choice :: Candidate(position, used, held, choice) ==> AtLeast(best, score + Value(choice))
    }

    /** Either nothing better than before was found, or the best is the partial assignment `held`
        completed by a candidate that beats what was best before and everything met before it. */
    ghost predicate Improves(position: nat, used: seq<bool>, held: seq<(nat, nat)>, score: real, was: Best, now: Best)
      requires Valid()
    {
      || now == was
      || (exists choice: Choice ::
            && Candidate(position, used, |held|, choice) && Beats(choice, held, score, was, now)
            && IsFirst(position, used, |held|, choice))
    }

    /** Every candidate that the search meets before `choice` has a smaller value. */
    ghost predicate IsFirst(position: nat, used: seq<bool>, held: nat, choice: Choice)
      requires Valid() && Candidate(position, used, held, choice)
    {
      forall other: Choice :: Candidate(position, used, held, other) && Earlier(other, choice) ==>
        Value(other) < Value(choice)
    }

    ghost predicate Beats(choice: Choice, held: seq<(nat, nat)>, score: real, was: Best, now: Best)
      requires Valid() && forall k :: 0 <= k < |choice| ==> choice[k].0 < |active| && choice[k].1 < clusters
    {
      && now == Best(Some(score + Value(choice)), held + Pairs(active, choice))
      && !AtLeast(was.score, score + Value(choice))
    }

    /** All candidates but those that give `position` a cluster from `c` on are dominated. */
    ghost predicate DominatesUpTo(best: Option<real>, position: nat, used: seq<bool>, held: nat, score: real, c: nat)
      requires Valid()
    {
      forall choice: Choice :: Candidate(position, used, held, choice) ==>
        AtLeast(best, score + Value(choice)) || (|choice| > 0 && choice[0].0 == position && choice[0].1 >= c)
    }

    /** Skipping the place covers the candidates that skip it; when it must not be skipped there are none. */
    lemma SkipDominates(best: Option<real>, position: nat, used: seq<bool>, held: nat, score: real)
      requires Valid() && position < |active| && held < target && |used| == clusters
      requires |active| - position <= target - held || Dominates(best, position + 1, used, held, score)
      ensures DominatesUpTo(best, position, used, held, score, 0)
    {
      forall choice: Choice | Candidate(position, used, held, choice) && !(|choice| > 0 && choice[0].0 == position)
        ensures AtLeast(best, score + Value(choice))
      {
        ChoiceSplits(|active|, position, used, choice);
        ChoiceFits(|active|, position + 1, used, choice);
        assert Candidate(position + 1, used, held, choice);
      }
    }

    /** Having tried cluster c for the place, candidates with that cluster are dominated too. */
    lemma TryDominates(before: Option<real>, after: Option<real>, position: nat, used: seq<bool>, held: nat,
                       score: real, c: nat)
      requires Valid() && position < |active| && |used| == clusters && c < clusters
      requires DominatesUpTo(before, position, used, held, score, c)
      requires forall x :: AtLeast(before, x) ==> AtLeast(after, x)
      requires used[c] || Dominates(after, position + 1, used[c := true], held + 1, score + scores[active[position]][c])
      ensures DominatesUpTo(after, position, used, held, score, c + 1)
    {
      forall choice: Choice |
        Candidate(position, used, held, choice) && !(|choice| > 0 && choice[0].0 == position && choice[0].1 >= c + 1)
        ensures AtLeast(after, score + Value(choice))
      {
        if |choice| > 0 && choice[0] == (position, c) {
          ChoiceSplits(|active|, position, used, choice);
          assert Candidate(position + 1, used[c := true], held + 1, choice[1..]);
        } else {
          assert AtLeast(before, score + Value(choice));
        }
      }
    }

    /** An improvement found after skipping the place, or after giving it cluster c, is one from here. */
    lemma SkipImproves(position: nat, used: seq<bool>, held: seq<(nat, nat)>, score: real, was: Best, now: Best)
      requires Valid() && Improves(position + 1, used, held, score, was, now)
      ensures Improves(position, used, held, score, was, now)
    {
      if now != was {
        var choice: Choice :|
          && Candidate(position + 1, used, |held|, choice) && Beats(choice, held, score, was, now)
          && IsFirst(position + 1, used, |held|, choice);
        assert Candidate(position, used, |held|, choice);
        FirstAmongSkips(position, used, |held|, choice);
      }
    }

    /** What leaves the place out is met before everything that takes it. */
    lemma FirstAmongSkips(position: nat, used: seq<bool>, held: nat, choice: Choice)
      requires Valid() && Candidate(position + 1, used, held, choice) && Candidate(position, used, held, choice)
      requires IsFirst(position + 1, used, held, choice)
      ensures IsFirst(position, used, held, choice)
    {
      forall other: Choice | Candidate(position, used, held, other) && Earlier(other, choice)
        ensures Value(other) < Value(choice)
      {
        EarlierHead(other, choice);
        ChoiceSplits(|active|, position, used, other);
        assert Candidate(position + 1, used, held, other);
      }
    }

    /** What is met before a choice that gives the place cluster c leaves the place out, gives it a lower
        cluster, or agrees on it; so it was dominated before, or is met before the rest. */
    lemma FirstWithCluster(best: Option<real>, position: nat, used: seq<bool>, held: nat, score: real, c: nat,
                           rest: Choice)
      requires Valid() && position < |active| && |used| == clusters && c < clusters && !used[c]
      requires DominatesUpTo(best, position, used, held, score, c)
      requires Candidate(position + 1, used[c := true], held + 1, rest)
      requires Candidate(position, used, held, [(position, c)] + rest)
      requires IsFirst(position + 1, used[c := true], held + 1, rest)
      requires !AtLeast(best, score + Value([(position, c)] + rest))
      ensures IsFirst(position, used, held, [(position, c)] + rest)
    {
      var choice := [(position, c)] + rest;
      assert choice[1..] == rest;
      forall other: Choice | Candidate(position, used, held, other) && Earlier(other, choice)
        ensures Value(other) < Value(choice)
      {
        EarlierHead(other, choice);
        if other[0] == choice[0] {
          EarlierTail(other, choice);
          ChoiceSplits(|active|, position, used, other);
          assert Candidate(position + 1, used[c := true], held + 1, other[1..]);
        } else {
          assert AtLeast(best, score + Value(other));
        }
      }
    }

    /** A choice found with cluster c that beats what was best before, beats what was best before that. */
    lemma TryBeats(position: nat, used: seq<bool>, held: seq<(nat, nat)>, score: real, c: nat,
                   next: seq<(nat, nat)>, more: real, was: Best, mid: Best, now: Best, rest: Choice)
      requires Valid() && position < |active| && |used| == clusters && c < clusters && !used[c]
      requires next == held + [(active[position], c)] && more == score + scores[active[position]][c]
      requires forall x :: AtLeast(was.score, x) ==> AtLeast(mid.score, x)
      requires Candidate(position + 1, used[c := true], |next|, rest) && Beats(rest, next, more, mid, now)
      ensures Candidate(position, used, |held|, [(position, c)] + rest)
      ensures Beats([(position, c)] + rest, held, score, was, now)
      ensures !AtLeast(mid.score, score + Value([(position, c)] + rest))
    {
      Prepend(position, used, held, score, c, rest);
    }

    lemma TryImproves(position: nat, used: seq<bool>, held: seq<(nat, nat)>, score: real, c: nat,
                      next: seq<(nat, nat)>, more: real, was: Best, mid: Best, now: Best)
      requires Valid() && position < |active| && |used| == clusters && c < clusters && !used[c]
      requires next == held + [(active[position], c)] && more == score + scores[active[position]][c]
      requires DominatesUpTo(mid.score, position, used, |held|, score, c)
      requires Improves(position, used, held, score, was, mid)
      requires Improves(position + 1, used[c := true], next, more, mid, now)
      ensures Improves(position, used, held, score, was, now)
    {
      if now != mid {
        var rest: Choice :|
          && Candidate(position + 1, used[c := true], |next|, rest) && Beats(rest, next, more, mid, now)
          && IsFirst(position + 1, used[c := true], |next|, rest);
        NeverWorse(position, used, held, score, was, mid);
        TryBeats(position, used, held, score, c, next, more, was, mid, now, rest);
        FirstWithCluster(mid.score, position, used, |held|, score, c, rest);
        assert Candidate(position, used, |held|, [(position, c)] + rest);
      }
    }

    /** The best never gets worse. */
    lemma NeverWorse(position: nat, used: seq<bool>, held: seq<(nat, nat)>, score: real, was: Best, now: Best)
      requires Valid() && Improves(position, used, held, score, was, now)
      ensures forall x :: AtLeast(was.score, x) ==> AtLeast(now.score, x)
    {
    }

    /** What trying cluster c for `position` achieves, from what its completions achieved. */
    lemma Tried(position: nat, used: seq<bool>, held: seq<(nat, nat)>, score: real, c: nat,
                next: seq<(nat, nat)>, more: real, was: Best, mid: Best, now: Best)
      requires Valid() && position < |active| && |used| == clusters && c < clusters && !used[c]
      requires next == held + [(active[position], c)] && more == score + scores[active[position]][c]
      requires DominatesUpTo(mid.score, position, used, |held|, score, c)
      requires Improves(position, used, held, score, was, mid)
      requires Dominates(now.score, position + 1, used[c := true], |next|, more)
      requires Improves(position + 1, used[c := true], next, more, mid, now)
      ensures DominatesUpTo(now.score, position, used, |held|, score, c + 1)
      ensures Improves(position, used, held, score, was, now)
    {
      NeverWorse(position + 1, used[c := true], next, more, mid, now);
      TryDominates(mid.score, now.score, position, used, |held|, score, c);
      TryImproves(position, used, held, score, c, next, more, was, mid, now);
    }

    lemma Prepend(position: nat, used: seq<bool>, held: seq<(nat, nat)>, score: real, c: nat, rest: Choice)
      requires Valid() && position < |active| && |used| == clusters && c < clusters && !used[c]
      requires Candidate(position + 1, used[c := true], |held| + 1, rest)
      ensures Candidate(position, used, |held|, [(position, c)] + rest)
      ensures score + Value([(position, c)] + rest) == (score + scores[active[position]][c]) + Value(rest)
      ensures held + Pairs(active, [(position, c)] + rest) == (held + [(active[position], c)]) + Pairs(active, rest)
    {
      var choice := [(position, c)] + rest;
      ChoiceJoins(|active|, position, used, c, rest);
      assert choice[1..] == rest;
      assert Pairs(active, choice) == [(active[position], c)] + Pairs(active, rest);
    }
  }

  // --- Scores that may be minus infinity ---------------------------------------------------------

  /** A similarity score, or nothing for minus infinity. */
  type Similarity = Option<real>

  function Plus(a: Similarity, b: Similarity): Similarity {
    if a.Some? && b.Some? then Some(a.value + b.value) else None
  }

  predicate Exceeds(a: Similarity, b: Similarity) {
    a.Some? && !AtLeast(b, a.value)
  }

  ghost predicate Shaped(scores: seq<seq<Similarity>>, active: seq<nat>, clusters: nat) {
    forall p :: 0 <= p < |active| ==> active[p] < |scores| && |scores[active[p]]| >= clusters
  }

  ghost predicate Finite(scores: seq<seq<Similarity>>, active: seq<nat>, clusters: nat)
    requires Shaped(scores, active, clusters)
  {
    forall p, c :: 0 <= p < |active| && 0 <= c < clusters ==> scores[active[p]][c].Some?
  }

  ghost predicate Hopeless(scores: seq<seq<Similarity>>, active: seq<nat>, clusters: nat)
    requires Shaped(scores, active, clusters)
  {
    forall p, c :: 0 <= p < |active| && 0 <= c < clusters ==> scores[active[p]][c].None?
  }

  /** The finite scores as reals. */
  ghost function Reals(scores: seq<seq<Similarity>>): seq<seq<real>> {
    seq(|scores|, s requires 0 <= s < |scores| =>
      seq(|scores[s]|, c requires 0 <= c < |scores[s]| => if scores[s][c].Some? then scores[s][c].value else 0.0))
  }

  /** `reals` has the shape of `scores` and its finite values. */
  ghost predicate Agree(scores: seq<seq<Similarity>>, reals: seq<seq<real>>) {
    && |reals| == |scores| && (forall s :: 0 <= s < |reals| ==> |reals[s]| == |scores[s]|)
    && forall s, c :: 0 <= s < |scores| && 0 <= c < |scores[s]| && scores[s][c].Some? ==>
        reals[s][c] == scores[s][c].value
  }

  class Search {
    ghost const task: Problem
    const scores: seq<seq<Similarity>>
    const active: seq<nat>
    const clusters: nat
    const target: nat
    const usedClusters: array<bool>
    var current: seq<(nat, nat)>
    var bestScore: Similarity
    var best: seq<(nat, nat)>

    ghost predicate Valid() {
      && Shaped(scores, active, clusters) && usedClusters.Length == clusters
      && task == Problem(task.scores, active, clusters, target) && task.Valid() && Agree(scores, task.scores)
    }

    constructor (scores: seq<seq<Similarity>>, active: seq<nat>, target: nat, clusters: nat)
      requires Shaped(scores, active, clusters)
      ensures Valid() && fresh(usedClusters) && usedClusters[..] == seq(clusters, _ => false)
      ensures this.scores == scores && this.active == active && this.target == target && this.clusters == clusters
      ensures task == Problem(Reals(scores), active, clusters, target)
      ensures current == [] && bestScore == None && best == []
    {
      task := Problem(Reals(scores), active, clusters, target);
      this.scores, this.active, this.target, this.clusters := scores, active, target, clusters;
      usedClusters := new bool[clusters](_ => false);
      current, bestScore, best := [], None, [];
    }

    ghost predicate AllFinite()
      requires Valid()
    {
      Finite(scores, active, clusters)
    }

    ghost function Found(): Best
      reads this
    {
      Best(bestScore, best)
    }

    /** Where no score is finite, nothing has been kept, and a partial assignment scores minus infinity. */
    ghost predicate NothingKept(currentScore: Similarity)
      reads this
      requires Shaped(scores, active, clusters)
    {
      Hopeless(scores, active, clusters) ==> best == [] && (currentScore == None || current == [])
    }

    /** The partial assignment is full-size: it is kept if it beats the best so far. */
    method KeepIfBetter(ghost position: nat, currentScore: Similarity)
      requires Valid() && |current| == target
      requires AllFinite() ==> currentScore.Some?
      requires NothingKept(currentScore)
      modifies this`bestScore, this`best
      ensures AllFinite() ==> task.Dominates(bestScore, position, usedClusters[..], |current|, currentScore.value)
      ensures AllFinite() ==>
                task.Improves(position, usedClusters[..], current, currentScore.value, old(Found()), Found())
      ensures Hopeless(scores, active, clusters) ==> best == []
    {
      assert task.Candidate(position, usedClusters[..], |current|, []);
      if Exceeds(currentScore, bestScore) {
        bestScore := currentScore;
        best := current;
        assert current + Pairs(active, []) == best;
      }
    }

    /** Try every completion of the current partial assignment, and put everything back. */
    method Run(position: nat, currentScore: Similarity)
      requires Valid() && position <= |active| && |current| <= target
      requires AllFinite() ==> currentScore.Some?
      requires NothingKept(currentScore)
      modifies this, usedClusters
      ensures usedClusters[..] == old(usedClusters[..]) && current == old(current)
      ensures AllFinite() ==> task.Dominates(bestScore, position, usedClusters[..], |current|, currentScore.value)
      ensures AllFinite() ==>
                task.Improves(position, usedClusters[..], current, currentScore.value, old(Found()), Found())
      ensures Hopeless(scores, active, clusters) ==> best == []
      decreases |active| - position, 1
    {
      ghost var p, used, held, was := task, usedClusters[..], current, Found();
      if |current| == target {
        KeepIfBetter(position, currentScore);
        return;
      }
      if position == |active| {
        return;
      }
      var remainingLocal := |active| - position;
      var remainingNeeded := target - |current|;
      if remainingLocal > remainingNeeded {
        Run(position + 1, currentScore);
        if AllFinite() {
          p.SkipImproves(position, used, held, currentScore.value, was, Found());
        }
      }
      if AllFinite() {
        p.SkipDominates(bestScore, position, used, |held|, currentScore.value);
      }
      for c := 0 to clusters
        invariant usedClusters[..] == used && current == held
        invariant AllFinite() ==> p.DominatesUpTo(bestScore, position, used, |held|, currentScore.value, c)
        invariant AllFinite() ==> p.Improves(position, used, held, currentScore.value, was, Found())
        invariant Hopeless(scores, active, clusters) ==> best == []
      {
        if usedClusters[c] {
          if AllFinite() {
            p.TryDominates(bestScore, bestScore, position, used, |held|, currentScore.value, c);
          }
          continue;
        }
        TryCluster(position, currentScore, c, was);
      }
    }

    lemma ScoreOfNext(position: nat, currentScore: Similarity, c: nat)
      requires Valid() && position < |active| && c < clusters && (AllFinite() ==> currentScore.Some?)
      ensures var score := Plus(currentScore, scores[active[position]][c]);
              && (AllFinite() ==> score == Some(currentScore.value + task.scores[active[position]][c]))
              && (Hopeless(scores, active, clusters) ==> score == None)
    {
    }

    /** Give `position` the free cluster c, try all that follows from it, and take it back. */
    method TryCluster(position: nat, currentScore: Similarity, c: nat, ghost was: Best)
      requires Valid() && position < |active| && |current| < target && c < clusters && !usedClusters[c]
      requires AllFinite() ==> currentScore.Some?
      requires AllFinite() ==>
                 task.DominatesUpTo(bestScore, position, usedClusters[..], |current|, currentScore.value, c)
      requires AllFinite() ==>
                 task.Improves(position, usedClusters[..], current, currentScore.value, was, Found())
      requires Hopeless(scores, active, clusters) ==> best == []
      modifies this, usedClusters
      ensures usedClusters[..] == old(usedClusters[..]) && current == old(current)
      ensures AllFinite() ==>
                task.DominatesUpTo(bestScore, position, usedClusters[..], |current|, currentScore.value, c + 1)
      ensures AllFinite() ==>
                task.Improves(position, usedClusters[..], current, currentScore.value, was, Found())
      ensures Hopeless(scores, active, clusters) ==> best == []
      decreases |active| - position, 0
    {
      ghost var p, used, held, mid := task, usedClusters[..], current, Found();
      var speaker := active[position];
      ScoreOfNext(position, currentScore, c);
      var score := Plus(currentScore, scores[speaker][c]);
      usedClusters[c] := true;
      current := current + [(speaker, c)];
      ghost var next := current;
      assert usedClusters[..] == used[c := true];
      Run(position + 1, score);
      assert current[..|current| - 1] == held;
      current := current[..|current| - 1];
      usedClusters[c] := false;
      assert usedClusters[..] == used;
      if AllFinite() {
        p.Tried(position, used, held, currentScore.value, c, next, score.value, was, mid, Found());
      }
    }
  }

  function Unused(clusters: nat): seq<bool> {
    seq(clusters, _ => false)
  }

  /** Some full-size choice always exists: the first places with the first clusters. */
  lemma DiagonalChoice(p: Problem) returns (choice: Choice)
    requires p.target == Min(|p.active|, p.clusters)
    ensures p.Candidate(0, Unused(p.clusters), 0, choice)
  {
    choice := seq(p.target, k requires 0 <= k < p.target => (k, k));
  }

  /** `best` pairs every place of a full-size choice that no full-size choice beats, the first one that
      the search meets among the equally good. */
  ghost predicate IsBestChoice(p: Problem, choice: Choice, best: seq<(nat, nat)>)
    requires p.Valid()
  {
    && p.Candidate(0, Unused(p.clusters), 0, choice)
    && best == Pairs(p.active, choice)
    && (forall other: Choice :: p.Candidate(0, Unused(p.clusters), 0, other) ==> p.Value(other) <= p.Value(choice))
    && p.IsFirst(0, Unused(p.clusters), 0, choice)
  }

  /** So the search has one answer. */
  lemma BestIsUnique(p: Problem, x: Choice, y: Choice, best: seq<(nat, nat)>, other: seq<(nat, nat)>)
    requires p.Valid() && IsBestChoice(p, x, best) && IsBestChoice(p, y, other)
    ensures x == y && best == other
  {
    if x != y {
      EarlierIsTotal(x, y);
    }
  }

  lemma SomethingFound(p: Problem, score: Option<real>)
    requires p.Valid() && p.target == Min(|p.active|, p.clusters)
    requires p.Dominates(score, 0, Unused(p.clusters), 0, 0.0)
    ensures score.Some?
  {
    var diagonal := DiagonalChoice(p);
    assert AtLeast(score, 0.0 + p.Value(diagonal));
  }

  lemma FoundIsBest(p: Problem, found: Best) returns (choice: Choice)
    requires p.Valid() && p.target == Min(|p.active|, p.clusters)
    requires p.Dominates(found.score, 0, Unused(p.clusters), 0, 0.0)
    requires p.Improves(0, Unused(p.clusters), [], 0.0, Best(None, []), found)
    ensures IsBestChoice(p, choice, found.pairs)
  {
    SomethingFound(p, found.score);
    choice :|
      && p.Candidate(0, Unused(p.clusters), 0, choice) && p.Beats(choice, [], 0.0, Best(None, []), found)
      && p.IsFirst(0, Unused(p.clusters), 0, choice);
    assert [] + Pairs(p.active, choice) == Pairs(p.active, choice);
    NoneAbove(p, found.score, p.Value(choice));
  }

  lemma NoneAbove(p: Problem, score: Option<real>, value: real)
    requires p.Valid() && score == Some(0.0 + value) && p.Dominates(score, 0, Unused(p.clusters), 0, 0.0)
    ensures forall other: Choice :: p.Candidate(0, Unused(p.clusters), 0, other) ==> p.Value(other) <= value
  {
    forall other: Choice | p.Candidate(0, Unused(p.clusters), 0, other)
      ensures p.Value(other) <= value
    {
      assert AtLeast(score, 0.0 + p.Value(other));
    }
  }

  /** On finite scores the best full-size choice, the first one met among equals; where every score is minus
      infinity nothing is kept. */
  method BestAssignment(scores: seq<seq<Similarity>>, active: seq<nat>, clusters: nat) returns (best: seq<(nat, nat)>)
    requires Shaped(scores, active, clusters)
    ensures var p := Problem(Reals(scores), active, clusters, Min(|active|, clusters));
            Finite(scores, active, clusters) ==> exists choice: Choice :: IsBestChoice(p, choice, best)
    ensures Hopeless(scores, active, clusters) ==> best == []
  {
    var target := Min(|active|, clusters);
    var search := new Search(scores, active, target, clusters);
    search.Run(0, Some(0.0));
    best := search.best;
    if Finite(scores, active, clusters) {
      ghost var choice := FoundIsBest(search.task, search.Found());
    }
  }

  /** The pairs handed out: as many as the smaller side has, speakers different, clusters different. */
  lemma BestIsOneToOne(p: Problem, choice: Choice, best: seq<(nat, nat)>)
    requires p.Valid() && Distinct(p.active) && p.target == Min(|p.active|, p.clusters)
    requires IsBestChoice(p, choice, best)
    ensures |best| == Min(|p.active|, p.clusters)
    ensures forall k :: 0 <= k < |best| ==> best[k].0 in p.active && best[k].1 < p.clusters
    ensures forall j, k :: 0 <= j < k < |best| ==> best[j].0 != best[k].0 && best[j].1 != best[k].1
  {
  }

  // --- The same optimum as the assignment solver's --------------------------------------------

  /** The score rows of the active speakers. */
  function ActiveRows(scores: seq<seq<real>>, active: seq<nat>): seq<seq<real>>
    requires forall k :: 0 <= k < |active| ==> active[k] < |scores|
  {
    seq(|active|, k requires 0 <= k < |active| => scores[active[k]])
  }

  lemma {:induction false} ScoreAppend(scores: seq<seq<real>>, active: seq<nat>, clusters: nat, choice: Choice,
                                       last: (nat, nat))
    requires Covering(scores, active, clusters)
    requires forall k :: 0 <= k < |choice| ==> choice[k].0 < |active| && choice[k].1 < clusters
    requires last.0 < |active| && last.1 < clusters
    ensures Score(scores, active, clusters, choice + [last])
         == Score(scores, active, clusters, choice) + scores[active[last.0]][last.1]
  {
    if |choice| == 0 {
      assert (choice + [last])[1..] == [];
    } else {
      ScoreAppend(scores, active, clusters, choice[1..], last);
      assert (choice + [last])[1..] == choice[1..] + [last];
    }
  }

  /** The choice a mapping of the first k places makes. */
  ghost function ChoiceOf(m: map<nat, nat>, k: nat): Choice {
    if k == 0 then [] else ChoiceOf(m, k - 1) + if k - 1 in m then [(k - 1, m[k - 1])] else []
  }

  ghost function KeysBelow(m: map<nat, nat>, k: nat): set<nat> {
    set i | i in m && i < k
  }

  lemma {:induction false} ChoiceOfCompletes(rows: nat, clusters: nat, m: map<nat, nat>, k: nat)
    requires k <= rows && PartialInjection(m, rows, clusters)
    ensures Completes(k, 0, Unused(clusters), ChoiceOf(m, k))
    ensures forall j :: 0 <= j < |ChoiceOf(m, k)| ==>
            ChoiceOf(m, k)[j].0 in m && m[ChoiceOf(m, k)[j].0] == ChoiceOf(m, k)[j].1
  {
    if k == 0 {
    } else {
      ChoiceOfCompletes(rows, clusters, m, k - 1);
      var before := ChoiceOf(m, k - 1);
      assert forall j :: 0 <= j < |before| ==> before[j].0 < k - 1;
    }
  }

  lemma {:induction false} ChoiceOfSize(m: map<nat, nat>, k: nat)
    ensures |ChoiceOf(m, k)| == |KeysBelow(m, k)|
  {
    if k == 0 {
      assert KeysBelow(m, 0) == {};
    } else {
      ChoiceOfSize(m, k - 1);
      assert KeysBelow(m, k) == KeysBelow(m, k - 1) + if k - 1 in m then {k - 1} else {};
    }
  }

  lemma {:induction false} ChoiceOfValue(p: Problem, m: map<nat, nat>, k: nat)
    requires p.Valid() && k <= |p.active| && PartialInjection(m, |p.active|, p.clusters)
    requires Completes(k, 0, Unused(p.clusters), ChoiceOf(m, k))
    ensures p.Value(ChoiceOf(m, k)) == MappingValue(ActiveRows(p.scores, p.active), m, k)
  {
    if k == 0 {
    } else {
      ChoiceOfCompletes(|p.active|, p.clusters, m, k - 1);
      ChoiceOfValue(p, m, k - 1);
      if k - 1 in m {
        ScoreAppend(p.scores, p.active, p.clusters, ChoiceOf(m, k - 1), (k - 1, m[k - 1]));
      } else {
        assert ChoiceOf(m, k) == ChoiceOf(m, k - 1);
      }
    }
  }

  lemma {:induction false} ChoiceOfAgrees(x: map<nat, nat>, y: map<nat, nat>, k: nat)
    requires forall i: nat :: i < k ==> (i in x <==> i in y) && (i in x ==> x[i] == y[i])
    ensures ChoiceOf(x, k) == ChoiceOf(y, k)
  {
    if k == 0 {
    } else {
      ChoiceOfAgrees(x, y, k - 1);
    }
  }

  ghost predicate DrawnFrom(m: map<nat, nat>, choice: Choice) {
    forall i :: i in m ==> (i, m[i]) in choice
  }

  /** The mapping gives each place below k the cluster the choice gives it. */
  ghost predicate Represents(m: map<nat, nat>, choice: Choice, k: nat, clusters: nat) {
    PartialInjection(m, k, clusters) && ChoiceOf(m, k) == choice && DrawnFrom(m, choice)
  }

  /** `choice` ends with place k - 1: give that place its cluster in a mapping of the rest. */
  lemma AddPair(before: map<nat, nat>, choice: Choice, k: nat, clusters: nat) returns (m: map<nat, nat>)
    requires |choice| > 0 && k > 0 && choice[|choice| - 1].0 == k - 1 && choice[|choice| - 1].1 < clusters
    requires forall j :: 0 <= j < |choice| - 1 ==> choice[j].1 != choice[|choice| - 1].1
    requires Represents(before, choice[..|choice| - 1], k - 1, clusters)
    ensures Represents(m, choice, k, clusters)
  {
    var front, c := choice[..|choice| - 1], choice[|choice| - 1].1;
    m := before[k - 1 := c];
    ChoiceOfAgrees(before, m, k - 1);
    assert choice == front + [(k - 1, c)];
    forall i | i in before
      ensures before[i] != c
    {
      assert (i, before[i]) in front;
    }
  }

  lemma TakeLast(choice: Choice, clusters: nat, k: nat)
    requires k > 0 && Completes(k, 0, Unused(clusters), choice)
    ensures if |choice| > 0 && choice[|choice| - 1].0 == k - 1
            then && Completes(k - 1, 0, Unused(clusters), choice[..|choice| - 1])
                 && choice[|choice| - 1].1 < clusters
                 && forall j :: 0 <= j < |choice| - 1 ==> choice[j].1 != choice[|choice| - 1].1
            else Completes(k - 1, 0, Unused(clusters), choice)
  {
  }

  lemma ChoiceOfUnchanged(m: map<nat, nat>, choice: Choice, k: nat, clusters: nat)
    requires k > 0 && Represents(m, choice, k - 1, clusters)
    ensures Represents(m, choice, k, clusters)
  {
    assert ChoiceOf(m, k) == ChoiceOf(m, k - 1) + [];
  }

  lemma NoPlaces(choice: Choice, clusters: nat)
    requires Completes(0, 0, Unused(clusters), choice)
    ensures choice == []
  {
    ChoiceFits(0, 0, Unused(clusters), choice);
  }

  /** Every choice is the choice of a mapping. */
  lemma {:induction false} MapOfChoice(choice: Choice, clusters: nat, k: nat) returns (m: map<nat, nat>)
    requires Completes(k, 0, Unused(clusters), choice)
    ensures Represents(m, choice, k, clusters)
  {
    if k == 0 {
      NoPlaces(choice, clusters);
      m := map[];
    } else {
      TakeLast(choice, clusters, k);
      if |choice| > 0 && choice[|choice| - 1].0 == k - 1 {
        var before := MapOfChoice(choice[..|choice| - 1], clusters, k - 1);
        m := AddPair(before, choice, k, clusters);
      } else {
        m := MapOfChoice(choice, clusters, k - 1);
        ChoiceOfUnchanged(m, choice, k, clusters);
      }
    }
  }

  /** Over all full-size one-to-one assignments of active speakers to clusters, given as mappings,
      the search's is maximal. */
  lemma BestIsMaximal(p: Problem, choice: Choice, best: seq<(nat, nat)>, other: map<nat, nat>)
    requires p.Valid() && p.target == Min(|p.active|, p.clusters) && IsBestChoice(p, choice, best)
    requires PartialInjection(other, |p.active|, p.clusters) && |other| == p.target
    ensures MappingValue(ActiveRows(p.scores, p.active), other, |p.active|) <= p.Value(choice)
  {
    ChoiceOfCompletes(|p.active|, p.clusters, other, |p.active|);
    ChoiceOfValue(p, other, |p.active|);
    ChoiceOfSize(other, |p.active|);
    assert KeysBelow(other, |p.active|) == other.Keys;
  }

  /** The exhaustive search and the assignment solver reach the same optimum on the same matrix. */
  lemma SearchAgreesWithSolver(p: Problem, choice: Choice, best: seq<(nat, nat)>, solved: map<nat, nat>)
    requires p.Valid() && p.target == Min(|p.active|, p.clusters) && IsBestChoice(p, choice, best)
    requires Covers(ActiveRows(p.scores, p.active), |p.active|, p.clusters)
    requires IsBestMapping(ActiveRows(p.scores, p.active), |p.active|, p.clusters, solved)
    ensures p.Value(choice) == MappingValue(ActiveRows(p.scores, p.active), solved, |p.active|)
  {
    BestIsMaximal(p, choice, best, solved);
    var m := MapOfChoice(choice, p.clusters, |p.active|);
    ChoiceOfSize(m, |p.active|);
    assert KeysBelow(m, |p.active|) == m.Keys;
    ChoiceOfValue(p, m, |p.active|);
  }
}
