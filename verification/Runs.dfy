/** Maximal runs of equal frames. */
module Runs {
  /** Start of the maximal run of equal frames around i. */
  function RunStart(a: seq<bool>, i: nat): (s: nat)
    requires i < |a|
    ensures s <= i && (forall k :: s <= k <= i ==> a[k] == a[i]) && (s > 0 ==> a[s - 1] != a[i])
  {
    if i == 0 || a[i - 1] != a[i] then i else RunStart(a, i - 1)
  }

  /** End, exclusive, of the maximal run of equal frames around i. */
  function RunEnd(a: seq<bool>, i: nat): (e: nat)
    requires i < |a|
    ensures i < e <= |a| && (forall k :: i <= k < e ==> a[k] == a[i]) && (e < |a| ==> a[e] != a[i])
    decreases |a| - i
  {
    if i + 1 == |a| || a[i + 1] != a[i] then i + 1 else RunEnd(a, i + 1)
  }

  function RunLength(a: seq<bool>, i: nat): nat
    requires i < |a|
  {
    RunEnd(a, i) - RunStart(a, i)
  }

  ghost predicate IsRun(a: seq<bool>, target: bool, s: nat, e: nat) {
    && s < e <= |a| && (forall k :: s <= k < e ==> a[k] == target)
    && (s > 0 ==> a[s - 1] != target) && (e < |a| ==> a[e] != target)
  }

  lemma RunIsMaximal(a: seq<bool>, i: nat)
    requires i < |a|
    ensures IsRun(a, a[i], RunStart(a, i), RunEnd(a, i))
  {
  }

  lemma RunIsUnique(a: seq<bool>, target: bool, s: nat, e: nat, i: nat)
    requires IsRun(a, target, s, e) && s <= i < e
    ensures RunStart(a, i) == s && RunEnd(a, i) == e && a[i] == target
  {
    var x, y := RunStart(a, i), RunEnd(a, i);
    assert s <= x by {
      assert s > 0 ==> a[s - 1] != a[i];
    }
    assert x <= s by {
      assert x > 0 ==> a[x - 1] != a[i];
    }
    assert y <= e by {
      assert e < |a| ==> a[e] != a[i];
    }
    assert e <= y by {
      assert y < |a| ==> a[y] != a[i];
    }
  }

  /** The listed runs are the maximal runs of the target below n, in order. */
  ghost predicate AreRuns(a: seq<bool>, target: bool, runs: seq<(nat, nat)>, n: nat) {
    && (forall k :: 0 <= k < |runs| ==> IsRun(a, target, runs[k].0, runs[k].1) && runs[k].1 <= n)
    && (forall j, k :: 0 <= j < k < |runs| ==> runs[j].1 <= runs[k].0)
    && forall i :: 0 <= i < n && i < |a| && a[i] == target ==> InSome(runs, i)
  }

  ghost predicate InSome(runs: seq<(nat, nat)>, i: nat) {
    exists k :: 0 <= k < |runs| && runs[k].0 <= i < runs[k].1
  }

  lemma InSomeAppend(runs: seq<(nat, nat)>, run: (nat, nat), i: nat)
    ensures InSome(runs + [run], i) <==> InSome(runs, i) || run.0 <= i < run.1
  {
    var more := runs + [run];
    if InSome(runs, i) {
      var k :| 0 <= k < |runs| && runs[k].0 <= i < runs[k].1;
      assert more[k] == runs[k];
    }
    assert more[|runs|] == run;
  }

  method FindRuns(a: seq<bool>, target: bool) returns (runs: seq<(nat, nat)>)
    ensures AreRuns(a, target, runs, |a|)
  {
    runs := [];
    var i := 0;
    while i < |a|
      invariant 0 <= i <= |a| && AreRuns(a, target, runs, i)
      invariant 0 < i < |a| && a[i] == target ==> a[i - 1] != target
    {
      if a[i] == target {
        var start := i;
        while i < |a| && a[i] == target
          invariant start <= i <= |a|
          invariant forall k :: start <= k < i ==> a[k] == target
          decreases |a| - i
        {
          i := i + 1;
        }
        forall k: nat
          ensures InSome(runs + [(start, i)], k) <==> InSome(runs, k) || start <= k < i
        {
          InSomeAppend(runs, (start, i), k);
        }
        runs := runs + [(start, i)];
      } else {
        i := i + 1;
      }
    }
  }

  lemma RunFacts(a: seq<bool>, target: bool, s: nat, e: nat)
    requires IsRun(a, target, s, e)
    ensures forall i: nat :: s <= i < e ==>
            a[i] == target && RunStart(a, i) == s && RunEnd(a, i) == e && RunLength(a, i) == e - s
  {
    forall i: nat | s <= i < e
      ensures a[i] == target && RunStart(a, i) == s && RunEnd(a, i) == e
    {
      RunIsUnique(a, target, s, e, i);
    }
  }
}
