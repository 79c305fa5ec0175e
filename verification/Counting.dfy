/** Finite sums, permutations and the pigeonhole facts the scoring and assignment proofs share. */
module Counting {
  // --- Extremes ------------------------------------------------------------------------

  function Min(a: nat, b: nat): nat {
    if a < b then a else b
  }

  function Max(a: nat, b: nat): nat {
    if a < b then b else a
  }

  function MinReal(a: real, b: real): real {
    if a < b then a else b
  }

  function MaxReal(a: real, b: real): real {
    if a > b then a else b
  }

  /** The set {0, .., n-1}. */
  ghost function UpTo(n: nat): (s: set<nat>)
    ensures |s| == n
    ensures forall i: nat :: i in s <==> i < n
  {
    if n == 0 then {} else UpTo(n - 1) + {n - 1}
  }

  lemma SubsetSize<T>(a: set<T>, b: set<T>)
    requires a <= b
    ensures |a| <= |b|
    ensures |a| == |b| ==> a == b
  {
    assert b == a + (b - a);
    assert |b| == |a| + |b - a|;
  }

  /** A smaller set misses some element of a larger one. */
  lemma Missed<T>(small: set<T>, large: set<T>) returns (x: T)
    requires |small| < |large|
    ensures x in large && x !in small
  {
    if large <= small {
      SubsetSize(large, small);
      assert false;
    }
    x :| x in large && x !in small;
  }

  ghost predicate Distinct<T(!new)>(s: seq<T>) {
    forall i, j :: 0 <= i < j < |s| ==> s[i] != s[j]
  }

  ghost function Elements<T(!new)>(s: seq<T>): set<T> {
    set x | x in s
  }

  lemma {:induction false} DistinctSize<T(!new)>(s: seq<T>)
    requires Distinct(s)
    ensures |Elements(s)| == |s|
  {
    if |s| == 0 {
      assert Elements(s) == {};
    } else {
      var front, last := s[..|s| - 1], s[|s| - 1];
      DistinctSize(front);
      assert s == front + [last];
      assert Elements(s) == Elements(front) + {last};
    }
  }

  /** `q` lists 0..n-1 in some order. */
  ghost predicate IsPermutation(q: seq<nat>, n: nat) {
    && |q| == n
    && (forall i :: 0 <= i < n ==> q[i] < n)
    && Distinct(q)
  }

  lemma PermutationHits(q: seq<nat>, n: nat, x: nat)
    requires IsPermutation(q, n) && x < n
    ensures x in q
  {
    DistinctSize(q);
    assert Elements(q) <= UpTo(n);
    SubsetSize(Elements(q), UpTo(n));
    assert x in UpTo(n);
  }

  function Total(w: seq<real>): real {
    if |w| == 0 then 0.0 else Total(w[..|w| - 1]) + w[|w| - 1]
  }

  lemma TotalAppend(w: seq<real>, x: real)
    ensures Total(w + [x]) == Total(w) + x
  {
    assert (w + [x])[..|w|] == w;
  }

  /** Sum of `w` at the positions listed in `q`. */
  function IndexedSum(w: seq<real>, q: seq<nat>): real
    requires forall i :: 0 <= i < |q| ==> q[i] < |w|
  {
    if |q| == 0 then 0.0 else IndexedSum(w, q[..|q| - 1]) + w[q[|q| - 1]]
  }

  lemma {:induction false} IndexedSumRemove(w: seq<real>, q: seq<nat>, k: nat)
    requires forall i :: 0 <= i < |q| ==> q[i] < |w|
    requires k < |q|
    ensures IndexedSum(w, q) == IndexedSum(w, q[..k] + q[k + 1..]) + w[q[k]]
  {
    var m := |q| - 1;
    if k == m {
      assert q[..k] + q[k + 1..] == q[..m];
    } else {
      IndexedSumRemove(w, q[..m], k);
      var rest := q[..k] + q[k + 1..];
      assert rest[..|rest| - 1] == q[..m][..k] + q[..m][k + 1..];
      assert rest[|rest| - 1] == q[m];
    }
  }

  lemma {:induction false} IndexedSumPrefix(w: seq<real>, q: seq<nat>, n: nat)
    requires n <= |w|
    requires forall i :: 0 <= i < |q| ==> q[i] < n
    ensures IndexedSum(w, q) == IndexedSum(w[..n], q)
  {
    if |q| == 0 {
    } else {
      IndexedSumPrefix(w, q[..|q| - 1], n);
    }
  }

  /** Reordering the terms of a sum by a permutation does not change it. */
  lemma {:induction false} PermutationSum(w: seq<real>, q: seq<nat>)
    requires IsPermutation(q, |w|)
    ensures IndexedSum(w, q) == Total(w)
  {
    var n := |w|;
    if n == 0 {
    } else {
      PermutationHits(q, n, n - 1);
      var k :| 0 <= k < n && q[k] == n - 1;
      var rest := q[..k] + q[k + 1..];
      IndexedSumRemove(w, q, k);
      assert forall i :: 0 <= i < |rest| ==> rest[i] == (if i < k then q[i] else q[i + 1]);
      assert forall i :: 0 <= i < |rest| ==> rest[i] < n - 1;
      IndexedSumPrefix(w, rest, n - 1);
      PermutationSum(w[..n - 1], rest);
    }
  }

  /** dt added up n times: n * dt, without a product of two unknowns. */
  function Times(n: int, dt: real): real
    decreases if n < 0 then -n else n
  {
    if n == 0 then 0.0 else if n > 0 then Times(n - 1, dt) + dt else Times(n + 1, dt) - dt
  }

  lemma {:induction false} TimesIsProduct(n: nat, dt: real)
    ensures Times(n, dt) == n as real * dt
  {
    if n == 0 {
    } else {
      TimesIsProduct(n - 1, dt);
      assert n as real * dt == (n - 1) as real * dt + dt;
    }
  }

  lemma {:induction false} TimesAdds(a: nat, b: nat, dt: real)
    ensures Times(a + b, dt) == Times(a, dt) + Times(b, dt)
    ensures dt >= 0.0 ==> Times(b, dt) >= 0.0
  {
    if b == 0 {
    } else {
      TimesAdds(a, b - 1, dt);
    }
  }
}
