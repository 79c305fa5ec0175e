/** Enumeration of the increasing tuples of a given size, proved against a recursive reference. */
module Enumeration {
  /** A strictly increasing tuple of `size` numbers from [lo, total). */
  ghost predicate Tuple(lo: nat, total: nat, size: nat, c: seq<nat>) {
    && |c| == size && (forall i :: 0 <= i < size ==> lo <= c[i] < total)
    && forall i, j :: 0 <= i < j < size ==> c[i] < c[j]
  }

  ghost predicate DiffersAt(a: seq<nat>, b: seq<nat>, p: nat) {
    p < |a| && p < |b| && a[..p] == b[..p] && a[p] < b[p]
  }

  /** Lexicographic order. */
  ghost predicate Precedes(a: seq<nat>, b: seq<nat>) {
    exists p: nat :: DiffersAt(a, b, p)
  }

  lemma PrecedesTransitive(a: seq<nat>, b: seq<nat>, c: seq<nat>)
    requires Precedes(a, b) && Precedes(b, c)
    ensures Precedes(a, c)
  {
    var p: nat :| DiffersAt(a, b, p);
    var q: nat :| DiffersAt(b, c, q);
    var r := if p < q then p else q;
    assert a[..r] == a[..p][..r] == b[..p][..r] == b[..q][..r] == c[..q][..r] == c[..r];
    assert p < q ==> b[p] == b[..q][p] == c[..q][p] == c[p];
    assert q < p ==> a[q] == a[..p][q] == b[..p][q] == b[q];
    assert DiffersAt(a, c, r);
  }

  lemma PrecedesIrreflexive(a: seq<nat>)
    ensures !Precedes(a, a)
  {
  }

  lemma PrecedesOneWay(a: seq<nat>, b: seq<nat>)
    requires Precedes(a, b)
    ensures !Precedes(b, a)
  {
    if Precedes(b, a) {
      PrecedesTransitive(a, b, a);
    }
  }

  /** Tuples compare by their first difference: if b is pointwise at least a, it is a or follows it. */
  lemma PointwiseAtLeast(a: seq<nat>, b: seq<nat>, k: nat)
    requires |a| == |b| && k <= |a| && a[..k] == b[..k]
    requires forall i :: 0 <= i < |a| ==> a[i] <= b[i]
    ensures a == b || Precedes(a, b)
    decreases |a| - k
  {
    if k == |a| {
      assert a == a[..k] == b[..k] == b;
    } else if a[k] == b[k] {
      assert a[..k + 1] == a[..k] + [a[k]] == b[..k] + [b[k]] == b[..k + 1];
      PointwiseAtLeast(a, b, k + 1);
    } else {
      assert DiffersAt(a, b, k);
    }
  }

  // --- Reference enumeration -------------------------------------------------------------------

  function WithHead(x: nat, tails: seq<seq<nat>>): (r: seq<seq<nat>>)
    ensures |r| == |tails| && forall k :: 0 <= k < |r| ==> r[k] == [x] + tails[k]
  {
    if tails == [] then [] else [[x] + tails[0]] + WithHead(x, tails[1..])
  }

  /** All tuples from [lo, total): those that contain `lo`, then those that do not. */
  function Tuples(lo: nat, total: nat, size: nat): seq<seq<nat>>
    decreases total - lo
  {
    if size == 0 then [[]]
    else if lo >= total then []
    else WithHead(lo, Tuples(lo + 1, total, size - 1)) + Tuples(lo + 1, total, size)
  }

  function Choose(n: nat, k: nat): nat {
    if k == 0 then 1 else if n == 0 then 0 else Choose(n - 1, k - 1) + Choose(n - 1, k)
  }

  lemma {:induction false} TuplesCount(lo: nat, total: nat, size: nat)
    requires lo <= total
    ensures |Tuples(lo, total, size)| == Choose(total - lo, size)
    decreases total - lo
  {
    if size > 0 && lo < total {
      TuplesCount(lo + 1, total, size - 1);
      TuplesCount(lo + 1, total, size);
    }
  }

  lemma TupleCons(lo: nat, total: nat, size: nat, tail: seq<nat>)
    requires lo < total && 0 < size && Tuple(lo + 1, total, size - 1, tail)
    ensures Tuple(lo, total, size, [lo] + tail)
  {
    var c := [lo] + tail;
    forall i, j | 0 <= i < j < size
      ensures c[i] < c[j]
    {
      assert c[j] == tail[j - 1];
    }
  }

  lemma TupleTail(lo: nat, total: nat, size: nat, c: seq<nat>)
    requires Tuple(lo, total, size, c) && 0 < size
    ensures c[0] == lo ==> Tuple(lo + 1, total, size - 1, c[1..]) && c == [lo] + c[1..]
    ensures c[0] != lo ==> Tuple(lo + 1, total, size, c)
  {
  }

  ghost predicate AllTuples(lo: nat, total: nat, size: nat, all: seq<seq<nat>>) {
    forall k :: 0 <= k < |all| ==> Tuple(lo, total, size, all[k])
  }

  lemma {:induction false} TuplesAreTuples(lo: nat, total: nat, size: nat)
    ensures AllTuples(lo, total, size, Tuples(lo, total, size))
    decreases total - lo
  {
    if size > 0 && lo < total {
      TuplesAreTuples(lo + 1, total, size - 1);
      TuplesAreTuples(lo + 1, total, size);
      JoinedTuples(lo, total, size, Tuples(lo + 1, total, size - 1), Tuples(lo + 1, total, size));
    }
  }

  lemma JoinedTuples(lo: nat, total: nat, size: nat, tails: seq<seq<nat>>, rest: seq<seq<nat>>)
    requires lo < total && 0 < size && AllTuples(lo + 1, total, size - 1, tails) && AllTuples(lo + 1, total, size, rest)
    ensures AllTuples(lo, total, size, WithHead(lo, tails) + rest)
  {
    forall k | 0 <= k < |tails|
      ensures Tuple(lo, total, size, [lo] + tails[k])
    {
      TupleCons(lo, total, size, tails[k]);
    }
  }

  lemma {:induction false} TuplesHaveAll(lo: nat, total: nat, size: nat, c: seq<nat>) returns (k: nat)
    requires Tuple(lo, total, size, c)
    ensures k < |Tuples(lo, total, size)| && Tuples(lo, total, size)[k] == c
    decreases total - lo
  {
    if size == 0 {
      k := 0;
    } else {
      TupleTail(lo, total, size, c);
      if c[0] == lo {
        k := TuplesHaveAll(lo + 1, total, size - 1, c[1..]);
      } else {
        k := TuplesHaveAll(lo + 1, total, size, c);
        k := k + |Tuples(lo + 1, total, size - 1)|;
      }
    }
  }

  lemma PrecedesCons(x: nat, a: seq<nat>, b: seq<nat>)
    requires Precedes(a, b)
    ensures Precedes([x] + a, [x] + b)
  {
    var p: nat :| DiffersAt(a, b, p);
    assert ([x] + a)[..p + 1] == [x] + a[..p] == [x] + b[..p] == ([x] + b)[..p + 1];
    assert DiffersAt([x] + a, [x] + b, p + 1);
  }

  ghost predicate Ordered(all: seq<seq<nat>>) {
    forall j, k :: 0 <= j < k < |all| ==> Precedes(all[j], all[k])
  }

  lemma {:induction false} TuplesAreOrdered(lo: nat, total: nat, size: nat)
    ensures Ordered(Tuples(lo, total, size))
    decreases total - lo
  {
    if size > 0 && lo < total {
      TuplesAreOrdered(lo + 1, total, size - 1);
      TuplesAreOrdered(lo + 1, total, size);
      TuplesAreTuples(lo + 1, total, size);
      JoinedOrdered(lo, total, size, Tuples(lo + 1, total, size - 1), Tuples(lo + 1, total, size));
    }
  }

  lemma JoinedOrdered(lo: nat, total: nat, size: nat, tails: seq<seq<nat>>, rest: seq<seq<nat>>)
    requires 0 < size && Ordered(tails) && Ordered(rest) && AllTuples(lo + 1, total, size, rest)
    ensures Ordered(WithHead(lo, tails) + rest)
  {
    var all := WithHead(lo, tails) + rest;
    forall j, k | 0 <= j < k < |all|
      ensures Precedes(all[j], all[k])
    {
      if k < |tails| {
        PrecedesCons(lo, tails[j], tails[k]);
      } else if j < |tails| {
        assert DiffersAt(all[j], all[k], 0);
      }
    }
  }

  // --- Successor -----------------------------------------------------------------------------

  lemma {:induction false} TupleLow(lo: nat, total: nat, size: nat, c: seq<nat>, from: nat, i: nat)
    requires Tuple(lo, total, size, c) && from <= i < size
    ensures c[from] + (i - from) <= c[i]
    decreases i - from
  {
    if from < i {
      TupleLow(lo, total, size, c, from, i - 1);
    }
  }

  lemma TupleHigh(lo: nat, total: nat, size: nat, c: seq<nat>, i: nat)
    requires Tuple(lo, total, size, c) && i < size
    ensures c[i] + size <= i + total
  {
    TupleLow(lo, total, size, c, i, size - 1);
  }

  ghost predicate AtLimit(total: nat, size: nat, c: seq<nat>, i: nat)
    requires i < |c|
  {
    c[i] + size == i + total
  }

  /** `next` raises position `pos` and refills everything after it as low as possible. */
  ghost predicate Raised(c: seq<nat>, next: seq<nat>, pos: nat) {
    && pos < |c| == |next| && next[..pos] == c[..pos] && next[pos] == c[pos] + 1
    && forall i :: pos < i < |c| ==> next[i] == next[i - 1] + 1
  }

  lemma {:induction false} RaisedValue(c: seq<nat>, next: seq<nat>, pos: nat, i: nat)
    requires Raised(c, next, pos) && pos <= i < |c|
    ensures next[i] == c[pos] + 1 + (i - pos)
    decreases i
  {
    if pos < i {
      RaisedValue(c, next, pos, i - 1);
    }
  }

  lemma RaisedIsTuple(total: nat, size: nat, c: seq<nat>, next: seq<nat>, pos: nat)
    requires Tuple(0, total, size, c) && Raised(c, next, pos) && !AtLimit(total, size, c, pos)
    ensures Tuple(0, total, size, next)
    ensures Precedes(c, next)
  {
    TupleHigh(0, total, size, c, pos);
    assert forall i :: 0 <= i < pos ==> next[i] == next[..pos][i] == c[..pos][i] == c[i];
    forall i: nat | pos <= i < size
      ensures next[i] == c[pos] + 1 + (i - pos) && next[i] < total
    {
      RaisedValue(c, next, pos, i);
    }
    assert forall i, j :: 0 <= i < j < size && i < pos <= j ==> next[i] < next[j];
    assert DiffersAt(c, next, pos);
  }

  /** No tuple lies strictly between c and the raised one. */
  lemma NoGap(total: nat, size: nat, c: seq<nat>, next: seq<nat>, pos: nat, d: seq<nat>)
    requires Tuple(0, total, size, c) && Tuple(0, total, size, d) && Raised(c, next, pos)
    requires forall i: nat :: pos < i < size ==> AtLimit(total, size, c, i)
    requires Precedes(c, d)
    ensures d == next || Precedes(next, d)
  {
    var p: nat :| DiffersAt(c, d, p);
    TupleHigh(0, total, size, d, p);
    assert p <= pos by {
      assert p <= pos || AtLimit(total, size, c, p);
    }
    if p < pos {
      assert next[p] == next[..pos][p] == c[..pos][p] == c[p];
      assert next[..p] == next[..pos][..p] == c[..pos][..p] == c[..p];
      assert DiffersAt(next, d, p);
    } else {
      assert next[..pos] == d[..pos];
      forall i | 0 <= i < size
        ensures next[i] <= d[i]
      {
        if i < pos {
          assert next[i] == next[..pos][i] == d[..pos][i] == d[i];
        } else {
          RaisedValue(c, next, pos, i);
          TupleLow(0, total, size, d, pos, i);
        }
      }
      PointwiseAtLeast(next, d, pos);
    }
  }

  /** The raised tuple is the one listed next. */
  lemma RaisedIsListedNext(total: nat, size: nat, k: nat, next: seq<nat>, pos: nat)
    requires k < |Tuples(0, total, size)|
    requires var c := Tuples(0, total, size)[k];
             && Raised(c, next, pos) && |c| == size && !AtLimit(total, size, c, pos)
             && forall i: nat :: pos < i < size ==> AtLimit(total, size, c, i)
    ensures k + 1 < |Tuples(0, total, size)| && Tuples(0, total, size)[k + 1] == next
  {
    var all := Tuples(0, total, size);
    TuplesAreTuples(0, total, size);
    TuplesAreOrdered(0, total, size);
    RaisedIsTuple(total, size, all[k], next, pos);
    var j := TuplesHaveAll(0, total, size, next);
    PrecedesOneWay(all[k], next);
    PrecedesIrreflexive(next);
    if k + 1 < j {
      NoGap(total, size, all[k], next, pos, all[k + 1]);
      PrecedesOneWay(all[k + 1], next);
    }
  }

  lemma LimitPrecedesNone(total: nat, size: nat, c: seq<nat>, d: seq<nat>)
    requires |c| == size && forall i: nat :: i < size ==> AtLimit(total, size, c, i)
    requires Tuple(0, total, size, d)
    ensures !Precedes(c, d)
  {
    forall p: nat
      ensures !DiffersAt(c, d, p)
    {
      if p < size {
        TupleHigh(0, total, size, d, p);
        assert AtLimit(total, size, c, p);
      }
    }
  }

  /** A tuple with every position at its limit is listed last. */
  lemma LimitIsListedLast(total: nat, size: nat, k: nat)
    requires k < |Tuples(0, total, size)|
    requires var c := Tuples(0, total, size)[k];
             |c| == size && forall i: nat :: i < size ==> AtLimit(total, size, c, i)
    ensures k == |Tuples(0, total, size)| - 1
  {
    var all := Tuples(0, total, size);
    if k + 1 < |all| {
      TuplesAreTuples(0, total, size);
      TuplesAreOrdered(0, total, size);
      LimitPrecedesNone(total, size, all[k], all[k + 1]);
    }
  }

  lemma LowestFollowsNone(total: nat, size: nat, first: seq<nat>, d: seq<nat>)
    requires |first| == size && (forall i :: 0 <= i < size ==> first[i] == i) && Tuple(0, total, size, d)
    ensures !Precedes(d, first)
  {
    forall p: nat
      ensures !DiffersAt(d, first, p)
    {
      if p < size {
        TupleLow(0, total, size, d, 0, p);
      }
    }
  }

  lemma FirstIsListedFirst(total: nat, size: nat, first: seq<nat>)
    requires 0 < size <= total && |first| == size && forall i :: 0 <= i < size ==> first[i] == i
    ensures |Tuples(0, total, size)| > 0 && Tuples(0, total, size)[0] == first
  {
    var all := Tuples(0, total, size);
    var j := TuplesHaveAll(0, total, size, first);
    TuplesAreTuples(0, total, size);
    TuplesAreOrdered(0, total, size);
    LowestFollowsNone(total, size, first, all[0]);
  }

  lemma {:induction false} NoneTooLarge(lo: nat, total: nat, size: nat)
    requires lo <= total && total - lo < size
    ensures Tuples(lo, total, size) == []
    decreases total - lo
  {
    if lo < total {
      NoneTooLarge(lo + 1, total, size - 1);
      NoneTooLarge(lo + 1, total, size);
    }
  }

  lemma OneMoreListed(all: seq<seq<nat>>, k: nat)
    requires k < |all|
    ensures all[..k + 1] == all[..k] + [all[k]]
  {
  }

  /** The loop form lists exactly the reference enumeration. */
  method Combinations(total: nat, size: nat) returns (result: seq<seq<nat>>)
    ensures result == Tuples(0, total, size)
  {
    if size == 0 {
      return [[]];
    }
    if size > total {
      NoneTooLarge(0, total, size);
      return [];
    }
    result := [];
    var combination: seq<nat> := seq(size, i requires 0 <= i => i);
    FirstIsListedFirst(total, size, combination);
    ghost var all := Tuples(0, total, size);
    while true
      invariant |result| < |all| && result == all[..|result|] && combination == all[|result|]
      decreases |all| - |result|
    {
      OneMoreListed(all, |result|);
      result := result + [combination];
      var next, found := Successor(total, size, combination, |result| - 1);
      if !found {
        assert all[..|all|] == all;
        return;
      }
      combination := next;
    }
  }

  /** The tuple listed after the k-th, if it is not the last. */
  method Successor(total: nat, size: nat, combination: seq<nat>, ghost k: nat) returns (next: seq<nat>, found: bool)
    requires 0 < size && k < |Tuples(0, total, size)| && combination == Tuples(0, total, size)[k]
    ensures found == (k + 1 < |Tuples(0, total, size)|)
    ensures found ==> next == Tuples(0, total, size)[k + 1]
  {
    TuplesAreTuples(0, total, size);
    next := combination;
    var pos;
    pos, found := FindRaisable(total, size, combination);
    if found {
      next := RaiseAt(combination, pos);
      TupleHigh(0, total, size, combination, pos);
      RaisedIsListedNext(total, size, k, next, pos);
    } else {
      LimitIsListedLast(total, size, k);
    }
  }

  /** The rightmost position that can be incremented, if there is one. */
  method FindRaisable(total: nat, size: nat, combination: seq<nat>) returns (pos: nat, found: bool)
    requires 0 < size == |combination|
    ensures found ==> pos < size && !AtLimit(total, size, combination, pos)
    ensures found ==> forall i: nat :: pos < i < size ==> AtLimit(total, size, combination, i)
    ensures !found ==> forall i: nat :: i < size ==> AtLimit(total, size, combination, i)
  {
    pos := size;
    while pos > 0
      invariant 0 <= pos <= size
      invariant forall i: nat :: pos <= i < size ==> AtLimit(total, size, combination, i)
      invariant pos > 0
      decreases pos
    {
      pos := pos - 1;
      if combination[pos] + size != pos + total {
        return pos, true;
      }
      if pos == 0 && combination[0] + size == total {
        return pos, false;
      }
    }
    found := false;
  }

  method RaiseAt(combination: seq<nat>, pos: nat) returns (next: seq<nat>)
    requires pos < |combination|
    ensures Raised(combination, next, pos)
  {
    next := combination[pos := combination[pos] + 1];
    for fillPos := pos + 1 to |combination|
      invariant |next| == |combination| && next[..pos] == combination[..pos] && next[pos] == combination[pos] + 1
      invariant forall i :: pos < i < fillPos ==> next[i] == next[i - 1] + 1
    {
      next := next[fillPos := next[fillPos - 1] + 1];
    }
  }
}
