/** The one-to-one mapping from reference to hypothesis speakers that the error rate is scored with. */
module SpeakerMapping {
  import opened Counting
  import opened Hungarian

  /** `m` sends some rows below `rows` to pairwise different columns below `cols`. */
  ghost predicate PartialInjection(m: map<nat, nat>, rows: nat, cols: nat) {
    && (forall i :: i in m ==> i < rows && m[i] < cols)
    && forall i, j :: i in m && j in m && m[i] == m[j] ==> i == j
  }

  ghost predicate Covers(matrix: seq<seq<real>>, rows: nat, cols: nat) {
    |matrix| >= rows && forall i :: 0 <= i < rows ==> |matrix[i]| >= cols
  }

  ghost predicate NonNegative(matrix: seq<seq<real>>, rows: nat, cols: nat)
    requires Covers(matrix, rows, cols)
  {
    forall i, j :: 0 <= i < rows && 0 <= j < cols ==> matrix[i][j] >= 0.0
  }

  /** Sum of the entries the mapping picks among the first `k` rows. */
  ghost function MappingValue(matrix: seq<seq<real>>, m: map<nat, nat>, k: nat): real
    requires k <= |matrix| && forall i :: i in m && i < k ==> m[i] < |matrix[i]|
  {
    if k == 0 then 0.0
    else MappingValue(matrix, m, k - 1) + if k - 1 in m then matrix[k - 1][m[k - 1]] else 0.0
  }

  /** No full-size mapping, and on non-negative entries no mapping at all, picks more. */
  ghost predicate IsBestMapping(matrix: seq<seq<real>>, rows: nat, cols: nat, m: map<nat, nat>)
    requires Covers(matrix, rows, cols)
  {
    && PartialInjection(m, rows, cols)
    && |m| == Min(rows, cols)
    && (forall other :: PartialInjection(other, rows, cols) && (|other| == |m| || NonNegative(matrix, rows, cols)) ==>
          MappingValue(matrix, other, rows) <= MappingValue(matrix, m, rows))
  }

  lemma OneFewer(m: map<nat, nat>, rows: nat, cols: nat, i: nat)
    requires PartialInjection(m, rows, cols) && i in m
    ensures PartialInjection(m - {i}, rows, cols)
    ensures (m - {i}).Keys == m.Keys - {i} && |m - {i}| == |m| - 1
    ensures m[i] !in (m - {i}).Values
  {
    var rest := m - {i};
    assert forall a :: a in rest ==> a in m && rest[a] == m[a];
    assert |rest.Keys| == |m.Keys| - 1;
  }

  lemma ValuesSplit(m: map<nat, nat>, i: nat)
    requires i in m
    ensures m.Values == (m - {i}).Values + {m[i]}
  {
    var rest := m - {i};
    assert forall a :: a in m ==> a == i || (a in rest && rest[a] == m[a]);
  }

  lemma {:induction false} InjectionSize(m: map<nat, nat>, rows: nat, cols: nat)
    requires PartialInjection(m, rows, cols)
    ensures |m.Values| == |m.Keys| == |m|
    decreases |m|
  {
    if |m| == 0 {
      assert m.Keys == {} && m.Values == {};
    } else {
      var i :| i in m;
      OneFewer(m, rows, cols, i);
      ValuesSplit(m, i);
      InjectionSize(m - {i}, rows, cols);
    }
  }

  /** Every partial injection on n x n extends to a permutation. */
  lemma {:induction false} ExtendToPermutation(m: map<nat, nat>, n: nat) returns (q: seq<nat>)
    requires PartialInjection(m, n, n)
    ensures IsPermutation(q, n)
    ensures forall i :: i in m ==> q[i] == m[i]
    decreases UpTo(n) - m.Keys
  {
    if UpTo(n) - m.Keys == {} {
      forall i | 0 <= i < n
        ensures i in m
      {
        assert i in UpTo(n);
      }
      q := Listed(m, n);
    } else {
      var i, j := UnusedPair(m, n);
      var larger := m[i := j];
      assert larger.Keys == m.Keys + {i};
      q := ExtendToPermutation(larger, n);
      assert forall a :: a in m ==> a in larger && larger[a] == m[a];
    }
  }

  lemma Listed(m: map<nat, nat>, n: nat) returns (q: seq<nat>)
    requires PartialInjection(m, n, n)
    requires forall i :: 0 <= i < n ==> i in m
    ensures IsPermutation(q, n)
    ensures forall i :: i in m ==> q[i] == m[i]
  {
    q := seq(n, i requires 0 <= i < n => m[i]);
  }

  lemma UnusedPair(m: map<nat, nat>, n: nat) returns (i: nat, j: nat)
    requires PartialInjection(m, n, n) && UpTo(n) - m.Keys != {}
    ensures i in UpTo(n) - m.Keys && j in UpTo(n)
    ensures PartialInjection(m[i := j], n, n)
  {
    InjectionSize(m, n, n);
    assert m.Keys <= UpTo(n);
    SubsetSize(m.Keys, UpTo(n));
    i := Missed(m.Keys, UpTo(n));
    j := Missed(m.Values, UpTo(n));
    assert forall a :: a in m ==> m[a] in m.Values;
  }

  /** The part of a padded assignment that lies inside the unpadded matrix. */
  function Inside(q: seq<nat>, rows: nat, cols: nat): map<nat, nat>
    requires rows <= |q|
  {
    map i: nat | i < rows && q[i] < cols :: q[i]
  }

  lemma InsideIsFullSize(q: seq<nat>, rows: nat, cols: nat)
    requires IsPermutation(q, if rows < cols then cols else rows)
    ensures PartialInjection(Inside(q, rows, cols), rows, cols)
    ensures |Inside(q, rows, cols)| == Min(rows, cols)
  {
    var m := Inside(q, rows, cols);
    InjectionSize(m, rows, cols);
    if rows <= cols {
      assert m.Keys == UpTo(rows);
    } else {
      forall j: nat | j < cols
        ensures j in m.Values
      {
        PermutationHits(q, rows, j);
        var i :| 0 <= i < rows && q[i] == j;
        assert m[i] == j;
      }
      assert m.Values == UpTo(cols);
    }
  }

  /** `cost` is the negated matrix padded with zeros to a square. */
  ghost predicate Padded(matrix: seq<seq<real>>, rows: nat, cols: nat, cost: seq<seq<real>>)
    requires Covers(matrix, rows, cols)
  {
    && |cost| == (if rows < cols then cols else rows)
    && (forall i :: 0 <= i < |cost| ==> |cost[i]| == |cost|)
    && forall i, j :: 0 <= i < |cost| && 0 <= j < |cost| ==>
         cost[i][j] == if i < rows && j < cols then -matrix[i][j] else 0.0
  }

  lemma {:induction false} PaddedCost(matrix: seq<seq<real>>, rows: nat, cols: nat, cost: seq<seq<real>>, q: seq<nat>,
                                      k: nat)
    requires Covers(matrix, rows, cols) && Padded(matrix, rows, cols, cost)
    requires IsPermutation(q, |cost|) && k <= |cost|
    ensures AssignmentCost(cost, q, k) == -MappingValue(matrix, Inside(q, rows, cols), Min(k, rows))
  {
    if k == 0 {
    } else {
      PaddedCost(matrix, rows, cols, cost, q, k - 1);
    }
  }

  lemma {:induction false} LargerMappingPicksMore(matrix: seq<seq<real>>, rows: nat, cols: nat,
                                                  small: map<nat, nat>, large: map<nat, nat>, k: nat)
    requires Covers(matrix, rows, cols) && NonNegative(matrix, rows, cols) && k <= rows
    requires PartialInjection(small, rows, cols) && PartialInjection(large, rows, cols)
    requires forall i :: i in small ==> i in large && large[i] == small[i]
    ensures MappingValue(matrix, small, k) <= MappingValue(matrix, large, k)
  {
    if k == 0 {
    } else {
      LargerMappingPicksMore(matrix, rows, cols, small, large, k - 1);
    }
  }

  /** A cheapest padded assignment, cut back to the matrix, is a best mapping. */
  lemma CheapestIsBest(matrix: seq<seq<real>>, rows: nat, cols: nat, cost: seq<seq<real>>, q: seq<nat>)
    requires Covers(matrix, rows, cols) && Padded(matrix, rows, cols, cost)
    requires IsCheapest(cost, q)
    ensures IsBestMapping(matrix, rows, cols, Inside(q, rows, cols))
  {
    var n, m := |cost|, Inside(q, rows, cols);
    InsideIsFullSize(q, rows, cols);
    PaddedCost(matrix, rows, cols, cost, q, n);
    forall other | PartialInjection(other, rows, cols) && (|other| == |m| || NonNegative(matrix, rows, cols))
      ensures MappingValue(matrix, other, rows) <= MappingValue(matrix, m, rows)
    {
      var full := ExtendToPermutation(other, n);
      PaddedCost(matrix, rows, cols, cost, full, n);
      ExtendedPicksMore(matrix, rows, cols, other, full);
    }
  }

  /** Extending a mapping to a permutation picks at least as much inside the matrix. */
  lemma ExtendedPicksMore(matrix: seq<seq<real>>, rows: nat, cols: nat, other: map<nat, nat>, full: seq<nat>)
    requires Covers(matrix, rows, cols) && PartialInjection(other, rows, cols)
    requires rows <= |full| && cols <= |full| && IsPermutation(full, |full|) && (rows == |full| || cols == |full|)
    requires forall i :: i in other ==> full[i] == other[i]
    requires |other| == Min(rows, cols) || NonNegative(matrix, rows, cols)
    ensures MappingValue(matrix, other, rows) <= MappingValue(matrix, Inside(full, rows, cols), rows)
  {
    var large := Inside(full, rows, cols);
    InsideIsFullSize(full, rows, cols);
    assert forall i :: i in other ==> i in large && large[i] == other[i];
    if |other| == |large| {
      assert other.Keys <= large.Keys;
      SubsetSize(other.Keys, large.Keys);
      assert other == large;
    } else {
      LargerMappingPicksMore(matrix, rows, cols, other, large, rows);
    }
  }

  method OptimalMapping(matrix: seq<seq<real>>, rows: nat, cols: nat) returns (mapping: map<nat, nat>)
    requires Covers(matrix, rows, cols)
    ensures IsBestMapping(matrix, rows, cols, mapping)
  {
    if rows == 0 || cols == 0 {
      assert forall m :: PartialInjection(m, rows, cols) ==> m == map[];
      return map[];
    }
    var n := if rows < cols then cols else rows;
    var cost := seq(n, _ => seq(n, _ => 0.0));
    for i := 0 to rows
      invariant |cost| == n && forall r :: 0 <= r < n ==> |cost[r]| == n
      invariant forall r, c :: 0 <= r < n && 0 <= c < n ==>
                  cost[r][c] == if r < i && c < cols then -matrix[r][c] else 0.0
    {
      for j := 0 to cols
        invariant |cost| == n && forall r :: 0 <= r < n ==> |cost[r]| == n
        invariant forall r, c :: 0 <= r < n && 0 <= c < n ==>
                    cost[r][c] == if (r < i && c < cols) || (r == i && c < j) then -matrix[r][c] else 0.0
      {
        cost := cost[i := cost[i][j := -matrix[i][j]]];
      }
    }
    var assignment := HungarianAlgorithm(cost);
    CheapestIsBest(matrix, rows, cols, cost, assignment);
    mapping := Inside(assignment, rows, cols);
  }
}
