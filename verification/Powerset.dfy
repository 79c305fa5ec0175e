/** Powerset classes: one mapping row per set of at most `maxSize` speakers, and decoding by argmax. */
module Powerset {
  import opened Enumeration
  import opened Matrices

  /** The activity row of a set of speakers. */
  function RowOf(speakers: nat, combo: seq<nat>): (row: seq<real>)
    ensures |row| == speakers
  {
    seq(speakers, i requires 0 <= i => if i in combo then 1.0 else 0.0)
  }

  function RowsOf(speakers: nat, combos: seq<seq<nat>>): (rows: seq<seq<real>>)
    ensures |rows| == |combos| && forall k :: 0 <= k < |rows| ==> rows[k] == RowOf(speakers, combos[k])
  {
    if combos == [] then [] else RowsOf(speakers, combos[..|combos| - 1]) + [RowOf(speakers, combos[|combos| - 1])]
  }

  /** The sets in class order: by size, then lexicographically. */
  function Sets(speakers: nat, sizes: nat): seq<seq<nat>> {
    if sizes == 0 then [] else Sets(speakers, sizes - 1) + Tuples(0, speakers, sizes - 1)
  }

  /** The sets listed, each with its class. */
  ghost predicate IsSet(speakers: nat, sizes: nat, c: seq<nat>) {
    |c| < sizes && Tuple(0, speakers, |c|, c)
  }

  lemma {:induction false} SetsAreSets(speakers: nat, sizes: nat, k: nat)
    requires k < |Sets(speakers, sizes)|
    ensures IsSet(speakers, sizes, Sets(speakers, sizes)[k])
  {
    var fewer := Sets(speakers, sizes - 1);
    if k < |fewer| {
      SetsAreSets(speakers, sizes - 1, k);
    } else {
      TuplesAreTuples(0, speakers, sizes - 1);
    }
  }

  lemma {:induction false} SetsHaveAll(speakers: nat, sizes: nat, c: seq<nat>) returns (k: nat)
    requires IsSet(speakers, sizes, c)
    ensures k < |Sets(speakers, sizes)| && Sets(speakers, sizes)[k] == c
  {
    if |c| < sizes - 1 {
      k := SetsHaveAll(speakers, sizes - 1, c);
    } else {
      k := TuplesHaveAll(0, speakers, sizes - 1, c);
      k := k + |Sets(speakers, sizes - 1)|;
    }
  }

  /** Class order: smaller sets first, and sets of one size lexicographically. */
  ghost predicate InClassOrder(a: seq<nat>, b: seq<nat>) {
    |a| < |b| || (|a| == |b| && Precedes(a, b))
  }

  lemma {:induction false} SetsAreOrdered(speakers: nat, sizes: nat, j: nat, k: nat)
    requires j < k < |Sets(speakers, sizes)|
    ensures InClassOrder(Sets(speakers, sizes)[j], Sets(speakers, sizes)[k])
  {
    var fewer := Sets(speakers, sizes - 1);
    if k < |fewer| {
      SetsAreOrdered(speakers, sizes - 1, j, k);
    } else {
      TuplesAreTuples(0, speakers, sizes - 1);
      if j < |fewer| {
        SetsAreSets(speakers, sizes - 1, j);
      } else {
        TuplesAreOrdered(0, speakers, sizes - 1);
      }
    }
  }

  // --- Sets and rows are in bijection ----------------------------------------------------------

  /** The speakers below n that a row marks, in increasing order. */
  function Marked(row: seq<real>, n: nat): (c: seq<nat>)
    requires n <= |row|
    ensures forall i :: 0 <= i < |c| ==> c[i] < n
  {
    if n == 0 then [] else if row[n - 1] == 1.0 then Marked(row, n - 1) + [n - 1] else Marked(row, n - 1)
  }

  lemma {:induction false} MarkedIsTuple(row: seq<real>, n: nat)
    requires n <= |row|
    ensures Tuple(0, n, |Marked(row, n)|, Marked(row, n))
    ensures forall i: nat :: i in Marked(row, n) <==> i < n && row[i] == 1.0
  {
    if n == 0 {
    } else {
      MarkedIsTuple(row, n - 1);
    }
  }

  lemma RowOfMarked(row: seq<real>)
    requires Binary(row)
    ensures RowOf(|row|, Marked(row, |row|)) == row
  {
    MarkedIsTuple(row, |row|);
  }

  /** Scanning the row of a set below n finds the m elements of the set that are below n. */
  lemma {:induction false} MarkedBelow(speakers: nat, c: seq<nat>, n: nat, m: nat)
    requires Tuple(0, speakers, |c|, c) && n <= speakers && m <= |c|
    requires forall i :: 0 <= i < |c| ==> (c[i] < n <==> i < m)
    ensures Marked(RowOf(speakers, c), n) == c[..m]
  {
    if n == 0 {
    } else {
      if m > 0 && c[m - 1] == n - 1 {
        MarkedBelow(speakers, c, n - 1, m - 1);
        assert c[..m] == c[..m - 1] + [c[m - 1]];
      } else {
        MarkedBelow(speakers, c, n - 1, m);
      }
    }
  }

  lemma MarkedOfRow(speakers: nat, c: seq<nat>)
    requires Tuple(0, speakers, |c|, c)
    ensures Marked(RowOf(speakers, c), speakers) == c
  {
    MarkedBelow(speakers, c, speakers, |c|);
    assert c[..|c|] == c;
  }

  // --- Mapping -------------------------------------------------------------------------------

  /** A binary row with few enough marks. */
  ghost predicate IsRow(row: seq<real>, speakers: nat, maxSize: nat) {
    |row| == speakers && Binary(row) && |Marked(row, speakers)| <= maxSize
  }

  /** The rows of a mapping: pairwise distinct, and exactly the binary rows with few enough marks. */
  ghost predicate IsMapping(mapping: seq<seq<real>>, speakers: nat, maxSize: nat) {
    && (forall j, k :: 0 <= j < k < |mapping| ==> mapping[j] != mapping[k])
    && forall row :: row in mapping <==> IsRow(row, speakers, maxSize)
  }

  /** The rows stand in class order of the speakers they mark. */
  ghost predicate InOrder(mapping: seq<seq<real>>, speakers: nat) {
    && (forall k :: 0 <= k < |mapping| ==> |mapping[k]| == speakers)
    && forall j, k :: 0 <= j < k < |mapping| ==> RowBefore(mapping[j], mapping[k])
  }

  ghost predicate RowBefore(a: seq<real>, b: seq<real>) {
    InClassOrder(Marked(a, |a|), Marked(b, |b|))
  }

  lemma BeforeIsStrict(a: seq<real>, b: seq<real>)
    ensures !(RowBefore(a, b) && RowBefore(b, a))
  {
    if RowBefore(a, b) && RowBefore(b, a) {
      var x := Marked(a, |a|);
      PrecedesTransitive(x, Marked(b, |b|), x);
      PrecedesIrreflexive(x);
    }
  }

  lemma NotEarlier(x: seq<seq<real>>, y: seq<seq<real>>, k: nat, j: nat)
    requires k < |x| && j < |y| && y[j] == x[k]
    requires forall i, l :: 0 <= i < l < |x| ==> x[i] != x[l]
    requires forall i :: 0 <= i < k && i < |y| ==> x[i] == y[i]
    ensures k <= j
  {
  }

  lemma {:induction false} SamePlaces(x: seq<seq<real>>, y: seq<seq<real>>, speakers: nat, maxSize: nat, n: nat)
    requires IsMapping(x, speakers, maxSize) && InOrder(x, speakers)
    requires IsMapping(y, speakers, maxSize) && InOrder(y, speakers)
    requires n <= |x|
    ensures n <= |y| && forall i :: 0 <= i < n ==> x[i] == y[i]
  {
    if n > 0 {
      var k := n - 1;
      SamePlaces(x, y, speakers, maxSize, k);
      assert x[k] in x;
      var j :| 0 <= j < |y| && y[j] == x[k];
      NotEarlier(x, y, k, j);
      if x[k] != y[k] {
        assert y[k] in y;
        var i :| 0 <= i < |x| && x[i] == y[k];
        NotEarlier(y, x, k, i);
        BeforeIsStrict(x[k], y[k]);
        assert false;
      }
    }
  }

  /** No choice is left: a mapping with the right rows in class order is the mapping. */
  lemma MappingIsUnique(x: seq<seq<real>>, y: seq<seq<real>>, speakers: nat, maxSize: nat)
    requires IsMapping(x, speakers, maxSize) && InOrder(x, speakers)
    requires IsMapping(y, speakers, maxSize) && InOrder(y, speakers)
    ensures x == y
  {
    SamePlaces(x, y, speakers, maxSize, |x|);
    SamePlaces(y, x, speakers, maxSize, |y|);
  }

  lemma {:induction false} NoneMarked(row: seq<real>, n: nat)
    requires n <= |row| && forall i :: 0 <= i < n ==> row[i] == 0.0
    ensures Marked(row, n) == []
  {
    if n == 0 {
    } else {
      NoneMarked(row, n - 1);
    }
  }

  /** Class 0 is silence. */
  lemma FirstIsSilence(mapping: seq<seq<real>>, speakers: nat, maxSize: nat)
    requires IsMapping(mapping, speakers, maxSize) && InOrder(mapping, speakers)
    ensures |mapping| > 0 && mapping[0] == seq(speakers, _ => 0.0)
  {
    var silence := seq(speakers, _ => 0.0);
    NoneMarked(silence, speakers);
    assert IsRow(silence, speakers, maxSize);
    var k :| 0 <= k < |mapping| && mapping[k] == silence;
    assert k > 0 ==> RowBefore(mapping[0], mapping[k]);
  }

  lemma RowsInOrder(speakers: nat, sizes: nat)
    ensures InOrder(RowsOf(speakers, Sets(speakers, sizes)), speakers)
  {
    var sets := Sets(speakers, sizes);
    var rows := RowsOf(speakers, sets);
    forall j, k | 0 <= j < k < |rows|
      ensures RowBefore(rows[j], rows[k])
    {
      SetsAreOrdered(speakers, sizes, j, k);
      SetsAreSets(speakers, sizes, j);
      SetsAreSets(speakers, sizes, k);
      MarkedOfRow(speakers, sets[j]);
      MarkedOfRow(speakers, sets[k]);
    }
  }

  lemma RowsAreMapping(speakers: nat, maxSize: nat)
    ensures IsMapping(RowsOf(speakers, Sets(speakers, maxSize + 1)), speakers, maxSize)
  {
    var sets := Sets(speakers, maxSize + 1);
    var rows := RowsOf(speakers, sets);
    forall j, k | 0 <= j < k < |rows|
      ensures rows[j] != rows[k]
    {
      RowsInOrder(speakers, maxSize + 1);
      BeforeIsStrict(rows[j], rows[k]);
    }
    forall row
      ensures row in rows <==> IsRow(row, speakers, maxSize)
    {
      if row in rows {
        ListedIsRow(speakers, maxSize, row);
      }
      if IsRow(row, speakers, maxSize) {
        RowIsListed(speakers, maxSize, row);
      }
    }
  }

  lemma ListedIsRow(speakers: nat, maxSize: nat, row: seq<real>)
    requires row in RowsOf(speakers, Sets(speakers, maxSize + 1))
    ensures IsRow(row, speakers, maxSize)
  {
    var sets := Sets(speakers, maxSize + 1);
    var k :| 0 <= k < |sets| && RowsOf(speakers, sets)[k] == row;
    SetsAreSets(speakers, maxSize + 1, k);
    MarkedOfRow(speakers, sets[k]);
  }

  lemma RowIsListed(speakers: nat, maxSize: nat, row: seq<real>)
    requires IsRow(row, speakers, maxSize)
    ensures row in RowsOf(speakers, Sets(speakers, maxSize + 1))
  {
    var rows := RowsOf(speakers, Sets(speakers, maxSize + 1));
    MarkedIsTuple(row, speakers);
    RowOfMarked(row);
    var k := SetsHaveAll(speakers, maxSize + 1, Marked(row, speakers));
    assert rows[k] == row;
  }

  lemma RowsAppend(speakers: nat, combos: seq<seq<nat>>, more: seq<seq<nat>>)
    ensures RowsOf(speakers, combos + more) == RowsOf(speakers, combos) + RowsOf(speakers, more)
  {
  }

  method NewMapping(speakers: nat, maxSize: nat) returns (mapping: seq<seq<real>>)
    ensures mapping == RowsOf(speakers, Sets(speakers, maxSize + 1))
    ensures IsMapping(mapping, speakers, maxSize) && InOrder(mapping, speakers)
    ensures |mapping| > 0 && mapping[0] == seq(speakers, _ => 0.0)
  {
    mapping := [];
    for size := 0 to maxSize + 1
      invariant mapping == RowsOf(speakers, Sets(speakers, size))
    {
      var combos := Combinations(speakers, size);
      TuplesAreTuples(0, speakers, size);
      var rows := MarkEach(speakers, size, combos);
      RowsAppend(speakers, Sets(speakers, size), combos);
      mapping := mapping + rows;
    }
    RowsAreMapping(speakers, maxSize);
    RowsInOrder(speakers, maxSize + 1);
    FirstIsSilence(mapping, speakers, maxSize);
  }

  method MarkEach(speakers: nat, size: nat, combos: seq<seq<nat>>) returns (rows: seq<seq<real>>)
    requires AllTuples(0, speakers, size, combos)
    ensures rows == RowsOf(speakers, combos)
  {
    rows := [];
    for k := 0 to |combos|
      invariant rows == RowsOf(speakers, combos[..k])
    {
      assert combos[..k + 1][..k] == combos[..k];
      var row := MarkAll(speakers, combos[k]);
      rows := rows + [row];
    }
    assert combos[..|combos|] == combos;
  }

  method MarkAll(speakers: nat, combo: seq<nat>) returns (row: seq<real>)
    requires Tuple(0, speakers, |combo|, combo)
    ensures row == RowOf(speakers, combo)
  {
    row := seq(speakers, _ => 0.0);
    for i := 0 to |combo|
      invariant |row| == speakers
      invariant forall x: nat :: x < speakers ==> row[x] == if x in combo[..i] then 1.0 else 0.0
    {
      assert combo[..i + 1] == combo[..i] + [combo[i]];
      row := row[combo[i] := 1.0];
    }
    assert combo[..|combo|] == combo;
  }

  // --- Decoding ------------------------------------------------------------------------------

  /** The last of the largest entries: what a running maximum that replaces on ties ends with. */
  ghost predicate IsLastMax(row: seq<real>, k: nat) {
    && k < |row| && (forall i :: 0 <= i < k ==> row[i] <= row[k])
    && forall i :: k < i < |row| ==> row[i] < row[k]
  }

  lemma LastMaxIsUnique(row: seq<real>, j: nat, k: nat)
    requires IsLastMax(row, j) && IsLastMax(row, k)
    ensures j == k
  {
    var x, y := row[j], row[k];
    assert j < k ==> y < x;
    assert k < j ==> x < y;
  }

  method ArgMax(row: seq<real>) returns (k: nat)
    requires |row| > 0
    ensures IsLastMax(row, k)
  {
    k := 0;
    for i := 1 to |row|
      invariant k < i
      invariant IsLastMax(row[..i], k)
    {
      if row[k] <= row[i] {
        k := i;
      }
    }
    assert row[..|row|] == row;
  }

  function OneHot(n: nat, k: nat): seq<real> {
    seq(n, i requires 0 <= i => if i == k then 1.0 else 0.0)
  }

  function Dot(weights: seq<real>, mapping: seq<seq<real>>, s: nat, n: nat): real
    requires n <= |weights| && n <= |mapping| && forall r :: 0 <= r < |mapping| ==> s < |mapping[r]|
  {
    if n == 0 then 0.0 else Dot(weights, mapping, s, n - 1) + weights[n - 1] * mapping[n - 1][s]
  }

  lemma {:induction false} DotOneHot(mapping: seq<seq<real>>, s: nat, k: nat, n: nat)
    requires n <= |mapping| && (forall r :: 0 <= r < |mapping| ==> s < |mapping[r]|) && k < |mapping|
    ensures Dot(OneHot(|mapping|, k), mapping, s, n) == if k < n then mapping[k][s] else 0.0
  {
    if n == 0 {
    } else {
      DotOneHot(mapping, s, k, n - 1);
    }
  }

  lemma {:induction false} DotZeros(mapping: seq<seq<real>>, s: nat, n: nat)
    requires n <= |mapping| && forall r :: 0 <= r < |mapping| ==> s < |mapping[r]|
    ensures Dot(seq(|mapping|, _ => 0.0), mapping, s, n) == 0.0
  {
    if n == 0 {
    } else {
      DotZeros(mapping, s, n - 1);
    }
  }

  function Product(weights: seq<real>, mapping: seq<seq<real>>, speakers: nat): seq<real>
    requires |weights| == |mapping| && Rectangular(mapping, speakers)
  {
    seq(speakers, s requires 0 <= s < speakers => Dot(weights, mapping, s, |mapping|))
  }

  method DecodeFrame(mapping: seq<seq<real>>, speakers: nat, logits: seq<real>) returns (row: seq<real>)
    requires Rectangular(mapping, speakers) && |logits| <= |mapping|
    ensures forall k: nat :: IsLastMax(logits, k) ==> row == mapping[k]
    ensures if logits == [] then row == seq(speakers, _ => 0.0) else row in mapping
  {
    if |logits| == 0 {
      row := Product(seq(|mapping|, _ => 0.0), mapping, speakers);
      forall s: nat | s < speakers
        ensures row[s] == 0.0
      {
        DotZeros(mapping, s, |mapping|);
      }
      return;
    }
    var k := ArgMax(logits);
    row := Product(OneHot(|mapping|, k), mapping, speakers);
    forall s: nat | s < speakers
      ensures row[s] == mapping[k][s]
    {
      DotOneHot(mapping, s, k, |mapping|);
    }
    assert row == mapping[k] && mapping[k] in mapping;
    forall j: nat | IsLastMax(logits, j)
      ensures j == k
    {
      LastMaxIsUnique(logits, j, k);
    }
  }

  /** Each frame decodes to the mapping row of its last largest logit, and a frame without logits to silence. */
  method HardDecode(mapping: seq<seq<real>>, speakers: nat, logits: seq<seq<real>>) returns (decoded: seq<seq<real>>)
    requires Rectangular(mapping, speakers)
    requires forall i :: 0 <= i < |logits| ==> |logits[i]| <= |mapping|
    ensures |decoded| == |logits|
    ensures forall i, k: nat :: 0 <= i < |logits| && IsLastMax(logits[i], k) ==> decoded[i] == mapping[k]
    ensures forall i :: 0 <= i < |logits| ==>
            if logits[i] == [] then decoded[i] == seq(speakers, _ => 0.0) else decoded[i] in mapping
  {
    decoded := [];
    for i := 0 to |logits|
      invariant |decoded| == i
      invariant forall j, k: nat :: 0 <= j < i && IsLastMax(logits[j], k) ==> decoded[j] == mapping[k]
      invariant forall j :: 0 <= j < i ==>
                if logits[j] == [] then decoded[j] == seq(speakers, _ => 0.0) else decoded[j] in mapping
    {
      var row := DecodeFrame(mapping, speakers, logits[i]);
      decoded := decoded + [row];
    }
  }

  /** One-hot class of each frame: the first mapping row equal to it, or zeros if there is none. */
  method Encode(mapping: seq<seq<real>>, frames: seq<seq<real>>) returns (output: seq<seq<real>>)
    ensures |output| == |frames|
    ensures forall i, c: nat | 0 <= i < |frames| && c < |mapping| ::
              frames[i] == mapping[c] && mapping[c] !in mapping[..c] ==> output[i] == OneHot(|mapping|, c)
    ensures forall i :: 0 <= i < |frames| && frames[i] !in mapping ==> output[i] == seq(|mapping|, _ => 0.0)
  {
    output := [];
    for i := 0 to |frames|
      invariant |output| == i
      invariant forall j, c: nat | 0 <= j < i && c < |mapping| ::
                  frames[j] == mapping[c] && mapping[c] !in mapping[..c] ==> output[j] == OneHot(|mapping|, c)
      invariant forall j :: 0 <= j < i && frames[j] !in mapping ==> output[j] == seq(|mapping|, _ => 0.0)
    {
      var row := EncodeFrame(mapping, frames[i]);
      output := output + [row];
    }
  }

  method EncodeFrame(mapping: seq<seq<real>>, frame: seq<real>) returns (row: seq<real>)
    ensures forall c: nat :: c < |mapping| && frame == mapping[c] && mapping[c] !in mapping[..c] ==>
            row == OneHot(|mapping|, c)
    ensures frame !in mapping ==> row == seq(|mapping|, _ => 0.0)
  {
    row := seq(|mapping|, _ => 0.0);
    for c := 0 to |mapping|
      invariant row == seq(|mapping|, _ => 0.0)
      invariant frame !in mapping[..c]
    {
      if frame == mapping[c] {
        row := row[c := 1.0];
        assert row == OneHot(|mapping|, c);
        return;
      }
    }
  }

  lemma MappingIsRectangular(mapping: seq<seq<real>>, speakers: nat, maxSize: nat)
    requires IsMapping(mapping, speakers, maxSize)
    ensures Rectangular(mapping, speakers)
  {
    assert forall r :: 0 <= r < |mapping| ==> mapping[r] in mapping;
  }

  lemma OneHotMax(n: nat, k: nat)
    requires k < n
    ensures IsLastMax(OneHot(n, k), k)
  {
  }

  ghost predicate OneHots(n: nat, rows: seq<seq<real>>, classes: seq<nat>) {
    |rows| == |classes| && forall i :: 0 <= i < |rows| ==> classes[i] < n && rows[i] == OneHot(n, classes[i])
  }

  /** Encoding inverts decoding on one-hot rows. */
  method EncodeDecoded(mapping: seq<seq<real>>, speakers: nat, ghost maxSize: nat, logits: seq<seq<real>>,
                       ghost classes: seq<nat>)
    returns (encoded: seq<seq<real>>)
    requires IsMapping(mapping, speakers, maxSize) && OneHots(|mapping|, logits, classes)
    ensures encoded == logits
  {
    MappingIsRectangular(mapping, speakers, maxSize);
    var decoded := HardDecode(mapping, speakers, logits);
    encoded := Encode(mapping, decoded);
    forall i | 0 <= i < |logits|
      ensures encoded[i] == logits[i]
    {
      OneHotMax(|mapping|, classes[i]);
      assert decoded[i] == mapping[classes[i]];
    }
  }

  /** Decoding inverts encoding on every binary row with few enough marks. */
  method DecodeEncoded(mapping: seq<seq<real>>, speakers: nat, ghost maxSize: nat, frames: seq<seq<real>>)
    returns (decoded: seq<seq<real>>)
    requires IsMapping(mapping, speakers, maxSize)
    requires forall i :: 0 <= i < |frames| ==> IsRow(frames[i], speakers, maxSize)
    ensures decoded == frames
  {
    var encoded := Encode(mapping, frames);
    forall i | 0 <= i < |frames|
      ensures exists c: nat ::
                && c < |mapping| && frames[i] == mapping[c]
                && encoded[i] == OneHot(|mapping|, c) && IsLastMax(encoded[i], c)
    {
      assert frames[i] in mapping;
      var c: nat :| c < |mapping| && frames[i] == mapping[c];
      OneHotMax(|mapping|, c);
    }
    MappingIsRectangular(mapping, speakers, maxSize);
    decoded := HardDecode(mapping, speakers, encoded);
  }
}
