/** Grouping of decoded windows into chunks of a fixed capacity, file by file. */
module Chunking {
  import opened Counting
  import opened Strides

  /** Decoded activity of one window: frames by speakers. */
  type Window = seq<seq<real>>

  /** A run of consecutive windows of one file, the first of them numbered `start`. */
  datatype Chunk = Chunk(file: nat, start: nat, windows: seq<Window>)

  /** The chunks the bridge makes of the windows `ws` of file f, starting at window number `start`. */
  function ChunksFrom(capacity: nat, f: nat, start: nat, ws: seq<Window>): seq<Chunk>
    requires capacity > 0
    decreases |ws|
  {
    if |ws| == 0 then []
    else
      var n := Min(capacity, |ws|);
      [Chunk(f, start, ws[..n])] + ChunksFrom(capacity, f, start + capacity, ws[n..])
  }

  /** The chunks of file f and all files after it. */
  function AllFrom(capacity: nat, files: seq<seq<Window>>, f: nat): seq<Chunk>
    requires capacity > 0 && f <= |files|
    decreases |files| - f
  {
    if f == |files| then [] else ChunksFrom(capacity, f, 0, files[f]) + AllFrom(capacity, files, f + 1)
  }

  function DivCeil(a: nat, b: nat): nat
    requires b > 0
  {
    (a + b - 1) / b
  }

  /** The k-th chunk of a file tail starts k times the capacity after the tail does. */
  lemma {:induction false} ChunkAt(capacity: nat, f: nat, start: nat, ws: seq<Window>, k: nat)
    requires capacity > 0 && k < |ChunksFrom(capacity, f, start, ws)|
    ensures ChunksFrom(capacity, f, start, ws)[k].start == start + Multiple(k, capacity)
    decreases k
  {
    if k == 0 {
    } else {
      ChunkAt(capacity, f, start + capacity, ws[Min(capacity, |ws|)..], k - 1);
    }
  }

  /** A file has as many chunks as its windows divided by the capacity, rounded up. */
  lemma {:induction false} ChunkCount(capacity: nat, f: nat, start: nat, ws: seq<Window>)
    requires capacity > 0
    ensures |ChunksFrom(capacity, f, start, ws)| == DivCeil(|ws|, capacity)
    decreases |ws|
  {
    if |ws| == 0 {
      DivideShift(capacity - 1, capacity);
    } else {
      var n := Min(capacity, |ws|);
      ChunkCount(capacity, f, start + capacity, ws[n..]);
      DivideShift(|ws| - 1, capacity);
      if |ws| <= capacity {
        DivideShift(capacity - 1, capacity);
      } else {
        assert |ws[n..]| + capacity - 1 == |ws| - 1;
      }
    }
  }

  /** A chunk is a non-empty stretch of its file. */
  ghost predicate IsStretch(files: seq<seq<Window>>, c: Chunk) {
    && c.file < |files| && |c.windows| > 0
    && c.start + |c.windows| <= |files[c.file]|
    && c.windows == files[c.file][c.start..c.start + |c.windows|]
  }

  ghost predicate Covers(c: Chunk, f: nat, i: nat) {
    c.file == f && c.start <= i < c.start + |c.windows|
  }

  lemma {:induction false} ChunksAreStretches(capacity: nat, files: seq<seq<Window>>, f: nat, start: nat)
    requires capacity > 0 && f < |files| && start <= |files[f]|
    ensures forall c :: c in ChunksFrom(capacity, f, start, files[f][start..]) ==>
              IsStretch(files, c) && c.file == f && c.start >= start
    decreases |files[f]| - start
  {
    var ws := files[f][start..];
    if |ws| == 0 {
    } else {
      var n := Min(capacity, |ws|);
      if n == capacity {
        ChunksAreStretches(capacity, files, f, start + capacity);
        assert ws[n..] == files[f][start + capacity..];
      }
      assert ws[..n] == files[f][start..start + n];
    }
  }

  lemma {:induction false} ChunksCoverAll(capacity: nat, f: nat, start: nat, ws: seq<Window>, i: nat) returns (c: Chunk)
    requires capacity > 0 && start <= i < start + |ws|
    ensures c in ChunksFrom(capacity, f, start, ws) && Covers(c, f, i)
    decreases |ws|
  {
    var n := Min(capacity, |ws|);
    if i < start + n {
      c := ChunksFrom(capacity, f, start, ws)[0];
    } else {
      c := ChunksCoverAll(capacity, f, start + capacity, ws[n..], i);
    }
  }

  lemma {:induction false} ChunksDistinct(capacity: nat, f: nat, start: nat, ws: seq<Window>)
    requires capacity > 0
    ensures Distinct(ChunksFrom(capacity, f, start, ws))
    ensures forall c :: c in ChunksFrom(capacity, f, start, ws) ==> c.file == f && c.start >= start
    decreases |ws|
  {
    if |ws| == 0 {
    } else {
      var n := Min(capacity, |ws|);
      ChunksDistinct(capacity, f, start + capacity, ws[n..]);
    }
  }

  lemma {:induction false} AllDistinct(capacity: nat, files: seq<seq<Window>>, f: nat)
    requires capacity > 0 && f <= |files|
    ensures Distinct(AllFrom(capacity, files, f))
    ensures forall c :: c in AllFrom(capacity, files, f) ==> f <= c.file < |files| && IsStretch(files, c)
    decreases |files| - f
  {
    if f < |files| {
      AllDistinct(capacity, files, f + 1);
      ChunksDistinct(capacity, f, 0, files[f]);
      ChunksAreStretches(capacity, files, f, 0);
      assert files[f][0..] == files[f];
    }
  }

  lemma TimesAtLeast(b: int, d: int)
    requires b > 0 && d >= 1
    ensures b * d >= b
  {
  }

  /** Quotient and remainder are determined by x == b * q + r with r below b. */
  lemma DivideUnique(x: int, b: int, q: int, r: int)
    requires b > 0 && 0 <= r < b && x == b * q + r
    ensures x / b == q && x % b == r
  {
    var d, e := x / b, x % b;
    assert x == b * d + e;
    assert b * (q - d) == b * q - b * d && b * (d - q) == b * d - b * q;
    if q > d {
      TimesAtLeast(b, q - d);
    } else if q < d {
      TimesAtLeast(b, d - q);
    }
  }

  /** n is the least number of pieces of size b that hold a. */
  ghost predicate IsLeastCover(a: nat, b: nat, n: nat) {
    n * b >= a && (n > 0 ==> (n - 1) * b < a)
  }

  /** Rounding a quotient up gives that number. */
  lemma DivCeilIsLeast(a: nat, b: nat, n: nat)
    requires b > 0 && IsLeastCover(a, b, n)
    ensures DivCeil(a, b) == n
  {
    assert (n - 1) * b == n * b - b;
    DivideUnique(a + b - 1, b, n, a + b - 1 - n * b);
  }

  lemma DivideShift(a: nat, b: nat)
    requires b > 0
    ensures (a + b) / b == a / b + 1
    ensures a < b ==> a / b == 0
  {
    var q, r := a / b, a % b;
    assert a == b * q + r;
    assert b * (q + 1) == b * q + b;
    DivideUnique(a + b, b, q + 1, r);
    if a < b {
      DivideUnique(a, b, 0, a);
    }
  }
}
