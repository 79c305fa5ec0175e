/** Matrices given by their rows. */
module Matrices {
  ghost predicate Rectangular(rows: seq<seq<real>>, width: nat) {
    forall i :: 0 <= i < |rows| ==> |rows[i]| == width
  }

  function Column(rows: seq<seq<real>>, s: nat): seq<real>
    requires forall i :: 0 <= i < |rows| ==> s < |rows[i]|
  {
    seq(|rows|, i requires 0 <= i < |rows| => rows[i][s])
  }

  ghost predicate Binary(values: seq<real>) {
    forall i :: 0 <= i < |values| ==> values[i] == 0.0 || values[i] == 1.0
  }
}
