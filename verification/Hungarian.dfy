/** The assignment solver of the error-rate scorer: a primal-dual shortest-augmenting-path
    method over potentials, with rows and columns numbered from 1 and column 0 as the root. */
module Hungarian {
  import opened Counting
  import opened ExtendedReals

  ghost predicate Square(cost: seq<seq<real>>) {
    forall i :: 0 <= i < |cost| ==> |cost[i]| >= |cost|
  }

  /** Cost of giving column `q[i]` to each of the first `k` rows `i`. */
  function AssignmentCost(cost: seq<seq<real>>, q: seq<nat>, k: nat): real
    requires k <= |q| && k <= |cost|
    requires forall i :: 0 <= i < k ==> q[i] < |cost[i]|
  {
    if k == 0 then 0.0 else AssignmentCost(cost, q, k - 1) + cost[k - 1][q[k - 1]]
  }

  /** The solver's arrays as values, beside the cost matrix they refer to. */
  datatype Tableau = Tableau(cost: seq<seq<real>>, rowPot: seq<real>, colPot: seq<real>, colToRow: seq<nat>) {
    ghost predicate Shape() {
      && Square(cost)
      && |rowPot| == |colPot| == |colToRow| == |cost| + 1
      && forall j :: 0 <= j <= |cost| ==> colToRow[j] <= |cost|
    }

    ghost function Reduced(i: nat, j: nat): real
      requires Shape() && 1 <= i <= |cost| && 1 <= j <= |cost|
    {
      cost[i - 1][j - 1] - rowPot[i] - colPot[j]
    }

    ghost predicate Feasible(rows: nat)
      requires Shape() && rows <= |cost|
    {
      forall i, j {:trigger Reduced(i, j)} :: 1 <= i <= rows && 1 <= j <= |cost| ==> Reduced(i, j) >= 0.0
    }

    ghost predicate Tight()
      requires Shape()
    {
      forall j {:trigger colToRow[j]} :: 1 <= j <= |cost| && colToRow[j] != 0 ==> Reduced(colToRow[j], j) == 0.0
    }

    ghost function MatchedColumns(): set<nat>
      requires Shape()
    {
      set j | j in UpTo(|cost| + 1) && j != 0 && colToRow[j] != 0
    }

    /** Columns from `first` on hold pairwise different rows. */
    ghost predicate RowsDistinct(first: nat)
      requires Shape()
    {
      forall i, j :: first <= i < j <= |cost| && colToRow[i] == colToRow[j] ==> colToRow[i] == 0
    }

    /** Exactly `rows` columns are matched, one to each of rows 1..rows. */
    ghost predicate Matching(rows: nat)
      requires Shape()
    {
      && (forall j :: 1 <= j <= |cost| ==> colToRow[j] <= rows)
      && RowsDistinct(1)
      && |MatchedColumns()| == rows
    }

    /** What holds between two calls of AssignRow: `rows` rows are matched at reduced cost
        zero and every reduced cost of a matched row is non-negative. */
    ghost predicate Solved(rows: nat) {
      && Shape() && rows <= |cost|
      && Matching(rows)
      && Feasible(rows)
      && Tight()
    }

    /** Row i sits on some visited column. */
    ghost predicate InTree(visited: seq<bool>, i: nat)
      requires Shape() && |visited| == |cost| + 1
    {
      InTreeBelow(visited, i, |cost| + 1)
    }

    ghost predicate InTreeBelow(visited: seq<bool>, i: nat, upto: nat)
      requires Shape() && |visited| == |cost| + 1
    {
      exists j :: 0 <= j < upto && j <= |cost| && visited[j] && colToRow[j] == i
    }

    /** The visited columns form a tree rooted at column 0 along `way`, all its edges tight. */
    ghost predicate Tree(way: seq<nat>, visited: seq<bool>, rank: seq<nat>)
      requires Shape()
    {
      && |way| == |visited| == |rank| == |cost| + 1
      && (forall j :: 0 <= j <= |cost| && visited[j] ==> colToRow[j] != 0)
      && (forall j {:trigger way[j]} :: 1 <= j <= |cost| && visited[j] ==>
            && way[j] <= |cost| && visited[way[j]] && rank[way[j]] < rank[j]
            && Reduced(colToRow[way[j]], j) == 0.0)
    }

    /** `shortest[j]` is the least reduced cost from a tree row to the unvisited column j,
        and `way[j]` is a tree column that attains it. */
    ghost predicate Labels(way: seq<nat>, shortest: seq<Extended>, visited: seq<bool>)
      requires Shape() && |way| == |shortest| == |visited| == |cost| + 1
      requires forall j :: 0 <= j <= |cost| && visited[j] ==> colToRow[j] != 0
    {
      && (forall j {:trigger shortest[j]} :: 1 <= j <= |cost| && !visited[j] ==>
            && way[j] <= |cost| && visited[way[j]]
            && shortest[j] == Finite(Reduced(colToRow[way[j]], j)))
      && (forall i, j {:trigger visited[i], shortest[j]} ::
            0 <= i <= |cost| && visited[i] && 1 <= j <= |cost| && !visited[j] ==>
            shortest[j].value <= Reduced(colToRow[i], j))
    }
  }

  /** Labels and parents after scanning the columns below `upto` through column `current`. */
  ghost predicate Relaxed(t: Tableau, current: nat, visited: seq<bool>, upto: nat,
                          way: seq<nat>, shortest: seq<Extended>, newWay: seq<nat>, newShortest: seq<Extended>)
    requires t.Shape() && |visited| == |t.cost| + 1 && current <= |t.cost| && t.colToRow[current] != 0
  {
    && |way| == |shortest| == |newWay| == |newShortest| == |t.cost| + 1
    && forall j :: 0 <= j <= |t.cost| ==>
         if 1 <= j < upto && !visited[j] && Finite(t.Reduced(t.colToRow[current], j)).LessThan(shortest[j])
         then newShortest[j] == Finite(t.Reduced(t.colToRow[current], j)) && newWay[j] == current
         else newShortest[j] == shortest[j] && newWay[j] == way[j]
  }

  /** `after` is `before` with delta moved onto the tree rows and off the visited columns. */
  ghost predicate Shifted(before: Tableau, after: Tableau, visited: seq<bool>, delta: real)
    requires before.Shape() && |visited| == |before.cost| + 1
  {
    && after == before.(rowPot := after.rowPot, colPot := after.colPot)
    && PartlyShifted(before, after.rowPot, after.colPot, visited, |before.cost| + 1, delta)
  }

  ghost function Unvisited(visited: seq<bool>): set<nat> {
    set j | j in UpTo(|visited|) && !visited[j]
  }

  lemma VisitShrinks(visited: seq<bool>, j: nat)
    requires j < |visited| && !visited[j]
    ensures Unvisited(visited[j := true]) < Unvisited(visited)
  {
    assert j in Unvisited(visited) && j !in Unvisited(visited[j := true]);
  }

  /** The new row sits on the root column; the rows before it are solved. */
  ghost predicate Rooted(t: Tableau, row: nat) {
    && t.Shape() && 1 <= row <= |t.cost| && t.colToRow[0] == row
    && t.Matching(row - 1) && t.RowsDistinct(0) && t.Feasible(row - 1) && t.Tight()
  }

  /** The search tree has just been extended: `next` is the unvisited column it reaches at cost zero. */
  ghost predicate Reached(t: Tableau, way: seq<nat>, shortest: seq<Extended>, visited: seq<bool>, rank: seq<nat>,
                          row: nat, next: nat, time: nat)
  {
    && Rooted(t, row) && t.Feasible(row)
    && |shortest| == |t.cost| + 1
    && t.Tree(way, visited, rank) && t.Labels(way, shortest, visited)
    && (forall j :: 0 <= j <= |t.cost| && visited[j] ==> rank[j] < time)
    && visited[0] && 1 <= next <= |t.cost| && !visited[next] && shortest[next] == Finite(0.0)
  }

  /** The search as each pass of its loop finds it: column `current` is about to be visited. */
  ghost predicate Searching(t: Tableau, way: seq<nat>, shortest: seq<Extended>, visited: seq<bool>, rank: seq<nat>,
                            row: nat, current: nat, time: nat)
  {
    if current == 0 then
      && Rooted(t, row)
      && |way| == |shortest| == |visited| == |rank| == |t.cost| + 1
      && forall j :: 0 <= j <= |t.cost| ==> !visited[j] && shortest[j] == Infinity
    else
      Reached(t, way, shortest, visited, rank, row, current, time) && t.colToRow[current] != 0
  }

  lemma ReachedIsTight(t: Tableau, way: seq<nat>, shortest: seq<Extended>, visited: seq<bool>, rank: seq<nat>,
                       row: nat, next: nat, time: nat)
    requires Reached(t, way, shortest, visited, rank, row, next, time)
    ensures way[next] <= |t.cost| && visited[way[next]]
    ensures t.Reduced(t.colToRow[way[next]], next) == 0.0
  {
    assert shortest[next] == Finite(t.Reduced(t.colToRow[way[next]], next));
  }

  /** Visiting `current` and scanning through it extends the tree by a tight edge. */
  lemma VisitKeepsTree(t: Tableau, way: seq<nat>, shortest: seq<Extended>, visited: seq<bool>, rank: seq<nat>,
                       row: nat, current: nat, time: nat, newWay: seq<nat>, newShortest: seq<Extended>)
    requires Searching(t, way, shortest, visited, rank, row, current, time)
    requires Relaxed(t, current, visited[current := true], |t.cost| + 1, way, shortest, newWay, newShortest)
    ensures t.Tree(newWay, visited[current := true], rank[current := time])
  {
    if current != 0 {
      assert shortest[current] == Finite(t.Reduced(t.colToRow[way[current]], current));
    }
    var seen := visited[current := true];
    forall j | 1 <= j <= |t.cost| && seen[j]
      ensures newWay[j] == way[j] && seen[newWay[j]]
    {
    }
  }

  /** Visiting `current` and scanning through it keeps the labels exact. */
  lemma VisitKeepsLabels(t: Tableau, way: seq<nat>, shortest: seq<Extended>, visited: seq<bool>, rank: seq<nat>,
                         row: nat, current: nat, time: nat, newWay: seq<nat>, newShortest: seq<Extended>)
    requires Searching(t, way, shortest, visited, rank, row, current, time)
    requires Relaxed(t, current, visited[current := true], |t.cost| + 1, way, shortest, newWay, newShortest)
    ensures forall j :: 0 <= j <= |t.cost| && visited[current := true][j] ==> t.colToRow[j] != 0
    ensures t.Labels(newWay, newShortest, visited[current := true])
  {
    var seen := visited[current := true];
    forall j | 1 <= j <= |t.cost| && !seen[j]
      ensures newWay[j] <= |t.cost| && seen[newWay[j]]
      ensures newShortest[j] == Finite(t.Reduced(t.colToRow[newWay[j]], j))
      ensures newShortest[j].value <= t.Reduced(t.colToRow[current], j)
      ensures current != 0 ==> newShortest[j].value <= shortest[j].value
    {
      if current != 0 {
        assert shortest[j] == Finite(t.Reduced(t.colToRow[way[j]], j));
      }
    }
  }

  /** One pass of the search on values: column `current` is visited and scanned through, `next` has
      the least label, and `after` and `lowered` are the tableau and the labels shifted by it. */
  ghost predicate Scanned(t: Tableau, seen: seq<bool>, newShortest: seq<Extended>, next: nat,
                          after: Tableau, lowered: seq<Extended>)
  {
    && t.Shape() && |seen| == |newShortest| == |lowered| == |t.cost| + 1
    && 1 <= next <= |t.cost| && !seen[next] && newShortest[next].Finite?
    && NoneBelow(seen, newShortest, newShortest[next])
    && Shifted(t, after, seen, newShortest[next].value)
    && Lowered(seen, newShortest, lowered, newShortest[next].value)
  }

  ghost predicate NoneBelow(seen: seq<bool>, shortest: seq<Extended>, bound: Extended)
    requires |seen| == |shortest|
  {
    forall j :: 1 <= j < |seen| && !seen[j] ==> !shortest[j].LessThan(bound)
  }

  ghost predicate Lowered(seen: seq<bool>, shortest: seq<Extended>, lowered: seq<Extended>, delta: real)
    requires |seen| == |shortest| == |lowered|
  {
    PartlyLowered(seen, shortest, lowered, |seen|, delta)
  }

  ghost predicate PartlyLowered(seen: seq<bool>, shortest: seq<Extended>, lowered: seq<Extended>, upto: nat,
                                delta: real) {
    && |seen| == |shortest| == |lowered|
    && forall j :: 0 <= j < |seen| ==>
         lowered[j] == if j < upto && !seen[j] && shortest[j].Finite?
                       then Finite(shortest[j].value - delta) else shortest[j]
  }

  lemma ScannedFeasible(t: Tableau, way: seq<nat>, seen: seq<bool>, shortest: seq<Extended>, row: nat,
                        next: nat, after: Tableau, lowered: seq<Extended>)
    requires Rooted(t, row) && |way| == |seen| == |shortest| == |t.cost| + 1 && seen[0]
    requires forall j :: 0 <= j <= |t.cost| && seen[j] ==> t.colToRow[j] != 0
    requires t.Labels(way, shortest, seen)
    requires Scanned(t, seen, shortest, next, after, lowered)
    requires t.Feasible(row) || forall j :: 1 <= j <= |t.cost| ==> !seen[j]
    ensures after.Feasible(row) && after.Tight()
  {
    assert shortest[next] == Finite(t.Reduced(t.colToRow[way[next]], next));
    ShiftKeepsFeasible(t, after, way, shortest, seen, row, shortest[next].value);
  }

  lemma ScannedTree(t: Tableau, way: seq<nat>, seen: seq<bool>, rank: seq<nat>, shortest: seq<Extended>,
                    next: nat, after: Tableau, lowered: seq<Extended>)
    requires t.Shape() && t.Tree(way, seen, rank) && |shortest| == |t.cost| + 1 && t.Labels(way, shortest, seen)
    requires forall j :: 1 <= j <= |t.cost| && !seen[j] ==> shortest[j].Finite?
    requires Scanned(t, seen, shortest, next, after, lowered)
    ensures after.Shape() && after.Tree(way, seen, rank) && after.Labels(way, lowered, seen)
  {
    ShiftKeepsTree(t, after, way, shortest, lowered, seen, rank, shortest[next].value);
  }

  lemma ShiftKeepsRoot(t: Tableau, after: Tableau, row: nat)
    requires Rooted(t, row) && after.Shape() && after == t.(rowPot := after.rowPot, colPot := after.colPot)
    requires after.Feasible(row) && after.Tight()
    ensures Rooted(after, row)
  {
    assert after.MatchedColumns() == t.MatchedColumns();
    assert after.Feasible(row - 1);
  }

  /** While fewer rows than columns are matched there is a free column. */
  lemma FreeColumn(t: Tableau, rows: nat) returns (free: nat)
    requires t.Shape() && t.Matching(rows) && rows < |t.cost|
    ensures 1 <= free <= |t.cost| && t.colToRow[free] == 0
  {
    var columns := UpTo(|t.cost| + 1) - {0};
    assert t.MatchedColumns() <= columns;
    free := Missed(t.MatchedColumns(), columns);
  }

  /** While the search goes on, its columns hold rows and some other column is free. */
  lemma SearchGoesOn(t: Tableau, way: seq<nat>, shortest: seq<Extended>, visited: seq<bool>, rank: seq<nat>,
                     row: nat, current: nat, time: nat)
    returns (free: nat)
    requires Searching(t, way, shortest, visited, rank, row, current, time)
    ensures t.Shape() && t.RowsDistinct(0) && |visited| == |t.cost| + 1
    ensures current <= |t.cost| && t.colToRow[current] != 0
    ensures forall j :: 0 <= j <= |t.cost| && visited[j] ==> t.colToRow[j] != 0
    ensures 1 <= free <= |t.cost| && free != current && !visited[free]
  {
    free := FreeColumn(t, row - 1);
  }

  lemma PassFeasible(t: Tableau, way: seq<nat>, shortest: seq<Extended>, visited: seq<bool>, rank: seq<nat>, row: nat,
                     current: nat, time: nat, newWay: seq<nat>, newShortest: seq<Extended>, next: nat, after: Tableau,
                     lowered: seq<Extended>)
    requires Searching(t, way, shortest, visited, rank, row, current, time)
    requires Relaxed(t, current, visited[current := true], |t.cost| + 1, way, shortest, newWay, newShortest)
    requires Scanned(t, visited[current := true], newShortest, next, after, lowered)
    ensures Rooted(after, row) && after.Feasible(row)
  {
    VisitKeepsLabels(t, way, shortest, visited, rank, row, current, time, newWay, newShortest);
    ScannedFeasible(t, newWay, visited[current := true], newShortest, row, next, after, lowered);
    ShiftKeepsRoot(t, after, row);
  }

  lemma PassTree(t: Tableau, way: seq<nat>, shortest: seq<Extended>, visited: seq<bool>, rank: seq<nat>, row: nat,
                 current: nat, time: nat, newWay: seq<nat>, newShortest: seq<Extended>, next: nat, after: Tableau,
                 lowered: seq<Extended>)
    requires Searching(t, way, shortest, visited, rank, row, current, time)
    requires Relaxed(t, current, visited[current := true], |t.cost| + 1, way, shortest, newWay, newShortest)
    requires Scanned(t, visited[current := true], newShortest, next, after, lowered)
    ensures after.Shape() && after.Tree(newWay, visited[current := true], rank[current := time])
    ensures after.Labels(newWay, lowered, visited[current := true])
  {
    VisitKeepsTree(t, way, shortest, visited, rank, row, current, time, newWay, newShortest);
    VisitKeepsLabels(t, way, shortest, visited, rank, row, current, time, newWay, newShortest);
    ScannedTree(t, newWay, visited[current := true], rank[current := time], newShortest, next, after, lowered);
  }

  /** One pass extends the search tree by one tight edge and keeps all that the search relies on. */
  lemma PassReaches(t: Tableau, way: seq<nat>, shortest: seq<Extended>, visited: seq<bool>, rank: seq<nat>,
                    row: nat, current: nat, time: nat, newWay: seq<nat>, newShortest: seq<Extended>,
                    next: nat, after: Tableau, lowered: seq<Extended>)
    requires Searching(t, way, shortest, visited, rank, row, current, time)
    requires Relaxed(t, current, visited[current := true], |t.cost| + 1, way, shortest, newWay, newShortest)
    requires Scanned(t, visited[current := true], newShortest, next, after, lowered)
    ensures Reached(after, newWay, lowered, visited[current := true], rank[current := time], row, next, time + 1)
  {
    PassFeasible(t, way, shortest, visited, rank, row, current, time, newWay, newShortest, next, after, lowered);
    PassTree(t, way, shortest, visited, rank, row, current, time, newWay, newShortest, next, after, lowered);
  }

  /** The shift, done for the columns below `upto` only. */
  ghost predicate PartlyShifted(before: Tableau, rowPot: seq<real>, colPot: seq<real>, visited: seq<bool>, upto: nat,
                                delta: real)
    requires before.Shape() && |visited| == |before.cost| + 1
  {
    && |rowPot| == |colPot| == |before.cost| + 1
    && (forall j :: 0 <= j <= |before.cost| ==>
          colPot[j] == if j < upto && visited[j] then before.colPot[j] - delta else before.colPot[j])
    && (forall i :: 1 <= i <= |before.cost| ==>
          rowPot[i] == if before.InTreeBelow(visited, i, upto) then before.rowPot[i] + delta else before.rowPot[i])
  }

  lemma ShiftColumn(before: Tableau, rowPot: seq<real>, colPot: seq<real>, visited: seq<bool>, j: nat, delta: real)
    requires before.Shape() && |visited| == |before.cost| + 1 && j <= |before.cost|
    requires before.RowsDistinct(0) && (visited[j] ==> before.colToRow[j] != 0)
    requires PartlyShifted(before, rowPot, colPot, visited, j, delta)
    ensures visited[j] ==>
              PartlyShifted(before, rowPot[before.colToRow[j] := rowPot[before.colToRow[j]] + delta],
                            colPot[j := colPot[j] - delta], visited, j + 1, delta)
    ensures !visited[j] ==> PartlyShifted(before, rowPot, colPot, visited, j + 1, delta)
  {
    forall i
      ensures before.InTreeBelow(visited, i, j + 1) <==>
              before.InTreeBelow(visited, i, j) || (visited[j] && before.colToRow[j] == i)
    {
      if visited[j] && before.colToRow[j] == i {
        assert before.InTreeBelow(visited, i, j + 1);
      }
    }
    if visited[j] {
      assert !before.InTreeBelow(visited, before.colToRow[j], j);
    }
  }

  lemma LowerColumn(visited: seq<bool>, before: seq<Extended>, lowered: seq<Extended>, j: nat, delta: real)
    requires j < |visited| && PartlyLowered(visited, before, lowered, j, delta)
    ensures lowered[j] == before[j]
    ensures if !visited[j] && before[j].Finite?
            then PartlyLowered(visited, before, lowered[j := Finite(before[j].value - delta)], j + 1, delta)
            else PartlyLowered(visited, before, lowered, j + 1, delta)
  {
  }

  /** A shift by the least label keeps tight pairs tight and makes every reduced cost of the
      rows handled so far, the new one included, non-negative. */
  lemma ShiftKeepsFeasible(before: Tableau, after: Tableau, way: seq<nat>, shortest: seq<Extended>,
                           visited: seq<bool>, row: nat, delta: real)
    requires before.Shape() && 1 <= row <= |before.cost|
    requires |way| == |shortest| == |visited| == |before.cost| + 1
    requires forall j :: 0 <= j <= |before.cost| && visited[j] ==> before.colToRow[j] != 0
    requires visited[0] && before.colToRow[0] == row
    requires before.RowsDistinct(0)
    requires before.Feasible(row - 1) && before.Tight() && before.Labels(way, shortest, visited)
    requires Shifted(before, after, visited, delta)
    requires forall j :: 1 <= j <= |before.cost| && !visited[j] ==> shortest[j].value >= delta
    requires (before.Feasible(row) && delta >= 0.0) || forall j :: 1 <= j <= |before.cost| ==> !visited[j]
    ensures after.Feasible(row) && after.Tight()
  {
    var n := |before.cost|;
    forall i, j | 1 <= i <= row && 1 <= j <= n
      ensures after.Reduced(i, j) >= 0.0
    {
      if before.InTree(visited, i) {
        var c :| 0 <= c <= n && visited[c] && before.colToRow[c] == i;
        if !visited[j] {
          assert shortest[j].value <= before.Reduced(i, j);
        } else {
          assert after.Reduced(i, j) == before.Reduced(i, j);
        }
      } else {
        assert i != row;
        assert after.Reduced(i, j) >= before.Reduced(i, j);
      }
    }
    forall j | 1 <= j <= n && before.colToRow[j] != 0
      ensures after.Reduced(before.colToRow[j], j) == 0.0
    {
      assert before.Reduced(before.colToRow[j], j) == 0.0;
      if before.InTree(visited, before.colToRow[j]) {
        var c :| 0 <= c <= n && visited[c] && before.colToRow[c] == before.colToRow[j];
        assert c == j;
      } else {
        assert !visited[j];
      }
    }
  }

  /** A shift keeps the tree tight and lowers every label by delta. */
  lemma ShiftKeepsTree(before: Tableau, after: Tableau, way: seq<nat>, shortest: seq<Extended>, lowered: seq<Extended>,
                       visited: seq<bool>, rank: seq<nat>, delta: real)
    requires before.Shape()
    requires |shortest| == |lowered| == |before.cost| + 1
    requires before.Tree(way, visited, rank) && before.Labels(way, shortest, visited)
    requires Shifted(before, after, visited, delta)
    requires forall j :: 1 <= j <= |before.cost| && !visited[j] ==>
                           lowered[j] == Finite(shortest[j].value - delta)
    ensures after.Tree(way, visited, rank) && after.Labels(way, lowered, visited)
  {
    var n := |before.cost|;
    forall i, j | 0 <= i <= n && visited[i] && 1 <= j <= n
      ensures after.Reduced(before.colToRow[i], j)
           == before.Reduced(before.colToRow[i], j) - if visited[j] then 0.0 else delta
    {
      assert before.InTree(visited, before.colToRow[i]);
    }
    forall j | 1 <= j <= n && visited[j]
      ensures after.Reduced(after.colToRow[way[j]], j) == 0.0
    {
    }
    forall j | 1 <= j <= n && !visited[j]
      ensures lowered[j] == Finite(after.Reduced(after.colToRow[way[j]], j))
    {
      assert shortest[j] == Finite(before.Reduced(before.colToRow[way[j]], j));
    }
    forall i, j | 0 <= i <= n && visited[i] && 1 <= j <= n && !visited[j]
      ensures lowered[j].value <= after.Reduced(after.colToRow[i], j)
    {
      assert shortest[j].value <= before.Reduced(before.colToRow[i], j);
    }
  }

  /** During augmentation: every column except `current` holds a row of its own that it is tight
      with, and tree columns nearer the root than `current` are still as they were `before`. */
  ghost predicate Hole(before: Tableau, p: seq<nat>, free: nat, current: nat, visited: seq<bool>, rank: seq<nat>)
    requires before.Shape()
  {
    && |p| == |visited| == |rank| == |before.cost| + 1
    && 1 <= free <= |before.cost| && current <= |before.cost|
    && (current == free || visited[current])
    && (forall j :: 0 <= j <= |before.cost| ==> p[j] <= before.colToRow[0])
    && (forall j :: 0 <= j <= |before.cost| && visited[j] && (current == free || rank[j] <= rank[current]) ==>
          p[j] == before.colToRow[j])
    && (forall j :: 1 <= j <= |before.cost| && j != current ==>
          (p[j] != 0 <==> j == free || before.colToRow[j] != 0))
    && ApartBut(p, current) && TightBut(before, p, current)
  }

  /** No two columns but `current` hold the same row. */
  ghost predicate ApartBut(p: seq<nat>, current: nat) {
    forall i, j :: 0 <= i < j < |p| && i != current && j != current && p[i] == p[j] ==> p[i] == 0
  }

  /** Every column but `current` is tight with the row it holds. */
  ghost predicate TightBut(before: Tableau, p: seq<nat>, current: nat)
    requires before.Shape() && |p| == |before.cost| + 1
    requires forall j :: 0 <= j <= |before.cost| ==> p[j] <= before.colToRow[0]
  {
    forall j :: 1 <= j <= |before.cost| && j != current && p[j] != 0 ==>
      before.cost[p[j] - 1][j - 1] - before.rowPot[p[j]] - before.colPot[j] == 0.0
  }

  lemma HolePassedOn(p: seq<nat>, current: nat, prev: nat)
    requires current < |p| && prev < |p| && ApartBut(p, current)
    ensures ApartBut(p[current := p[prev]], prev)
  {
  }

  lemma HoleOpens(before: Tableau, free: nat, visited: seq<bool>, rank: seq<nat>)
    requires before.Shape() && before.colToRow[0] != 0 && before.Matching(before.colToRow[0] - 1)
    requires before.Tight() && before.RowsDistinct(0)
    requires |visited| == |rank| == |before.cost| + 1 && 1 <= free <= |before.cost| && before.colToRow[free] == 0
    ensures Hole(before, before.colToRow, free, free, visited, rank)
  {
    forall j | 1 <= j <= |before.cost| && before.colToRow[j] != 0
      ensures before.cost[before.colToRow[j] - 1][j - 1] - before.rowPot[before.colToRow[j]] - before.colPot[j] == 0.0
    {
      assert before.Reduced(before.colToRow[j], j) == 0.0;
    }
  }

  lemma HoleMoves(before: Tableau, p: seq<nat>, way: seq<nat>, free: nat, current: nat, visited: seq<bool>,
                  rank: seq<nat>)
    requires before.Shape() && before.colToRow[0] != 0
    requires before.Tree(way, visited, rank)
    requires Hole(before, p, free, current, visited, rank) && current != 0
    requires !visited[free] && way[free] <= |before.cost| && visited[way[free]]
    requires before.Reduced(before.colToRow[way[free]], free) == 0.0
    ensures way[current] <= |before.cost| && visited[way[current]]
    ensures current == free || rank[way[current]] < rank[current]
    ensures Hole(before, p[current := p[way[current]]], free, way[current], visited, rank)
  {
    var prev := way[current];
    assert before.Reduced(before.colToRow[prev], current) == 0.0;
    assert p[prev] == before.colToRow[prev];
    HolePassedOn(p, current, prev);
  }

  lemma AugmentDone(before: Tableau, after: Tableau, free: nat, visited: seq<bool>, rank: seq<nat>)
    requires before.Shape() && before.colToRow[0] != 0 && before.Matching(before.colToRow[0] - 1)
    requires after == before.(colToRow := after.colToRow)
    requires Hole(before, after.colToRow, free, 0, visited, rank) && before.colToRow[free] == 0
    ensures after.Shape() && after.Matching(before.colToRow[0]) && after.Tight()
  {
    assert after.Shape();
    assert after.Tight() by {
      forall j | 1 <= j <= |after.cost| && after.colToRow[j] != 0
        ensures after.Reduced(after.colToRow[j], j) == 0.0
      {
      }
    }
    assert |after.MatchedColumns()| == before.colToRow[0] by {
      assert after.MatchedColumns() == before.MatchedColumns() + {free};
    }
  }

  /** Writing the new row into the root column leaves the matching of the others alone. */
  lemma RootedAt(before: Tableau, after: Tableau, row: nat)
    requires 1 <= row <= |before.cost| && before.Solved(row - 1)
    requires |before.colToRow| == |before.cost| + 1 && after == before.(colToRow := before.colToRow[0 := row])
    ensures after.Shape() && after.Matching(row - 1) && after.RowsDistinct(0)
    ensures after.Feasible(row - 1) && after.Tight()
  {
    assert after.MatchedColumns() == before.MatchedColumns();
    assert forall i, j {:trigger after.Reduced(i, j)} :: 1 <= i <= row - 1 && 1 <= j <= |before.cost| ==>
        after.Reduced(i, j) == before.Reduced(i, j);
    forall j | 1 <= j <= |before.cost| && before.colToRow[j] != 0
      ensures after.Reduced(before.colToRow[j], j) == 0.0
    {
      assert before.Reduced(before.colToRow[j], j) == 0.0;
    }
  }

  lemma SolvedAfterAugment(before: Tableau, after: Tableau, row: nat)
    requires Rooted(before, row) && before.Feasible(row)
    requires after == before.(colToRow := after.colToRow)
    requires after.Shape() && after.Matching(row) && after.Tight()
    ensures after.Solved(row)
  {
    forall i, j | 1 <= i <= row && 1 <= j <= |before.cost|
      ensures after.Reduced(i, j) >= 0.0
    {
      assert before.Reduced(i, j) >= 0.0;
    }
  }

  class HungarianSolver {
    const dimension: nat
    const rowPotentials: array<real>
    const colPotentials: array<real>
    const colToRow: array<nat>
    const prevCol: array<nat>

    ghost predicate Wired() {
      && rowPotentials.Length == colPotentials.Length == colToRow.Length == prevCol.Length == dimension + 1
      && rowPotentials != colPotentials && colToRow != prevCol
    }

    ghost function View(cost: seq<seq<real>>): Tableau
      reads rowPotentials, colPotentials, colToRow
    {
      Tableau(cost, rowPotentials[..], colPotentials[..], colToRow[..])
    }

    constructor (dimension: nat)
      ensures Wired() && this.dimension == dimension
      ensures fresh(rowPotentials) && fresh(colPotentials) && fresh(colToRow) && fresh(prevCol)
      ensures forall cost :: Square(cost) && |cost| == dimension ==> View(cost).Solved(0)
    {
      this.dimension := dimension;
      rowPotentials := new real[dimension + 1](_ => 0.0);
      colPotentials := new real[dimension + 1](_ => 0.0);
      colToRow := new nat[dimension + 1](_ => 0);
      prevCol := new nat[dimension + 1](_ => 0);
      new;
      forall cost | Square(cost) && |cost| == dimension
        ensures View(cost).Solved(0)
      {
        assert View(cost).MatchedColumns() == {};
      }
    }

    /** One scan over the unvisited columns: lower their labels through `current` and find the least. */
    method Relax(cost: seq<seq<real>>, current: nat, visited: array<bool>, shortest: array<Extended>)
      returns (minDelta: Extended, next: nat)
      requires Wired() && |cost| == dimension && View(cost).Shape()
      requires visited.Length == shortest.Length == dimension + 1
      requires current <= dimension && colToRow[current] != 0
      modifies prevCol, shortest
      ensures Relaxed(View(cost), current, visited[..], dimension + 1,
                      old(prevCol[..]), old(shortest[..]), prevCol[..], shortest[..])
      ensures NoneBelow(visited[..], shortest[..], minDelta)
      ensures minDelta.Finite? ==> 1 <= next <= dimension && !visited[next] && shortest[next] == minDelta
    {
      var assignedRow := colToRow[current];
      minDelta, next := Infinity, 0;
      for j := 1 to dimension + 1
        invariant Relaxed(View(cost), current, visited[..], j,
                          old(prevCol[..]), old(shortest[..]), prevCol[..], shortest[..])
        invariant forall c :: 1 <= c < j && !visited[c] ==> !shortest[c].LessThan(minDelta)
        invariant minDelta.Finite? ==> 1 <= next < j && !visited[next] && shortest[next] == minDelta
      {
        if visited[j] {
          continue;
        }
        var reducedCost := cost[assignedRow - 1][j - 1] - rowPotentials[assignedRow] - colPotentials[j];
        assert reducedCost == View(cost).Reduced(assignedRow, j);
        if Finite(reducedCost).LessThan(shortest[j]) {
          shortest[j] := Finite(reducedCost);
          prevCol[j] := current;
        }
        if shortest[j].LessThan(minDelta) {
          minDelta := shortest[j];
          next := j;
        }
      }
    }

    /** Move delta from the visited columns to their rows, and off the labels of the others. */
    method Shift(cost: seq<seq<real>>, visited: array<bool>, shortest: array<Extended>, delta: real)
      requires Wired() && |cost| == dimension && View(cost).Shape()
      requires visited.Length == shortest.Length == dimension + 1
      requires forall j :: 0 <= j <= dimension && visited[j] ==> colToRow[j] != 0
      requires View(cost).RowsDistinct(0)
      modifies rowPotentials, colPotentials, shortest
      ensures Shifted(old(View(cost)), View(cost), visited[..], delta)
      ensures Lowered(visited[..], old(shortest[..]), shortest[..], delta)
    {
      ghost var before, labels, seen := View(cost), shortest[..], visited[..];
      for j := 0 to dimension + 1
        invariant colToRow[..] == before.colToRow && visited[..] == seen
        invariant PartlyShifted(before, rowPotentials[..], colPotentials[..], seen, j, delta)
        invariant PartlyLowered(seen, labels, shortest[..], j, delta)
      {
        ghost var rowPot, colPot, lowered := rowPotentials[..], colPotentials[..], shortest[..];
        assert visited[j] == seen[j] && colToRow[j] == before.colToRow[j];
        LowerColumn(seen, labels, lowered, j, delta);
        if visited[j] {
          rowPotentials[colToRow[j]] := rowPotentials[colToRow[j]] + delta;
          colPotentials[j] := colPotentials[j] - delta;
        } else if shortest[j].Finite? {
          shortest[j] := Finite(shortest[j].value - delta);
          assert shortest[..] == lowered[j := Finite(labels[j].value - delta)];
        }
        ShiftColumn(before, rowPot, colPot, seen, j, delta);
        if seen[j] {
          assert rowPotentials[..] == rowPot[before.colToRow[j] := rowPot[before.colToRow[j]] + delta];
          assert colPotentials[..] == colPot[j := colPot[j] - delta];
        }
      }
    }

    /** Walk the tree from the free column back to the root, handing each column its parent's row. */
    method Augment(cost: seq<seq<real>>, free: nat, row: nat, ghost visited: seq<bool>, ghost rank: seq<nat>)
      requires Wired() && |cost| == dimension && View(cost).Shape()
      requires 1 <= row <= dimension && View(cost).Matching(row - 1) && View(cost).RowsDistinct(0)
      requires View(cost).Tight() && colToRow[0] == row
      requires |visited| == |rank| == dimension + 1 && View(cost).Tree(prevCol[..], visited, rank)
      requires visited[0] && 1 <= free <= dimension && !visited[free] && colToRow[free] == 0
      requires prevCol[free] <= dimension && visited[prevCol[free]]
      requires View(cost).Reduced(colToRow[prevCol[free]], free) == 0.0
      modifies colToRow
      ensures View(cost).Shape() && View(cost).Matching(row) && View(cost).Tight()
    {
      ghost var before := View(cost);
      ghost var way := prevCol[..];
      HoleOpens(before, free, visited, rank);
      var current := free;
      while true
        invariant 1 <= current <= dimension && |rank| == dimension + 1
        invariant Hole(before, colToRow[..], free, current, visited, rank)
        decreases if current == free then 1 else 0, rank[current]
      {
        ghost var p := colToRow[..];
        HoleMoves(before, p, way, free, current, visited, rank);
        var prev := prevCol[current];
        colToRow[current] := colToRow[prev];
        assert colToRow[..] == p[current := p[prev]];
        current := prev;
        if current == 0 {
          break;
        }
      }
      AugmentDone(before, View(cost), free, visited, rank);
    }

    /** Visit `current`, relax, and shift by the least label; `free` is a column still to be reached. */
    method Sweep(cost: seq<seq<real>>, current: nat, visited: array<bool>, shortest: array<Extended>, ghost free: nat)
      returns (next: nat, ghost relaxed: seq<Extended>)
      requires Wired() && |cost| == dimension && visited.Length == shortest.Length == dimension + 1
      requires View(cost).Shape() && View(cost).RowsDistinct(0)
      requires current <= dimension && 1 <= free <= dimension && free != current && !visited[free]
      requires colToRow[current] != 0 && forall j :: 0 <= j <= dimension && visited[j] ==> colToRow[j] != 0
      modifies rowPotentials, colPotentials, prevCol, shortest, visited
      ensures visited[..] == old(visited[..])[current := true]
      ensures Relaxed(old(View(cost)), current, visited[..], dimension + 1,
                      old(prevCol[..]), old(shortest[..]), prevCol[..], relaxed)
      ensures Scanned(old(View(cost)), visited[..], relaxed, next, View(cost), shortest[..])
    {
      visited[current] := true;
      var minDelta;
      minDelta, next := Relax(cost, current, visited, shortest);
      relaxed := shortest[..];
      assert relaxed[free].Finite?;
      Shift(cost, visited, shortest, minDelta.value);
    }

    /** One pass of the search: visit `current` and reach the nearest unvisited column. */
    method Pass(cost: seq<seq<real>>, row: nat, current: nat, visited: array<bool>, shortest: array<Extended>,
                ghost rank: seq<nat>, ghost time: nat)
      returns (next: nat)
      requires Wired() && |cost| == dimension && visited.Length == shortest.Length == dimension + 1
      requires current <= dimension
      requires Searching(View(cost), prevCol[..], shortest[..], visited[..], rank, row, current, time)
      modifies rowPotentials, colPotentials, prevCol, shortest, visited
      ensures colToRow[..] == old(colToRow[..])
      ensures visited[..] == old(visited[..])[current := true]
      ensures Reached(View(cost), prevCol[..], shortest[..], visited[..], rank[current := time], row, next, time + 1)
    {
      ghost var t, way, labels, was := View(cost), prevCol[..], shortest[..], visited[..];
      ghost var free := SearchGoesOn(t, way, labels, was, rank, row, current, time);
      ghost var relaxed;
      next, relaxed := Sweep(cost, current, visited, shortest, free);
      PassReaches(t, way, labels, was, rank, row, current, time, prevCol[..], relaxed, next, View(cost), shortest[..]);
    }

    /** Grow the tree from the root until it reaches a column without a row. */
    method FindFree(row: nat, cost: seq<seq<real>>)
      returns (free: nat, ghost shortest: seq<Extended>, ghost visited: seq<bool>, ghost rank: seq<nat>,
               ghost time: nat)
      requires Wired() && |cost| == dimension && Rooted(View(cost), row)
      modifies rowPotentials, colPotentials, prevCol
      ensures Reached(View(cost), prevCol[..], shortest, visited, rank, row, free, time) && colToRow[free] == 0
    {
      var current := 0;
      var labels := new Extended[dimension + 1](_ => Infinity);
      var seen := new bool[dimension + 1](_ => false);
      rank, time := seq(dimension + 1, _ => 0), 0;
      while true
        invariant fresh(labels) && fresh(seen) && seen.Length == labels.Length == dimension + 1
        invariant current <= dimension
        invariant Searching(View(cost), prevCol[..], labels[..], seen[..], rank, row, current, time)
        decreases Unvisited(seen[..])
      {
        VisitShrinks(seen[..], current);
        var next := Pass(cost, row, current, seen, labels, rank, time);
        rank, time := rank[current := time], time + 1;
        current := next;
        if colToRow[current] == 0 {
          break;
        }
      }
      free, shortest, visited := current, labels[..], seen[..];
    }

    method AssignRow(row: nat, cost: seq<seq<real>>)
      requires Wired() && |cost| == dimension && 1 <= row <= dimension && View(cost).Solved(row - 1)
      modifies rowPotentials, colPotentials, colToRow, prevCol
      ensures View(cost).Solved(row)
    {
      ghost var solved := View(cost);
      colToRow[0] := row;
      RootedAt(solved, View(cost), row);
      var current;
      ghost var shortest, visited, rank, time;
      current, shortest, visited, rank, time := FindFree(row, cost);
      ghost var t := View(cost);
      ReachedIsTight(t, prevCol[..], shortest, visited, rank, row, current, time);
      Augment(cost, current, row, visited, rank);
      SolvedAfterAugment(t, View(cost), row);
    }

    /** result[row] is the column matched to row, both numbered from 0. */
    method IntoAssignment(ghost cost: seq<seq<real>>) returns (result: array<nat>)
      requires Wired() && |cost| == dimension && View(cost).Solved(dimension)
      ensures fresh(result) && IsPermutation(result[..], dimension)
      ensures forall i :: 0 <= i < dimension ==> colToRow[result[i] + 1] == i + 1
    {
      ghost var p := colToRow[..];
      assert AllMatched(p, dimension) by {
        SolvedMatchesAll(View(cost));
      }
      result := new nat[dimension](_ => 0);
      for j := 1 to dimension + 1
        invariant colToRow[..] == p
        invariant forall i, c :: 0 <= i < dimension && 1 <= c < j && p[c] == i + 1 ==> result[i] == c - 1
      {
        assert p[j] == colToRow[j];
        result[colToRow[j] - 1] := j - 1;
      }
      InverseIsPermutation(p, result[..], dimension);
    }
  }

  /** Columns 1..n hold rows 1..n, each one once. */
  ghost predicate AllMatched(p: seq<nat>, n: nat) {
    && |p| == n + 1
    && (forall j :: 1 <= j <= n ==> 1 <= p[j] <= n)
    && forall i, j :: 1 <= i < j <= n ==> p[i] != p[j]
  }

  lemma SolvedMatchesAll(t: Tableau)
    requires t.Solved(|t.cost|)
    ensures AllMatched(t.colToRow, |t.cost|)
  {
    var columns := UpTo(|t.cost| + 1) - {0};
    assert t.MatchedColumns() <= columns;
    SubsetSize(t.MatchedColumns(), columns);
    forall j | 1 <= j <= |t.cost|
      ensures t.colToRow[j] != 0
    {
      assert j in columns;
    }
  }

  /** Every row from 1 to n sits on some column. */
  lemma RowIsMatched(p: seq<nat>, n: nat, row: nat) returns (j: nat)
    requires AllMatched(p, n) && 1 <= row <= n
    ensures 1 <= j <= n && p[j] == row
  {
    var rows: seq<nat> := seq(n, i requires 0 <= i < n => (p[i + 1] - 1) as nat);
    PermutationHits(rows, n, row - 1);
    var i :| 0 <= i < n && rows[i] == row - 1;
    j := i + 1;
  }

  lemma InverseIsPermutation(p: seq<nat>, q: seq<nat>, n: nat)
    requires AllMatched(p, n) && |q| == n
    requires forall i, j :: 0 <= i < n && 1 <= j <= n && p[j] == i + 1 ==> q[i] == j - 1
    ensures IsPermutation(q, n)
    ensures forall i :: 0 <= i < n ==> p[q[i] + 1] == i + 1
  {
    forall i | 0 <= i < n
      ensures q[i] < n && p[q[i] + 1] == i + 1
    {
      var j := RowIsMatched(p, n, i + 1);
    }
  }

  /** Every permutation costs at least the sum of the potentials. */
  lemma {:induction false} WeakDuality(t: Tableau, q: seq<nat>, k: nat)
    requires t.Shape() && t.Feasible(|t.cost|)
    requires |q| == |t.cost| && k <= |q| && forall i :: 0 <= i < |q| ==> q[i] < |t.cost|
    ensures AssignmentCost(t.cost, q, k) >= Total(t.rowPot[1..][..k]) + IndexedSum(t.colPot[1..], q[..k])
  {
    if k == 0 {
    } else {
      WeakDuality(t, q, k - 1);
      assert t.Reduced(k, q[k - 1] + 1) >= 0.0;
      assert t.rowPot[1..][..k][..k - 1] == t.rowPot[1..][..k - 1];
      assert q[..k][..k - 1] == q[..k - 1];
    }
  }

  /** The matched permutation costs exactly the sum of the potentials. */
  lemma {:induction false} TightDuality(t: Tableau, q: seq<nat>, k: nat)
    requires t.Shape() && t.Tight()
    requires |q| == |t.cost| && k <= |q| && forall i :: 0 <= i < |q| ==>
             q[i] < |t.cost| && t.colToRow[q[i] + 1] == i + 1
    ensures AssignmentCost(t.cost, q, k) == Total(t.rowPot[1..][..k]) + IndexedSum(t.colPot[1..], q[..k])
  {
    if k == 0 {
    } else {
      TightDuality(t, q, k - 1);
      assert t.Reduced(k, q[k - 1] + 1) == 0.0;
      assert t.rowPot[1..][..k][..k - 1] == t.rowPot[1..][..k - 1];
      assert q[..k][..k - 1] == q[..k - 1];
    }
  }

  /** Complementary slackness: a fully solved tableau's matching costs no more than any permutation. */
  lemma MatchingIsOptimal(t: Tableau, q: seq<nat>, other: seq<nat>)
    requires t.Solved(|t.cost|)
    requires IsPermutation(q, |t.cost|) && forall i :: 0 <= i < |q| ==> t.colToRow[q[i] + 1] == i + 1
    requires IsPermutation(other, |t.cost|)
    ensures AssignmentCost(t.cost, q, |t.cost|) <= AssignmentCost(t.cost, other, |t.cost|)
  {
    var n := |t.cost|;
    TightDuality(t, q, n);
    WeakDuality(t, other, n);
    assert q[..n] == q && other[..n] == other;
    PermutationSum(t.colPot[1..], q);
    PermutationSum(t.colPot[1..], other);
  }

  /** `q` is a permutation and no permutation is cheaper. */
  ghost predicate IsCheapest(cost: seq<seq<real>>, q: seq<nat>)
    requires Square(cost)
  {
    && IsPermutation(q, |cost|)
    && forall other :: IsPermutation(other, |cost|) ==>
         AssignmentCost(cost, q, |cost|) <= AssignmentCost(cost, other, |cost|)
  }

  lemma MatchingIsCheapest(t: Tableau, q: seq<nat>)
    requires t.Solved(|t.cost|)
    requires IsPermutation(q, |t.cost|) && forall i :: 0 <= i < |q| ==> t.colToRow[q[i] + 1] == i + 1
    ensures IsCheapest(t.cost, q)
  {
    forall other | IsPermutation(other, |t.cost|)
      ensures AssignmentCost(t.cost, q, |t.cost|) <= AssignmentCost(t.cost, other, |t.cost|)
    {
      MatchingIsOptimal(t, q, other);
    }
  }

  method HungarianAlgorithm(cost: seq<seq<real>>) returns (assignment: seq<nat>)
    requires Square(cost)
    ensures IsCheapest(cost, assignment)
  {
    var n := |cost|;
    var solver := new HungarianSolver(n);
    for row := 1 to n + 1
      invariant solver.View(cost).Solved(row - 1)
    {
      solver.AssignRow(row, cost);
    }
    ghost var solved := solver.View(cost);
    var result := solver.IntoAssignment(cost);
    assignment := result[..];
    assert forall i :: 0 <= i < n ==> solved.colToRow[assignment[i] + 1] == i + 1;
    MatchingIsCheapest(solved, assignment);
  }
}
