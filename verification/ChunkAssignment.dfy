/** Giving a chunk's active speakers clusters by similarity; a speaker whose embedding is unusable
    takes part with a score below every real one. */
module ChunkAssignment {
  import opened AssignmentSearch
  import opened Chunking
  import opened Counting
  import opened Matrices
  import opened Options
  import opened SpeakerMapping

  /** A chunk's decoded activity and, for each speaker, the shifted similarity of its embedding to each
      centroid, or nothing if the embedding is not finite. */
  datatype Chunk = Chunk(activity: Window, similarity: seq<Option<seq<real>>>, speakers: nat, clusters: nat) {
    ghost predicate Valid() {
      && Rectangular(activity, speakers) && |similarity| == speakers
      && forall s :: 0 <= s < speakers && similarity[s].Some? ==> |similarity[s].value| == clusters
    }

    predicate IsActive(s: nat)
      requires Valid() && s < speakers
    {
      Total(Column(activity, s)) > 0.0
    }

    /** The speaker takes part with real scores. */
    predicate IsScored(s: nat)
      requires Valid() && s < speakers
    {
      IsActive(s) && similarity[s].Some?
    }

    /** Active speakers below n, in increasing order. */
    function Active(n: nat): seq<nat>
      requires Valid() && n <= speakers
    {
      if n == 0 then [] else if IsActive(n - 1) then Active(n - 1) + [n - 1] else Active(n - 1)
    }

    /** The score matrix, `mask` standing in wherever there is no real score. */
    function Scores(mask: real): (scores: seq<seq<real>>)
      requires Valid()
      ensures |scores| == speakers && forall s :: 0 <= s < speakers ==> |scores[s]| == clusters
    {
      seq(speakers, s requires 0 <= s < speakers => if IsScored(s) then similarity[s].value
          else seq(clusters, _ => mask))
    }

    /** The mask lies below every real score. */
    ghost predicate IsMask(mask: real)
      requires Valid()
    {
      forall s: nat :: s < speakers && IsScored(s) ==> AllAbove(similarity[s].value, mask)
    }

    ghost predicate NoScores()
      requires Valid()
    {
      clusters == 0 || forall s: nat :: s < speakers ==> !IsScored(s)
    }

    ghost function Task(mask: real): Problem
      requires Valid()
    {
      Problem(Scores(mask), Active(speakers), clusters, Min(|Active(speakers)|, clusters))
    }
  }

  ghost predicate AllAbove(row: seq<real>, bound: real) {
    forall c :: 0 <= c < |row| ==> bound < row[c]
  }

  lemma {:induction false} ActiveMembers(chunk: Chunk, n: nat)
    requires chunk.Valid() && n <= chunk.speakers
    ensures forall s: nat :: s in chunk.Active(n) <==> s < n && chunk.IsActive(s)
    ensures forall k :: 0 <= k < |chunk.Active(n)| ==> chunk.Active(n)[k] < n
    ensures Distinct(chunk.Active(n))
  {
    if n == 0 {
    } else {
      ActiveMembers(chunk, n - 1);
    }
  }

  lemma {:induction false} TotalIsPositive(w: seq<real>)
    requires forall i :: 0 <= i < |w| ==> w[i] >= 0.0
    ensures Total(w) >= 0.0
    ensures Total(w) > 0.0 <==> exists i :: 0 <= i < |w| && w[i] > 0.0
  {
    if |w| == 0 {
    } else {
      var front := w[..|w| - 1];
      TotalIsPositive(front);
      assert forall i :: 0 <= i < |front| ==> front[i] == w[i];
    }
  }

  /** On activities that are not negative, as decoding leaves them, a speaker is active exactly if he
      talks in some frame. */
  lemma ActiveIffTalks(chunk: Chunk, s: nat)
    requires chunk.Valid() && s < chunk.speakers
    requires forall i :: 0 <= i < |chunk.activity| ==> chunk.activity[i][s] >= 0.0
    ensures chunk.IsActive(s) <==> exists i :: 0 <= i < |chunk.activity| && chunk.activity[i][s] > 0.0
  {
    TotalIsPositive(Column(chunk.activity, s));
    assert forall i :: 0 <= i < |chunk.activity| ==> Column(chunk.activity, s)[i] == chunk.activity[i][s];
  }

  lemma TaskIsValid(chunk: Chunk, mask: real)
    requires chunk.Valid()
    ensures chunk.Task(mask).Valid() && Distinct(chunk.Active(chunk.speakers))
  {
    ActiveMembers(chunk, chunk.speakers);
  }

  // --- Best assignments use the larger of two scores -------------------------------------------

  lemma {:induction false} ChoiceOfMembers(m: map<nat, nat>, k: nat)
    ensures forall i: nat, c: nat :: (i, c) in ChoiceOf(m, k) <==> i < k && i in m && m[i] == c
  {
    if k == 0 {
    } else {
      ChoiceOfMembers(m, k - 1);
    }
  }

  lemma {:induction false} MappingValueMoves(matrix: seq<seq<real>>, m: map<nat, nat>, x: nat, y: nat, cols: nat,
                                             k: nat)
    requires SpeakerMapping.Covers(matrix, |matrix|, cols) && PartialInjection(m, |matrix|, cols) && k <= |matrix|
    requires x < |matrix| && x !in m && y in m
    ensures var moved := (m - {y})[x := m[y]];
            MappingValue(matrix, moved, k) == MappingValue(matrix, m, k)
              + (if x < k then matrix[x][m[y]] else 0.0) - (if y < k then matrix[y][m[y]] else 0.0)
  {
    if k == 0 {
    } else {
      MappingValueMoves(matrix, m, x, y, cols, k - 1);
    }
  }

  /** Handing the cluster of y to x, which has none, keeps a mapping one-to-one and its size. */
  lemma ClusterMoves(m: map<nat, nat>, rows: nat, cols: nat, x: nat, y: nat)
    requires PartialInjection(m, rows, cols) && y in m && x !in m && x < rows
    ensures PartialInjection((m - {y})[x := m[y]], rows, cols) && |(m - {y})[x := m[y]]| == |m|
  {
    var moved := (m - {y})[x := m[y]];
    assert moved.Keys == m.Keys - {y} + {x};
    assert |moved.Keys| == |m.Keys|;
  }

  /** A best assignment as a mapping: the same pairs, full-size, the same value. */
  lemma MapOfBest(p: Problem, choice: Choice, best: seq<(nat, nat)>) returns (m: map<nat, nat>)
    requires p.Valid() && p.target == Min(|p.active|, p.clusters) && IsBestChoice(p, choice, best)
    ensures PartialInjection(m, |p.active|, p.clusters) && |m| == p.target
    ensures MappingValue(ActiveRows(p.scores, p.active), m, |p.active|) == p.Value(choice)
    ensures forall i: nat, c: nat :: (i, c) in choice ==> i < |p.active| && i in m && m[i] == c
    ensures forall i :: i in m ==> (i, m[i]) in choice
  {
    m := MapOfChoice(choice, p.clusters, |p.active|);
    ChoiceOfMembers(m, |p.active|);
    ChoiceOfSize(m, |p.active|);
    assert KeysBelow(m, |p.active|) == m.Keys;
    ChoiceOfValue(p, m, |p.active|);
  }

  /** In a best assignment the place that was left out scores no more on a cluster than the place that has it. */
  lemma LeftOutScoresLess(p: Problem, choice: Choice, best: seq<(nat, nat)>, x: nat, y: nat, c: nat)
    requires p.Valid() && p.target == Min(|p.active|, p.clusters) && IsBestChoice(p, choice, best)
    requires x < |p.active| && (forall d: nat :: (x, d) !in choice) && (y, c) in choice
    ensures y < |p.active| && c < p.clusters && p.scores[p.active[x]][c] <= p.scores[p.active[y]][c]
  {
    var rows := ActiveRows(p.scores, p.active);
    var m := MapOfBest(p, choice, best);
    ClusterMoves(m, |rows|, p.clusters, x, y);
    MappingValueMoves(rows, m, x, y, p.clusters, |rows|);
    BestIsMaximal(p, choice, best, (m - {y})[x := c]);
  }

  // --- Labels ----------------------------------------------------------------------------------

  /** Labels written from pairs of speaker and cluster; -2 for a speaker in none. */
  ghost predicate WrittenFrom(labels: seq<int>, pairs: seq<(nat, nat)>) {
    forall s: nat :: s < |labels| ==> if labels[s] == -2 then NotIn(pairs, s)
        else labels[s] >= 0 && (s, labels[s] as nat) in pairs
  }

  ghost predicate NotIn(pairs: seq<(nat, nat)>, s: nat) {
    forall k :: 0 <= k < |pairs| ==> pairs[k].0 != s
  }

  method WriteLabels(speakers: nat, pairs: seq<(nat, nat)>) returns (labels: seq<int>)
    requires forall k :: 0 <= k < |pairs| ==> pairs[k].0 < speakers
    ensures |labels| == speakers && WrittenFrom(labels, pairs)
  {
    labels := seq(speakers, _ => -2);
    for k := 0 to |pairs|
      invariant |labels| == speakers && WrittenFrom(labels, pairs[..k])
    {
      assert pairs[..k + 1] == pairs[..k] + [pairs[k]];
      labels := labels[pairs[k].0 := pairs[k].1];
    }
    assert pairs[..|pairs|] == pairs;
  }

  method Smallest(row: seq<real>, before: Option<real>) returns (least: Option<real>)
    ensures least.None? <==> before.None? && row == []
    ensures least.Some? && before.Some? ==> least.value <= before.value
    ensures least.Some? ==> forall c :: 0 <= c < |row| ==> least.value <= row[c]
    ensures least == before || (least.Some? && least.value in row)
  {
    least := before;
    for c := 0 to |row|
      invariant least.None? <==> before.None? && c == 0
      invariant least.Some? && before.Some? ==> least.value <= before.value
      invariant least.Some? ==> forall i :: 0 <= i < c ==> least.value <= row[i]
      invariant least == before || (least.Some? && least.value in row)
    {
      if least.None? || row[c] < least.value {
        least := Some(row[c]);
      }
    }
  }

  ghost predicate HasScore(chunk: Chunk, x: real)
    requires chunk.Valid()
  {
    exists s: nat :: s < chunk.speakers && chunk.IsScored(s) && x in chunk.similarity[s].value
  }

  /** x is a real score and no real score is smaller. */
  ghost predicate IsLeastScore(chunk: Chunk, x: real)
    requires chunk.Valid()
  {
    && HasScore(chunk, x)
    && forall s: nat, c: nat :: s < chunk.speakers && chunk.IsScored(s) && c < chunk.clusters ==>
         x <= chunk.similarity[s].value[c]
  }

  /** The smallest real score less one, if there is a real score. */
  method FindMask(chunk: Chunk) returns (mask: Option<real>)
    requires chunk.Valid()
    ensures mask.None? <==> chunk.NoScores()
    ensures mask.Some? ==> chunk.IsMask(mask.value)
    ensures mask.Some? ==> IsLeastScore(chunk, mask.value + 1.0)
  {
    var least: Option<real> := None;
    for s := 0 to chunk.speakers
      invariant least.None? <==> chunk.clusters == 0 || forall i: nat :: i < s ==> !chunk.IsScored(i)
      invariant least.Some? ==> HasScore(chunk, least.value)
      invariant least.Some? ==> forall i: nat, c: nat :: i < s && chunk.IsScored(i) && c < chunk.clusters ==>
                least.value <= chunk.similarity[i].value[c]
    {
      if chunk.IsScored(s) {
        least := Smallest(chunk.similarity[s].value, least);
      }
    }
    mask := if least.Some? then Some(least.value - 1.0) else None;
  }

  /** What a chunk's labels promise. */
  ghost predicate IsLabelling(chunk: Chunk, labels: seq<int>)
    requires chunk.Valid()
  {
    if chunk.NoScores() then labels == seq(chunk.speakers, _ => -2)
    else |labels| == chunk.speakers && exists mask, choice :: BestLabels(chunk, mask, choice, labels)
  }

  /** The labels are those of the first best full-size assignment on the masked scores, the mask being one
      below the smallest real score. */
  ghost predicate BestLabels(chunk: Chunk, mask: real, choice: Choice, labels: seq<int>)
    requires chunk.Valid()
  {
    && chunk.IsMask(mask) && IsLeastScore(chunk, mask + 1.0) && chunk.Task(mask).Valid()
    && chunk.Task(mask).Candidate(0, Unused(chunk.clusters), 0, choice)
    && IsBestChoice(chunk.Task(mask), choice, Pairs(chunk.Task(mask).active, choice))
    && WrittenFrom(labels, Pairs(chunk.Task(mask).active, choice))
  }

  /** The matrix handed to the search: the real scores with the mask in place of minus infinity, or only
      minus infinity where there is no real score to take a mask from. */
  function SearchScores(chunk: Chunk, mask: Option<real>): (scores: seq<seq<Similarity>>)
    requires chunk.Valid()
    ensures |scores| == chunk.speakers && forall s :: 0 <= s < chunk.speakers ==> |scores[s]| == chunk.clusters
  {
    seq(chunk.speakers, s requires 0 <= s < chunk.speakers =>
      seq(chunk.clusters, c requires 0 <= c < chunk.clusters =>
        if chunk.IsScored(s) then Some(chunk.similarity[s].value[c]) else mask))
  }

  lemma MaskedScores(chunk: Chunk, mask: real)
    requires chunk.Valid()
    ensures Reals(SearchScores(chunk, Some(mask))) == chunk.Scores(mask)
  {
    var r, scores := Reals(SearchScores(chunk, Some(mask))), chunk.Scores(mask);
    forall s: nat | s < chunk.speakers
      ensures r[s] == scores[s]
    {
    }
  }

  /** The labels of a chunk are those of a best assignment, or, without a real score, none at all. */
  method AssignChunk(chunk: Chunk) returns (labels: seq<int>)
    requires chunk.Valid()
    ensures IsLabelling(chunk, labels)
  {
    var mask := FindMask(chunk);
    var active := chunk.Active(chunk.speakers);
    ActiveMembers(chunk, chunk.speakers);
    var scores := SearchScores(chunk, mask);
    var pairs := BestAssignment(scores, active, chunk.clusters);
    if mask.Some? {
      TaskIsValid(chunk, mask.value);
      MaskedScores(chunk, mask.value);
      ghost var choice: Choice :| IsBestChoice(chunk.Task(mask.value), choice, pairs);
      labels := WriteLabels(chunk.speakers, pairs);
      assert BestLabels(chunk, mask.value, choice, labels);
    } else {
      assert Hopeless(scores, active, chunk.clusters);
      labels := WriteLabels(chunk.speakers, pairs);
    }
  }

  /** A chunk has one labelling: even speakers without a usable embedding, who all score the mask, get
      the clusters that the search meets first. */
  lemma LabelsAreUnique(chunk: Chunk, labels: seq<int>, others: seq<int>)
    requires chunk.Valid() && IsLabelling(chunk, labels) && IsLabelling(chunk, others)
    ensures labels == others
  {
    if !chunk.NoScores() {
      var mask, choice :| BestLabels(chunk, mask, choice, labels);
      var mask', choice' :| BestLabels(chunk, mask', choice', others);
      LeastIsUnique(chunk, mask + 1.0, mask' + 1.0);
      SameLabels(chunk, mask, choice, choice', labels, others);
    }
  }

  lemma SameLabels(chunk: Chunk, mask: real, x: Choice, y: Choice, labels: seq<int>, others: seq<int>)
    requires chunk.Valid() && |labels| == |others|
    requires BestLabels(chunk, mask, x, labels) && BestLabels(chunk, mask, y, others)
    ensures labels == others
  {
    var p := chunk.Task(mask);
    BestIsUnique(p, x, y, Pairs(p.active, x), Pairs(p.active, y));
    ActiveMembers(chunk, chunk.speakers);
    BestIsOneToOne(p, x, Pairs(p.active, x));
    WrittenOnce(labels, others, Pairs(p.active, x));
  }

  lemma LeastIsUnique(chunk: Chunk, x: real, y: real)
    requires chunk.Valid() && IsLeastScore(chunk, x) && IsLeastScore(chunk, y)
    ensures x == y
  {
  }

  lemma WrittenOnce(labels: seq<int>, others: seq<int>, pairs: seq<(nat, nat)>)
    requires |labels| == |others| && WrittenFrom(labels, pairs) && WrittenFrom(others, pairs)
    requires forall j, k :: 0 <= j < k < |pairs| ==> pairs[j].0 != pairs[k].0
    ensures labels == others
  {
    forall s: nat | s < |labels|
      ensures labels[s] == others[s]
    {
      if labels[s] != -2 {
        var j := LabelledPair(labels, pairs, s);
        assert !NotIn(pairs, s);
        var k := LabelledPair(others, pairs, s);
      } else {
        assert NotIn(pairs, s);
      }
    }
  }

  function Firsts(pairs: seq<(nat, nat)>): (firsts: seq<nat>)
    ensures |firsts| == |pairs|
  {
    seq(|pairs|, k requires 0 <= k < |pairs| => pairs[k].0)
  }

  lemma LabelledPair(labels: seq<int>, pairs: seq<(nat, nat)>, s: nat) returns (k: nat)
    requires s < |labels| && labels[s] != -2 && WrittenFrom(labels, pairs)
    ensures k < |pairs| && pairs[k].0 == s && pairs[k].1 == labels[s]
  {
    k :| k < |pairs| && pairs[k] == (s, labels[s] as nat);
  }

  lemma LabelledAreFirsts(labels: seq<int>, pairs: seq<(nat, nat)>)
    requires WrittenFrom(labels, pairs) && forall k :: 0 <= k < |pairs| ==> pairs[k].0 < |labels|
    ensures (set s: nat | s < |labels| && labels[s] != -2) == Elements(Firsts(pairs))
  {
    var firsts := Firsts(pairs);
    forall s: nat | s < |labels| && labels[s] != -2
      ensures s in firsts
    {
      var k := LabelledPair(labels, pairs, s);
      assert firsts[k] == s;
    }
    forall s: nat | s in firsts
      ensures s < |labels| && labels[s] != -2
    {
      var k :| 0 <= k < |firsts| && firsts[k] == s;
      assert pairs[k].0 == s;
    }
  }

  /** Only active speakers are labelled, with different clusters, as many as can be. */
  lemma LabelsAreOneToOne(chunk: Chunk, mask: real, choice: Choice, labels: seq<int>)
    requires chunk.Valid() && |labels| == chunk.speakers && BestLabels(chunk, mask, choice, labels)
    ensures forall s: nat :: s < chunk.speakers && labels[s] != -2 ==>
            chunk.IsActive(s) && 0 <= labels[s] < chunk.clusters
    ensures forall s: nat, t: nat :: s < t < chunk.speakers && labels[s] != -2 && labels[t] != -2 ==>
            labels[s] != labels[t]
    ensures |set s: nat | s < chunk.speakers && labels[s] != -2| == Min(|chunk.Active(chunk.speakers)|, chunk.clusters)
  {
    var p := chunk.Task(mask);
    var pairs := Pairs(p.active, choice);
    ActiveMembers(chunk, chunk.speakers);
    BestIsOneToOne(p, choice, pairs);
    forall s: nat | s < chunk.speakers && labels[s] != -2
      ensures chunk.IsActive(s) && 0 <= labels[s] < chunk.clusters
    {
      var k := LabelledPair(labels, pairs, s);
    }
    forall s: nat, t: nat | s < t < chunk.speakers && labels[s] != -2 && labels[t] != -2
      ensures labels[s] != labels[t]
    {
      var j := LabelledPair(labels, pairs, s);
      var k := LabelledPair(labels, pairs, t);
    }
    DistinctSize(Firsts(pairs));
    LabelledAreFirsts(labels, pairs);
  }

  /** Row by row, what each listed speaker scores on each cluster: his similarity where there is one, and
      the mask where there is none. */
  ghost predicate IsScoreTable(chunk: Chunk, mask: real, speakers: seq<nat>, table: seq<seq<real>>)
    requires chunk.Valid()
  {
    && |table| == |speakers|
    && forall k :: 0 <= k < |table| ==>
         && speakers[k] < chunk.speakers && |table[k]| == chunk.clusters
         && if chunk.similarity[speakers[k]].Some? then table[k] == chunk.similarity[speakers[k]].value
            else forall c :: 0 <= c < chunk.clusters ==> table[k][c] == mask
  }

  /** The labels as a mapping of the listed speakers' places to clusters. */
  ghost function LabelMap(labels: seq<int>, speakers: seq<nat>): map<nat, nat>
    requires forall k :: 0 <= k < |speakers| ==> speakers[k] < |labels| && labels[speakers[k]] >= -2
    requires forall k :: 0 <= k < |speakers| ==> labels[speakers[k]] != -1
  {
    map k: nat | k < |speakers| && labels[speakers[k]] != -2 :: labels[speakers[k]]
  }

  lemma LabelMapIsChoice(p: Problem, choice: Choice, labels: seq<int>, m: map<nat, nat>)
    requires p.Valid() && Distinct(p.active) && p.Candidate(0, Unused(p.clusters), 0, choice)
    requires WrittenFrom(labels, Pairs(p.active, choice)) && forall k :: 0 <= k < |p.active| ==> p.active[k] < |labels|
    requires forall i: nat, c: nat :: (i, c) in choice ==> i < |p.active| && i in m && m[i] == c
    requires forall i :: i in m ==> (i, m[i]) in choice
    ensures forall k :: 0 <= k < |p.active| ==> labels[p.active[k]] >= -2 && labels[p.active[k]] != -1
    ensures LabelMap(labels, p.active) == m
  {
    var pairs := Pairs(p.active, choice);
    forall k: nat | k < |p.active|
      ensures labels[p.active[k]] == if k in m then m[k] else -2
    {
      if k in m {
        var j :| 0 <= j < |choice| && choice[j] == (k, m[k]);
        assert pairs[j] == (p.active[k], m[k]);
      }
      if labels[p.active[k]] != -2 {
        var j := LabelledPair(labels, pairs, p.active[k]);
        assert choice[j].0 == k;
        assert (k, choice[j].1) in choice;
      }
    }
  }

  /** No one-to-one assignment of as many active speakers to clusters has a larger total similarity,
      speakers without a usable embedding counting with the mask. */
  lemma LabelsAreBest(chunk: Chunk, mask: real, choice: Choice, labels: seq<int>, speakers: seq<nat>,
                      table: seq<seq<real>>, other: map<nat, nat>)
    requires chunk.Valid() && |labels| == chunk.speakers && BestLabels(chunk, mask, choice, labels)
    requires speakers == chunk.Active(chunk.speakers) && IsScoreTable(chunk, mask, speakers, table)
    requires PartialInjection(other, |speakers|, chunk.clusters) && |other| == Min(|speakers|, chunk.clusters)
    ensures forall k :: 0 <= k < |speakers| ==> labels[speakers[k]] >= -2 && labels[speakers[k]] != -1
    ensures PartialInjection(LabelMap(labels, speakers), |speakers|, chunk.clusters)
    ensures MappingValue(table, other, |speakers|) <= MappingValue(table, LabelMap(labels, speakers), |speakers|)
  {
    var p := chunk.Task(mask);
    ActiveMembers(chunk, chunk.speakers);
    var m := MapOfBest(p, choice, Pairs(p.active, choice));
    LabelMapIsChoice(p, choice, labels, m);
    TableIsScores(chunk, mask, table);
    BestIsMaximal(p, choice, Pairs(p.active, choice), other);
  }

  lemma TableIsScores(chunk: Chunk, mask: real, table: seq<seq<real>>)
    requires chunk.Valid() && IsScoreTable(chunk, mask, chunk.Active(chunk.speakers), table)
    ensures ActiveRows(chunk.Scores(mask), chunk.Active(chunk.speakers)) == table
  {
    ActiveMembers(chunk, chunk.speakers);
    var active := chunk.Active(chunk.speakers);
    forall k | 0 <= k < |table|
      ensures chunk.Scores(mask)[active[k]] == table[k]
    {
      assert active[k] in active;
    }
  }

  /** In any full-size best assignment a place with real scores is not left out for a masked one. */
  lemma ScoredPlacesFirst(chunk: Chunk, mask: real, choice: Choice, x: nat, y: nat, c: nat)
    requires chunk.Valid() && chunk.IsMask(mask)
    requires var p := chunk.Task(mask);
             && p.Valid() && p.Candidate(0, Unused(chunk.clusters), 0, choice)
             && IsBestChoice(p, choice, Pairs(p.active, choice))
    requires x < |chunk.Active(chunk.speakers)| && (forall d: nat :: (x, d) !in choice) && (y, c) in choice
    requires var s := chunk.Active(chunk.speakers)[x]; s < chunk.speakers && chunk.IsScored(s)
    ensures y < |chunk.Active(chunk.speakers)|
    ensures var t := chunk.Active(chunk.speakers)[y]; t < chunk.speakers && chunk.IsScored(t)
  {
    var p := chunk.Task(mask);
    LeftOutScoresLess(p, choice, Pairs(p.active, choice), x, y, c);
    ActiveMembers(chunk, chunk.speakers);
    var s := p.active[x];
    assert AllAbove(chunk.similarity[s].value, mask);
  }

  lemma ChosenIsPaired(active: seq<nat>, choice: Choice, x: nat, c: nat)
    requires x < |active| && forall k :: 0 <= k < |choice| ==> choice[k].0 < |active|
    ensures (x, c) in choice ==> !NotIn(Pairs(active, choice), active[x])
  {
    if (x, c) in choice {
      var j :| 0 <= j < |choice| && choice[j] == (x, c);
      assert Pairs(active, choice)[j].0 == active[x];
    }
  }

  /** A speaker with a usable embedding is never left out while one without gets a cluster. */
  lemma ScoredSpeakersFirst(chunk: Chunk, labels: seq<int>, s: nat, t: nat)
    requires chunk.Valid() && IsLabelling(chunk, labels)
    requires s < chunk.speakers && t < chunk.speakers && chunk.IsScored(s) && labels[s] == -2 && labels[t] != -2
    ensures chunk.IsScored(t)
  {
    var mask: real, choice: Choice :| BestLabels(chunk, mask, choice, labels);
    var active := chunk.Active(chunk.speakers);
    var pairs := Pairs(active, choice);
    ActiveMembers(chunk, chunk.speakers);
    assert s in active;
    var x :| 0 <= x < |active| && active[x] == s;
    var k := LabelledPair(labels, pairs, t);
    forall d: nat
      ensures (x, d) !in choice
    {
      ChosenIsPaired(active, choice, x, d);
    }
    ScoredPlacesFirst(chunk, mask, choice, x, choice[k].0, choice[k].1);
  }
}
