/** Cutting a dendrogram into flat clusters: one number per maximal subtree of bounded height. */
module Dendrogram {
  import opened ExtendedReals

  /** One merge: the two nodes joined, and at what dissimilarity. */
  datatype Merge = Merge(cluster1: nat, cluster2: nat, dissimilarity: real)

  const UNLABELLED: nat := 0xFFFF_FFFF_FFFF_FFFF

  /** Leaves are nodes 0..n-1, the k-th merge makes node n + k. Children come before their parent. */
  datatype Tree = Tree(n: nat, merges: seq<Merge>) {
    ghost predicate Ordered() {
      forall k :: 0 <= k < |merges| ==> merges[k].cluster1 < n + k && merges[k].cluster2 < n + k
    }

    ghost function Root(): nat
      requires n > 0
    {
      n + |merges| - 1
    }

    ghost predicate IsNode(a: nat) {
      a < n + |merges|
    }

    ghost predicate IsChild(x: nat, p: nat) {
      n <= p < n + |merges| && (merges[p - n].cluster1 == x || merges[p - n].cluster2 == x)
    }

    ghost predicate HasParent(x: nat) {
      exists p: nat :: IsChild(x, p)
    }

    /** A binary tree: every node but the last is the child of exactly one merge, on one side of it. */
    ghost predicate WellFormed() {
      && n >= 2 && |merges| == n - 1 && Ordered()
      && (forall k :: 0 <= k < |merges| ==> merges[k].cluster1 != merges[k].cluster2)
      && (forall x: nat :: x < Root() ==> HasParent(x))
      && (forall x: nat, p: nat, q: nat :: IsChild(x, p) && IsChild(x, q) ==> p == q)
    }

    /** Node x lies in the subtree of node a. */
    ghost predicate Below(a: nat, x: nat)
      requires Ordered() && IsNode(a)
      decreases a
    {
      x == a || (a >= n && (Below(merges[a - n].cluster1, x) || Below(merges[a - n].cluster2, x)))
    }

    ghost predicate Low(a: nat, threshold: real) {
      n <= a < n + |merges| && merges[a - n].dissimilarity <= threshold
    }

    /** Leaf x lies below the first child of node p and leaf y below the second. */
    ghost predicate Parts(p: nat, x: nat, y: nat)
      requires Ordered()
    {
      n <= p < n + |merges| && x < n && y < n && Below(merges[p - n].cluster1, x) && Below(merges[p - n].cluster2, y)
    }

    /** Some node in the subtree of `node` is low enough and has both x and y below it. */
    ghost predicate Joined(node: nat, x: nat, y: nat, threshold: real)
      requires Ordered() && IsNode(node)
    {
      exists a: nat :: JoinedAt(node, x, y, threshold, a)
    }

    ghost predicate JoinedAt(node: nat, x: nat, y: nat, threshold: real, a: nat)
      requires Ordered() && IsNode(node)
    {
      Low(a, threshold) && Below(node, a) && Below(a, x) && Below(a, y)
    }

    lemma {:induction false} BelowIsSmaller(a: nat, x: nat)
      requires Ordered() && IsNode(a) && Below(a, x)
      ensures x <= a
      decreases a
    {
      if x != a {
        if Below(merges[a - n].cluster1, x) {
          BelowIsSmaller(merges[a - n].cluster1, x);
        } else {
          BelowIsSmaller(merges[a - n].cluster2, x);
        }
      }
    }

    lemma {:induction false} BelowTransitive(a: nat, b: nat, x: nat)
      requires Ordered() && IsNode(a) && IsNode(b) && Below(a, b) && Below(b, x)
      ensures Below(a, x)
      decreases a
    {
      if b != a {
        if Below(merges[a - n].cluster1, b) {
          BelowTransitive(merges[a - n].cluster1, b, x);
        } else {
          BelowTransitive(merges[a - n].cluster2, b, x);
        }
      }
    }

    /** Two leaves below a node part at some node. */
    lemma {:induction false} LeavesPart(a: nat, x: nat, y: nat) returns (p: nat)
      requires Ordered() && IsNode(a) && Below(a, x) && Below(a, y) && x < n && y < n && x != y
      ensures Parts(p, x, y) || Parts(p, y, x)
      decreases a
    {
      var l, r := merges[a - n].cluster1, merges[a - n].cluster2;
      if Below(l, x) && Below(l, y) {
        p := LeavesPart(l, x, y);
      } else if Below(r, x) && Below(r, y) {
        p := LeavesPart(r, x, y);
      } else {
        p := a;
      }
    }

    lemma {:induction false} ParentBelow(a: nat, x: nat, p: nat)
      requires WellFormed() && IsNode(a) && Below(a, x) && x != a && IsChild(x, p)
      ensures Below(a, p)
      decreases a
    {
      var l, r := merges[a - n].cluster1, merges[a - n].cluster2;
      assert IsChild(l, a) && IsChild(r, a);
      if Below(l, x) {
        if x != l {
          ParentBelow(l, x, p);
        }
      } else if x != r {
        ParentBelow(r, x, p);
      }
    }

    /** Nothing lies below both children of a node. */
    lemma {:induction false} SiblingsDisjoint(p: nat, x: nat)
      requires WellFormed() && n <= p && IsNode(p)
      ensures !(Below(merges[p - n].cluster1, x) && Below(merges[p - n].cluster2, x))
      decreases n + |merges| - x
    {
      var l, r := merges[p - n].cluster1, merges[p - n].cluster2;
      if Below(l, x) && Below(r, x) {
        BelowIsSmaller(l, x);
        assert IsChild(l, p) && IsChild(r, p);
        if x == l {
          ParentBelow(r, x, p);
          BelowIsSmaller(r, p);
        } else if x == r {
          ParentBelow(l, x, p);
          BelowIsSmaller(l, p);
        } else {
          assert HasParent(x);
          var q: nat :| IsChild(x, q);
          ParentBelow(l, x, q);
          ParentBelow(r, x, q);
          SiblingsDisjoint(p, q);
        }
      }
    }

    /** Everything lies below the root. */
    lemma {:induction false} AllBelowRoot(x: nat)
      requires WellFormed() && x <= Root()
      ensures Below(Root(), x)
      decreases Root() - x
    {
      if x < Root() {
        assert HasParent(x);
        var p: nat :| IsChild(x, p);
        AllBelowRoot(p);
        assert Below(p, x);
        BelowTransitive(Root(), p, x);
      }
    }

    /** Above the threshold, a node joins exactly what one of its children joins. */
    lemma JoinedInChild(node: nat, child: nat, x: nat, y: nat, threshold: real)
      requires WellFormed() && n <= node && IsNode(node) && IsChild(child, node)
      requires !Low(node, threshold) && Below(child, x)
      ensures Joined(node, x, y, threshold) <==> Joined(child, x, y, threshold)
    {
      if Joined(child, x, y, threshold) {
        var a: nat :| JoinedAt(child, x, y, threshold, a);
        assert JoinedAt(node, x, y, threshold, a);
      }
      if Joined(node, x, y, threshold) {
        var a: nat :| JoinedAt(node, x, y, threshold, a);
        if !Below(child, a) {
          var l, r := merges[node - n].cluster1, merges[node - n].cluster2;
          var other := if child == l then r else l;
          BelowTransitive(other, a, x);
          SiblingsDisjoint(node, x);
          assert false;
        }
        assert JoinedAt(child, x, y, threshold, a);
      }
    }

    lemma JoinedStaysBelow(node: nat, x: nat, y: nat, threshold: real)
      requires Ordered() && IsNode(node) && Joined(node, x, y, threshold)
      ensures Below(node, x) && Below(node, y)
    {
      var a: nat :| JoinedAt(node, x, y, threshold, a);
      BelowTransitive(node, a, x);
      BelowTransitive(node, a, y);
    }
  }

  // --- Labelling ------------------------------------------------------------------------------

  /** Every leaf below `node` carries `number`; the others are as before. */
  ghost predicate Painted(t: Tree, node: nat, before: seq<nat>, after: seq<nat>, number: nat)
    requires t.Ordered() && t.IsNode(node)
  {
    && |before| == |after| == t.n
    && forall x :: 0 <= x < t.n ==> after[x] == if t.Below(node, x) then number else before[x]
  }

  method LabelSubtree(ghost t: Tree, node: nat, n: nat, children: seq<(nat, nat)>, labels: array<nat>, number: nat)
    requires t.Ordered() && t.IsNode(node) && ChildrenOf(t, children) && n == t.n && labels.Length == n
    modifies labels
    ensures Painted(t, node, old(labels[..]), labels[..], number)
    decreases node
  {
    if node < n {
      labels[node] := number;
      return;
    }
    var (left, right) := children[node - n];
    LabelSubtree(t, left, n, children, labels, number);
    LabelSubtree(t, right, n, children, labels, number);
  }

  ghost predicate ChildrenOf(t: Tree, children: seq<(nat, nat)>) {
    && |children| == |t.merges|
    && forall k :: 0 <= k < |children| ==> children[k] == (t.merges[k].cluster1, t.merges[k].cluster2)
  }

  /** Leaves at infinite height, merges at their dissimilarity. */
  ghost predicate HeightsOf(t: Tree, heights: seq<Extended>) {
    && |heights| == t.n + |t.merges|
    && forall a :: 0 <= a < |heights| ==>
         heights[a] == if a < t.n then Infinity else Finite(t.merges[a - t.n].dissimilarity)
  }

  /** Wherever two leaves part below `node`, the first child's label is not the larger one. */
  ghost predicate LeftFirst(t: Tree, node: nat, labels: seq<nat>)
    requires t.Ordered() && t.IsNode(node)
  {
    |labels| == t.n && forall p: nat, x: nat, y: nat :: t.Below(node, p) && t.Parts(p, x, y) ==> labels[x] <= labels[y]
  }

  /** The leaves below `node` are labelled with exactly the numbers lo..hi-1, from the first child to the
      second, two of them alike if and only if they are joined at or below the threshold within the
      subtree. */
  ghost predicate Labelled(t: Tree, node: nat, threshold: real, before: seq<nat>, after: seq<nat>, lo: nat, hi: nat)
    requires t.Ordered() && t.IsNode(node)
  {
    && |before| == |after| == t.n && lo < hi
    && (forall x :: 0 <= x < t.n && !t.Below(node, x) ==> after[x] == before[x])
    && (forall x :: 0 <= x < t.n && t.Below(node, x) ==> lo <= after[x] < hi)
    && (forall number :: lo <= number < hi ==> Uses(t, node, after, number))
    && (forall x, y :: 0 <= x < t.n && 0 <= y < t.n && t.Below(node, x) && t.Below(node, y) ==>
          (after[x] == after[y] <==> x == y || t.Joined(node, x, y, threshold)))
    && LeftFirst(t, node, after)
  }

  ghost predicate Uses(t: Tree, node: nat, labels: seq<nat>, number: nat)
    requires t.Ordered() && t.IsNode(node)
  {
    exists x :: 0 <= x < t.n && x < |labels| && t.Below(node, x) && labels[x] == number
  }

  lemma LeafIsLabelled(t: Tree, node: nat, threshold: real, before: seq<nat>, lo: nat)
    requires t.Ordered() && node < t.n && |before| == t.n
    ensures t.IsNode(node) && Labelled(t, node, threshold, before, before[node := lo], lo, lo + 1)
  {
    assert t.Below(node, node);
    assert Uses(t, node, before[node := lo], lo);
  }

  /** Some leaf lies below every node. */
  lemma {:induction false} SomeLeaf(t: Tree, node: nat) returns (x: nat)
    requires t.Ordered() && t.IsNode(node)
    ensures x < t.n && t.Below(node, x)
    decreases node
  {
    if node < t.n {
      x := node;
    } else {
      x := SomeLeaf(t, t.merges[node - t.n].cluster1);
    }
  }

  lemma CutIsLabelled(t: Tree, node: nat, threshold: real, before: seq<nat>, after: seq<nat>, lo: nat)
    requires t.WellFormed() && t.IsNode(node) && t.Low(node, threshold)
    requires Painted(t, node, before, after, lo)
    ensures Labelled(t, node, threshold, before, after, lo, lo + 1)
  {
    var leaf := SomeLeaf(t, node);
    assert Uses(t, node, after, lo);
    forall x, y | 0 <= x < t.n && 0 <= y < t.n && t.Below(node, x) && t.Below(node, y)
      ensures t.Joined(node, x, y, threshold)
    {
      assert t.JoinedAt(node, x, y, threshold, node);
    }
    forall p: nat, x: nat, y: nat | t.Below(node, p) && t.Parts(p, x, y)
      ensures after[x] == after[y]
    {
      PartBelow(t, node, p, x, y);
    }
  }

  lemma PartBelow(t: Tree, node: nat, p: nat, x: nat, y: nat)
    requires t.Ordered() && t.IsNode(node) && t.Below(node, p) && t.Parts(p, x, y)
    ensures t.Below(node, x) && t.Below(node, y)
  {
    assert t.Below(p, x) && t.Below(p, y);
    t.BelowTransitive(node, p, x);
    t.BelowTransitive(node, p, y);
  }

  lemma SplitIsLabelled(t: Tree, node: nat, threshold: real, before: seq<nat>, mid: seq<nat>, after: seq<nat>,
                        lo: nat, between: nat, hi: nat)
    requires t.WellFormed() && t.n <= node && t.IsNode(node) && !t.Low(node, threshold)
    requires Labelled(t, t.merges[node - t.n].cluster1, threshold, before, mid, lo, between)
    requires Labelled(t, t.merges[node - t.n].cluster2, threshold, mid, after, between, hi)
    ensures Labelled(t, node, threshold, before, after, lo, hi)
  {
    var l, r := t.merges[node - t.n].cluster1, t.merges[node - t.n].cluster2;
    forall x: nat | x < t.n && t.Below(l, x)
      ensures after[x] == mid[x] && !t.Below(r, x)
    {
      t.SiblingsDisjoint(node, x);
    }
    forall number | lo <= number < hi
      ensures Uses(t, node, after, number)
    {
      if number < between {
        assert Uses(t, l, mid, number);
        var x :| 0 <= x < t.n && t.Below(l, x) && mid[x] == number;
        assert t.Below(node, x) && after[x] == number;
      } else {
        assert Uses(t, r, after, number);
        var x :| 0 <= x < t.n && t.Below(r, x) && after[x] == number;
        assert t.Below(node, x);
      }
    }
    forall x: nat, y: nat | x < t.n && y < t.n && t.Below(node, x) && t.Below(node, y)
      ensures after[x] == after[y] <==> x == y || t.Joined(node, x, y, threshold)
    {
      SplitPair(t, node, threshold, before, mid, after, lo, between, hi, x, y);
    }
    forall p: nat, x: nat, y: nat | t.Below(node, p) && t.Parts(p, x, y)
      ensures after[x] <= after[y]
    {
      SplitIsLeftFirst(t, node, threshold, before, mid, after, lo, between, hi, p, x, y);
    }
  }

  lemma SplitIsLeftFirst(t: Tree, node: nat, threshold: real, before: seq<nat>, mid: seq<nat>, after: seq<nat>,
                         lo: nat, between: nat, hi: nat, p: nat, x: nat, y: nat)
    requires t.WellFormed() && t.n <= node && t.IsNode(node)
    requires Labelled(t, t.merges[node - t.n].cluster1, threshold, before, mid, lo, between)
    requires Labelled(t, t.merges[node - t.n].cluster2, threshold, mid, after, between, hi)
    requires t.Below(node, p) && t.Parts(p, x, y)
    ensures after[x] <= after[y]
  {
    var l, r := t.merges[node - t.n].cluster1, t.merges[node - t.n].cluster2;
    t.SiblingsDisjoint(node, x);
    t.SiblingsDisjoint(node, y);
    if p != node && t.Below(l, p) {
      PartBelow(t, l, p, x, y);
      assert after[x] == mid[x] && after[y] == mid[y];
    }
  }

  lemma SplitPair(t: Tree, node: nat, threshold: real, before: seq<nat>, mid: seq<nat>, after: seq<nat>,
                  lo: nat, between: nat, hi: nat, x: nat, y: nat)
    requires t.WellFormed() && t.n <= node && t.IsNode(node) && !t.Low(node, threshold)
    requires Labelled(t, t.merges[node - t.n].cluster1, threshold, before, mid, lo, between)
    requires Labelled(t, t.merges[node - t.n].cluster2, threshold, mid, after, between, hi)
    requires x < t.n && y < t.n && t.Below(node, x) && t.Below(node, y)
    ensures after[x] == after[y] <==> x == y || t.Joined(node, x, y, threshold)
  {
    var l, r := t.merges[node - t.n].cluster1, t.merges[node - t.n].cluster2;
    var child := if t.Below(l, x) then l else r;
    t.SiblingsDisjoint(node, x);
    t.SiblingsDisjoint(node, y);
    t.JoinedInChild(node, child, x, y, threshold);
    if t.Joined(child, x, y, threshold) {
      t.JoinedStaysBelow(child, x, y, threshold);
    }
  }

  method AssignFlatLabels(ghost t: Tree, node: nat, n: nat, threshold: real, children: seq<(nat, nat)>,
                          heights: seq<Extended>, labels: array<nat>, nextLabel: nat)
    returns (next: nat)
    requires t.WellFormed() && t.IsNode(node) && n == t.n && labels.Length == n
    requires ChildrenOf(t, children) && HeightsOf(t, heights)
    modifies labels
    ensures Labelled(t, node, threshold, old(labels[..]), labels[..], nextLabel, next)
    decreases node
  {
    ghost var before := labels[..];
    if node < n {
      labels[node] := nextLabel;
      LeafIsLabelled(t, node, threshold, before, nextLabel);
      assert labels[..] == before[node := nextLabel];
      return nextLabel + 1;
    }
    if heights[node].Finite? && heights[node].value <= threshold {
      LabelSubtree(t, node, n, children, labels, nextLabel);
      CutIsLabelled(t, node, threshold, before, labels[..], nextLabel);
      return nextLabel + 1;
    }
    var (left, right) := children[node - n];
    var between := AssignFlatLabels(t, left, n, threshold, children, heights, labels, nextLabel);
    ghost var mid := labels[..];
    next := AssignFlatLabels(t, right, n, threshold, children, heights, labels, between);
    SplitIsLabelled(t, node, threshold, before, mid, labels[..], nextLabel, between, next);
  }

  /** Leaves x and y have a common ancestor at or below the threshold. */
  ghost predicate SameCluster(t: Tree, x: nat, y: nat, threshold: real)
    requires t.Ordered()
  {
    exists a: nat :: t.Low(a, threshold) && t.Below(a, x) && t.Below(a, y)
  }

  ghost predicate HasLabel(labels: seq<nat>, number: nat) {
    exists x :: 0 <= x < |labels| && labels[x] == number
  }

  /** The labels are exactly 0..count-1, given from first to second children, and distinct leaves share one
      if and only if some common ancestor is at or below the threshold. No order of the heights is assumed. */
  ghost predicate IsFlatCut(t: Tree, threshold: real, labels: seq<nat>, count: nat)
    requires t.Ordered()
  {
    && |labels| == t.n
    && (forall x :: 0 <= x < t.n ==> labels[x] < count)
    && (forall number :: 0 <= number < count ==> HasLabel(labels, number))
    && (forall x, y :: 0 <= x < y < t.n ==> (labels[x] == labels[y] <==> SameCluster(t, x, y, threshold)))
    && forall p: nat, x: nat, y: nat :: t.Parts(p, x, y) ==> labels[x] <= labels[y]
  }

  /** A tree has one flat cut at a threshold. */
  lemma FlatCutIsUnique(t: Tree, threshold: real, labels: seq<nat>, count: nat, others: seq<nat>, otherCount: nat)
    requires t.WellFormed() && IsFlatCut(t, threshold, labels, count) && IsFlatCut(t, threshold, others, otherCount)
    ensures labels == others
  {
    forall x: nat | x < t.n
      ensures labels[x] == others[x]
    {
      LabelAtMost(t, threshold, labels, count, others, otherCount, x);
      LabelAtMost(t, threshold, others, otherCount, labels, count, x);
    }
  }

  lemma {:induction false} LabelAtMost(t: Tree, threshold: real, labels: seq<nat>, count: nat,
                                       others: seq<nat>, otherCount: nat, x: nat)
    requires t.WellFormed() && IsFlatCut(t, threshold, labels, count) && IsFlatCut(t, threshold, others, otherCount)
    requires x < t.n
    ensures labels[x] <= others[x]
    decreases labels[x]
  {
    if labels[x] > 0 {
      assert HasLabel(labels, labels[x] - 1);
      var y: nat :| y < |labels| && labels[y] == labels[x] - 1;
      SameOrder(t, threshold, labels, count, others, otherCount, y, x);
      LabelAtMost(t, threshold, labels, count, others, otherCount, y);
    }
  }

  lemma SameOrder(t: Tree, threshold: real, labels: seq<nat>, count: nat, others: seq<nat>, otherCount: nat,
                  x: nat, y: nat)
    requires t.WellFormed() && IsFlatCut(t, threshold, labels, count) && IsFlatCut(t, threshold, others, otherCount)
    requires x < t.n && y < t.n && labels[x] < labels[y]
    ensures others[x] < others[y]
  {
    t.AllBelowRoot(x);
    t.AllBelowRoot(y);
    var p := t.LeavesPart(t.Root(), x, y);
    assert others[x] != others[y] by {
      if x < y {
        assert !SameCluster(t, x, y, threshold);
      } else {
        SameClusterEitherWay(t, x, y, threshold);
      }
    }
  }

  lemma SameClusterEitherWay(t: Tree, x: nat, y: nat, threshold: real)
    requires t.Ordered()
    ensures SameCluster(t, x, y, threshold) <==> SameCluster(t, y, x, threshold)
  {
  }

  lemma RootLabelsAreFlatCut(t: Tree, threshold: real, before: seq<nat>, labels: seq<nat>, count: nat)
    requires t.WellFormed() && Labelled(t, t.Root(), threshold, before, labels, 0, count)
    ensures IsFlatCut(t, threshold, labels, count)
  {
    forall x: nat | x < t.n
      ensures t.Below(t.Root(), x)
    {
      t.AllBelowRoot(x);
    }
    forall p: nat, x: nat, y: nat | t.Parts(p, x, y)
      ensures labels[x] <= labels[y]
    {
      t.AllBelowRoot(p);
    }
    forall number | 0 <= number < count
      ensures HasLabel(labels, number)
    {
      assert Uses(t, t.Root(), labels, number);
    }
    forall x: nat, y: nat | x < y < t.n
      ensures t.Joined(t.Root(), x, y, threshold) <==> SameCluster(t, x, y, threshold)
    {
      if SameCluster(t, x, y, threshold) {
        var a: nat :| t.Low(a, threshold) && t.Below(a, x) && t.Below(a, y);
        t.AllBelowRoot(a);
        assert t.JoinedAt(t.Root(), x, y, threshold, a);
      }
      if t.Joined(t.Root(), x, y, threshold) {
        var a: nat :| t.JoinedAt(t.Root(), x, y, threshold, a);
        assert t.Low(a, threshold) && t.Below(a, x) && t.Below(a, y);
      }
    }
  }

  method FlatClusters(n: nat, merges: seq<Merge>, threshold: real) returns (labels: seq<nat>)
    requires n >= 2 ==> Tree(n, merges).WellFormed()
    ensures n == 0 ==> labels == []
    ensures n == 1 ==> labels == [0]
    ensures n >= 2 ==> exists count: nat :: IsFlatCut(Tree(n, merges), threshold, labels, count)
  {
    if n == 0 {
      return [];
    }
    if n == 1 {
      return [0];
    }
    ghost var t := Tree(n, merges);
    var totalNodes := n + |merges|;
    var children: seq<(nat, nat)> := [];
    var heights: seq<Extended> := seq(totalNodes, _ => Infinity);
    for k := 0 to |merges|
      invariant |children| == k && |heights| == totalNodes
      invariant forall i :: 0 <= i < k ==> children[i] == (merges[i].cluster1, merges[i].cluster2)
      invariant forall a :: 0 <= a < totalNodes ==>
                  heights[a] == if n <= a < n + k then Finite(merges[a - n].dissimilarity) else Infinity
    {
      children := children + [(merges[k].cluster1, merges[k].cluster2)];
      heights := heights[n + k := Finite(merges[k].dissimilarity)];
    }
    var root := totalNodes - 1;
    var slots := new nat[n](_ => UNLABELLED);
    ghost var before := slots[..];
    var count := AssignFlatLabels(t, root, n, threshold, children, heights, slots, 0);
    RootLabelsAreFlatCut(t, threshold, before, slots[..], count);
    labels := slots[..];
  }
}
