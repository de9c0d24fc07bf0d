/** The guide tree of src/bisectingKmeans.c: `struct node` as a class, its
    abstract value as a datatype, and the merge pass (`test_for_merge`,
    `merge_clusters`) that collapses a node's two children into one leaf when
    some pair of their sequences lies within an edit-distance threshold. */
module GuideTree {

  /** The value of a `struct node*`: Nil for NULL; otherwise the children, the
      sample array (its length is `num_samples`) and the id. */
  datatype Tree = Nil | Tree(left: Tree, right: Tree, samples: seq<int>, id: int)

  /** A node as alloc_node leaves it, then given a sample array. */
  function Leaf(samples: seq<int>): Tree
  {
    Tree(Nil, Nil, samples, -1)
  }

  predicate IsLeaf(t: Tree)
  {
    t != Nil && t.left == Nil && t.right == Nil
  }

  /** The samples of all leaves below t, with multiplicity. */
  function LeafSamples(t: Tree): multiset<int>
  {
    match t
    case Nil => multiset{}
    case Tree(l, r, s, _) => if l == Nil && r == Nil then multiset(s) else LeafSamples(l) + LeafSamples(r)
  }

  /** The shape bisecting_kmeans builds: every node is a leaf or has two
      children, and an internal node keeps exactly the samples its two
      children share out between them. */
  predicate Partitioned(t: Tree)
  {
    match t
    case Nil => true
    case Tree(l, r, s, _) =>
      (l == Nil && r == Nil) ||
      (l != Nil && r != Nil && multiset(s) == multiset(l.samples) + multiset(r.samples) &&
       Partitioned(l) && Partitioned(r))
  }

  /** In a partitioned tree the leaves share out the root's samples exactly. */
  lemma {:induction false} PartitionedLeaves(t: Tree)
    requires t != Nil && Partitioned(t)
    ensures LeafSamples(t) == multiset(t.samples)
  {
    if t.left != Nil {
      PartitionedLeaves(t.left);
      PartitionedLeaves(t.right);
    }
  }

  // ---------------------------------------------------------------------------
  // test_for_merge and merge_clusters on values

  /** The edit distance test_for_merge compares with the threshold: the larger
      of the two directed bpm_256 results, stored in a `uint8_t`. */
  function PairDistance(bpm: (int, int) -> int, a: int, b: int): (d: int)
    ensures 0 <= d < 256
    ensures d == (if bpm(a, b) > bpm(b, a) then bpm(a, b) else bpm(b, a)) % 256
  {
    (if bpm(a, b) > bpm(b, a) then bpm(a, b) else bpm(b, a)) % 256
  }

  predicate Close(bpm: (int, int) -> int, threshold: int, a: int, b: int)
  {
    PairDistance(bpm, a, b) <= threshold
  }

  /** Some sample of xs and some sample of ys are within the threshold. */
  predicate HasClosePair(xs: seq<int>, ys: seq<int>, bpm: (int, int) -> int, threshold: int)
  {
    exists i, j :: 0 <= i < |xs| && 0 <= j < |ys| && Close(bpm, threshold, xs[i], ys[j])
  }

  /** What test_for_merge does to a node: when both children exist, both hold
      samples and a cross pair is close, the node becomes a leaf holding the
      left child's samples followed by the right child's; otherwise nothing
      changes. The children are not required to be leaves. */
  function Collapse(t: Tree, bpm: (int, int) -> int, threshold: int): (r: Tree)
    requires t != Nil
    ensures r != Nil && r.id == t.id
    ensures r == t || (r.left == Nil && r.right == Nil)
  {
    if t.left != Nil && t.right != Nil && |t.left.samples| != 0 && |t.right.samples| != 0 &&
       HasClosePair(t.left.samples, t.right.samples, bpm, threshold)
    then Tree(Nil, Nil, t.left.samples + t.right.samples, t.id)
    else t
  }

  /** What merge_clusters does to a node: test it, then descend into the left
      child and return from there; only without a left child does it test again
      and descend into the right child. */
  function MergePass(t: Tree, bpm: (int, int) -> int, threshold: int): (r: Tree)
    requires t != Nil
    ensures r != Nil && r.id == t.id
    decreases t
  {
    var t1 := Collapse(t, bpm, threshold);
    if t1.left != Nil then
      t1.(left := MergePass(t1.left, bpm, threshold))
    else
      var t2 := Collapse(t1, bpm, threshold);
      if t2.right != Nil then t2.(right := MergePass(t2.right, bpm, threshold))
      else Collapse(t2, bpm, threshold)
  }

  /** Whether a close pair exists depends only on which samples each side holds. */
  lemma ClosePairOnlyNeedsMembers(xs: seq<int>, xs': seq<int>, ys: seq<int>, bpm: (int, int) -> int, threshold: int)
    requires multiset(xs) == multiset(xs')
    ensures HasClosePair(xs, ys, bpm, threshold) == HasClosePair(xs', ys, bpm, threshold)
  {
    if HasClosePair(xs, ys, bpm, threshold) {
      var i, j :| 0 <= i < |xs| && 0 <= j < |ys| && Close(bpm, threshold, xs[i], ys[j]);
      assert xs[i] in multiset(xs');
      var i' :| 0 <= i' < |xs'| && xs'[i'] == xs[i];
    }
    if HasClosePair(xs', ys, bpm, threshold) {
      var i, j :| 0 <= i < |xs'| && 0 <= j < |ys| && Close(bpm, threshold, xs'[i], ys[j]);
      assert xs'[i] in multiset(xs);
      var i' :| 0 <= i' < |xs| && xs[i'] == xs'[i];
    }
  }

  /** A collapse on a partitioned tree keeps it partitioned and keeps the
      samples of the node and of its leaves, even when the children were not
      leaves (their subtrees are dropped). */
  lemma CollapseKeepsSamples(t: Tree, bpm: (int, int) -> int, threshold: int)
    requires t != Nil && Partitioned(t)
    ensures var r := Collapse(t, bpm, threshold);
      Partitioned(r) && multiset(r.samples) == multiset(t.samples) && LeafSamples(r) == LeafSamples(t)
  {
    PartitionedLeaves(t);
  }

  /** A second test of the same node changes nothing. */
  lemma CollapseIdempotent(t: Tree, bpm: (int, int) -> int, threshold: int)
    requires t != Nil
    ensures Collapse(Collapse(t, bpm, threshold), bpm, threshold) == Collapse(t, bpm, threshold)
  {
  }

  /** When the node keeps a left child, merge_clusters never visits the right
      subtree. */
  lemma MergeSkipsRightSubtree(t: Tree, bpm: (int, int) -> int, threshold: int)
    requires t != Nil && Collapse(t, bpm, threshold).left != Nil
    ensures MergePass(t, bpm, threshold).right == t.right
    ensures MergePass(t, bpm, threshold).samples == t.samples
  {
  }

  /** The merge pass keeps a partitioned tree partitioned, keeps the multiset
      of the root's samples, and so keeps the samples held by the leaves. */
  lemma {:induction false} MergeKeepsPartition(t: Tree, bpm: (int, int) -> int, threshold: int)
    requires t != Nil && Partitioned(t)
    ensures var r := MergePass(t, bpm, threshold);
      Partitioned(r) && multiset(r.samples) == multiset(t.samples) && LeafSamples(r) == LeafSamples(t)
  {
    CollapseKeepsSamples(t, bpm, threshold);
    var t1 := Collapse(t, bpm, threshold);
    if t1.left != Nil {
      MergeKeepsPartition(t1.left, bpm, threshold);
      PartitionedLeaves(t1.left);
      PartitionedLeaves(MergePass(t1.left, bpm, threshold));
    }
  }

  /** Running the merge pass a second time with the same threshold merges
      nothing more. */
  lemma {:induction false} MergeIdempotent(t: Tree, bpm: (int, int) -> int, threshold: int)
    requires t != Nil && Partitioned(t)
    ensures MergePass(MergePass(t, bpm, threshold), bpm, threshold) == MergePass(t, bpm, threshold)
  {
    var t1 := Collapse(t, bpm, threshold);
    if t1.left != Nil {
      var l' := MergePass(t1.left, bpm, threshold);
      MergeKeepsPartition(t1.left, bpm, threshold);
      ClosePairOnlyNeedsMembers(t1.left.samples, l'.samples, t1.right.samples, bpm, threshold);
      assert |l'.samples| == |multiset(l'.samples)| == |t1.left.samples|;
      var r := t1.(left := l');
      assert Collapse(r, bpm, threshold) == r;
      MergeIdempotent(t1.left, bpm, threshold);
    }
  }

  // ---------------------------------------------------------------------------
  // struct node and the two passes that rewrite it in place

  class Node {
    var left: Node?
    var right: Node?
    var samples: seq<int>
    var id: int
    ghost var Repr: set<Node>

    /** The node owns its subtree: each child lies in the footprint, the two
        subtrees do not share nodes, and the tree has no cycle. */
    ghost predicate Valid()
      reads this, Repr
      decreases Repr
    {
      this in Repr &&
      (left != null ==>
        left in Repr && left.Repr <= Repr && this !in left.Repr && left.Valid()) &&
      (right != null ==>
        right in Repr && right.Repr <= Repr && this !in right.Repr && right.Valid()) &&
      (left != null && right != null ==> left.Repr !! right.Repr)
    }

    ghost function Model(): (t: Tree)
      reads this, Repr
      requires Valid()
      ensures t != Nil && t.samples == samples && t.id == id
      decreases Repr
    {
      Tree(if left == null then Nil else left.Model(),
           if right == null then Nil else right.Model(),
           samples, id)
    }

    /** alloc_node: no children, no samples, id -1. */
    constructor ()
      ensures Valid() && fresh(Repr) && Repr == {this}
      ensures Model() == Leaf([])
    {
      left := null;
      right := null;
      samples := [];
      id := -1;
      Repr := {this};
    }
  }

  /** The two subtrees of a leaf become its children. */
  method Attach(n: Node, l: Node, r: Node, ghost samples: seq<int>)
    requires n.Valid() && n.Repr == {n} && n.Model() == Leaf(samples)
    requires l.Valid() && r.Valid() && n !in l.Repr && n !in r.Repr && l.Repr !! r.Repr
    modifies n
    ensures n.Valid() && n.Repr == {n} + l.Repr + r.Repr
    ensures n.Model() == Tree(old(l.Model()), old(r.Model()), samples, -1)
  {
    n.left := l;
    n.right := r;
    n.Repr := n.Repr + l.Repr + r.Repr;
  }

  /** The pair search of test_for_merge: left samples in the outer loop, right
      samples in the inner one, stopping at the first pair within the threshold. */
  method FindClosePair(xs: seq<int>, ys: seq<int>, bpm: (int, int) -> int, threshold: int)
    returns (found: bool)
    ensures found <==> HasClosePair(xs, ys, bpm, threshold)
  {
    var i := 0;
    while i < |xs|
      invariant 0 <= i <= |xs|
      invariant forall i', j :: 0 <= i' < i && 0 <= j < |ys| ==> !Close(bpm, threshold, xs[i'], ys[j])
    {
      var j := 0;
      while j < |ys|
        invariant 0 <= j <= |ys|
        invariant forall j' :: 0 <= j' < j ==> !Close(bpm, threshold, xs[i], ys[j'])
      {
        var d := PairDistance(bpm, xs[i], ys[j]);
        if d <= threshold {
          return true;
        }
        j := j + 1;
      }
      i := i + 1;
    }
    return false;
  }

  /** test_for_merge(n, msa, threshold). */
  method TestForMerge(n: Node, bpm: (int, int) -> int, threshold: int)
    requires n.Valid()
    modifies n
    ensures n.Valid() && n.Repr <= old(n.Repr)
    ensures n.Model() == Collapse(old(n.Model()), bpm, threshold)
  {
    if n.left != null && n.right != null {
      if |n.left.samples| != 0 && |n.right.samples| != 0 {
        var found := FindClosePair(n.left.samples, n.right.samples, bpm, threshold);
        if found {
          n.samples := n.left.samples + n.right.samples;
          n.left := null;
          n.right := null;
          n.Repr := {n};
        }
      }
    }
  }

  /** merge_clusters(n, msa, threshold). */
  method MergeClusters(n: Node, bpm: (int, int) -> int, threshold: int)
    requires n.Valid()
    modifies n.Repr
    ensures n.Valid() && n.Repr <= old(n.Repr)
    ensures n.Model() == MergePass(old(n.Model()), bpm, threshold)
    decreases n.Repr
  {
    TestForMerge(n, bpm, threshold);
    if n.left != null {
      MergeClusters(n.left, bpm, threshold);
      return;
    }
    TestForMerge(n, bpm, threshold);
    if n.right != null {
      MergeClusters(n.right, bpm, threshold);
      return;
    }
    TestForMerge(n, bpm, threshold);
  }
}
