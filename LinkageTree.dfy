/**
 * The hierarchical clustering tree that scipy's `to_tree` hands to the
 * serialiser, and the leaf order that scipy's `dendrogram` reports as `ivl`.
 *
 * Merge distances are integers counting hundredths, the precision the tree
 * text is written with.  A leaf carries the row index of its gene; its own
 * distance is 0, as scipy's leaf nodes have `dist == 0`.
 */
module LinkageTree {
  import opened Sequences

  datatype Tree = Leaf(id: nat) | Node(left: Tree, right: Tree, dist: int)

  /** The node's own merge distance (`node.dist`): 0 for a leaf. */
  function Dist(t: Tree): int
  {
    if t.Leaf? then 0 else t.dist
  }

  function LeafCount(t: Tree): nat
  {
    match t
    case Leaf(_) => 1
    case Node(l, r, _) => LeafCount(l) + LeafCount(r)
  }

  function InternalCount(t: Tree): nat
  {
    match t
    case Leaf(_) => 0
    case Node(l, r, _) => InternalCount(l) + InternalCount(r) + 1
  }

  function LeafSet(t: Tree): set<nat>
  {
    match t
    case Leaf(i) => {i}
    case Node(l, r, _) => LeafSet(l) + LeafSet(r)
  }

  /** Every leaf index is a row of a table with `n` rows. */
  predicate LeafIdsBelow(t: Tree, n: nat)
  {
    match t
    case Leaf(i) => i < n
    case Node(l, r, _) => LeafIdsBelow(l, n) && LeafIdsBelow(r, n)
  }

  /** No leaf index occurs twice, as in every tree `to_tree` builds. */
  predicate DistinctLeaves(t: Tree)
  {
    match t
    case Leaf(_) => true
    case Node(l, r, _) => DistinctLeaves(l) && DistinctLeaves(r) && LeafSet(l) !! LeafSet(r)
  }

  /** Merge distances never decrease from a child to its parent, as linkage guarantees. */
  predicate Monotone(t: Tree)
  {
    match t
    case Leaf(_) => true
    case Node(l, r, d) => Dist(l) <= d && Dist(r) <= d && Monotone(l) && Monotone(r)
  }

  /**
   * The leaf order of the dendrogram, assumed to be scipy's default layout
   * (no count or distance sort): the left subtree's leaves, then the right's.
   */
  function LeafOrder(t: Tree): seq<nat>
  {
    match t
    case Leaf(i) => [i]
    case Node(l, r, _) => LeafOrder(l) + LeafOrder(r)
  }

  /** A binary tree has one more leaf than it has internal nodes. */
  lemma {:induction false} LeavesOutnumberMerges(t: Tree)
    ensures LeafCount(t) == InternalCount(t) + 1
  {
    match t
    case Leaf(_) =>
    case Node(l, r, _) =>
      LeavesOutnumberMerges(l);
      LeavesOutnumberMerges(r);
  }

  /** The leaf order lists every leaf, and only leaves, once each. */
  lemma {:induction false} LeafOrderIsPermutation(t: Tree)
    requires DistinctLeaves(t)
    ensures |LeafOrder(t)| == LeafCount(t) == |LeafSet(t)|
    ensures forall i :: i in LeafSet(t) <==> i in LeafOrder(t)
    ensures NoDuplicates(LeafOrder(t))
  {
    match t
    case Leaf(_) =>
    case Node(l, r, _) =>
      LeafOrderIsPermutation(l);
      LeafOrderIsPermutation(r);
      var a, b := LeafOrder(l), LeafOrder(r);
      assert LeafOrder(t) == a + b;
      forall i, j | 0 <= i < j < |a + b| ensures (a + b)[i] != (a + b)[j] {
        if j < |a| {
        } else if i >= |a| {
          assert (a + b)[i] == b[i - |a|] && (a + b)[j] == b[j - |a|];
        } else {
          assert (a + b)[i] == a[i] && a[i] in LeafSet(l);
          assert (a + b)[j] == b[j - |a|] && b[j - |a|] in LeafSet(r);
        }
      }
  }

  /**
   * `dendrogram(row_linkage, labels=df.index)['ivl']`: the gene names of the
   * leaves in leaf order.
   */
  function DendrogramLabels(t: Tree, names: seq<string>): seq<string>
    requires LeafIdsBelow(t, |names|)
  {
    match t
    case Leaf(i) => [names[i]]
    case Node(l, r, _) => DendrogramLabels(l, names) + DendrogramLabels(r, names)
  }

  lemma {:induction false} LabelsFollowLeafOrder(t: Tree, names: seq<string>)
    requires LeafIdsBelow(t, |names|)
    ensures |DendrogramLabels(t, names)| == |LeafOrder(t)| == LeafCount(t)
    ensures forall k :: 0 <= k < |LeafOrder(t)| ==>
      LeafOrder(t)[k] < |names| && DendrogramLabels(t, names)[k] == names[LeafOrder(t)[k]]
  {
    match t
    case Leaf(_) =>
    case Node(l, r, _) =>
      LabelsFollowLeafOrder(l, names);
      LabelsFollowLeafOrder(r, names);
      var a, b := LeafOrder(l), LeafOrder(r);
      var x, y := DendrogramLabels(l, names), DendrogramLabels(r, names);
      assert forall k :: |a| <= k < |a + b| ==> (a + b)[k] == b[k - |a|] && (x + y)[k] == y[k - |x|];
  }

  /**
   * With distinct leaves and distinct gene names, as a gene-indexed table
   * has, the dendrogram's label list names each gene once.
   */
  lemma DendrogramLabelsDistinct(t: Tree, names: seq<string>)
    requires LeafIdsBelow(t, |names|) && DistinctLeaves(t) && NoDuplicates(names)
    ensures NoDuplicates(DendrogramLabels(t, names))
  {
    LabelsFollowLeafOrder(t, names);
    LeafOrderIsPermutation(t);
  }
}
