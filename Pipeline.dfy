/**
 * How the two pages fit together: pages/4_Visualisation.py reorders its
 * tables by the dendrogram's leaf order of the clustering tree, the same tree
 * that pages/2_Experiment_Selection.py writes as Newick text.
 */
module Pipeline {
  import opened Wrappers
  import opened Sequences
  import opened LinkageTree
  import opened Newick
  import opened NewickParser
  import opened Alignment

  /**
   * The expression rows, top to bottom, are the leaves of the Newick text in
   * text order: both reverse the dendrogram's leaf order.
   */
  lemma HeatmapRowsFollowNewickText<L, M, E, D>(
    t: Tree, names: seq<string>,
    len: seq<Row<L>>, motif: seq<Row<M>>, exp: seq<Row<E>>, denovo: Option<seq<Row<D>>>)
    requires LeafIdsBelow(t, |names|) && PlainNames(names) && t.Node?
    requires ReorderByList(len, motif, exp, DendrogramLabels(t, names), denovo).Success?
    ensures Parse(Write2Newick(t, names)).Some?
    ensures Genes(ReorderByList(len, motif, exp, DendrogramLabels(t, names), denovo).value.expression)
      == LeafNames(Parse(Write2Newick(t, names)).value)
  {
    ExpressionRowsReversed(len, motif, exp, DendrogramLabels(t, names), denovo);
    NewickListsLeavesReversed(t, names);
  }

  /**
   * When the tree clusters the expression table's own rows, every expression
   * row of the figure is filled: no gene of the leaf order is missing from
   * the table.
   */
  lemma ClusteredRowsAllPresent<L, M, E, D>(
    t: Tree, len: seq<Row<L>>, motif: seq<Row<M>>, exp: seq<Row<E>>, denovo: Option<seq<Row<D>>>)
    requires LeafIdsBelow(t, |Genes(exp)|)
    requires ReorderByList(len, motif, exp, DendrogramLabels(t, Genes(exp)), denovo).Success?
    ensures var expression :=
      ReorderByList(len, motif, exp, DendrogramLabels(t, Genes(exp)), denovo).value.expression;
      forall i :: 0 <= i < |expression| ==> expression[i].data.Some?
  {
    var names := Genes(exp);
    var lst := DendrogramLabels(t, names);
    ExpressionRowsReversed(len, motif, exp, lst, denovo);
    LabelsFollowLeafOrder(t, names);
    var expression := ReorderByList(len, motif, exp, lst, denovo).value.expression;
    forall i | 0 <= i < |expression|
      ensures expression[i].data.Some?
    {
      var k := |lst| - 1 - i;
      var j := LeafOrder(t)[k];
      assert lst[k] == names[j] == exp[j].gene;
      assert exp[j] in exp;
    }
  }

  /**
   * With distinct leaves and a table without repeated genes, a motif row's
   * `seq_id` is the one position of its gene in the leaf order.
   */
  lemma MotifTagIsLeafPosition<L, M, E, D>(
    t: Tree, names: seq<string>,
    len: seq<Row<L>>, motif: seq<Row<M>>, exp: seq<Row<E>>, denovo: Option<seq<Row<D>>>,
    m: Tagged<M>, i: nat)
    requires LeafIdsBelow(t, |names|) && DistinctLeaves(t) && NoDuplicates(names)
    requires ReorderByList(len, motif, exp, DendrogramLabels(t, names), denovo).Success?
    requires m in ReorderByList(len, motif, exp, DendrogramLabels(t, names), denovo).value.motifs
    requires i < |DendrogramLabels(t, names)| && DendrogramLabels(t, names)[i] == m.gene
    ensures m.seqId == i
  {
    DendrogramLabelsDistinct(t, names);
    SeqIdIsThePosition(len, motif, exp, DendrogramLabels(t, names), denovo, m, i);
  }
}
