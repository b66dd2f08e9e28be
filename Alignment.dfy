/**
 * `reorder_df_by_list` of pages/4_Visualisation.py: the promoter-length,
 * motif, expression and (optionally) de-novo motif tables are brought into
 * the order of a gene list, the list being the dendrogram's leaf order.
 * Every table is a sequence of rows; the gene column is singled out and the
 * remaining columns are an opaque value of a type parameter.
 */
module Alignment {
  import opened Wrappers
  import opened Sequences

  /** A table row: its gene (the `seq` or `gene` column) and its other columns. */
  datatype Row<C> = Row(gene: string, data: C)

  /**
   * A row of a table reindexed by the gene list: the listed gene, the table's
   * columns for it (`None` for the NaN row pandas inserts when the table lacks
   * the gene) and its row number, the `seq_id` column.
   */
  datatype Aligned<C> = Aligned(gene: string, data: Option<C>, seqId: nat)

  /** A row kept by filtering, with the `seq_id` of its gene attached. */
  datatype Tagged<C> = Tagged(gene: string, data: C, seqId: nat)

  /** The four tables the figure is drawn from. */
  datatype Reordered<L, M, E, D> = Reordered(
    lengths: seq<Aligned<L>>,
    motifs: seq<Tagged<M>>,
    expression: seq<Row<Option<E>>>,
    denovo: Option<seq<Tagged<D>>>)

  /** pandas refuses to reindex a table whose index holds a gene twice and is not already the list. */
  datatype Refusal = DuplicateLengthRows | DuplicateExpressionRows

  // ----- the pandas operations, on sequences of rows -----

  /** `t[t['seq'].isin(lst)]`: the rows whose gene is listed, in table order. */
  function KeepListed<C>(t: seq<Row<C>>, lst: seq<string>): (r: seq<Row<C>>)
    ensures forall k :: 0 <= k < |r| ==> r[k] in t && r[k].gene in lst
    ensures forall i :: 0 <= i < |t| && t[i].gene in lst ==> t[i] in r
  {
    if t == [] then []
    else
      assert t == t[..|t| - 1] + [t[|t| - 1]];
      KeepListed(t[..|t| - 1], lst) + (if t[|t| - 1].gene in lst then [t[|t| - 1]] else [])
  }

  /** The positions of `t` that `KeepListed` keeps. */
  function KeptPositions<C>(t: seq<Row<C>>, lst: seq<string>): seq<nat>
  {
    if t == [] then []
    else KeptPositions(t[..|t| - 1], lst) + (if t[|t| - 1].gene in lst then [|t| - 1] else [])
  }

  /** The kept rows are the table's rows at the kept positions. */
  lemma {:induction false} KeptAtPositions<C>(t: seq<Row<C>>, lst: seq<string>)
    ensures var p := KeptPositions(t, lst);
      |p| == |KeepListed(t, lst)| &&
      forall k :: 0 <= k < |p| ==> p[k] < |t| && KeepListed(t, lst)[k] == t[p[k]]
    decreases |t|
  {
    if t != [] {
      var init := t[..|t| - 1];
      KeptAtPositions(init, lst);
      var p0 := KeptPositions(init, lst);
      assert forall k :: 0 <= k < |p0| ==> init[p0[k]] == t[p0[k]];
    }
  }

  /** The kept positions increase, and every listed row's position is among them. */
  lemma {:induction false} KeptPositionsInOrder<C>(t: seq<Row<C>>, lst: seq<string>)
    ensures var p := KeptPositions(t, lst);
      (forall k :: 0 <= k < |p| ==> p[k] < |t|) &&
      (forall k, l :: 0 <= k < l < |p| ==> p[k] < p[l]) &&
      (forall i :: 0 <= i < |t| && t[i].gene in lst ==> i in p)
    decreases |t|
  {
    if t != [] {
      var init := t[..|t| - 1];
      KeptPositionsInOrder(init, lst);
      var p0 := KeptPositions(init, lst);
      var p := KeptPositions(t, lst);
      assert p[..|p0|] == p0;
      forall i | 0 <= i < |t| && t[i].gene in lst
        ensures i in p
      {
        if i < |t| - 1 {
          assert init[i] == t[i];
          assert i in p0;
        }
      }
    }
  }

  /**
   * The filter keeps order: the kept rows sit at increasing positions of the
   * table, and every listed row is among them.
   */
  lemma FilterKeepsOrder<C>(t: seq<Row<C>>, lst: seq<string>)
    ensures var p := KeptPositions(t, lst);
      |p| == |KeepListed(t, lst)| &&
      (forall k :: 0 <= k < |p| ==> p[k] < |t| && KeepListed(t, lst)[k] == t[p[k]]) &&
      (forall k, l :: 0 <= k < l < |p| ==> p[k] < p[l]) &&
      (forall i :: 0 <= i < |t| && t[i].gene in lst ==> i in p)
  {
    KeptAtPositions(t, lst);
    KeptPositionsInOrder(t, lst);
  }

  /** No gene is on two rows: what pandas needs of an index it reindexes. */
  predicate UniqueGenes<C>(t: seq<Row<C>>)
  {
    forall i, j :: 0 <= i < j < |t| ==> t[i].gene != t[j].gene
  }

  /** The columns of the row for gene `g`, when the table has one. */
  function Lookup<C>(t: seq<Row<C>>, g: string): (r: Option<C>)
    ensures r.Some? <==> exists i :: 0 <= i < |t| && t[i].gene == g
    ensures r.Some? ==> Row(g, r.value) in t
  {
    if t == [] then None
    else if t[0].gene == g then Some(t[0].data)
    else
      var r := Lookup(t[1..], g);
      assert r.Some? ==> exists i :: 0 <= i < |t| && t[i].gene == g by {
        if r.Some? {
          var i :| 0 <= i < |t[1..]| && t[1..][i].gene == g;
          assert t[i + 1].gene == g;
        }
      }
      r
  }

  /** In a table without repeated genes, looking a gene up finds its row. */
  lemma LookupFindsRow<C>(t: seq<Row<C>>, x: Row<C>)
    requires UniqueGenes(t) && x in t
    ensures Lookup(t, x.gene) == Some(x.data)
  {
    var r := Lookup(t, x.gene);
    var i :| 0 <= i < |t| && t[i] == x;
    var j :| 0 <= j < |t| && t[j] == Row(x.gene, r.value);
    assert i == j;
  }

  /** `set_index('seq').reindex(lst).reset_index()`, with `seq_id` the new row number. */
  function Realign<C>(t: seq<Row<C>>, lst: seq<string>): seq<Aligned<C>>
  {
    seq(|lst|, i requires 0 <= i < |lst| => Aligned(lst[i], Lookup(t, lst[i]), i))
  }

  /** The table itself renumbered: what `reindex` returns when the index already equals the list. */
  function Renumber<C>(t: seq<Row<C>>): seq<Aligned<C>>
  {
    seq(|t|, i requires 0 <= i < |t| => Aligned(t[i].gene, Some(t[i].data), i))
  }

  /**
   * `set_index('seq').reindex(lst).reset_index()`: pandas hands back a copy
   * when the index already equals `lst`, even one that repeats a gene, and
   * looks every listed gene up otherwise.
   */
  function Reindex<C>(t: seq<Row<C>>, lst: seq<string>): seq<Aligned<C>>
  {
    if Genes(t) == lst then Renumber(t) else Realign(t, lst)
  }

  /** pandas refuses to reindex an index with a repeated gene unless it already equals the list. */
  predicate Reindexable<C>(t: seq<Row<C>>, lst: seq<string>)
  {
    UniqueGenes(t) || Genes(t) == lst
  }

  /** `set_index('seq')['seq_id'].to_dict()`: each gene to its row number, later rows overriding earlier ones. */
  function SeqIdMap<C>(rows: seq<Aligned<C>>): map<string, nat>
  {
    if rows == [] then map[]
    else SeqIdMap(rows[..|rows| - 1])[rows[|rows| - 1].gene := rows[|rows| - 1].seqId]
  }

  /** `t['seq'].map(ids)` stored as column `seq_id`; every gene of `t` is a key of `ids`. */
  function Tag<C>(t: seq<Row<C>>, ids: map<string, nat>): seq<Tagged<C>>
    requires forall i :: 0 <= i < |t| ==> t[i].gene in ids
  {
    seq(|t|, i requires 0 <= i < |t| => Tagged(t[i].gene, t[i].data, ids[t[i].gene]))
  }

  /** `del seq_id` followed by `set_index('gene')`. */
  function DropSeqIds<C>(rows: seq<Aligned<C>>): seq<Row<Option<C>>>
  {
    seq(|rows|, i requires 0 <= i < |rows| => Row(rows[i].gene, rows[i].data))
  }

  /** The genes of a table, top to bottom. */
  function Genes<C>(rows: seq<Row<C>>): seq<string>
  {
    seq(|rows|, i requires 0 <= i < |rows| => rows[i].gene)
  }

  // ----- reorder_df_by_list -----

  /**
   * The four reordered tables, or the refusal pandas raises. The expression
   * table is sorted by descending `seq_id`; on rows numbered 0, 1, ... that
   * sort is the reversal (`DescendingSortIsReversal`).
   */
  function ReorderByList<L, M, E, D>(
    len: seq<Row<L>>, motif: seq<Row<M>>, exp: seq<Row<E>>, lst: seq<string>,
    denovo: Option<seq<Row<D>>>): Result<Reordered<L, M, E, D>, Refusal>
  {
    var kept := KeepListed(len, lst);
    if !Reindexable(kept, lst) then Failure(DuplicateLengthRows)
    else
      var lengths := Reindex(kept, lst);
      var ids := SeqIdMap(lengths);
      SeqIdMapCoversList(kept, lst);
      var motifs := Tag(KeepListed(motif, lst), ids);
      if !Reindexable(exp, lst) then Failure(DuplicateExpressionRows)
      else
        var expression := DropSeqIds(Reverse(Reindex(exp, lst)));
        var extra := match denovo
          case None => None
          case Some(d) => Some(Tag(KeepListed(d, lst), ids));
        Success(Reordered(lengths, motifs, expression, extra))
  }

  // ----- the seq_id dictionary -----

  /** Row numbers as `Reindex` assigns them. */
  predicate Numbered<C>(rows: seq<Aligned<C>>)
  {
    forall i :: 0 <= i < |rows| ==> rows[i].seqId == i
  }

  /** The dictionary sends each gene of numbered rows to the LAST row that holds it. */
  lemma {:induction false} SeqIdMapLastRow<C>(rows: seq<Aligned<C>>)
    requires Numbered(rows)
    ensures forall g :: g in SeqIdMap(rows) <==> exists i :: 0 <= i < |rows| && rows[i].gene == g
    ensures forall g :: g in SeqIdMap(rows) ==>
      SeqIdMap(rows)[g] < |rows| && rows[SeqIdMap(rows)[g]].gene == g &&
      (forall j :: SeqIdMap(rows)[g] < j < |rows| ==> rows[j].gene != g)
    decreases |rows|
  {
    if rows != [] {
      var init := rows[..|rows| - 1];
      SeqIdMapLastRow(init);
      forall g | exists i :: 0 <= i < |rows| && rows[i].gene == g
        ensures g in SeqIdMap(rows)
      {
        var i :| 0 <= i < |rows| && rows[i].gene == g;
        if i < |rows| - 1 {
          assert init[i].gene == g;
        }
      }
    }
  }

  /** Either way, `reindex` gives one row per list entry, holding that entry and numbered by position. */
  lemma ReindexShape<C>(t: seq<Row<C>>, lst: seq<string>)
    ensures var rows := Reindex(t, lst);
      |rows| == |lst| && Numbered(rows) &&
      forall i :: 0 <= i < |lst| ==> rows[i].gene == lst[i]
  {
    if Genes(t) == lst {
      assert forall i :: 0 <= i < |t| ==> Genes(t)[i] == t[i].gene;
    }
  }

  /**
   * What a reindexed row holds: a row of the table with that gene, NaN only
   * when the table has none, the one such row when genes are unique, and the
   * table's own row when the index already equalled the list.
   */
  lemma ReindexData<C>(t: seq<Row<C>>, lst: seq<string>)
    ensures var rows := Reindex(t, lst);
      |rows| == |lst| &&
      (forall i :: 0 <= i < |lst| && rows[i].data.Some? ==> Row(lst[i], rows[i].data.value) in t) &&
      (forall i :: 0 <= i < |lst| && rows[i].data.None? ==> forall x :: x in t ==> x.gene != lst[i]) &&
      (UniqueGenes(t) ==>
        forall i, x :: 0 <= i < |lst| && x in t && x.gene == lst[i] ==> rows[i].data == Some(x.data)) &&
      (Genes(t) == lst ==> forall i :: 0 <= i < |t| ==> rows[i].data == Some(t[i].data))
  {
    var rows := Reindex(t, lst);
    ReindexShape(t, lst);
    if Genes(t) == lst {
      assert forall i :: 0 <= i < |t| ==> Genes(t)[i] == t[i].gene;
      forall i | 0 <= i < |lst| && rows[i].data.Some?
        ensures Row(lst[i], rows[i].data.value) in t
      {
        assert rows[i].data.value == t[i].data && t[i] == Row(lst[i], t[i].data);
      }
      if UniqueGenes(t) {
        forall i, x | 0 <= i < |lst| && x in t && x.gene == lst[i]
          ensures rows[i].data == Some(x.data)
        {
          var j :| 0 <= j < |t| && t[j] == x;
          assert t[i].gene == t[j].gene;
        }
      }
    } else {
      forall i, x | UniqueGenes(t) && 0 <= i < |lst| && x in t && x.gene == lst[i]
        ensures rows[i].data == Some(x.data)
      {
        LookupFindsRow(t, x);
      }
    }
  }

  /** The reindexed length table numbers its rows and holds exactly the listed genes. */
  lemma SeqIdMapCoversList<C>(t: seq<Row<C>>, lst: seq<string>)
    ensures var m := SeqIdMap(Reindex(t, lst));
      forall g :: g in m ==>
        m[g] < |lst| && lst[m[g]] == g && (forall j :: m[g] < j < |lst| ==> lst[j] != g)
    ensures forall g :: g in lst ==> g in SeqIdMap(Reindex(t, lst))
  {
    var rows := Reindex(t, lst);
    ReindexShape(t, lst);
    SeqIdMapLastRow(rows);
    forall g | g in lst
      ensures g in SeqIdMap(rows)
    {
      var i :| 0 <= i < |lst| && lst[i] == g;
      assert rows[i].gene == g;
    }
  }

  // ----- the sort of the expression table -----

  /** Strictly descending `seq_id`s, the result of the descending sort on distinct ids. */
  predicate StrictlyDescending<C>(rows: seq<Aligned<C>>)
  {
    forall i, j :: 0 <= i < j < |rows| ==> rows[i].seqId > rows[j].seqId
  }

  /** Reversing numbered rows sorts them by descending `seq_id` and loses none. */
  lemma ReversalSortsDescending<C>(rows: seq<Aligned<C>>)
    requires Numbered(rows)
    ensures StrictlyDescending(Reverse(rows))
    ensures multiset(Reverse(rows)) == multiset(rows)
  {
    ReverseIndex(rows);
    ReverseMultiset(rows);
  }

  /** In a strictly descending run, ids fall by at least the distance between rows. */
  lemma {:induction false} DescendingGap<C>(t: seq<Aligned<C>>, i: nat, j: nat)
    requires StrictlyDescending(t) && i <= j < |t|
    ensures t[i].seqId >= t[j].seqId + (j - i)
    decreases j - i
  {
    if i < j {
      DescendingGap(t, i + 1, j);
    }
  }

  /**
   * Any arrangement of numbered rows with strictly descending ids is their
   * reversal: the descending sort has exactly one possible result.
   */
  lemma DescendingSortIsReversal<C>(rows: seq<Aligned<C>>, t: seq<Aligned<C>>)
    requires Numbered(rows)
    requires multiset(t) == multiset(rows) && StrictlyDescending(t)
    ensures t == Reverse(rows)
  {
    var n := |rows|;
    assert |t| == n by {
      assert |multiset(t)| == |t| && |multiset(rows)| == |rows|;
    }
    ReverseIndex(rows);
    forall k | 0 <= k < n
      ensures t[k] == Reverse(rows)[k]
    {
      assert forall x :: x in t ==> x in rows by {
        forall x | x in t ensures x in rows {
          assert x in multiset(t);
        }
      }
      assert t[0] in rows && t[k] in rows && t[n - 1] in rows;
      DescendingGap(t, 0, k);
      DescendingGap(t, k, n - 1);
      var a :| 0 <= a < n && rows[a] == t[k];
      assert a == n - 1 - k;
    }
  }

  // ----- what reorder_df_by_list promises -----

  /**
   * pandas refuses exactly when the filtered length table or the expression
   * table repeats a gene without already being in the order of the list.
   */
  lemma RefusesIffDuplicateGenes<L, M, E, D>(
    len: seq<Row<L>>, motif: seq<Row<M>>, exp: seq<Row<E>>, lst: seq<string>,
    denovo: Option<seq<Row<D>>>)
    ensures var kept := KeepListed(len, lst);
      var r := ReorderByList(len, motif, exp, lst, denovo);
      (r.Failure? <==>
        (!UniqueGenes(kept) && Genes(kept) != lst) || (!UniqueGenes(exp) && Genes(exp) != lst)) &&
      (r == Failure(DuplicateLengthRows) <==> !UniqueGenes(kept) && Genes(kept) != lst)
  {
  }

  /** A list without repeats: the refusal is exactly a repeated gene in either table. */
  lemma DistinctListRefusesIffDuplicateGenes<L, M, E, D>(
    len: seq<Row<L>>, motif: seq<Row<M>>, exp: seq<Row<E>>, lst: seq<string>,
    denovo: Option<seq<Row<D>>>)
    requires NoDuplicates(lst)
    ensures ReorderByList(len, motif, exp, lst, denovo).Failure? <==>
      !UniqueGenes(KeepListed(len, lst)) || !UniqueGenes(exp)
  {
    var kept := KeepListed(len, lst);
    if Genes(kept) == lst {
      assert forall i :: 0 <= i < |kept| ==> Genes(kept)[i] == kept[i].gene;
    }
    if Genes(exp) == lst {
      assert forall i :: 0 <= i < |exp| ==> Genes(exp)[i] == exp[i].gene;
    }
  }

  /**
   * The length table has one row per listed gene, numbered by position: a
   * row of the table for that gene, NaN where the table lacked the gene.
   */
  lemma LengthRowsFollowList<L, M, E, D>(
    len: seq<Row<L>>, motif: seq<Row<M>>, exp: seq<Row<E>>, lst: seq<string>,
    denovo: Option<seq<Row<D>>>)
    requires ReorderByList(len, motif, exp, lst, denovo).Success?
    ensures var kept := KeepListed(len, lst);
      var lengths := ReorderByList(len, motif, exp, lst, denovo).value.lengths;
      |lengths| == |lst| &&
      (forall i :: 0 <= i < |lst| ==> lengths[i].gene == lst[i] && lengths[i].seqId == i) &&
      (forall i :: 0 <= i < |lst| && lengths[i].data.Some? ==> Row(lst[i], lengths[i].data.value) in len) &&
      (forall i :: 0 <= i < |lst| && lengths[i].data.None? ==> forall x :: x in len ==> x.gene != lst[i]) &&
      (UniqueGenes(kept) ==>
        forall i, x :: 0 <= i < |lst| && x in len && x.gene == lst[i] ==> lengths[i].data == Some(x.data)) &&
      (Genes(kept) == lst ==> forall i :: 0 <= i < |kept| ==> lengths[i].data == Some(kept[i].data))
  {
    var kept := KeepListed(len, lst);
    ReindexShape(kept, lst);
    ReindexData(kept, lst);
    var lengths := Reindex(kept, lst);
    forall i, x | 0 <= i < |lst| && x in len && x.gene == lst[i]
      ensures x in kept
    {
      var j :| 0 <= j < |len| && len[j] == x;
    }
  }

  /**
   * What `isin` followed by the `seq_id` map does to any table: its listed
   * rows in their order, each tagged with the last list position of its gene.
   */
  lemma TaggedRowsFollowTable<C, K>(t: seq<Row<C>>, kept: seq<Row<K>>, lst: seq<string>)
    requires forall i :: 0 <= i < |KeepListed(t, lst)| ==>
      KeepListed(t, lst)[i].gene in SeqIdMap(Reindex(kept, lst))
    ensures var tagged := Tag(KeepListed(t, lst), SeqIdMap(Reindex(kept, lst)));
      var p := KeptPositions(t, lst);
      |tagged| == |p| &&
      forall k :: 0 <= k < |p| ==>
        p[k] < |t| && tagged[k].gene == t[p[k]].gene && tagged[k].data == t[p[k]].data &&
        tagged[k].seqId < |lst| && lst[tagged[k].seqId] == tagged[k].gene &&
        forall j :: tagged[k].seqId < j < |lst| ==> lst[j] != tagged[k].gene
  {
    SeqIdMapCoversList(kept, lst);
    FilterKeepsOrder(t, lst);
  }

  /** The motif rows are the listed ones, in table order, each tagged with its gene's length-table row. */
  lemma MotifRowsFollowLengths<L, M, E, D>(
    len: seq<Row<L>>, motif: seq<Row<M>>, exp: seq<Row<E>>, lst: seq<string>,
    denovo: Option<seq<Row<D>>>)
    requires ReorderByList(len, motif, exp, lst, denovo).Success?
    ensures var r := ReorderByList(len, motif, exp, lst, denovo).value;
      var p := KeptPositions(motif, lst);
      |r.motifs| == |p| &&
      forall k :: 0 <= k < |p| ==>
        p[k] < |motif| && r.motifs[k].gene == motif[p[k]].gene && r.motifs[k].data == motif[p[k]].data &&
        r.motifs[k].seqId < |r.lengths| && r.lengths[r.motifs[k].seqId].gene == r.motifs[k].gene &&
        forall j :: r.motifs[k].seqId < j < |lst| ==> lst[j] != r.motifs[k].gene
  {
    var kept := KeepListed(len, lst);
    SeqIdMapCoversList(kept, lst);
    TaggedRowsFollowTable(motif, kept, lst);
  }

  /**
   * The expression rows are the listed genes bottom to top: a row of the
   * table for that gene, NaN where the table lacked the gene.
   */
  lemma ExpressionRowsReversed<L, M, E, D>(
    len: seq<Row<L>>, motif: seq<Row<M>>, exp: seq<Row<E>>, lst: seq<string>,
    denovo: Option<seq<Row<D>>>)
    requires ReorderByList(len, motif, exp, lst, denovo).Success?
    ensures var expression := ReorderByList(len, motif, exp, lst, denovo).value.expression;
      |expression| == |lst| && Genes(expression) == Reverse(lst) &&
      (forall i :: 0 <= i < |lst| && expression[i].data.Some? ==>
        Row(lst[|lst| - 1 - i], expression[i].data.value) in exp) &&
      (forall i :: 0 <= i < |lst| && expression[i].data.None? ==>
        forall x :: x in exp ==> x.gene != lst[|lst| - 1 - i]) &&
      (UniqueGenes(exp) ==>
        forall i, x :: 0 <= i < |lst| && x in exp && x.gene == lst[|lst| - 1 - i] ==>
          expression[i].data == Some(x.data)) &&
      (Genes(exp) == lst ==>
        forall i :: 0 <= i < |exp| ==> expression[i].data == Some(exp[|exp| - 1 - i].data))
  {
    ReversedRows(exp, lst);
  }

  /** Dropping `seq_id` from the reversed reindexed table: row `i` is list entry `|lst| - 1 - i`. */
  lemma ReversedRows<C>(t: seq<Row<C>>, lst: seq<string>)
    ensures var expression := DropSeqIds(Reverse(Reindex(t, lst)));
      |expression| == |lst| && Genes(expression) == Reverse(lst) &&
      (forall i :: 0 <= i < |lst| && expression[i].data.Some? ==>
        Row(lst[|lst| - 1 - i], expression[i].data.value) in t) &&
      (forall i :: 0 <= i < |lst| && expression[i].data.None? ==>
        forall x :: x in t ==> x.gene != lst[|lst| - 1 - i]) &&
      (UniqueGenes(t) ==>
        forall i, x :: 0 <= i < |lst| && x in t && x.gene == lst[|lst| - 1 - i] ==>
          expression[i].data == Some(x.data)) &&
      (Genes(t) == lst ==>
        forall i :: 0 <= i < |t| ==> expression[i].data == Some(t[|t| - 1 - i].data))
  {
    var rows := Reindex(t, lst);
    ReindexShape(t, lst);
    ReindexData(t, lst);
    ReverseIndex(rows);
    ReverseIndex(lst);
    var expression := DropSeqIds(Reverse(rows));
    assert forall i :: 0 <= i < |lst| ==>
      expression[i].gene == rows[|lst| - 1 - i].gene && expression[i].data == rows[|lst| - 1 - i].data;
    assert Genes(expression) == Reverse(lst);
  }

  /** A motif row's `seq_id` also picks its gene's expression row, counted from the bottom. */
  lemma SeqIdsAgreeAcrossTables<L, M, E, D>(
    len: seq<Row<L>>, motif: seq<Row<M>>, exp: seq<Row<E>>, lst: seq<string>,
    denovo: Option<seq<Row<D>>>)
    requires ReorderByList(len, motif, exp, lst, denovo).Success?
    ensures var r := ReorderByList(len, motif, exp, lst, denovo).value;
      |r.expression| == |lst| && |r.lengths| == |lst| &&
      forall m :: m in r.motifs ==>
        m.seqId < |lst| && r.lengths[m.seqId].gene == m.gene &&
        r.expression[|lst| - 1 - m.seqId].gene == m.gene
  {
    var r := ReorderByList(len, motif, exp, lst, denovo).value;
    MotifRowsFollowLengths(len, motif, exp, lst, denovo);
    ExpressionRowsReversed(len, motif, exp, lst, denovo);
    ReverseIndex(lst);
    forall m | m in r.motifs
      ensures m.seqId < |lst| && r.lengths[m.seqId].gene == m.gene
      ensures r.expression[|lst| - 1 - m.seqId].gene == m.gene
    {
      var k :| 0 <= k < |r.motifs| && r.motifs[k] == m;
      assert Genes(r.expression)[|lst| - 1 - m.seqId] == r.expression[|lst| - 1 - m.seqId].gene;
    }
  }

  /** With a list that repeats no gene, a tag is the one position of its gene in the list. */
  lemma SeqIdIsThePosition<L, M, E, D>(
    len: seq<Row<L>>, motif: seq<Row<M>>, exp: seq<Row<E>>, lst: seq<string>,
    denovo: Option<seq<Row<D>>>, m: Tagged<M>, i: nat)
    requires ReorderByList(len, motif, exp, lst, denovo).Success?
    requires NoDuplicates(lst) && m in ReorderByList(len, motif, exp, lst, denovo).value.motifs
    requires i < |lst| && lst[i] == m.gene
    ensures m.seqId == i
  {
    SeqIdsAgreeAcrossTables(len, motif, exp, lst, denovo);
    LengthRowsFollowList(len, motif, exp, lst, denovo);
  }

  /** The de-novo table is returned exactly when one is given, filtered and tagged like the motif table. */
  lemma DenovoPresentIffGiven<L, M, E, D>(
    len: seq<Row<L>>, motif: seq<Row<M>>, exp: seq<Row<E>>, lst: seq<string>,
    denovo: Option<seq<Row<D>>>)
    requires ReorderByList(len, motif, exp, lst, denovo).Success?
    ensures var r := ReorderByList(len, motif, exp, lst, denovo).value;
      (r.denovo.Some? <==> denovo.Some?) &&
      (denovo.Some? ==>
        var p := KeptPositions(denovo.value, lst);
        |r.denovo.value| == |p| &&
        forall k :: 0 <= k < |p| ==>
          p[k] < |denovo.value| && r.denovo.value[k].gene == denovo.value[p[k]].gene &&
          r.denovo.value[k].data == denovo.value[p[k]].data &&
          r.denovo.value[k].seqId < |r.lengths| &&
          r.lengths[r.denovo.value[k].seqId].gene == r.denovo.value[k].gene &&
          forall j :: r.denovo.value[k].seqId < j < |lst| ==> lst[j] != r.denovo.value[k].gene)
  {
    var kept := KeepListed(len, lst);
    SeqIdMapCoversList(kept, lst);
    ReindexShape(kept, lst);
    if denovo.Some? {
      TaggedRowsFollowTable(denovo.value, kept, lst);
    }
  }
}
