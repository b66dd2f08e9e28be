/**
 * The decision table of pages/2_Experiment_Selection.py, stated as a
 * catalogue: every expression column the page can offer, with the experiment,
 * tissue and collection time or condition that must be ticked for it.
 */
module ExperimentCatalog {
  import opened Sequences

  /** What the user has ticked, for every checkbox the page can draw. */
  datatype Ticks = Ticks(
    drought: bool, ancestral: bool, biomass: bool,
    leaf1: bool, internode1: bool, internode5: bool, internode9: bool, root: bool,
    months4: bool, months8: bool, months12: bool,
    control: bool, treated: bool)

  datatype Experiment = Ancestral | Biomass | Drought
  datatype Tissue = Leaf1 | Internode1 | Internode5 | Internode9 | Root
  /** The third choice a column depends on: a collection time, a drought condition, or none. */
  datatype Qualifier = AnyTime | Months4 | Months8 | Months12 | Control | Treated

  datatype Column = Column(name: string, experiment: Experiment, tissue: Tissue, qualifier: Qualifier)

  /** How many expression columns the page can offer. */
  const CatalogSize: nat := 16

  /** Catalogue entry `k`, in the order the script appends the columns (the last one from 15 on). */
  function Entry(k: int): Column
  {
    if k == 0 then Column("L1_Ancestral", Ancestral, Leaf1, AnyTime)
    else if k == 1 then Column("I1_Ancestral", Ancestral, Internode1, AnyTime)
    else if k == 2 then Column("I5_Ancestral", Ancestral, Internode5, AnyTime)
    else if k == 3 then Column("I9_Ancestral", Ancestral, Internode9, AnyTime)
    else if k == 4 then Column("L1_4M_Biomass", Biomass, Leaf1, Months4)
    else if k == 5 then Column("L1_8M_Biomass", Biomass, Leaf1, Months8)
    else if k == 6 then Column("L1_12M_Biomass", Biomass, Leaf1, Months12)
    else if k == 7 then Column("I1_4M_Biomass", Biomass, Internode1, Months4)
    else if k == 8 then Column("I1_8M_Biomass", Biomass, Internode1, Months8)
    else if k == 9 then Column("I1_12M_Biomass", Biomass, Internode1, Months12)
    else if k == 10 then Column("I5_8M_Biomass", Biomass, Internode5, Months8)
    else if k == 11 then Column("I5_12M_Biomass", Biomass, Internode5, Months12)
    else if k == 12 then Column("L1_Drought_control", Drought, Leaf1, Control)
    else if k == 13 then Column("L1_Drought_treated", Drought, Leaf1, Treated)
    else if k == 14 then Column("RT_Drought_control", Drought, Root, Control)
    else Column("RT_Drought_treated", Drought, Root, Treated)
  }

  /** Every expression column the page can offer, in the order the script appends them. */
  function Catalog(): seq<Column>
  {
    seq(CatalogSize, Entry)
  }

  predicate ExperimentTicked(u: Ticks, e: Experiment)
  {
    match e
    case Ancestral => u.ancestral
    case Biomass => u.biomass
    case Drought => u.drought
  }

  predicate TissueTicked(u: Ticks, t: Tissue)
  {
    match t
    case Leaf1 => u.leaf1
    case Internode1 => u.internode1
    case Internode5 => u.internode5
    case Internode9 => u.internode9
    case Root => u.root
  }

  predicate QualifierTicked(u: Ticks, q: Qualifier)
  {
    match q
    case AnyTime => true
    case Months4 => u.months4
    case Months8 => u.months8
    case Months12 => u.months12
    case Control => u.control
    case Treated => u.treated
  }

  /** A column is taken when its experiment, its tissue and its qualifier are all ticked. */
  predicate Chosen(u: Ticks, c: Column)
  {
    ExperimentTicked(u, c.experiment) && TissueTicked(u, c.tissue) && QualifierTicked(u, c.qualifier)
  }

  /** The chosen columns of `cols`, in their order. */
  function Selected(u: Ticks, cols: seq<Column>): seq<Column>
  {
    if cols == [] then []
    else
      var last := cols[|cols| - 1];
      Selected(u, cols[..|cols| - 1]) + (if Chosen(u, last) then [last] else [])
  }

  function Pick(u: Ticks, c: Column): seq<string>
  {
    if Chosen(u, c) then [c.name] else []
  }

  function Selection(u: Ticks): seq<Column>
  {
    Selected(u, Catalog())
  }

  function NamesOf(cols: seq<Column>): seq<string>
  {
    if cols == [] then [] else NamesOf(cols[..|cols| - 1]) + [cols[|cols| - 1].name]
  }

  /** The column list the script builds, as a function of the ticks. */
  function Experiments(u: Ticks): seq<string>
  {
    ["gene"] + NamesOf(Selection(u))
  }

  lemma {:induction false} SelectedAppend(u: Ticks, a: seq<Column>, b: seq<Column>)
    ensures Selected(u, a + b) == Selected(u, a) + Selected(u, b)
    decreases |b|
  {
    if b == [] {
      assert a + b == a;
    } else {
      assert (a + b)[..|a + b| - 1] == a + b[..|b| - 1];
      SelectedAppend(u, a, b[..|b| - 1]);
    }
  }

  lemma {:induction false} NamesOfAppend(a: seq<Column>, b: seq<Column>)
    ensures NamesOf(a + b) == NamesOf(a) + NamesOf(b)
    decreases |b|
  {
    if b == [] {
      assert a + b == a;
    } else {
      assert (a + b)[..|a + b| - 1] == a + b[..|b| - 1];
      NamesOfAppend(a, b[..|b| - 1]);
    }
  }

  /** Considering one more column appends its name exactly when it is chosen. */
  lemma PickNext(u: Ticks, cols: seq<Column>, k: nat)
    requires k < |cols|
    ensures NamesOf(Selected(u, cols[..k + 1])) == NamesOf(Selected(u, cols[..k])) + Pick(u, cols[k])
  {
    var s := cols[..k + 1];
    assert s[..k] == cols[..k];
    var head := if Chosen(u, cols[k]) then [cols[k]] else [];
    assert NamesOf(head) == Pick(u, cols[k]) by {
      if Chosen(u, cols[k]) {
        assert head[..0] == [];
      }
    }
    NamesOfAppend(Selected(u, cols[..k]), head);
  }

  /** The column list after the script has considered the first `k` catalogue columns. */
  ghost function ListedUpTo(u: Ticks, k: nat): seq<string>
    requires k <= CatalogSize
  {
    if k == 0 then ["gene"] else ListedUpTo(u, k - 1) + Pick(u, Entry(k - 1))
  }

  /** Having considered `k` columns, the list holds "gene" and the chosen ones among them. */
  lemma {:induction false} ListedUpToSelects(u: Ticks, k: nat)
    requires k <= |Catalog()|
    ensures ListedUpTo(u, k) == ["gene"] + NamesOf(Selected(u, Catalog()[..k]))
  {
    var cat := Catalog();
    if k == 0 {
      assert cat[..0] == [];
    } else {
      ListedUpToSelects(u, k - 1);
      assert cat[k - 1] == Entry(k - 1);
      ListStep(u, cat, k - 1, ListedUpTo(u, k - 1));
    }
  }

  /** One more column considered: the list grows by that column's pick. */
  lemma ListStep(u: Ticks, cols: seq<Column>, k: nat, prev: seq<string>)
    requires k < |cols| && prev == ["gene"] + NamesOf(Selected(u, cols[..k]))
    ensures prev + Pick(u, cols[k]) == ["gene"] + NamesOf(Selected(u, cols[..k + 1]))
  {
    PickNext(u, cols, k);
  }

  /** A column that is not chosen leaves the list as it was. */
  lemma Skip(u: Ticks, k: nat, e: seq<string>)
    requires k < CatalogSize && e == ListedUpTo(u, k) && !Chosen(u, Entry(k))
    ensures e == ListedUpTo(u, k + 1)
  {
  }

  // ----- what the decision table guarantees -----

  /** The position of an experiment's block in the script. */
  function Rank(e: Experiment): nat
  {
    match e
    case Ancestral => 0
    case Biomass => 1
    case Drought => 2
  }

  /** Columns of an earlier experiment block come before those of a later one. */
  predicate GroupedByExperiment(cols: seq<Column>)
  {
    forall i, j :: 0 <= i < j < |cols| ==> Rank(cols[i].experiment) <= Rank(cols[j].experiment)
  }

  /** No two columns share a name. */
  predicate NamedUniquely(cols: seq<Column>)
  {
    forall i, j :: 0 <= i < j < |cols| ==> cols[i].name != cols[j].name
  }

  /** A column is selected exactly when it is offered and chosen. */
  lemma {:induction false} SelectedMembers(u: Ticks, cols: seq<Column>)
    ensures forall c :: c in Selected(u, cols) <==> c in cols && Chosen(u, c)
    decreases |cols|
  {
    if cols != [] {
      var init := cols[..|cols| - 1];
      SelectedMembers(u, init);
      assert cols == init + [cols[|cols| - 1]];
    }
  }

  /** The names of `cols`, position by position. */
  lemma {:induction false} NamesOfIndex(cols: seq<Column>)
    ensures |NamesOf(cols)| == |cols|
    ensures forall i :: 0 <= i < |cols| ==> NamesOf(cols)[i] == cols[i].name
    decreases |cols|
  {
    if cols != [] {
      NamesOfIndex(cols[..|cols| - 1]);
    }
  }

  /** Selecting keeps the block order of the offered columns. */
  lemma {:induction false} SelectedKeepsGrouping(u: Ticks, cols: seq<Column>)
    requires GroupedByExperiment(cols)
    ensures GroupedByExperiment(Selected(u, cols))
    decreases |cols|
  {
    if cols != [] {
      var init := cols[..|cols| - 1];
      var last := cols[|cols| - 1];
      SelectedKeepsGrouping(u, init);
      if Chosen(u, last) {
        var s := Selected(u, init);
        SelectedMembers(u, init);
        forall i | 0 <= i < |s|
          ensures Rank(s[i].experiment) <= Rank(last.experiment)
        {
          assert s[i] in init;
          var j :| 0 <= j < |init| && init[j] == s[i];
          assert cols[j] == s[i];
        }
        assert Selected(u, cols) == s + [last];
      }
    }
  }

  /** Selecting keeps the names distinct. */
  lemma {:induction false} SelectedKeepsNamesDistinct(u: Ticks, cols: seq<Column>)
    requires NamedUniquely(cols)
    ensures NamedUniquely(Selected(u, cols))
    decreases |cols|
  {
    if cols != [] {
      var init := cols[..|cols| - 1];
      var last := cols[|cols| - 1];
      SelectedKeepsNamesDistinct(u, init);
      if Chosen(u, last) {
        var s := Selected(u, init);
        SelectedMembers(u, init);
        forall i | 0 <= i < |s|
          ensures s[i].name != last.name
        {
          assert s[i] in init;
          var j :| 0 <= j < |init| && init[j] == s[i];
          assert cols[j] == s[i];
        }
        assert Selected(u, cols) == s + [last];
      }
    }
  }

  /** Which block each catalogue entry belongs to. */
  lemma EntryRank(k: nat)
    requires k < CatalogSize
    ensures Rank(Entry(k).experiment) == if k < 4 then 0 else if k < 12 then 1 else 2
  {
  }

  lemma CatalogGrouped()
    ensures GroupedByExperiment(Catalog())
  {
    forall i, j | 0 <= i < j < CatalogSize
      ensures Rank(Entry(i).experiment) <= Rank(Entry(j).experiment)
    {
      EntryRank(i);
      EntryRank(j);
    }
  }

  lemma CatalogNamedUniquely()
    ensures NamedUniquely(Catalog())
    ensures forall k :: 0 <= k < CatalogSize ==> Entry(k).name != "gene"
  {
  }

  /** Every selected column is a catalogue entry. */
  lemma SelectionFromCatalog(u: Ticks, c: Column)
    requires c in Selection(u)
    ensures exists k :: 0 <= k < CatalogSize && Entry(k) == c && Chosen(u, c)
  {
    SelectedMembers(u, Catalog());
    var k :| 0 <= k < |Catalog()| && Catalog()[k] == c;
  }

  /** Catalogue column `k` is in the experiment list exactly when it is chosen. */
  lemma ListedIffChosen(u: Ticks, k: nat)
    requires k < CatalogSize
    ensures Entry(k).name in Experiments(u) <==> Chosen(u, Entry(k))
  {
    var sel := Selection(u);
    SelectedMembers(u, Catalog());
    NamesOfIndex(sel);
    CatalogNamedUniquely();
    assert Catalog()[k] == Entry(k);
    if Chosen(u, Entry(k)) {
      var i :| 0 <= i < |sel| && sel[i] == Entry(k);
      assert Experiments(u)[i + 1] == Entry(k).name;
    }
    if Entry(k).name in Experiments(u) {
      var i :| 0 <= i < |Experiments(u)| && Experiments(u)[i] == Entry(k).name;
      assert i > 0;
      assert sel[i - 1].name == Entry(k).name;
      SelectionFromCatalog(u, sel[i - 1]);
      var j :| 0 <= j < CatalogSize && Entry(j) == sel[i - 1] && Chosen(u, sel[i - 1]);
      assert Catalog()[j] == Entry(j);
    }
  }

  /** The list starts with the gene column and names no column twice. */
  lemma ExperimentsDistinct(u: Ticks)
    ensures |Experiments(u)| >= 1 && Experiments(u)[0] == "gene"
    ensures NoDuplicates(Experiments(u))
  {
    var sel := Selection(u);
    CatalogNamedUniquely();
    SelectedKeepsNamesDistinct(u, Catalog());
    SelectedMembers(u, Catalog());
    NamesOfIndex(sel);
    var e := Experiments(u);
    forall i, j | 0 <= i < j < |e|
      ensures e[i] != e[j]
    {
      if i == 0 {
        SelectionFromCatalog(u, sel[j - 1]);
      } else {
        assert e[i] == sel[i - 1].name && e[j] == sel[j - 1].name;
      }
    }
  }

  /** The ancestral columns come first, then the biomass ones, then the drought ones. */
  lemma SelectionGrouped(u: Ticks)
    ensures GroupedByExperiment(Selection(u))
  {
    CatalogGrouped();
    SelectedKeepsGrouping(u, Catalog());
  }

  /** A four-month column is only ever a first-leaf or first-internode one. */
  lemma FourMonthsOnlyEarlyTissues(u: Ticks, c: Column)
    requires c in Selection(u) && c.qualifier == Months4
    ensures c.tissue == Leaf1 || c.tissue == Internode1
  {
    SelectionFromCatalog(u, c);
  }

  /** In particular there is never a four-month column of the fifth internode. */
  lemma NoFourMonthFifthInternode(u: Ticks)
    ensures "I5_4M_Biomass" !in Experiments(u)
  {
    var sel := Selection(u);
    NamesOfIndex(sel);
    forall i | 0 <= i < |sel|
      ensures sel[i].name != "I5_4M_Biomass"
    {
      SelectionFromCatalog(u, sel[i]);
    }
  }
}
