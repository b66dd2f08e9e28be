/**
 * The experiment-column selector of pages/2_Experiment_Selection.py: the
 * page's checkboxes decide, through nested branches, which columns of the
 * expression table are kept for clustering.
 */
module ExperimentSelection {
  import opened Wrappers
  import opened Sequences
  import opened ExperimentCatalog

  /**
   * The script's checkbox variables after the widgets are drawn: `None` for a
   * checkbox the page does not draw, whose variable is then never assigned,
   * so that reading it would raise a NameError.
   */
  datatype Widgets = Widgets(
    drought: bool, ancestral: bool, biomass: bool,
    leaf1: Option<bool>, internode1: Option<bool>, internode5: Option<bool>,
    internode9: Option<bool>, root: Option<bool>,
    months4: Option<bool>, months8: Option<bool>, months12: Option<bool>,
    control: Option<bool>, treated: Option<bool>)

  function Shown(drawn: bool, ticked: bool): Option<bool>
  {
    if drawn then Some(ticked) else None
  }

  /** Which checkboxes the three columns of the page draw, and what they hold. */
  function Draw(u: Ticks): Widgets
  {
    var anyExperiment := u.ancestral || u.biomass || u.drought;
    var byInternode := anyExperiment && (u.biomass || u.ancestral);
    Widgets(
      u.drought, u.ancestral, u.biomass,
      Shown(anyExperiment, u.leaf1),
      Shown(byInternode, u.internode1),
      Shown(byInternode, u.internode5),
      Shown(anyExperiment && u.ancestral, u.internode9),
      Shown(anyExperiment && u.drought, u.root),
      Shown(u.biomass && (u.leaf1 || u.internode1), u.months4),
      Shown(u.biomass, u.months8),
      Shown(u.biomass, u.months12),
      Shown(u.drought, u.control),
      Shown(u.drought, u.treated))
  }

  /**
   * Builds the column list as the script does: three blocks of nested
   * branches, one per experiment. Every `.value` read is checked by Dafny to
   * be of a drawn checkbox: the script never reads a variable it has not
   * assigned. Each block is proved against `ListedUpTo`, which follows the
   * catalogue column by column.
   */
  method SelectExperiments(u: Ticks) returns (experiments: seq<string>)
    ensures experiments == Experiments(u)
  {
    var w := Draw(u);
    experiments := ["gene"];
    experiments := AppendAncestral(u, w, experiments);
    experiments := AppendBiomass(u, w, experiments);
    experiments := AppendDrought(u, w, experiments);
    ListedUpToSelects(u, |Catalog()|);
    assert Catalog()[..|Catalog()|] == Catalog();
  }

  /**
   * One `append` of the script: the name of catalogue column `k` is added
   * when its checkbox is ticked, which is exactly when the column is chosen.
   */
  method AppendIfTicked(u: Ticks, k: nat, ticked: bool, name: string, experiments: seq<string>)
    returns (e: seq<string>)
    requires k < CatalogSize && experiments == ListedUpTo(u, k)
    requires Entry(k).name == name && ticked == Chosen(u, Entry(k))
    ensures e == ListedUpTo(u, k + 1)
  {
    if ticked {
      e := experiments + [name];
    } else {
      e := experiments;
    }
  }

  /** The ancestral block: one column per ticked tissue. */
  method AppendAncestral(u: Ticks, w: Widgets, experiments: seq<string>) returns (e: seq<string>)
    requires w == Draw(u) && experiments == ListedUpTo(u, 0)
    ensures e == ListedUpTo(u, 4)
  {
    e := experiments;
    if w.ancestral {
      e := AppendIfTicked(u, 0, w.leaf1.value, "L1_Ancestral", e);
      e := AppendIfTicked(u, 1, w.internode1.value, "I1_Ancestral", e);
      e := AppendIfTicked(u, 2, w.internode5.value, "I5_Ancestral", e);
      e := AppendIfTicked(u, 3, w.internode9.value, "I9_Ancestral", e);
    } else {
      Skip(u, 0, e);
      Skip(u, 1, e);
      Skip(u, 2, e);
      Skip(u, 3, e);
    }
  }

  /** The biomass block: per ticked tissue, one column per ticked collection time. */
  method AppendBiomass(u: Ticks, w: Widgets, experiments: seq<string>) returns (e: seq<string>)
    requires w == Draw(u) && experiments == ListedUpTo(u, 4)
    ensures e == ListedUpTo(u, 12)
  {
    e := experiments;
    if w.biomass {
      e := AppendBiomassLeaf(u, w, e);
      e := AppendBiomassInternode1(u, w, e);
      e := AppendBiomassInternode5(u, w, e);
    } else {
      Skip(u, 4, e);
      Skip(u, 5, e);
      Skip(u, 6, e);
      Skip(u, 7, e);
      Skip(u, 8, e);
      Skip(u, 9, e);
      Skip(u, 10, e);
      Skip(u, 11, e);
    }
  }

  /** Biomass columns of the first leaf. */
  method AppendBiomassLeaf(u: Ticks, w: Widgets, experiments: seq<string>) returns (e: seq<string>)
    requires w == Draw(u) && u.biomass && experiments == ListedUpTo(u, 4)
    ensures e == ListedUpTo(u, 7)
  {
    e := experiments;
    if w.leaf1.value {
      e := AppendIfTicked(u, 4, w.months4.value, "L1_4M_Biomass", e);
      e := AppendIfTicked(u, 5, w.months8.value, "L1_8M_Biomass", e);
      e := AppendIfTicked(u, 6, w.months12.value, "L1_12M_Biomass", e);
    } else {
      Skip(u, 4, e);
      Skip(u, 5, e);
      Skip(u, 6, e);
    }
  }

  /** Biomass columns of the first internode. */
  method AppendBiomassInternode1(u: Ticks, w: Widgets, experiments: seq<string>) returns (e: seq<string>)
    requires w == Draw(u) && u.biomass && experiments == ListedUpTo(u, 7)
    ensures e == ListedUpTo(u, 10)
  {
    e := experiments;
    if w.internode1.value {
      e := AppendIfTicked(u, 7, w.months4.value, "I1_4M_Biomass", e);
      e := AppendIfTicked(u, 8, w.months8.value, "I1_8M_Biomass", e);
      e := AppendIfTicked(u, 9, w.months12.value, "I1_12M_Biomass", e);
    } else {
      Skip(u, 7, e);
      Skip(u, 8, e);
      Skip(u, 9, e);
    }
  }

  /** Biomass columns of the fifth internode. */
  method AppendBiomassInternode5(u: Ticks, w: Widgets, experiments: seq<string>) returns (e: seq<string>)
    requires w == Draw(u) && u.biomass && experiments == ListedUpTo(u, 10)
    ensures e == ListedUpTo(u, 12)
  {
    e := experiments;
    if w.internode5.value {
      e := AppendIfTicked(u, 10, w.months8.value, "I5_8M_Biomass", e);
      e := AppendIfTicked(u, 11, w.months12.value, "I5_12M_Biomass", e);
    } else {
      Skip(u, 10, e);
      Skip(u, 11, e);
    }
  }

  /** The drought block: per ticked tissue, one column per ticked condition. */
  method AppendDrought(u: Ticks, w: Widgets, experiments: seq<string>) returns (e: seq<string>)
    requires w == Draw(u) && experiments == ListedUpTo(u, 12)
    ensures e == ListedUpTo(u, 16)
  {
    e := experiments;
    if w.drought {
      e := AppendDroughtLeaf(u, w, e);
      e := AppendDroughtRoot(u, w, e);
    } else {
      Skip(u, 12, e);
      Skip(u, 13, e);
      Skip(u, 14, e);
      Skip(u, 15, e);
    }
  }

  /** Drought columns of the first leaf. */
  method AppendDroughtLeaf(u: Ticks, w: Widgets, experiments: seq<string>) returns (e: seq<string>)
    requires w == Draw(u) && u.drought && experiments == ListedUpTo(u, 12)
    ensures e == ListedUpTo(u, 14)
  {
    e := experiments;
    if w.leaf1.value {
      e := AppendIfTicked(u, 12, w.control.value, "L1_Drought_control", e);
      e := AppendIfTicked(u, 13, w.treated.value, "L1_Drought_treated", e);
    } else {
      Skip(u, 12, e);
      Skip(u, 13, e);
    }
  }

  /** Drought columns of the root. */
  method AppendDroughtRoot(u: Ticks, w: Widgets, experiments: seq<string>) returns (e: seq<string>)
    requires w == Draw(u) && u.drought && experiments == ListedUpTo(u, 14)
    ensures e == ListedUpTo(u, 16)
  {
    e := experiments;
    if w.root.value {
      e := AppendIfTicked(u, 14, w.control.value, "RT_Drought_control", e);
      e := AppendIfTicked(u, 15, w.treated.value, "RT_Drought_treated", e);
    } else {
      Skip(u, 14, e);
      Skip(u, 15, e);
    }
  }

  // ----- the emptiness check after the branches -----

  /** What the page does with the list: report that nothing was selected, or show those columns. */
  datatype Outcome = NothingSelected | ShowColumns(columns: seq<string>)

  /** The check as the script writes it: the error is reported only for an empty list. */
  function OutcomeAsWritten(experiments: seq<string>): Outcome
  {
    if experiments == [] then NothingSelected else ShowColumns(experiments)
  }

  /** The check as evidently intended: the error is reported when no expression column was added. */
  function SelectionOutcome(experiments: seq<string>): Outcome
  {
    if |experiments| <= 1 then NothingSelected else ShowColumns(experiments)
  }

  /** Nothing ticked at all. */
  const NoTicks := Ticks(false, false, false, false, false, false, false, false, false, false, false, false, false)

  /** The list always holds the gene column, so the script's error is never reported. */
  lemma CheckAsWrittenNeverReports(u: Ticks)
    ensures OutcomeAsWritten(Experiments(u)) == ShowColumns(Experiments(u))
  {
  }

  /** With nothing ticked, the script goes on to a table of the gene column alone. */
  lemma NothingTickedShowsGeneColumnOnly()
    ensures Experiments(NoTicks) == ["gene"]
    ensures OutcomeAsWritten(Experiments(NoTicks)) == ShowColumns(["gene"])
  {
    var sel := Selection(NoTicks);
    if sel != [] {
      SelectionFromCatalog(NoTicks, sel[0]);
    }
    assert sel == [];
  }

  /** The intended check reports the error exactly when no catalogue column is chosen. */
  lemma IntendedCheckReportsIffNothingChosen(u: Ticks)
    ensures SelectionOutcome(Experiments(u)).NothingSelected? <==>
      forall k :: 0 <= k < CatalogSize ==> !Chosen(u, Entry(k))
  {
    var sel := Selection(u);
    NamesOfIndex(sel);
    SelectedMembers(u, Catalog());
    if sel != [] {
      SelectionFromCatalog(u, sel[0]);
    }
    forall k | 0 <= k < CatalogSize && Chosen(u, Entry(k))
      ensures sel != []
    {
      assert Catalog()[k] == Entry(k);
      assert Entry(k) in sel;
    }
  }
}
