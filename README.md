# Sugarcane TFBS explorer: experiment selection, Newick export and table alignment

This project models the computational core of a Streamlit application for
looking at transcription-factor binding sites in the promoters of sugarcane
genes, and proves properties of the model.

- **Experiment selection** (`pages/2_Experiment_Selection.py`). The page
  draws checkboxes for the experiment (ancestral, biomass, drought), the
  tissue, and the collection time or drought condition. Which boxes appear
  depends on what is already ticked. From the ticks it builds the list of
  expression columns, starting with `gene`. `ExperimentCatalog` states that
  decision table as a sixteen-column catalogue. `ExperimentSelection` models
  the script's own chain of `if`s, the conditional drawing and the
  emptiness check.
- **Newick export** (same page). The complete-linkage tree of the
  expression rows is written as Newick text by the recursive `getNewick`,
  which threads an accumulator of text still to be appended.
  - `LinkageTree` is the binary tree SciPy's `to_tree` returns.
  - `Newick` models `getNewick` and `write2newick`, and gives a direct
    clade-by-clade reading.
  - `NewickParser` reads the text back and proves what a reader of the file
    gets.
  - `Decimal` is the `%.2f` formatting of distances, held as integer
    hundredths.
- **Visualisation** (`pages/4_Visualisation.py`).
  - `MotifPlotting` is the first loop of `motifdf4plotting`: a marker at the
    negated midpoint of each motif hit, and the set of motif identifiers.
  - `Alignment` is `reorder_df_by_list`. It restricts the length, motif and
    optional de-novo tables to the dendrogram's leaf order and gives every
    gene its position (`seq_id`). It reindexes the expression table, then
    reverses it with a descending sort on `seq_id`.
  - `Pipeline` connects both pages. The heatmap rows follow the leaves of
    the Newick text.

Tables are sequences of rows keyed by a gene name. A pandas row filled with
NaN by `reindex` is `Option.None`. `reindex` hands back a copy when the
table's index already equals the list, and otherwise raises on an index with
a repeated gene; the model returns `Result.Failure` for that case.

## Model

| member | source | states |
|---|---|---|
| Newick.GetNewick | pages/2_Experiment_Selection.py:23-34 | no contract of its own: the recursive accumulator port, specified by AccumulatorPrependsClade and WriteIsNewickText |
| Newick.Write2Newick | pages/2_Experiment_Selection.py:16-21 | no contract of its own: `getNewick` started with an empty suffix and the root's distance, specified by WriteIsNewickText, RootIsClosedBySemicolon and ReadBackTree |
| Newick.AccumulatorPrependsClade | pages/2_Experiment_Selection.py:23-34 | with text already accumulated, `getNewick` puts the clade of the node (children right first, each with its branch length `parentdist - node.dist`) in front of that text |
| Newick.WriteIsNewickText | pages/2_Experiment_Selection.py:16-34 | `write2newick` on a merge tree gives `(`, the right clade, `,`, the left clade and `);`, the direct reading of the tree |
| Newick.RootIsClosedBySemicolon | pages/2_Experiment_Selection.py:26-30 | the text for a tree with a merge ends in `);`, the root closing without a branch length |
| Newick.BracketsMatchMerges | pages/2_Experiment_Selection.py:23-34 | with labels free of Newick punctuation, the text has exactly as many `(`, `)` and `,` as the tree has merges |
| NewickParser.CladeRoundTrip | pages/2_Experiment_Selection.py:23-34 | with names free of Newick punctuation, parsing the text of any clade followed by nothing, or by text that starts with a Newick punctuation character, gives back that clade's shape (labels, branch lengths) and that rest |
| NewickParser.ReadBackTree | pages/2_Experiment_Selection.py:16-21 | parsing the exported text of a tree with a merge succeeds and gives back the tree's shape with its leaf names and branch lengths |
| NewickParser.LeafRootIsUnterminated | pages/2_Experiment_Selection.py:24-25 | a tree of a single leaf is written without a closing `;`, so the text does not read back as a tree |
| NewickParser.ShapeListsRightFirst | pages/2_Experiment_Selection.py:31-32 | the leaves of the written clade appear in the reverse of the left-first leaf order |
| NewickParser.NewickListsLeavesReversed | pages/2_Experiment_Selection.py:16-34 | the leaf names in the exported text are the dendrogram's labels reversed |
| NewickParser.NewickNamesEachLeafOnce | pages/2_Experiment_Selection.py:16-34 | with distinct leaves and names, the exported text names every leaf exactly once |
| NewickParser.ShapeLengthsNonNegative | pages/2_Experiment_Selection.py:25-28 | when merge heights never decrease towards the root, every branch length in a written clade is non-negative |
| NewickParser.BranchLengthsNonNegative | pages/2_Experiment_Selection.py:20-28 | every branch length of the exported text is non-negative for a monotone linkage tree |
| NewickParser.ShapeLeavesAtParentDistance | pages/2_Experiment_Selection.py:25-28 | in a written clade, the branch lengths on every path from the clade to a leaf add up to the height given for it |
| NewickParser.BranchLengthsAddUpToMergeDistance | pages/2_Experiment_Selection.py:20-28 | in the exported text, the lengths from each child of the root down to any leaf add up to the root's merge distance |
| Decimal.UnsignedText | pages/2_Experiment_Selection.py:25 | a non-negative distance is printed as digits, `.` and exactly two more digits |
| Decimal.FormatHundredths | pages/2_Experiment_Selection.py:25 | a printed distance holds only digits, `-` and `.`, so it never contains Newick punctuation |
| Decimal.FormatRoundTrip | pages/2_Experiment_Selection.py:25 | reading back a printed distance gives the same number of hundredths |
| LinkageTree.DendrogramLabels | pages/4_Visualisation.py:87 | no contract of its own: the `ivl` label list, specified by LabelsFollowLeafOrder and DendrogramLabelsDistinct |
| LinkageTree.LeavesOutnumberMerges | pages/2_Experiment_Selection.py:19 | a binary linkage tree has one merge fewer than it has leaves |
| LinkageTree.LeafOrderIsPermutation | pages/4_Visualisation.py:87 | for a tree whose leaves are distinct, the leaf order lists every leaf and only leaves, once each |
| LinkageTree.LabelsFollowLeafOrder | pages/4_Visualisation.py:87 | the dendrogram's `ivl` labels are the names of the leaves in leaf order, one per leaf |
| LinkageTree.DendrogramLabelsDistinct | pages/4_Visualisation.py:87 | with distinct leaves and distinct names, the leaf order repeats no gene |
| ExperimentCatalog.ListedUpToSelects | pages/2_Experiment_Selection.py:46-122 | appending catalogue columns one at a time in script order, keeping the chosen ones, gives `gene` followed by the chosen columns of that prefix |
| ExperimentCatalog.SelectionFromCatalog | pages/2_Experiment_Selection.py:81-122 | every column the page adds is a catalogue column whose experiment, tissue and time or condition are all ticked |
| ExperimentCatalog.ListedIffChosen | pages/2_Experiment_Selection.py:81-122 | a column is in the experiment list if and only if its experiment, its tissue and its time or condition are ticked |
| ExperimentCatalog.ExperimentsDistinct | pages/2_Experiment_Selection.py:46-122 | the list starts with `gene` and names no column twice |
| ExperimentCatalog.SelectionGrouped | pages/2_Experiment_Selection.py:81-122 | ancestral columns come before biomass ones, which come before drought ones |
| ExperimentCatalog.FourMonthsOnlyEarlyTissues | pages/2_Experiment_Selection.py:68-105 | a four-month column is only ever for leaf +1 or internode 1 |
| ExperimentCatalog.NoFourMonthFifthInternode | pages/2_Experiment_Selection.py:106-110 | `I5_4M_Biomass` is never selected |
| ExperimentSelection.Draw | pages/2_Experiment_Selection.py:48-79 | no contract of its own: which boxes are drawn and what they hold; SelectExperiments reads only drawn boxes, which Dafny checks at each `.value` |
| ExperimentSelection.SelectExperiments | pages/2_Experiment_Selection.py:46-122 | running the script's appends against the boxes it draws gives exactly the catalogue's experiment list for the ticks |
| ExperimentSelection.AppendIfTicked | pages/2_Experiment_Selection.py:82-83 | one guarded append extends the list by the next catalogue column exactly when that column is chosen |
| ExperimentSelection.AppendAncestral | pages/2_Experiment_Selection.py:81-89 | the ancestral block adds exactly the chosen catalogue columns 0 to 3 |
| ExperimentSelection.AppendBiomass | pages/2_Experiment_Selection.py:91-110 | the biomass block adds exactly the chosen catalogue columns 4 to 11 |
| ExperimentSelection.AppendBiomassLeaf | pages/2_Experiment_Selection.py:92-98 | the leaf +1 biomass block adds exactly the chosen columns 4 to 6 |
| ExperimentSelection.AppendBiomassInternode1 | pages/2_Experiment_Selection.py:99-105 | the internode 1 biomass block adds exactly the chosen columns 7 to 9 |
| ExperimentSelection.AppendBiomassInternode5 | pages/2_Experiment_Selection.py:106-110 | the internode 5 biomass block adds exactly the chosen columns 10 and 11 |
| ExperimentSelection.AppendDrought | pages/2_Experiment_Selection.py:112-122 | the drought block adds exactly the chosen catalogue columns 12 to 15 |
| ExperimentSelection.AppendDroughtLeaf | pages/2_Experiment_Selection.py:113-117 | the leaf +1 drought block adds exactly the chosen columns 12 and 13 |
| ExperimentSelection.AppendDroughtRoot | pages/2_Experiment_Selection.py:118-122 | the root drought block adds exactly the chosen columns 14 and 15 |
| ExperimentSelection.OutcomeAsWritten | pages/2_Experiment_Selection.py:124-128 | no contract of its own: the check as written, specified by CheckAsWrittenNeverReports and NothingTickedShowsGeneColumnOnly |
| ExperimentSelection.CheckAsWrittenNeverReports | pages/2_Experiment_Selection.py:124-125 | as written, the emptiness check never reports an error, whatever is ticked |
| ExperimentSelection.NothingTickedShowsGeneColumnOnly | pages/2_Experiment_Selection.py:124-128 | with nothing ticked, the list is `["gene"]` and the page goes on to show that one column |
| ExperimentSelection.IntendedCheckReportsIffNothingChosen | pages/2_Experiment_Selection.py:124-125 | the corrected check reports an error if and only if no expression column is chosen |
| MotifPlotting.Location | pages/4_Visualisation.py:21-22 | the marker is the negated midpoint, rounded down, and lies between the negated ends of the hit |
| MotifPlotting.PlaceMotifs | pages/4_Visualisation.py:14-27 | one placement per motif row, in row order, carrying gene, motif and marker; the identifier set is the set of motifs in the rows |
| Alignment.ReorderByList | pages/4_Visualisation.py:44-72 | no contract of its own: the four reordered tables or pandas' refusal, specified by RefusesIffDuplicateGenes, LengthRowsFollowList, MotifRowsFollowLengths, ExpressionRowsReversed and DenovoPresentIffGiven |
| Alignment.Reindex | pages/4_Visualisation.py:47-50 | no contract of its own: `reindex(lst)` with `seq_id` the row number, a copy when the index already equals the list; specified by ReindexShape and ReindexData |
| Alignment.Renumber | pages/4_Visualisation.py:48-50 | no contract of its own: the copy `reindex` returns when the index equals the list, specified by ReindexData |
| Alignment.Realign | pages/4_Visualisation.py:48-50 | no contract of its own: every listed gene looked up in the table, specified by ReindexData |
| Alignment.Reindexable | pages/4_Visualisation.py:48 | no contract of its own: when pandas accepts the reindex, specified by RefusesIffDuplicateGenes |
| Alignment.ReindexShape | pages/4_Visualisation.py:47-50 | one row per list entry, holding that entry, with `seq_id` its position |
| Alignment.ReindexData | pages/4_Visualisation.py:47-50 | a reindexed row holds a table row of its gene, is NaN only when the table has none, is the one such row when genes are unique, and is the table's own row when the index already equalled the list |
| Alignment.SeqIdMap | pages/4_Visualisation.py:55 | no contract of its own: the gene-to-`seq_id` dictionary, specified by SeqIdMapLastRow and SeqIdMapCoversList |
| Alignment.Tag | pages/4_Visualisation.py:55 | no contract of its own: the `.map` of genes to `seq_id` (also line 71), specified by TaggedRowsFollowTable |
| Alignment.DropSeqIds | pages/4_Visualisation.py:62-63 | no contract of its own: dropping `seq_id` and indexing by gene, specified by ExpressionRowsReversed |
| Alignment.KeepListed | pages/4_Visualisation.py:46 | `isin` keeps a row if and only if its gene is in the list |
| Alignment.KeptAtPositions | pages/4_Visualisation.py:54 | the kept rows are the table's rows at the kept positions |
| Alignment.KeptPositionsInOrder | pages/4_Visualisation.py:54 | the kept positions are strictly increasing and include every listed row |
| Alignment.FilterKeepsOrder | pages/4_Visualisation.py:54 | the filter keeps exactly the listed rows, in their original order |
| Alignment.Lookup | pages/4_Visualisation.py:48 | a gene's value is found if and only if some row has that gene, and is the value of such a row |
| Alignment.LookupFindsRow | pages/4_Visualisation.py:47-48 | in a table without repeated genes, looking up a row's gene gives that row's value |
| Alignment.SeqIdMapLastRow | pages/4_Visualisation.py:55 | the gene-to-`seq_id` dictionary has a key for exactly the genes present, mapping each to its last row's `seq_id` |
| Alignment.SeqIdMapCoversList | pages/4_Visualisation.py:47-55 | after `reindex`, every gene of the list has a `seq_id` below the list's length, at a position holding that gene |
| Alignment.ReversalSortsDescending | pages/4_Visualisation.py:59-61 | reversing the renumbered table sorts it strictly descending by `seq_id` and keeps its rows |
| Alignment.DescendingSortIsReversal | pages/4_Visualisation.py:61 | the only strictly descending arrangement of those rows is the reversal, so `sort_values` is that reversal |
| Alignment.RefusesIffDuplicateGenes | pages/4_Visualisation.py:47-58 | the reorder fails if and only if the kept length rows, or the expression table, repeat a gene and are not already in the list's order; the length table is refused first |
| Alignment.DistinctListRefusesIffDuplicateGenes | pages/4_Visualisation.py:47-58 | for a list without repeats, such as the leaf order, the reorder fails if and only if either table repeats a gene |
| Alignment.LengthRowsFollowList | pages/4_Visualisation.py:46-51 | one length row per list entry, in list order, with `seq_id` its position; its value is from a row of that gene, NaN only when there is none, the one such row for unique genes, and the table's own row when it was already in list order |
| Alignment.TaggedRowsFollowTable | pages/4_Visualisation.py:54-55 | the tagged rows are the table's listed rows in order, each carrying its gene's `seq_id` |
| Alignment.MotifRowsFollowLengths | pages/4_Visualisation.py:54-55 | each motif row's `seq_id` points at a length row of its own gene, the last one for a repeated gene |
| Alignment.ExpressionRowsReversed | pages/4_Visualisation.py:58-63 | the expression rows follow the list reversed; each value is from a row of that gene, NaN only when there is none, the one such row for unique genes, and the table's rows reversed when it was already in list order |
| Alignment.SeqIdsAgreeAcrossTables | pages/4_Visualisation.py:50-63 | a motif row's `seq_id` names the same gene in the length table and, counted from the bottom, in the expression table |
| Alignment.SeqIdIsThePosition | pages/4_Visualisation.py:55 | for a list without repeats, a motif row's `seq_id` is its gene's position in the list |
| Alignment.DenovoPresentIffGiven | pages/4_Visualisation.py:66-72 | a de-novo table is returned if and only if one was passed, and then its listed rows, in order, are tagged like the motif table: each `seq_id` names a length row of its gene, the last one for a repeated gene |
| Pipeline.HeatmapRowsFollowNewickText | pages/4_Visualisation.py:86-90 | the expression rows, top to bottom, are the leaf names of the exported Newick text, in text order |
| Pipeline.ClusteredRowsAllPresent | pages/4_Visualisation.py:86-90 | when the tree clusters the expression table's own genes, no expression row is NaN |
| Pipeline.MotifTagIsLeafPosition | pages/4_Visualisation.py:87-90 | with distinct leaves and genes, a motif row's `seq_id` is its gene's position in the dendrogram's leaf order |

## Left out

- Clustering (`linkage`, `pdist`), `to_tree` and the internals of `dendrogram` belong to SciPy, outside this model. The tree is an input. The leaf order `ivl` is taken to be the left-first leaf order of the same tree, which is what `dendrogram` returns with its default `count_sort=False` and `distance_sort=False`: each merge lists its left child's leaves before its right child's, whatever the orientation.
- Distances are floats in the source. The model holds them as integer hundredths, so Python's rounding of a float to two decimals is not modelled. Neither are distances that are not whole hundredths.
- NewickParser.BranchLengthsNonNegative: assumes merge heights never decrease towards the root, which complete linkage guarantees. The model does not prove that about `linkage`.
- MotifPlotting.PlaceMotifs: hit coordinates are integers, so the `int()` conversion of pages/4_Visualisation.py lines 19-20 is not modelled. The identifier tuple of pages/4_Visualisation.py line 27 is modelled as a set, since its order comes from Python's set iteration.
- The second loop of `motifdf4plotting` and its SQL lookup of `tair_association` (pages/4_Visualisation.py lines 28-36) are left out. They need the database.
- All I/O is left out: the SQL queries, `st.session_state`, the CSV download and every plot. Checkbox states are a parameter (`Ticks`). Only the drawing rule for the boxes is modelled.
- pandas' chained-assignment warning on the `seq_id` columns is left out. It does not change the values.
- Newick.GetNewick: Python's recursion limit is not modelled. `getNewick` recurses once per tree level, so on a tree deeper than about 1000 levels it raises `RecursionError`; the Dafny function has no depth limit.
- `pages/3_Architecture_Report.py` and `TFBS_Analysis_Home.py` are not part of this model.
- The model follows the code, including where its behaviour may surprise:
  - `getNewick` writes the right child before the left one.
  - `reindex` fills a missing gene with NaN rather than dropping it.
  - A motif row for a gene that is in the leaf order but not in the length table still gets a `seq_id`, because the reindexed length table has a row for every listed gene.
  - For a gene repeated in the list, the dictionary keeps its last position.
  - A table whose genes repeat is still accepted when its genes already equal the list, because `reindex` then returns a copy.

## Findings

| source | as written | input that shows it | evidently intended | confidence | as-written member | corrected member |
|---|---|---|---|---|---|---|
| pages/2_Experiment_Selection.py:124-125 | `if not experiments` tests a list that always holds `gene` | no box ticked: the list is `["gene"]`, no error is shown and a table of the gene column alone is stored | report "Please select at least one experiment" when no expression column is chosen | high; not executed | ExperimentSelection.NothingTickedShowsGeneColumnOnly | ExperimentSelection.IntendedCheckReportsIffNothingChosen |
