# Bipartition analysis of phyx, modelled in Dafny

This project models the core of phyx's bipartition tool (`pxbp`). The tool
reads a forest of trees and works in these phases:

1. It indexes every taxon name.
2. It registers every bipartition (clade and other side) that an internal node induces. This is done node-wise, or edgewise with both sides of an edge treated as one entry.
3. It builds the presence matrix (tree × bipartition), the set of trees with distinct rows, and the logical matrix (bipartition × taxon).
4. For every bipartition that some but not all trees have, it computes the internode certainty (ICA), and it adds up the tree certainty (TSCA).
5. It labels a map tree with the frequency of each of its clades.

The project also models the `BranchSegment` class of phyx's biogeography
code. That class records a segment's duration, period, rate model, start
state and fossil areas.

Modules, one per phase:

- `Clades`: sorted id sequences and the `std::` algorithms the code relies on: sort, find, count and set difference.
- `Forest`: trees as plain data.
- `Taxa`: the taxon index.
- `Bipartitions`: the registry. `BipartRegistry` is a class whose four vectors are updated in place, and it is specified by the functions `NodeStep` … `ForestRegistered`.
- `Presence`: the matrices and unique rows.
- `Certainty`: the conflict analysis.
- `MapTree`: the map-tree labels.
- `Segments`: the branch segment.

Some external helpers are parameters of the model:

- the support-value parse (`strtod`);
- the logical conflict test (`test_logical`);
- the logarithm (`logn`).

Doubles are modelled as reals.

The id of a name is its position among the external nodes of the tree in
which the name is first seen. This follows `src/main_bp.cpp:256-265`. Names
first seen in different trees can therefore share an id; see
`Taxa.NewNameTakesLocalPosition`. The model follows the code here, not
the reading in which each name's id is its position in the name list.

An id lookup for a name that is not in the index yields 0, which is what
`std::map::operator[]` does.

## Model

| member | source | states |
|---|---|---|
| Clades.Sort | src/main_bp.cpp:318 | the sorted id list is sorted and a permutation of the ids |
| Clades.SortedUnique | src/main_bp.cpp:318-329 | two sorted lists with the same multiset are equal, so a sorted id list identifies a clade |
| Clades.Find | src/main_bp.cpp:341 | std::find: the first position holding x, or the length when x is absent |
| Clades.CountOfDistinct | src/main_bp.cpp:367-377 | in a list without repeats std::count is 1 for a member and 0 otherwise |
| Clades.Dedup | src/main_bp.cpp:313-314 | copying names into a std::set keeps each distinct name once |
| Clades.Minus | src/main_bp.cpp:323-325 | set difference holds exactly the names of the first list that are not in the second |
| Clades.MinusShorter | src/main_bp.cpp:286-288 | the difference is never longer than the first list |
| Clades.IdOf | src/main_bp.cpp:314-317 | a name's id in the taxon index, and 0 for a name the index lacks, as `map::operator[]` inserts a zero |
| Clades.Clade | src/main_bp.cpp:312-318 | a node's clade is sorted and has one id per leaf name |
| Clades.Complement | src/main_bp.cpp:320-329 | the other side is sorted |
| Clades.CladeAndComplementCoverTree | src/main_bp.cpp:312-329 | the clade and the other side together hold every id of the tree's leaves exactly once, and the other side has the remaining number of taxa |
| Taxa.IndexOf | src/main_bp.cpp:256-265 | the name list has no repeats, holds exactly the names sighted, and each listed name has an id |
| Taxa.IdIsFirstSighting | src/main_bp.cpp:259-261 | a name's id is the external-node position of its first sighting |
| Taxa.FirstTreeGivesPositions | src/main_bp.cpp:256-262 | every name of the first tree gets its position in that tree as id |
| Taxa.SharedTaxaGiveDistinctIds | src/main_bp.cpp:256-262 | when no tree has a name the first tree lacks, distinct names get distinct ids |
| Taxa.NewNameTakesLocalPosition | src/main_bp.cpp:257-261 | a name first seen in a later tree takes its local position, which can collide with an earlier name's id |
| Taxa.IndexNames | src/main_bp.cpp:256-265 | the double loop over trees and external nodes builds exactly the index IndexOf describes |
| Bipartitions.Append | src/main_bp.cpp:335-338 | a new entry is added at the end with its clade, other side, missing ids and count 1, and nothing else changes |
| Bipartitions.Bump | src/main_bp.cpp:342 | one more count for one entry, and nothing else changes |
| Bipartitions.NodewiseIndex | src/main_bp.cpp:339-342 | the matched entry is the clade's own entry, or else the entry whose other side matched |
| Bipartitions.NodewiseAdded | src/main_bp.cpp:331-343 | node-wise registration keeps the registry well formed (no repeated clade, counts at least 1) and keeps every earlier entry in place |
| Bipartitions.NodewiseAddsOneCount | src/main_bp.cpp:331-343 | one node-wise registration adds exactly one count; it adds an entry iff neither the clade nor the other side was registered, and that entry is the bipartition given, counted once |
| Bipartitions.NodewiseNextNodeCounts | src/main_bp.cpp:331-358 | node-wise, one more node adds one count, or two when it also registers the mirror of an unrooted tree's root child, or none when skipped |
| Bipartitions.NodewiseNodesCount | src/main_bp.cpp:294-390 | node-wise, registering a tree adds exactly as many counts as it has registrations |
| Bipartitions.NodewiseForestCounts | src/main_bp.cpp:272-391 | node-wise, the total count is the number of registrations over the forest, and there are never more entries than registrations |
| Bipartitions.EntriesBoundedByCounts | src/main_bp.cpp:335-342 | there are never more entries than counts in total |
| Bipartitions.EdgewiseAddedAtMostOneCount | src/main_bp.cpp:366-386 | one edgewise registration adds one count or none in total |
| Bipartitions.EdgewiseNextNodeCounts | src/main_bp.cpp:293-389 | edgewise, one node adds no more counts than its registrations: one when neither is it skipped nor has a side under two taxa, none otherwise |
| Bipartitions.EdgewiseNodesCount | src/main_bp.cpp:293-389 | edgewise, registering a tree adds no more counts than the edges it registers |
| Bipartitions.EdgewiseForestCounts | src/main_bp.cpp:272-391 | edgewise, there are no more entries than counts in total, and no more counts than edges registered over the forest |
| Bipartitions.NodewiseIndexOverruns | src/main_bp.cpp:339-342 | as written, a bipartition matched only by its other side increments the position one past the last entry |
| Bipartitions.NodewiseIndexAsWritten | src/main_bp.cpp:339-342 | the position the code as written increments: the clade's own entry when the clade is registered, else one past the last entry |
| Bipartitions.CoherentLookupAgrees | src/main_bp.cpp:339-342 | when every entry splits the same taxa, the as-written lookup finds the matched entry |
| Bipartitions.SameTaxaForestCoherent | src/main_bp.cpp:272-358 | when all trees hold the same taxa, every entry splits those taxa, so the as-written node-wise lookup never overruns |
| Bipartitions.NodesRegisteredCoherent | src/main_bp.cpp:312-358 | registering a tree's nodes keeps every entry a split of that tree's ids |
| Bipartitions.EdgewiseIndex | src/main_bp.cpp:374-381 | an edge already seen belongs to the entry whose clade is one of its two sides |
| Bipartitions.EitherOrientationSameEntry | src/main_bp.cpp:367-381 | in a registry where no entry's other side is another entry's clade, both orientations of entry e's edge lead back to e |
| Bipartitions.EdgewiseAddedKeepsFresh | src/main_bp.cpp:367-387 | an edgewise step never adds an entry whose other side is the clade of an earlier entry, so every entry's other side stays apart from the clades before it |
| Bipartitions.EdgewiseStepKeepsFresh | src/main_bp.cpp:294-389 | one edgewise node keeps every entry's other side apart from the clades before it |
| Bipartitions.EdgewiseNodesKeepFresh | src/main_bp.cpp:293-389 | registering any number of a tree's nodes edgewise keeps every entry's other side apart from the clades before it |
| Bipartitions.EdgewiseForestKeepsFresh | src/main_bp.cpp:272-391 | over any forest, edgewise registration keeps every entry's other side apart from the clades before it |
| Bipartitions.FreshSidesApart | src/main_bp.cpp:367-381 | when every entry splits the same taxa and no other side is an earlier clade, no entry's other side is any other entry's clade |
| Bipartitions.NodesRegisteredPreserve | src/main_bp.cpp:294-390 | a property of the registration state that every node step preserves holds after any number of a tree's nodes |
| Bipartitions.NodesRegisteredKeep | src/main_bp.cpp:294-390 | a property of both orientations of every registered node's bipartition holds of every entry the tree adds, and keeps holding of the entries that had it |
| Bipartitions.EdgewiseForestOrientations | src/main_bp.cpp:367-381 | edgewise, over trees holding the same taxa, both orientations of every registered edge lead to the same entry |
| Bipartitions.EdgewiseAdded | src/main_bp.cpp:367-387 | edgewise registration keeps the registry well formed and every entry listed as counted for this tree in range |
| Bipartitions.NotIncluded | src/main_bp.cpp:282-292 | the ids of the forest's names that the tree lacks, in the order of the name list (contents in NotIncludedAreMissing) |
| Bipartitions.NotIncludedAsWritten | src/main_bp.cpp:282-292 | where the buffer is large enough, the missing ids are the ids of the forest's names that the tree lacks |
| Bipartitions.NotIncludedAreMissing | src/main_bp.cpp:282-292 | the missing ids are the ids of exactly the names the tree lacks, and there are never more of them than names |
| Bipartitions.TreeAndMissingCoverNames | src/main_bp.cpp:279-292 | with distinct names and a tree drawn from them, the tree's ids and the ids of the names it lacks make up the ids of all names, each once |
| Bipartitions.NodeCoversNames | src/main_bp.cpp:279-329 | one node's clade, its other side and the tree's missing ids make up the ids of all names |
| Bipartitions.NodewiseAddedCovers | src/main_bp.cpp:331-358 | a node-wise registration keeps every entry's clade, other side and missing ids a three-way split of the given ids |
| Bipartitions.EdgewiseAddedCovers | src/main_bp.cpp:366-386 | an edgewise registration keeps every entry's clade, other side and missing ids a three-way split of the given ids |
| Bipartitions.NodeStepCovers | src/main_bp.cpp:294-389 | one node's registration keeps every entry a three-way split of the given ids |
| Bipartitions.NodesRegisteredCover | src/main_bp.cpp:293-390 | registering a tree's nodes keeps every entry, with its missing ids, a split of the ids of all names |
| Bipartitions.ForestRegisteredCovers | src/main_bp.cpp:272-391 | with distinct names and trees drawn from them, every entry's clade, other side and missing ids together make up the ids of all names, as a multiset since ids can collide |
| Bipartitions.NotIncludedOverflows | src/main_bp.cpp:283-288 | five names and a tree holding two of them: the difference overruns the buffer |
| Bipartitions.MissingOverflow | src/main_bp.cpp:283-288 | with distinct names, the buffer overflows whenever more than half of the names are missing from the tree |
| Bipartitions.NodeStep | src/main_bp.cpp:294-389 | registering one node keeps the registry well formed and extends it |
| Bipartitions.Skipped | src/main_bp.cpp:296-310 | a node is not registered when it spans all the tree's leaves (the root) or, with a cutoff set, when its label is below the cutoff |
| Forest.BelowCutoff | src/main_bp.cpp:300-310 | with a cutoff set, an edge whose label is empty or reads, as `strtod` does, below the cutoff value |
| Bipartitions.NodesRegistered | src/main_bp.cpp:294-390 | registering a tree's first k nodes keeps the registry well formed and extends it |
| Bipartitions.TreeRegistered | src/main_bp.cpp:272-391 | registering a tree keeps the registry well formed and extends it |
| Bipartitions.ForestRegistered | src/main_bp.cpp:272-391 | registering the forest keeps the registry well formed and extends it |
| Bipartitions.NewEntriesAreProperSplits | src/main_bp.cpp:296-366 | every entry a tree adds is a proper split of its leaves, so never the root; edgewise, both sides have at least two taxa |
| Bipartitions.SkippedNodesChangeNothing | src/main_bp.cpp:296-310 | a tree whose nodes are all the root or below the cutoff leaves the registry unchanged |
| Bipartitions.EdgewiseAddedCountedOnce | src/main_bp.cpp:367-387 | an edgewise step adds a count to an entry only when it first lists that entry as counted for the tree |
| Bipartitions.EdgewiseNodesCountedOnce | src/main_bp.cpp:293-387 | during one tree, each entry has gained exactly one count iff it is listed as counted for the tree |
| Bipartitions.EdgewiseAtMostOncePerTree | src/main_bp.cpp:293-387 | edgewise, a tree adds at most one count to any entry, and the entries it adds have count 1 |
| Bipartitions.EdgewiseCountsBoundedByTrees | src/main_bp.cpp:272-387 | edgewise, no entry is counted more often than there are trees |
| Bipartitions.BipartRegistry.constructor | src/main_bp.cpp:268-271 | the four vectors start empty |
| Bipartitions.BipartRegistry.AddNodewise | src/main_bp.cpp:331-343 | the vectors become NodewiseAdded of their old contents |
| Bipartitions.BipartRegistry.AddEdgewise | src/main_bp.cpp:367-387 | the vectors and the per-tree list of counted entries become EdgewiseAdded of the old ones |
| Bipartitions.BipartRegistry.RegisterNode | src/main_bp.cpp:294-389 | one node's registration equals NodeStep, including the mirror registration for unrooted trees |
| Bipartitions.BipartRegistry.RegisterTree | src/main_bp.cpp:279-390 | the loop over the internal nodes gives TreeRegistered |
| Bipartitions.BipartRegistry.RegisterForest | src/main_bp.cpp:272-391 | the loop over the trees gives ForestRegistered |
| Presence.ColumnOf | src/main_bp.cpp:428-443 | the column of a node's clade: node-wise the clade's entry; edgewise the clade's entry when it is listed once, else the entry whose other side it is |
| Presence.ColumnOfFinds | src/main_bp.cpp:434-443 | node-wise the column holds the clade, or is the root column for an unregistered clade; edgewise a clade listed once gets its own entry, otherwise the entry whose other side it is, if any |
| Presence.MirrorColumnOf | src/main_bp.cpp:445-469 | the column of the other orientation at the root of an unrooted tree: the entry of the other side, falling back to the clade's entry when that lookup equals the row length (never node-wise, by NodewiseMirrorNeverFallsBack) |
| Presence.NodewiseColumnsInRange | src/main_bp.cpp:398-443 | node-wise, every column marked lies inside the row; a missing clade lands in the root column |
| Presence.NodewiseMirrorNeverFallsBack | src/main_bp.cpp:465-468 | node-wise, the mirror lookup never takes its fallback, and an unregistered other side marks the root column |
| Presence.EdgewiseLookupCanMiss | src/main_bp.cpp:399-444 | edgewise, with no entry registered, every marked edge is looked up one past the end of the row |
| Presence.MarkedOne | src/main_bp.cpp:444 | marking a column sets it if it is inside the row, and otherwise changes nothing |
| Presence.RowStep | src/main_bp.cpp:410-470 | the row after k+1 nodes is the row after k nodes with the (k+1)-th node's columns set |
| Presence.MarkNode | src/main_bp.cpp:410-470 | one node sets exactly its clade's column and, for an edge at the root of an unrooted tree, the other orientation's column; a column outside the row is left unwritten |
| Presence.BuildRow | src/main_bp.cpp:402-471 | a tree's row is 1 exactly in the columns one of its internal nodes marks |
| Presence.Row | src/main_bp.cpp:402-471 | the row of tree t after all its internal nodes, as wide as the matrix |
| Presence.Matrix | src/main_bp.cpp:398-403 | one row per tree, each row as wide as the bipartition list plus the root column (node-wise) |
| Presence.BuildMatrix | src/main_bp.cpp:403-472 | the loop over the trees builds Matrix |
| Presence.RegisteredCladeIsMarked | src/main_bp.cpp:442-444 | node-wise, a node whose clade is registered marks that entry in its tree's row |
| Presence.RowsAreBinary | src/main_bp.cpp:402-469 | every row holds only zeros and ones |
| Presence.ColumnSumCounts | src/main_bp.cpp:515-516 | a column sum lies between 0 and the number of trees; it equals the number of trees iff every tree has the entry, and 0 iff none does |
| Presence.UniqueRows | src/main_bp.cpp:476-488 | the listed trees increase, each is the first with its row, and every tree's row is the row of a listed tree |
| Presence.LogicalRow | src/main_bp.cpp:494-500 | a column is 1 iff the clade holds that name's id, and 0 otherwise |
| Presence.BuildLogical | src/main_bp.cpp:494-503 | one logical row per entry, equal to LogicalRow of its clade |
| Presence.LogicalRowsDetermineClades | src/main_bp.cpp:494-503 | over ids of names, equal logical rows mean the clades hold the same ids (as sets: colliding ids may repeat in a clade) |
| Presence.LogicalRowsDetermineDistinctClades | src/main_bp.cpp:494-503 | of sorted clades without repeated ids, over ids of names, equal logical rows mean equal clades |
| Certainty.Conflicts | src/main_bp.cpp:535-545 | the conflicts found among the first k entries are below k |
| Certainty.ConflictsAreExactly | src/main_bp.cpp:535-545 | an entry is collected iff it conflicts (another entry, in some but not all trees, flagged by the logical test); each is collected once, in increasing order |
| Certainty.ConflictCounts | src/main_bp.cpp:529-545 | the counts start with the entry's own count |
| Certainty.CountsOf | src/main_bp.cpp:544-545 | each collected count is the count of the corresponding conflicting entry |
| Certainty.SignOf | src/main_bp.cpp:561-567 | -1 when some later count exceeds the first, else 1 (the same as comparing the proportions, since the total is positive) |
| Certainty.Proportions | src/main_bp.cpp:562-563 | each count divided by the total, one proportion per count |
| Certainty.SignRule | src/main_bp.cpp:561-567 | the sign is -1 iff some conflicting entry was counted more often than the entry itself |
| Certainty.ProportionsSumToOne | src/main_bp.cpp:561-564 | the proportions add up to 1 |
| Certainty.FreqOneIffNoConflicts | src/main_bp.cpp:561-574 | the reported frequency is 1 iff the entry has no conflicts |
| Certainty.OwnShareIsOneIffAlone | src/main_bp.cpp:563-564 | the first proportion is 1 iff the other counts are zero |
| Certainty.UniversalNeverConflicts | src/main_bp.cpp:536-537 | an entry every tree has is never a conflict |
| Certainty.ConflictIsMutual | src/main_bp.cpp:535-539 | with a symmetric logical test, conflict between two contested entries is mutual |
| Certainty.CollectConflicts | src/main_bp.cpp:529-559 | the loop collects exactly ConflictCounts, and the total is their sum |
| Certainty.ConsiderEntry | src/main_bp.cpp:535-558 | one step of that loop extends the counts by entry j's count exactly when j conflicts |
| Certainty.Normalize | src/main_bp.cpp:561-567 | the in-place division yields the proportions, and the sign is SignOf of the counts, even though each comparison reads the first proportion after it has been divided |
| Certainty.UnsignedIca | src/main_bp.cpp:568-571 | ICA before the sign: 1 plus the sum of p·logn(p, n) over the proportions, n being their number |
| Certainty.UnsignedIcaOf | src/main_bp.cpp:568-571 | ICA before the sign is 1 plus the sum of p·logn(p, n) over the proportions |
| Certainty.EntryReport | src/main_bp.cpp:509-608 | the report for one entry: not shown with the first-tree option when the first tree lacks it, conflicted (counts, total, frequency, sign, unsigned ICA) when contested, universal when every tree has it |
| Certainty.AnalyzeEntry | src/main_bp.cpp:509-608 | one entry's report: hidden by the first-tree option, analysed when contested, universal when every tree has it |
| Certainty.AddContribution | src/main_bp.cpp:572-598 | TSCA grows by the unsigned ICA of a conflicted entry, by 1 for a universal one, and by nothing otherwise |
| Certainty.Tsca | src/main_bp.cpp:572-598 | the sum over the reports of 1 per universal entry and the unsigned ICA per conflicted one |
| Certainty.Analyze | src/main_bp.cpp:505-610 | one report per entry, each EntryReport, and TSCA is the sum of their contributions |
| Certainty.TscaAppend | src/main_bp.cpp:572-598 | TSCA over one more report adds that report's contribution |
| Certainty.UnsignedIcaAtMostOne | src/main_bp.cpp:568-571 | with a logarithm for which no term p·logn(p, n) is positive, the unsigned ICA is at most 1 |
| Certainty.PipelineTablesValid | src/main_bp.cpp:272-503 | the counts, presence matrix and logical matrix built from the trees always meet what the analysis needs |
| Certainty.AllUniversalTsca | src/main_bp.cpp:584-598 | when every entry is universal, TSCA is the number of entries |
| Certainty.TscaAtLeastUniversal | src/main_bp.cpp:505-610 | when no unsigned ICA is negative, TSCA is at least the number of universal entries |
| MapTree.MapValueAsWritten | src/main_bp.cpp:627-645 | the value the code as written reads: the matched entry's count over the number of trees, or None for the read past the end of the counts |
| MapTree.MapLabel | src/main_bp.cpp:617-645 | the intended label: none for the root, the matched entry's count over the number of trees, 0 when no entry matches |
| MapTree.OnlyRootUnlabelled | src/main_bp.cpp:617-620 | a map-tree node gets no label iff it is the root |
| MapTree.LabelsAreFrequencies | src/main_bp.cpp:627-645 | when no count exceeds the number of trees, every label lies between 0 and 1 |
| MapTree.LabelPositiveIffRegistered | src/main_bp.cpp:627-645 | a label is positive iff the clade is registered, or, edgewise, is the other side of a registered edge |
| MapTree.AsWrittenAgreesInRange | src/main_bp.cpp:627-645 | wherever the as-written read is in range, it gives the label |
| MapTree.MapLookupOverruns | src/main_bp.cpp:627-645 | with no entries registered, the as-written code reads past the counts, while the intended label is 0 |
| MapTree.RelabelMapTree | src/main_bp.cpp:617-646 | the loop gives one label per internal node, each equal to MapLabel |
| Segments.BranchSegment.constructor | src/branch_segment.cpp:7-9 | a new segment has the given duration and period, no model, the -666 "no start state" sentinel and no fossil areas |
| Segments.BranchSegment.SetModel | src/branch_segment.cpp:12-14 | the model is replaced and every other field is unchanged |
| Segments.BranchSegment.GetModel | src/branch_segment.cpp:54-56 | returns the stored model |
| Segments.BranchSegment.ClearStartDist | src/branch_segment.cpp:22-25 | the start state becomes the sentinel and every other field is unchanged |
| Segments.BranchSegment.GetDuration | src/branch_segment.cpp:28-30 | returns the stored duration |
| Segments.BranchSegment.GetPeriod | src/branch_segment.cpp:33-35 | returns the stored period |
| Segments.BranchSegment.SetStartDistInt | src/branch_segment.cpp:44-46 | the start state is replaced and every other field is unchanged |
| Segments.BranchSegment.GetStartDistInt | src/branch_segment.cpp:49-51 | returns the stored start state |
| Segments.BranchSegment.GetFossilAreas | src/branch_segment.cpp:59-61 | returns the recorded fossil areas |
| Segments.BranchSegment.SetFossilArea | src/branch_segment.cpp:64-66 | the area is appended after those already recorded and every other field is unchanged |
| Segments.NewSegmentReadsBack | src/branch_segment.cpp:7-35 | the getters of a fresh segment return its duration, its period, the sentinel and no fossil areas |
| Segments.StartDistRoundTrip | src/branch_segment.cpp:22-51 | after setting a start state it reads back; after clearing it, the sentinel reads back |
| Segments.ModelRoundTrip | src/branch_segment.cpp:12-56 | a model that is set reads back |

## Left out

- Command-line parsing, file and stream I/O, and all printed output are left out. This includes the CLADE/CONFLICTS/FREQ lines, the verbose tree lists, the TSCA line and writing the map tree as Newick. The model returns values instead of printing them.
- Tree parsing is left out, and so are the tree classes. Trees are given as data: leaf names per external node, leaf names per internal node, whether a node is the root, whether its parent is the root, its label, and the number of children of the root.
- `name_st_index` is left out. It is only used to print names.
- `strtod`, `test_logical` and `logn` are function parameters of the model. Their code is not part of this model.
- Doubles are modelled as reals. Rounding is not modelled, and neither is `std::to_string`'s fixed six-digit label text.
- Bipartitions.NotIncluded: lists the missing ids in the order of the name list, not in the sorted name order that `std::set_difference` yields. The list is stored but never read afterwards.
- Presence.UniqueRows: returns the positions of the trees whose rows are new. Printing those trees as Newick and the program's exit are left out, and the rows are compared as integer sequences, where the program compares their text from `get_string_vector`; for rows of 0s and 1s the two comparisons agree.
- The `smallest_proportion` threshold is the constant 0 in the source, so the test `sumc > 0` is modelled directly.
- Clades.Dedup: keeps the first occurrence of each name in input order, where `std::set` sorts them. Every caller either sorts the result or uses only its membership and length.
- MapTree.LabelsAreFrequencies: the bound on the counts is proved only edgewise (EdgewiseCountsBoundedByTrees). Node-wise one tree can count an entry more than once, so a label above 1 is possible: with trees of partially overlapping taxa, and when two internal nodes of one tree span the same leaves (a node with one child above that child), where the second node counts the entry the first just added.
- Bipartitions.EdgewiseForestOrientations: proved only for forests whose trees hold the same taxa. With partially overlapping taxa, an edge and its reverse can reach different entries.
- Certainty.Normalize: states the sign in terms of the counts. This agrees with the source because dividing by a positive total keeps the order.
- `distconds` and `ancdistconds` in `branch_segment.cpp` are left out. They are set to null by the constructor and never used by the methods shown. The rate model's contents are not part of this model.
- The `BranchSegment` header and the commented-out `startdist` vector are not part of this model.

## Findings

| source | as written | input that shows it | evidently intended | confidence | as-written member | corrected member |
|---|---|---|---|---|---|---|
| src/main_bp.cpp:339-342 | when a node-wise bipartition matched only through its other side, the entry is searched in the clade list alone, and `bp_count[index]` is incremented one past the end | entries [0 1 \| 2 3] and [2 3 \| 0 1], then clade [0 1 4] with other side [2 3] (trees with partially overlapping taxa) | increment the entry whose other side matched | not executed | Bipartitions.NodewiseIndexOverruns | Bipartitions.NodewiseIndex |
| src/main_bp.cpp:283-288 | the set difference of all names minus a tree's names is written into a buffer sized by the tree's name count | five names, a tree holding two of them | a buffer sized by the number of names, or a back-inserter | not executed | Bipartitions.NotIncludedOverflows | Bipartitions.NotIncludedAreMissing |
| src/main_bp.cpp:434-444 | edgewise, a clade that is neither a registered clade nor a registered other side is looked up at `biparts.size()`, which is the row length, and the 1 is written past the end of the row | an edgewise run in which no edge has two taxa on both sides (a rooted three-taxon tree) | mark nothing for an edge that was not registered | not executed | Presence.EdgewiseLookupCanMiss | Presence.MarkNode |
| src/main_bp.cpp:627-645 | `found` is set on every path, so a map-tree clade with no entry reads `bp_count` past the end | a map tree with a non-root clade when no entry was registered | label the node "0.0", as the unused `found == false` branch does | not executed | MapTree.MapLookupOverruns | MapTree.RelabelMapTree |
