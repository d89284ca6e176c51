# tech_tree in Dafny

A model of the core of `tech_tree`. The program reads a list of technologies, each
with a name and the names of its predecessors, and builds a technology tree from
it. It checks that the tree has no cycle, computes each technology's depth (the
length of its longest chain of predecessors) and lays the technologies out on a
grid, one row per depth. It then draws the tree through a renderer port, of which
the SVG back end is one implementation. The serialisable definitions convert back
and forth between the stored form and the tree.

The rest of this file calls that row a column, as the code does: `column_id`,
`column_height`.

Files and modules:

| file | module | models |
|---|---|---|
| `wrappers.dfy` | `Wrappers` | `Option` and `Result` |
| `seqs.dfy` | `Seqs` | distinctness, counting, sortedness of sequences |
| `error.dfy` | `Error` | `AddError`, including the `Cycle` variant |
| `name.dfy` | `Name` | `TechnologyName`, `new_ranked`, `get_full`, a stand-in for `TechnologyName::new` |
| `model.dfy` | `Model` | `Input`, `Technology`, the tree as the sequence of its technologies |
| `graph.dfy` | `Graph` | well-formedness, consistency of the two edge lists, walks, cycles, reachability |
| `creation.dfy` | `Creation` | `create_tree` and its helpers |
| `legacy.dfy` | `Legacy` | the older `TechnologyTree::create` |
| `no_cycles.dfy` | `NoCycles` | `validate_no_cycles`, a depth-first search over two flag arrays |
| `analysis.dfy` | `Analysis` | `calculate_depth`, `group_by_depth`, `calculate_technologies_without_predecessors` |
| `grid.dfy` | `GridCells` | `GridCell`, `Grid::new`, `Grid::get_cell` |
| `layout.dfy` | `TreeRendering` | `TreeRenderer::render`, `calculate_grid`, `get_sizes` and the renderer port |
| `svg.dfy` | `Svg` | `SvgBuilder`: the size arithmetic and the document as a list of elements |
| `definition.dfy` | `Definitions` | `TechnologyDefinition` and `TechnologyTreeDefinition` |

How the model is organised:

- Imperative code is kept imperative.
  - `create_name_to_id_map`, `process_successors`, the technology loop of
    `create_tree`, `calculate_depth`, `group_by_depth` and `get_sizes` are methods
    with loops.
  - So are `calculate_grid`, `render`, `validate_tree`, `validate_technology` and
    `get_circle`.
  - Each method is proved against a function or predicate that says what it
    computes.
- The depth-first search keeps its original shape.
  - The `visited` and `recursive` vectors are `array<bool>`.
  - A ghost stack and a ghost finish order record what the flags stand for.
- The renderer port (`Renderer`) is a class:
  - a fixed size oracle answers `get_size_of_technology`;
  - a log records every `init`, `render_technology` and `render_link` call in order.
- `SvgBuilder` is a class whose document is a sequence of elements.
- Iterator pipelines (`map`/`filter`/`collect`) are functions.

Two error orders are stated in full.

- `create_tree` checks in this order:
  1. `NameExists` for the first raw name that repeats an earlier one;
  2. `UnknownPredecessor` for the first unknown predecessor name, in input order;
  3. `InvalidName` for the first blank name.
- `TechnologyTree::create` differs:
  1. `NameExists`, as above;
  2. then, for each input in order, an invalid name comes before that input's first
     unknown predecessor.

`MixedLegacy` and `MixedCreateTree` show one input list on which the two orders
give different errors.

Where a test and the code disagree, the model follows the code:

- `test_render` (tech_tree/src/rendering/tree.rs:150-157) expects `bb` at (15, 55).
- The code gives (15, 65).
  - `get_sizes` gives every entry of a column the column's largest height.
  - `ccc` makes that height 60.
  - So `bb`'s padded box is 70 high.
  - The box starts at y = 30, so its centre is at 30 + 35 = 65.
- `RenderExample` proves (15, 65).
- The width 70, the height 100, `a` at (10, 15) and `ccc` at (50, 65) agree with the
  test.

## Model

| member | source | states |
|---|---|---|
| Name.NewRanked | tech_tree/src/model/technology/name.rs:12-17 | a ranked name keeps its base and rank; the full text is the base, one space and the decimal rank |
| Name.NewRankedFullSplits | tech_tree/src/model/technology/name.rs:12-17 | the full text of a ranked name splits back at position \|base\| into the base, a space and digits that parse to the rank |
| Name.Decimal | tech_tree/src/model/technology/name.rs:14 | the decimal text of a number is non-empty, all digits, and starts with 0 only for 0 |
| Name.DecimalRoundTrip | tech_tree/src/model/technology/name.rs:14 | reading the decimal text back gives the number |
| Name.GetFull | tech_tree/src/model/technology/name.rs:19-24 | a simple name prints its text, a ranked name its full text |
| Name.GetFullExamples | tech_tree/src/model/technology/name.rs:31-35 | test_get_full: "Test" and "Tech 4" |
| Name.Trim | tech_tree/src/usecase/creation.rs:17 | the trimmed text is no longer than the input, starts and ends with non-whitespace, and is empty exactly for a blank input |
| Name.TrimIsSlice | tech_tree/src/usecase/creation.rs:17 | the trimmed text is a slice of the input with only whitespace on both sides |
| Name.NewName | tech_tree/src/usecase/creation.rs:17 | stand-in for TechnologyName::new: it fails exactly for a blank raw name, with InvalidName(raw); otherwise it gives the simple name of the trimmed text, which is non-empty |
| Creation.FirstRepeat | tech_tree/src/usecase/creation.rs:30-36 | for non-distinct names, the position of the first name that repeats an earlier one, with all names before it distinct |
| Creation.FirstRepeatUnique | tech_tree/src/usecase/creation.rs:30-36 | any position that repeats an earlier name after distinct names is that first repeat |
| Creation.CreateNameToIdMap | tech_tree/src/usecase/creation.rs:27-40 | Ok exactly when the raw names are distinct; the keys are the names and each name maps to its position; otherwise NameExists of the first repeated name |
| Creation.NameMapStep | tech_tree/src/usecase/creation.rs:31-33 | inserting a new name at the next position keeps the names distinct and the map equal to name to position |
| Creation.IntoId | tech_tree/src/usecase/creation.rs:73-78 | Ok exactly for a known name, with its id; otherwise UnknownPredecessor(name) |
| Creation.UnresolvedNames | tech_tree/src/usecase/creation.rs:49-53 | the unknown names of a list, empty exactly when every name is known |
| Creation.Unresolved | tech_tree/src/usecase/creation.rs:46-55 | the unknown predecessor names of all inputs, empty exactly when all are known |
| Creation.ResolveNames | tech_tree/src/usecase/creation.rs:49-53 | collecting stops at the first unknown name with UnknownPredecessor of it; on success one id per name, each the map's value for that name |
| Creation.ProcessPredecessors | tech_tree/src/usecase/creation.rs:42-56 | Ok exactly when every predecessor name is known, then one list per input; otherwise UnknownPredecessor of the first unknown name in input order |
| Creation.ProcessPredecessorsIds | tech_tree/src/usecase/creation.rs:42-56 | the i-th list holds, in order, the ids of the i-th input's predecessor names |
| Creation.PredecessorsPointToNames | tech_tree/src/usecase/creation.rs:42-56 | with the name map of create_name_to_id_map, each predecessor id is the position of the input of that name |
| Creation.InverseCount | tech_tree/src/usecase/creation.rs:58-71 | b occurs in the successor list of a as often as a occurs among b's predecessors |
| Creation.InverseAscending | tech_tree/src/usecase/creation.rs:61-67 | successor lists are in ascending id order and hold only ids of technologies already visited |
| Creation.ProcessSuccessors | tech_tree/src/usecase/creation.rs:58-71 | one list per technology, the a-th the inversion of all predecessor lists at a (ids pushed in visiting order) |
| Creation.SuccessorStep | tech_tree/src/usecase/creation.rs:62-67 | pushing id onto the list of its j-th predecessor, and onto no other list, extends the inversion by one occurrence |
| Creation.FirstBlank | tech_tree/src/usecase/creation.rs:14-22 | None exactly when no raw name is blank; otherwise the position of the first blank name |
| Creation.FirstBlankAt | tech_tree/src/usecase/creation.rs:14-22 | a blank name preceded only by non-blank ones is the first blank name |
| Creation.CreateTechnologies | tech_tree/src/usecase/creation.rs:12-22 | InvalidName of the first blank raw name; otherwise the k-th technology has id k, the parsed name, the k-th predecessor and the k-th successor list |
| Creation.BuiltFromParts | tech_tree/src/usecase/creation.rs:8-25 | the map, the predecessor lists, the inverted successor lists and the named technologies together make a built tree |
| Creation.CreateTree | tech_tree/src/usecase/creation.rs:8-25 | the outcome: NameExists, then UnknownPredecessor, then InvalidName, each for its first offender; otherwise a tree built from the inputs |
| Creation.InverseListsInvert | tech_tree/src/usecase/creation.rs:58-71 | successor lists made by inversion count each edge as often as the predecessor lists, are ascending and point into the tree |
| Creation.BuiltTreeInvertsPredecessors | tech_tree/src/usecase/creation.rs:8-25 | a built tree is well formed and consistent (b follows a exactly when a precedes b), with ascending successor lists |
| Creation.BuiltUnique | tech_tree/src/usecase/creation.rs:8-25 | two trees built from the same inputs with distinct names are equal |
| Creation.OutcomeUnique | tech_tree/src/usecase/creation.rs:8-25 | the outcome of create_tree is determined by its inputs |
| Creation.PlainName | tech_tree/src/usecase/creation.rs:17 | a name without surrounding whitespace parses to its own simple name |
| Creation.OutcomeOk | tech_tree/src/usecase/creation.rs:8-25 | distinct names, known predecessors, no blank name and a built tree give the Ok outcome |
| Creation.BuiltIntro | tech_tree/src/usecase/creation.rs:8-25 | ids, parsed names, predecessor lists and inverted successor lists make a built tree |
| Creation.CreateTreeExample | tech_tree/src/usecase/creation.rs:84-104 | test_create_tree: the five technologies with their predecessor and successor lists |
| Creation.WrongOrderExample | tech_tree/src/usecase/creation.rs:106-120 | test_wrong_order: a predecessor declared after the technology that names it |
| Creation.ErrorExamples | tech_tree/src/usecase/creation.rs:122-159 | test_invalid_name, test_duplicate_name and test_unknown_predecessor give their errors |
| Legacy.ConvertTechnology | tech_tree/src/model/technology/tree.rs:41-57 | Ok exactly when the name parses and every predecessor is known; InvalidName comes before the first UnknownPredecessor; on success the id, the parsed name and one mapped id per predecessor name |
| Legacy.FirstErr | tech_tree/src/model/technology/tree.rs:15-19 | None exactly when every result is Ok; otherwise the first failed position |
| Legacy.Collect | tech_tree/src/model/technology/tree.rs:15-19 | collecting results: Ok exactly when none failed, with the values in order; otherwise the error of the first failure |
| Legacy.ConvertAll | tech_tree/src/model/technology/tree.rs:15-19 | each input converted with its position as its id |
| Legacy.ConvertMatchesItem | tech_tree/src/model/technology/tree.rs:41-57 | with the map of raw names, converting input k succeeds exactly when its name parses and its predecessors are names of inputs, and fails with that item's error |
| Legacy.FirstFailing | tech_tree/src/model/technology/tree.rs:15-23 | the first input at or after start that does not convert, and that every input before it does |
| Legacy.FirstFailingIsFirstErr | tech_tree/src/model/technology/tree.rs:15-23 | the first failed conversion is the first failing input, with its error |
| Legacy.Create | tech_tree/src/model/technology/tree.rs:12-24 | the outcome: NameExists of the first repeated name, else the error of the first input that does not convert, else the technologies built from the inputs |
| Legacy.ConvertedPredecessors | tech_tree/src/model/technology/tree.rs:46-55 | the predecessor ids of a converted input are the positions of the inputs they name |
| Legacy.LegacyBuiltFromConversions | tech_tree/src/model/technology/tree.rs:12-24 | conversions that all succeed make the built list of technologies |
| Legacy.LegacyBuiltUnique | tech_tree/src/model/technology/tree.rs:12-24 | two lists built from the same inputs with distinct names are equal |
| Legacy.LegacyOutcomeUnique | tech_tree/src/model/technology/tree.rs:12-24 | the outcome of TechnologyTree::create is determined by its inputs |
| Legacy.AgreesWithCreateTree | tech_tree/src/model/technology/tree.rs:12-24 | when both builders succeed they agree on every id, name and predecessor list |
| Legacy.LegacyOutcomeOk | tech_tree/src/model/technology/tree.rs:12-24 | distinct names, inputs that all convert and a built list give the Ok outcome |
| Legacy.MixedLegacy | tech_tree/src/model/technology/tree.rs:12-24 | a blank first name and an unknown later predecessor give InvalidName here |
| Legacy.MixedCreateTree | tech_tree/src/usecase/creation.rs:8-25 | the same inputs give UnknownPredecessor in create_tree |
| Legacy.CreateExample | tech_tree/src/model/technology/tree.rs:74-131 | test_create_tree of the older module |
| NoCycles.FirstIn | tech_tree/src/usecase/validation/no_cycles.rs:68-73 | the first entry of a list that is in a set: it is in both, no earlier entry is in the set, and None exactly when no entry is |
| NoCycles.SuffixIsPath | tech_tree/src/usecase/validation/no_cycles.rs:57-77 | every tail of a walk is a walk ending at the same node |
| NoCycles.CutAtReentry | tech_tree/src/usecase/validation/no_cycles.rs:57-77 | the tail of a circle list from the last node's first successor in the list is a cycle |
| NoCycles.CircleListHasCycle | tech_tree/src/usecase/validation/no_cycles.rs:57-77 | a walk whose last node has an edge back into it contains a cycle |
| NoCycles.FullNamesSnoc | tech_tree/src/usecase/validation/no_cycles.rs:66 | taking one more node appends its full name |
| NoCycles.WalkRestUnflagsWalk | tech_tree/src/usecase/validation/no_cycles.rs:61-74 | the walk clears exactly the flags of the nodes it takes |
| NoCycles.WalkAdvance | tech_tree/src/usecase/validation/no_cycles.rs:61-74 | one round of the loop: the names taken so far followed by the walk from the next node are the whole walk, and the flags left at its end do not change |
| NoCycles.WalkWithin | tech_tree/src/usecase/validation/no_cycles.rs:61-74 | the walk takes only flagged nodes |
| NoCycles.WalkIsPath | tech_tree/src/usecase/validation/no_cycles.rs:61-74 | the walk follows successor edges |
| NoCycles.WalkDistinct | tech_tree/src/usecase/validation/no_cycles.rs:61-74 | the walk never takes a node twice |
| NoCycles.WalkEnds | tech_tree/src/usecase/validation/no_cycles.rs:68-74 | the walk stops at a node none of whose successors is still flagged |
| NoCycles.WalkIsCircleList | tech_tree/src/usecase/validation/no_cycles.rs:37-38 | started at the re-entry node with exactly the stack flagged, the walk is a circle list on the stack |
| NoCycles.GetCircle | tech_tree/src/usecase/validation/no_cycles.rs:57-77 | the nodes taken are exactly the walk from the re-entry node over the flagged nodes; it returns their full names and clears exactly their flags |
| NoCycles.Take | tech_tree/src/usecase/validation/no_cycles.rs:62-73 | clears the node's flag, then finds its first successor still flagged |
| NoCycles.FirstFlagged | tech_tree/src/usecase/validation/no_cycles.rs:68-73 | the first successor whose flag is set, as FirstIn over the flagged set |
| NoCycles.ValidateTechnology | tech_tree/src/usecase/validation/no_cycles.rs:29-55 | either a circle list returned as full names, or the search state kept with the id finished and earlier finished nodes kept |
| NoCycles.PushKeepsStack | tech_tree/src/usecase/validation/no_cycles.rs:43-44 | marking an unvisited node along an edge from the top keeps the stack a distinct walk inside the tree |
| NoCycles.FinishKeepsOrder | tech_tree/src/usecase/validation/no_cycles.rs:52 | a node whose successors are all finished can be finished next |
| NoCycles.FinishedAcyclic | tech_tree/src/usecase/validation/no_cycles.rs:13-27 | a finish order covering every node rules out a cycle |
| NoCycles.ValidateTree | tech_tree/src/usecase/validation/no_cycles.rs:13-27 | None exactly when the successor graph has no cycle; otherwise the full names of a circle list |
| NoCycles.ValidateNoCycles | tech_tree/src/usecase/validation/no_cycles.rs:5-11 | the tree unchanged exactly when it has no cycle; otherwise Cycle with the names of a circle list |
| NoCycles.ValidateTwice | tech_tree/src/usecase/validation/no_cycles.rs:5-11 | validating an accepted tree again accepts it again; a rejection is always a Cycle |
| NoCycles.AcyclicExamples | tech_tree/src/usecase/validation/no_cycles.rs:85-97 | test_empty and test_no_cycle: both trees have no cycle |
| NoCycles.CyclicExampleHasCycle | tech_tree/src/usecase/validation/no_cycles.rs:99-111 | test_error: t0, t2, t3 is a circle list of the tree, with names t0, t2, t3 |
| NoCycles.CyclicExampleWalk | tech_tree/src/usecase/validation/no_cycles.rs:99-111 | test_error: with t0, t2, t3 flagged, the walk from t0 is t0, t2, t3, which is its own cycle |
| NoCycles.LassoShape | tech_tree/src/usecase/validation/no_cycles.rs:57-77 | the lasso tree is well formed, with successor lists [3], [4], [1, 3], [2, 4], [1, 2] |
| NoCycles.LassoConsistent | tech_tree/src/usecase/validation/no_cycles.rs:57-77 | its predecessor and successor lists agree |
| NoCycles.LassoStack | tech_tree/src/usecase/validation/no_cycles.rs:37-49 | the search from t0 stacks t0, t3, t2, t1, t4, and t4's first successor t1 is on the stack |
| NoCycles.LassoWalk | tech_tree/src/usecase/validation/no_cycles.rs:61-74 | with every node flagged the walk from t1 is t1, t4, t2, t3 |
| NoCycles.LassoNotCycle | tech_tree/src/usecase/validation/no_cycles.rs:57-77 | t1, t4, t2, t3 is a circle list but not a cycle; cut at the re-entry node it is the cycle t2, t3 |
| NoCycles.LassoNames | tech_tree/src/usecase/validation/no_cycles.rs:66 | the names reported are t1, t4, t2, t3 |
| NoCycles.LassoCircle | tech_tree/src/usecase/validation/no_cycles.rs:57-77 | get_circle as written, on the lasso tree in the search's state: names t1, t4, t2, t3, not a cycle |
| Analysis.RootsBelowFacts | tech_tree/src/usecase/analysis.rs:35-41 | every collected id is the id of a technology without predecessors; with ids equal to positions the list is strictly ascending and holds exactly those technologies |
| Analysis.RootsAreRoots | tech_tree/src/usecase/analysis.rs:35-41 | every collected id belongs to a technology without predecessors |
| Analysis.RootsInOrder | tech_tree/src/usecase/analysis.rs:35-41 | with ids equal to positions: strictly ascending, and v is collected exactly when it has no predecessors |
| Analysis.WithoutPredecessors | tech_tree/src/usecase/analysis.rs:35-41 | the ids of the technologies without predecessors, in ascending order, no others |
| Analysis.PredMaxIsMax | tech_tree/src/usecase/analysis.rs:5 | the helper maximum is the largest depth plus one among the first k predecessors |
| Analysis.DepthIsMax | tech_tree/src/usecase/analysis.rs:5 | depth is 0 without predecessors, otherwise one more than the deepest predecessor |
| Analysis.EdgeDepth | tech_tree/src/usecase/analysis.rs:5 | along an edge the depth grows by at least one |
| Analysis.ChainBelowDepth | tech_tree/src/usecase/analysis.rs:5 | no walk into v has more edges than v's depth from its start's depth |
| Analysis.RootChain | tech_tree/src/usecase/analysis.rs:5 | some walk of exactly depth(v) edges reaches v from a technology without predecessors |
| Analysis.QueueStep | tech_tree/src/usecase/analysis.rs:10-19 | dequeuing one id and enqueueing its successors lowers the remaining walks by one, so the loop ends on an acyclic tree |
| Analysis.SettledStays | tech_tree/src/usecase/analysis.rs:10-19 | a technology already holding its depth keeps it while numbers only rise up to the depths |
| Analysis.CoveredStep | tech_tree/src/usecase/analysis.rs:10-19 | processing the front of the queue keeps every technology either settled or pending |
| Analysis.InitiallyCoveredAll | tech_tree/src/usecase/analysis.rs:7-8 | with all numbers 0 and the roots queued, every technology is pending |
| Analysis.CoveredAtEnd | tech_tree/src/usecase/analysis.rs:10 | with the queue empty every technology holds its depth |
| Analysis.RaiseSuccessors | tech_tree/src/usecase/analysis.rs:14-17 | every successor is raised to at least the dequeued number plus one and appended to the queue; no number passes its depth |
| Analysis.CalculateDepth | tech_tree/src/usecase/analysis.rs:5-22 | one number per technology, each the length of its longest chain of predecessors |
| Analysis.MaxOf | tech_tree/src/usecase/analysis.rs:25 | the largest depth, attained by some entry, or 0 for an empty list |
| Analysis.AtDepth | tech_tree/src/usecase/analysis.rs:28-30 | strictly ascending, and holding exactly the indices below k whose depth is d |
| Analysis.GroupByDepth | tech_tree/src/usecase/analysis.rs:24-33 | one group per depth from 0 to the largest, the d-th holding exactly the indices of depth d in ascending order |
| Analysis.GroupsPartition | tech_tree/src/usecase/analysis.rs:24-33 | every index is in the group of its depth exactly once and in no other group |
| Analysis.ExampleDag | tech_tree/src/usecase/analysis.rs:80-89 | the tree of the analysis tests is well formed, consistent and acyclic |
| Analysis.DepthExample | tech_tree/src/usecase/analysis.rs:49-52 | test_calculate_depth: depths 0, 0, 1, 2, 3 |
| Analysis.RootsExample | tech_tree/src/usecase/analysis.rs:72-78 | test_calculate_technologies_without_predecessors: t0 and t1 |
| Analysis.GroupExample | tech_tree/src/usecase/analysis.rs:54-70 | test_group_by_depth: five groups [0, 3], [], [1, 2, 4], [], [5] |
| GridCells.SimpleCell | tech_tree/src/rendering/grid.rs:14-22 | the given id at the origin, without extent |
| GridCells.IdMapFinds | tech_tree/src/rendering/grid.rs:32-36 | the map holds exactly the cell ids, each at the position of a cell with that id after which no cell has it again (later cells win) |
| GridCells.NewGrid | tech_tree/src/rendering/grid.rs:31-39 | keeps the size and the cells |
| GridCells.GetCell | tech_tree/src/rendering/grid.rs:41-43 | found exactly when the map stores an index for the id and that index is in range; what is found is a cell of the grid |
| GridCells.GetCellFinds | tech_tree/src/rendering/grid.rs:41-43 | the lookup succeeds exactly for ids of cells, and finds a cell of the grid with that id |
| GridCells.GetCellDistinct | tech_tree/src/rendering/grid.rs:41-43 | with distinct ids, looking up a cell's id finds that very cell |
| GridCells.NewGridExample | tech_tree/src/rendering/grid.rs:50-64 | test_new: cells kept, ids 0 to 2 found, id 3 not |
| TreeRendering.Renderer.constructor | tech_tree/src/rendering/renderer.rs:1-13 | a renderer with a given size oracle and an empty log |
| TreeRendering.Renderer.Init | tech_tree/src/rendering/renderer.rs:3 | logs the init call with width and height |
| TreeRendering.Renderer.RenderLink | tech_tree/src/rendering/renderer.rs:6 | logs the link with its points |
| TreeRendering.Renderer.RenderTechnology | tech_tree/src/rendering/renderer.rs:9 | logs the technology with its text and centre |
| TreeRendering.MaxHeight | tech_tree/src/rendering/tree.rs:86-93 | the largest oracle height in a column, attained by an entry, 0 for an empty column |
| TreeRendering.GetColumnSizes | tech_tree/src/rendering/tree.rs:84-101 | one column's sizes: each entry's oracle width with the column's largest height |
| TreeRendering.GetSizes | tech_tree/src/rendering/tree.rs:76-105 | the sizes of all columns, column by column |
| TreeRendering.SizesShape | tech_tree/src/rendering/tree.rs:76-105 | the sizes line up with the columns; entry k of column c is (its oracle width, the column's largest height) |
| TreeRendering.SizesUniform | tech_tree/src/rendering/tree.rs:96-100 | all entries of a column share one height |
| TreeRendering.GridWidthIsMax | tech_tree/src/rendering/tree.rs:69 | the grid width is the largest row width over the columns, 0 for none |
| TreeRendering.PlaceColumn | tech_tree/src/rendering/tree.rs:50-67 | one column placed left to right from x = 0: the final x is the sum of the padded widths, the height is the last padded height, and the cells are the placed boxes |
| TreeRendering.LayoutStep | tech_tree/src/rendering/tree.rs:49-71 | placing column c appends its cells at y = the sum of earlier heights, raises the width to its row width and adds its height |
| TreeRendering.PlaceColumns | tech_tree/src/rendering/tree.rs:44-73 | the grid of the columns: as wide as the widest column, as high as all columns together, cells column after column |
| TreeRendering.CalculateGrid | tech_tree/src/rendering/tree.rs:40-74 | depths, groups by depth and sizes from the oracle, then the placed grid |
| TreeRendering.LayoutCellAt | tech_tree/src/rendering/tree.rs:53-63 | entry k of column c is centred at (x + padded width / 2, y + padded height / 2) with half its unpadded size |
| TreeRendering.LayoutCellsIds | tech_tree/src/rendering/tree.rs:49-71 | the cell ids are the columns concatenated |
| TreeRendering.OneCellPerId | tech_tree/src/rendering/tree.rs:40-74 | every technology gets exactly one cell, and no other id gets a cell |
| TreeRendering.LayoutLookups | tech_tree/src/rendering/tree.rs:23-31 | the cell ids are distinct and name technologies, and every technology's own cell is found |
| TreeRendering.SideBySide | tech_tree/src/rendering/tree.rs:53-66 | within a column, padded boxes go left to right and never overlap |
| TreeRendering.Stacked | tech_tree/src/rendering/tree.rs:66-70 | with get_sizes' heights, every box of an earlier column lies above every box of a later one |
| TreeRendering.InsideGrid | tech_tree/src/rendering/tree.rs:69-73 | every padded box lies within the grid's width and height |
| TreeRendering.LinkEvents | tech_tree/src/rendering/tree.rs:30-35 | one link per successor, from the start point to the end point of the successor's cell |
| TreeRendering.RenderLinks | tech_tree/src/rendering/tree.rs:30-35 | logs those links in successor order |
| TreeRendering.RenderCell | tech_tree/src/rendering/tree.rs:23-36 | logs the technology at its cell centre, then its links |
| TreeRendering.DrawGrid | tech_tree/src/rendering/tree.rs:20-37 | logs init with the grid size, then each cell's calls in cell order |
| TreeRendering.DrawEventsStep | tech_tree/src/rendering/tree.rs:22-37 | one more cell drawn extends the log by that cell's calls |
| TreeRendering.Render | tech_tree/src/rendering/tree.rs:17-38 | the log grows by exactly the calls for the calculated grid |
| TreeRendering.DrawnTechnologies | tech_tree/src/rendering/tree.rs:22-25 | one technology drawn per cell, in cell order, with the full name at the cell centre |
| TreeRendering.StartedOnce | tech_tree/src/rendering/tree.rs:20-37 | init is logged first, with the grid size, and never again |
| TreeRendering.GridEventsDrawn | tech_tree/src/rendering/tree.rs:17-38 | the log starts with init and draws one technology per cell |
| TreeRendering.RenderExampleLayout | tech_tree/src/rendering/tree.rs:140-149 | test_render's grid is 70 by 100 with the three placed cells |
| TreeRendering.RenderExample | tech_tree/src/rendering/tree.rs:140-158 | test_render as the code computes it: init(70, 100), then a at (10, 15), bb at (15, 65), ccc at (50, 65) |
| Svg.TextWidth | tech_tree_svg/src/lib.rs:44-47 | at least the character count times half the font size plus twice the padding; exactly that for ASCII text |
| Svg.TextHeight | tech_tree_svg/src/lib.rs:49-51 | twice the font size |
| Svg.Utf8Length | tech_tree_svg/src/lib.rs:46 | the byte length of a text is at least its character count, and equal for ASCII |
| Svg.SaturatingSub | tech_tree_svg/src/lib.rs:98 | the difference when it is not negative, otherwise 0 |
| Svg.PathVisitsPoints | tech_tree_svg/src/lib.rs:72-78 | the path data moves to the first point and draws a line to each later one, in order |
| Svg.TechnologyBoxCentred | tech_tree_svg/src/lib.rs:91-117 | a box centred on x, as wide as the text width and twice the font size high, reaching font size above y (clamped at 0), then the label at x |
| Svg.SvgBuilder.constructor | tech_tree_svg/src/lib.rs:16-22 | a document holding only the arrow head definitions |
| Svg.SvgBuilder.GetSizeOfTechnology | tech_tree_svg/src/lib.rs:119-121 | width = byte length times half the font size plus twice the padding; height = twice the font size |
| Svg.SvgBuilder.Init | tech_tree_svg/src/lib.rs:68-70 | sets the view box to (0, 0, width, height) and adds nothing |
| Svg.SvgBuilder.RenderLink | tech_tree_svg/src/lib.rs:72-89 | appends one arrow through the points, or nothing for no points |
| Svg.SvgBuilder.RenderTechnology | tech_tree_svg/src/lib.rs:91-117 | appends the box, then the label |
| Svg.SizeExample | tech_tree_svg/src/lib.rs:128-134 | test_get_size_of_technology: 60 by 20 and 75 by 20 |
| Svg.ExportExample | tech_tree_svg/src/lib.rs:136-163 | test_export: the view box and the elements of the expected document, in order |
| Definitions.ToInput | tech_tree_serde/src/definition/technology/mod.rs:18-20 | the input with the same name and predecessor names |
| Definitions.PredecessorName | tech_tree_serde/src/definition/technology/mod.rs:28-32 | the full name of the technology with that id, or "UNKNOWN" |
| Definitions.FromTechnology | tech_tree_serde/src/definition/technology/mod.rs:22-35 | the full name and, for each predecessor id in order, that technology's full name |
| Definitions.Inputs | tech_tree_serde/src/definition/technology/tree.rs:19-22 | each definition converted to an input, in order |
| Definitions.TreeToModel | tech_tree_serde/src/definition/technology/tree.rs:17-24 | the outcome of create_tree on the converted definitions |
| Definitions.TreeFromModel | tech_tree_serde/src/definition/technology/tree.rs:26-34 | one definition per technology, in tree order |
| Definitions.TechnologyRoundTrip | tech_tree_serde/src/definition/technology/mod.rs:22-35 | converting back a built technology gives its definition, when names print back as written |
| Definitions.RoundTrip | tech_tree_serde/src/definition/technology/tree.rs:17-34 | from_model(to_model(d)) == d for every definition that converts, when names print back as written |
| Definitions.ConvertingExample | tech_tree_serde/src/definition/technology/tree.rs:40-52 | test_converting |

## Findings

| source | as written | input that shows it | evidently intended | confidence | as-written member | corrected member |
|---|---|---|---|---|---|---|
| tech_tree/src/usecase/validation/no_cycles.rs:57-77 | `get_circle` follows each node's first successor that is still flagged and keeps every node it takes, so the `Cycle` names can be a path leading into a cycle | t0 with no predecessors, t1 after t2 and t4, t2 after t3 and t4, t3 after t0 and t2, t4 after t1 and t3: the search stacks t0, t3, t2, t1, t4, the error names t1, t4, t2, t3, and t3 has no edge to t1 | the names of a cycle: the list from the node the last one returns to | not executed | NoCycles.LassoCircle | NoCycles.CutAtReentry |

## Left out

- Reading and writing YAML, file I/O, the command line program and the SVG text
  serialisation (`export`, `export_as_string`, `create_definitions`' markup) are not
  modelled. The document is the ordered list of elements the builder appends.
- `HashMap` iteration order is never used by the core. Maps are Dafny `map`s.
- Name.NewName: `TechnologyName::new` is not part of this model; it
  is modelled as trimming whitespace: a blank name fails with `InvalidName` of the raw
  text, any other name is `Simple` of the trimmed text. Parsing a rank out of a raw
  name is not modelled.
- Name.Trim and Name.NewName: whitespace is the characters with the Unicode
  White_Space property, which `str::trim` removes (tab to carriage return, space,
  U+0085, U+00A0, U+1680, U+2000 to U+200A, U+2028, U+2029, U+202F, U+205F, U+3000).
- Integers of the source (`u32`, `usize`) are unbounded `nat`s. Overflow of depths,
  sizes and coordinates is not modelled.
- Svg.SvgBuilder.RenderTechnology: `x - width_half` is an unsigned subtraction, so
  the model requires x to be at least half the text width. Below that the source
  would panic in debug builds and wrap in release builds.
- Svg: the renderer port of the core takes `(u32, u32)` link points, while the SVG
  back end takes `(i32, i32)`. The two are modelled separately (`Point` and
  `SvgPoint`).
- TreeRendering.Render: `GridCell::get_link_start` and `get_link_end` are not part of
  this model. They are parameters of `Render`.
- Analysis.CalculateDepth and TreeRendering.Render require a well-formed, consistent
  and acyclic tree. Nothing in the source makes sure of this: `validate_no_cycles` is
  called only by its own test (tech_tree/src/usecase/validation/no_cycles.rs:104), and
  the command line program (tech_tree_cli/src/main.rs:24-34) renders the tree that
  `to_model` builds without validating it. On a cyclic tree `calculate_depth` does not
  end when a technology without predecessors reaches the cycle, because the queue
  keeps receiving the cycle's nodes until the `u32` addition overflows. A cycle that no
  such technology reaches leaves its nodes at depth 0 (t0 after t1 and t1 after t0
  gives [0, 0]). Neither behaviour is modelled.
- NoCycles.ValidateTree, NoCycles.ValidateNoCycles and NoCycles.CyclicExampleHasCycle:
  the contracts say that the names returned are the full names of a circle list, with
  a cycle as its tail. They do not say which circle list the search returns, so for
  test_error the example shows only that t0, t2, t3 is an admissible answer; other
  rotations such as t2, t3, t0 satisfy the same contract. GetCircle itself is pinned
  down: what it takes is Walk of the flagged nodes, and CyclicExampleWalk shows that
  in the state the search reaches on test_error this is t0, t2, t3.
- NoCycles.LassoShape: the lasso tree (t0 with no predecessors, t1 after t2 and t4,
  t2 after t3 and t4, t3 after t0 and t2, t4 after t1 and t3) is given with its
  successor lists, not obtained by running `CreateTree`.
- TreeRendering.RenderExample: the tree of test_render is given with its successor
  lists, not obtained by running `CreateTree`.
- `Grid::new` takes only the cells in grid.rs but width, height and cells in
  rendering/tree.rs. The model follows the three-argument call and stores width and
  height in the grid.
- `Technology` in tech_tree/src/model/technology/mod.rs has no successor list, but
  creation.rs builds technologies with one. The model follows creation.rs; the older
  builder (`Legacy`) has its own technology type without successors.
- The unwraps in `render`, `get_sizes` and `validate_technology` (`tree.get(..)`,
  `grid.get_cell(..)`) cannot fail on the trees the model accepts. This is part of
  the preconditions rather than an error path.
