/** Layout and drawing of a technology tree (tech_tree/src/rendering/tree.rs): the
    technologies are grouped into columns by depth, each column places its padded boxes
    left to right, the columns are stacked top to bottom, and the result is drawn through
    the renderer port (tech_tree/src/rendering/renderer.rs). */
module TreeRendering {
  import opened Wrappers
  import opened Seqs
  import opened Model
  import opened Graph
  import opened Name
  import opened Analysis
  import opened GridCells

  /** A (width, height) pair as the size oracle returns it. */
  type Size = (nat, nat)

  /** A point of a link. */
  type Point = (nat, nat)

  /** What the renderer port has been asked to do, in order. */
  datatype Event =
    | Started(width: nat, height: nat)
    | TechnologyDrawn(text: string, x: nat, y: nat)
    | LinkDrawn(points: seq<Point>)

  /** The renderer port: a size oracle that does not change, and the log of calls made. */
  class Renderer {
    const sizeOf: string -> Size
    var log: seq<Event>

    constructor (sizeOf: string -> Size)
      ensures this.sizeOf == sizeOf && log == []
    {
      this.sizeOf := sizeOf;
      log := [];
    }

    /** Renderer::init. */
    method Init(width: nat, height: nat)
      modifies this
      ensures log == old(log) + [Started(width, height)]
    {
      log := log + [Started(width, height)];
    }

    /** Renderer::render_link. */
    method RenderLink(points: seq<Point>)
      modifies this
      ensures log == old(log) + [LinkDrawn(points)]
    {
      log := log + [LinkDrawn(points)];
    }

    /** Renderer::render_technology. */
    method RenderTechnology(text: string, x: nat, y: nat)
      modifies this
      ensures log == old(log) + [TechnologyDrawn(text, x, y)]
    {
      log := log + [TechnologyDrawn(text, x, y)];
    }

    /** Renderer::get_size_of_technology: asks the oracle, changes nothing. */
    function GetSizeOfTechnology(text: string): Size {
      sizeOf(text)
    }
  }

  // ---------------------------------------------------------------------------------
  // Sizes (get_sizes)

  /** Every id in the columns names a technology of the tree. */
  predicate IdsBelow(groups: seq<seq<nat>>, n: nat) {
    forall c, k :: 0 <= c < |groups| && 0 <= k < |groups[c]| ==> groups[c][k] < n
  }

  /** The oracle's size for the full name of technology id. */
  function TechSize(sizeOf: string -> Size, tree: Tree, id: nat): Size
    requires id < |tree|
  {
    sizeOf(GetFull(tree[id].name))
  }

  /** The largest oracle height in a column, 0 for an empty column. */
  function MaxHeight(sizeOf: string -> Size, tree: Tree, column: seq<nat>): (m: nat)
    requires forall k :: 0 <= k < |column| ==> column[k] < |tree|
    ensures forall k :: 0 <= k < |column| ==> TechSize(sizeOf, tree, column[k]).1 <= m
    ensures column != [] ==> exists k :: 0 <= k < |column| && TechSize(sizeOf, tree, column[k]).1 == m
    ensures column == [] ==> m == 0
  {
    if column == [] then 0
    else Max(MaxHeight(sizeOf, tree, column[..|column| - 1]), TechSize(sizeOf, tree, column[|column| - 1]).1)
  }

  /** The sizes of one column: the oracle's width of each entry, paired with the column's
      largest height. */
  function ColumnSizes(sizeOf: string -> Size, tree: Tree, column: seq<nat>): (r: seq<Size>)
    requires forall k :: 0 <= k < |column| ==> column[k] < |tree|
    ensures |r| == |column|
  {
    seq(|column|, k requires 0 <= k < |column| => (TechSize(sizeOf, tree, column[k]).0, MaxHeight(sizeOf, tree, column)))
  }

  /** The sizes of all columns. */
  function Sizes(sizeOf: string -> Size, tree: Tree, groups: seq<seq<nat>>): (r: seq<seq<Size>>)
    requires IdsBelow(groups, |tree|)
    ensures |r| == |groups|
  {
    seq(|groups|, c requires 0 <= c < |groups| => ColumnSizes(sizeOf, tree, groups[c]))
  }

  /** TreeRenderer::get_sizes: one size per entry, shaped like the columns. */
  method GetSizes(renderer: Renderer, tree: Tree, groups: seq<seq<nat>>) returns (sizes: seq<seq<Size>>)
    requires IdsBelow(groups, |tree|)
    ensures sizes == Sizes(renderer.sizeOf, tree, groups)
  {
    sizes := [];
    var c := 0;
    while c < |groups|
      invariant 0 <= c <= |groups|
      invariant |sizes| == c
      invariant forall d :: 0 <= d < c ==> sizes[d] == ColumnSizes(renderer.sizeOf, tree, groups[d])
    {
      var columnSizes := GetColumnSizes(renderer, tree, groups[c]);
      sizes := sizes + [columnSizes];
      c := c + 1;
    }
  }

  /** The body of get_sizes' loop for one column: the widths one by one, the largest height
      kept on the way, then each width paired with that height. */
  method GetColumnSizes(renderer: Renderer, tree: Tree, column: seq<nat>) returns (sizes: seq<Size>)
    requires forall k :: 0 <= k < |column| ==> column[k] < |tree|
    ensures sizes == ColumnSizes(renderer.sizeOf, tree, column)
  {
    var widths: seq<nat> := [];
    var maxHeight: nat := 0;
    var k := 0;
    while k < |column|
      invariant 0 <= k <= |column|
      invariant |widths| == k
      invariant forall j :: 0 <= j < k ==> widths[j] == TechSize(renderer.sizeOf, tree, column[j]).0
      invariant maxHeight == MaxHeight(renderer.sizeOf, tree, column[..k])
    {
      var technology := Get(tree, column[k]);
      assert technology.Some?;
      var size := renderer.GetSizeOfTechnology(GetFull(technology.value.name));
      widths := widths + [size.0];
      assert column[..k + 1][..k] == column[..k];
      maxHeight := Max(maxHeight, size.1);
      k := k + 1;
    }
    assert column[..k] == column;
    sizes := seq(|widths|, j requires 0 <= j < |widths| => (widths[j], maxHeight));
  }

  // ---------------------------------------------------------------------------------
  // Placement (calculate_grid)

  /** The sizes line up with the columns entry for entry. */
  predicate SameShape(groups: seq<seq<nat>>, sizes: seq<seq<Size>>) {
    |groups| == |sizes| && forall c :: 0 <= c < |groups| ==> |groups[c]| == |sizes[c]|
  }

  /** The left edge of the k-th padded box of a column: the sum of the padded widths
      before it. */
  function RowX(sizes: seq<Size>, p: nat, k: nat): nat
    requires k <= |sizes|
  {
    if k == 0 then 0 else RowX(sizes, p, k - 1) + sizes[k - 1].0 + 2 * p
  }

  /** The height a column takes: the padded height of its last entry, 0 when it is empty. */
  function ColumnHeight(sizes: seq<Size>, p: nat): nat {
    if sizes == [] then 0 else sizes[|sizes| - 1].1 + 2 * p
  }

  /** The top edge of column c: the sum of the heights of the columns before it. */
  function ColumnY(sizes: seq<seq<Size>>, p: nat, c: nat): nat
    requires c <= |sizes|
  {
    if c == 0 then 0 else ColumnY(sizes, p, c - 1) + ColumnHeight(sizes[c - 1], p)
  }

  /** The widest of the first c columns. */
  function GridWidth(sizes: seq<seq<Size>>, p: nat, c: nat): nat
    requires c <= |sizes|
  {
    if c == 0 then 0 else Max(GridWidth(sizes, p, c - 1), RowX(sizes[c - 1], p, |sizes[c - 1]|))
  }

  /** The width is the largest row width among the first c columns, 0 for none. */
  lemma {:induction false} GridWidthIsMax(sizes: seq<seq<Size>>, p: nat, c: nat)
    requires c <= |sizes|
    ensures forall d :: 0 <= d < c ==> RowX(sizes[d], p, |sizes[d]|) <= GridWidth(sizes, p, c)
    ensures c > 0 ==> exists d :: 0 <= d < c && RowX(sizes[d], p, |sizes[d]|) == GridWidth(sizes, p, c)
    ensures c == 0 ==> GridWidth(sizes, p, c) == 0
  {
    if c > 0 {
      GridWidthIsMax(sizes, p, c - 1);
      if GridWidth(sizes, p, c) != RowX(sizes[c - 1], p, |sizes[c - 1]|) {
        var d :| 0 <= d < c - 1 && RowX(sizes[d], p, |sizes[d]|) == GridWidth(sizes, p, c - 1);
      }
    }
  }

  /** The cell of a technology whose padded box has its top left corner at (x, y). */
  function Place(id: nat, size: Size, x: nat, y: nat, p: nat): GridCell {
    GridCell(id, x + (size.0 + 2 * p) / 2, y + (size.1 + 2 * p) / 2, size.0 / 2, size.1 / 2)
  }

  /** The cells of the first k entries of a column whose top edge is y. */
  function ColumnCells(column: seq<nat>, sizes: seq<Size>, p: nat, y: nat, k: nat): (r: seq<GridCell>)
    requires |column| == |sizes| && k <= |column|
    ensures |r| == k
  {
    if k == 0 then []
    else ColumnCells(column, sizes, p, y, k - 1) + [Place(column[k - 1], sizes[k - 1], RowX(sizes, p, k - 1), y, p)]
  }

  /** The cells of the first c columns, column after column. */
  function LayoutCells(groups: seq<seq<nat>>, sizes: seq<seq<Size>>, p: nat, c: nat): seq<GridCell>
    requires SameShape(groups, sizes) && c <= |groups|
  {
    if c == 0 then []
    else LayoutCells(groups, sizes, p, c - 1) + ColumnCells(groups[c - 1], sizes[c - 1], p, ColumnY(sizes, p, c - 1), |groups[c - 1]|)
  }

  /** The grid of the columns: as wide as the widest column, as high as all columns together. */
  function Layout(groups: seq<seq<nat>>, sizes: seq<seq<Size>>, p: nat): Grid
    requires SameShape(groups, sizes)
  {
    NewGrid(GridWidth(sizes, p, |sizes|), ColumnY(sizes, p, |sizes|), LayoutCells(groups, sizes, p, |groups|))
  }

  /** The depth of every technology. */
  ghost function Depths(tree: Tree): (r: seq<nat>)
    requires Dag(tree)
    ensures |r| == |tree|
  {
    seq(|tree|, v requires 0 <= v < |tree| => Depth(tree, v))
  }

  /** The columns: the ids grouped by depth. */
  ghost function Groups(tree: Tree): (r: seq<seq<nat>>)
    requires Dag(tree)
    ensures IdsBelow(r, |tree|)
  {
    var depth := Depths(tree);
    AtDepthBelow(depth);
    seq(MaxOf(depth) + 1, d requires 0 <= d <= MaxOf(depth) => AtDepth(depth, d, |tree|))
  }

  /** Every index in a depth group is an index of the depth list. */
  lemma AtDepthBelow(depth: seq<nat>)
    ensures forall d: nat, j :: 0 <= j < |AtDepth(depth, d, |depth|)| ==> AtDepth(depth, d, |depth|)[j] < |depth|
  {
    forall d: nat, j | 0 <= j < |AtDepth(depth, d, |depth|)| ensures AtDepth(depth, d, |depth|)[j] < |depth| {
      assert AtDepth(depth, d, |depth|)[j] in AtDepth(depth, d, |depth|);
    }
  }

  /** The grid calculate_grid builds for a tree. */
  ghost function TreeLayout(sizeOf: string -> Size, tree: Tree, p: nat): Grid
    requires Dag(tree)
  {
    var groups := Groups(tree);
    Layout(groups, Sizes(sizeOf, tree, groups), p)
  }

  /** TreeRenderer::calculate_grid: depths, columns and sizes, then the placement loops. */
  method CalculateGrid(renderer: Renderer, tree: Tree, padding: nat) returns (grid: Grid)
    requires Dag(tree)
    ensures grid == TreeLayout(renderer.sizeOf, tree, padding)
  {
    var depth := CalculateDepth(tree);
    assert depth == Depths(tree);
    var groups := GroupByDepth(depth);
    assert groups == Groups(tree);
    var sizes := GetSizes(renderer, tree, groups);
    grid := PlaceColumns(groups, sizes, padding);
  }

  /** The loops of calculate_grid over the columns zipped with their sizes (the sizes come
      from get_sizes, so the two line up). */
  method PlaceColumns(groups: seq<seq<nat>>, sizes: seq<seq<Size>>, padding: nat) returns (grid: Grid)
    requires SameShape(groups, sizes)
    ensures grid == Layout(groups, sizes, padding)
  {
    var cells: seq<GridCell> := [];
    var maxWidth: nat := 0;
    var y: nat := 0;
    var c := 0;
    while c < |groups|
      invariant 0 <= c <= |groups|
      invariant cells == LayoutCells(groups, sizes, padding, c)
      invariant maxWidth == GridWidth(sizes, padding, c)
      invariant y == ColumnY(sizes, padding, c)
    {
      var x, columnHeight, columnCells := PlaceColumn(groups[c], sizes[c], padding, y);
      LayoutStep(groups, sizes, padding, c);
      cells := cells + columnCells;
      maxWidth := Max(maxWidth, x);
      y := y + columnHeight;
      c := c + 1;
    }
    grid := NewGrid(maxWidth, y, cells);
  }

  /** Placing column c extends the cells, the width and the height of the first c columns. */
  lemma LayoutStep(groups: seq<seq<nat>>, sizes: seq<seq<Size>>, p: nat, c: nat)
    requires SameShape(groups, sizes) && c < |groups|
    ensures LayoutCells(groups, sizes, p, c + 1) ==
      LayoutCells(groups, sizes, p, c) + ColumnCells(groups[c], sizes[c], p, ColumnY(sizes, p, c), |groups[c]|)
    ensures GridWidth(sizes, p, c + 1) == Max(GridWidth(sizes, p, c), RowX(sizes[c], p, |sizes[c]|))
    ensures ColumnY(sizes, p, c + 1) == ColumnY(sizes, p, c) + ColumnHeight(sizes[c], p)
  {
  }

  /** The inner loop of calculate_grid: one column placed left to right from x = 0. */
  method PlaceColumn(column: seq<nat>, sizes: seq<Size>, padding: nat, y: nat)
    returns (x: nat, columnHeight: nat, cells: seq<GridCell>)
    requires |column| == |sizes|
    ensures x == RowX(sizes, padding, |sizes|)
    ensures columnHeight == ColumnHeight(sizes, padding)
    ensures cells == ColumnCells(column, sizes, padding, y, |column|)
  {
    x := 0;
    columnHeight := 0;
    cells := [];
    var k := 0;
    while k < |column|
      invariant 0 <= k <= |column|
      invariant x == RowX(sizes, padding, k)
      invariant columnHeight == ColumnHeight(sizes[..k], padding)
      invariant cells == ColumnCells(column, sizes, padding, y, k)
    {
      var size := sizes[k];
      var paddedWidth := size.0 + 2 * padding;
      var paddedHeight := size.1 + 2 * padding;
      cells := cells + [GridCell(column[k], x + paddedWidth / 2, y + paddedHeight / 2, size.0 / 2, size.1 / 2)];
      x := x + paddedWidth;
      columnHeight := paddedHeight;
      k := k + 1;
    }
    assert sizes[..k] == sizes;
  }

  // ---------------------------------------------------------------------------------
  // One cell per technology

  /** The columns one after the other. */
  function Concat(groups: seq<seq<nat>>, c: nat): seq<nat>
    requires c <= |groups|
  {
    if c == 0 then [] else Concat(groups, c - 1) + groups[c - 1]
  }

  lemma CellIdsAppend(a: seq<GridCell>, b: seq<GridCell>)
    ensures CellIds(a + b) == CellIds(a) + CellIds(b)
  {
    assert forall i :: 0 <= i < |a + b| ==> CellIds(a + b)[i] == (CellIds(a) + CellIds(b))[i];
  }

  lemma {:induction false} ColumnCellsIds(column: seq<nat>, sizes: seq<Size>, p: nat, y: nat, k: nat)
    requires |column| == |sizes| && k <= |column|
    ensures CellIds(ColumnCells(column, sizes, p, y, k)) == column[..k]
  {
    if k > 0 {
      ColumnCellsIds(column, sizes, p, y, k - 1);
      CellIdsAppend(ColumnCells(column, sizes, p, y, k - 1), [Place(column[k - 1], sizes[k - 1], RowX(sizes, p, k - 1), y, p)]);
      assert column[..k] == column[..k - 1] + [column[k - 1]];
    }
  }

  /** The cells follow the columns: their ids are the columns concatenated. */
  lemma {:induction false} LayoutCellsIds(groups: seq<seq<nat>>, sizes: seq<seq<Size>>, p: nat, c: nat)
    requires SameShape(groups, sizes) && c <= |groups|
    ensures CellIds(LayoutCells(groups, sizes, p, c)) == Concat(groups, c)
  {
    if c > 0 {
      LayoutCellsIds(groups, sizes, p, c - 1);
      var column := ColumnCells(groups[c - 1], sizes[c - 1], p, ColumnY(sizes, p, c - 1), |groups[c - 1]|);
      CellIdsAppend(LayoutCells(groups, sizes, p, c - 1), column);
      ColumnCellsIds(groups[c - 1], sizes[c - 1], p, ColumnY(sizes, p, c - 1), |groups[c - 1]|);
      assert groups[c - 1][..|groups[c - 1]|] == groups[c - 1];
    }
  }

  /** Concatenating the first c depth groups holds each index of depth below c once. */
  lemma {:induction false} ConcatCount(depth: seq<nat>, groups: seq<seq<nat>>, c: nat, v: nat)
    requires c <= |groups|
    requires forall d :: 0 <= d < |groups| ==> Count(groups[d], v) == if v < |depth| && depth[v] == d then 1 else 0
    ensures Count(Concat(groups, c), v) == if v < |depth| && depth[v] < c then 1 else 0
  {
    if c > 0 {
      var prev := Concat(groups, c - 1);
      var group := groups[c - 1];
      ConcatCount(depth, groups, c - 1, v);
      CountAppend(prev, group, v);
      assert Count(Concat(groups, c), v) == Count(prev, v) + Count(group, v);
    }
  }

  lemma GroupCount(depth: seq<nat>, d: nat, v: nat)
    ensures Count(AtDepth(depth, d, |depth|), v) == if v < |depth| && depth[v] == d then 1 else 0
  {
    if v < |depth| {
      GroupsPartition(depth, v, d);
    }
  }

  /** calculate_grid places every technology exactly once and nothing else. */
  lemma OneCellPerId(sizeOf: string -> Size, tree: Tree, p: nat, v: nat)
    requires Dag(tree)
    ensures Count(CellIds(TreeLayout(sizeOf, tree, p).cells), v) == if v < |tree| then 1 else 0
  {
    var groups := Groups(tree);
    var sizes := Sizes(sizeOf, tree, groups);
    LayoutCellsIds(groups, sizes, p, |groups|);
    forall d | 0 <= d < |groups|
      ensures Count(groups[d], v) == if v < |tree| && Depths(tree)[v] == d then 1 else 0
    {
      GroupCount(Depths(tree), d, v);
    }
    ConcatCount(Depths(tree), groups, |groups|, v);
  }

  /** Every cell names a technology of the tree and every technology has a cell. */
  predicate Drawable(tree: Tree, grid: Grid) {
    && (forall i :: 0 <= i < |grid.cells| ==> grid.cells[i].id < |tree|)
    && (forall v: nat :: v < |tree| ==> GetCell(grid, v).Some?)
  }

  /** Hence the cell ids are distinct, every one names a technology, and the lookup of
      each technology finds its cell. */
  lemma LayoutLookups(sizeOf: string -> Size, tree: Tree, p: nat)
    requires Dag(tree)
    ensures Distinct(CellIds(TreeLayout(sizeOf, tree, p).cells))
    ensures Drawable(tree, TreeLayout(sizeOf, tree, p))
    ensures forall v: nat :: v < |tree| ==>
      (GetCell(TreeLayout(sizeOf, tree, p), v).Some? && GetCell(TreeLayout(sizeOf, tree, p), v).value.id == v)
  {
    var grid := TreeLayout(sizeOf, tree, p);
    var ids := CellIds(grid.cells);
    forall x: nat ensures Count(ids, x) <= 1 {
      OneCellPerId(sizeOf, tree, p, x);
    }
    CountAtMostOneDistinct(ids);
    forall i | 0 <= i < |grid.cells| ensures grid.cells[i].id < |tree| {
      OneCellPerId(sizeOf, tree, p, ids[i]);
      assert ids[i] in ids;
    }
    forall v: nat | v < |tree| ensures GetCell(grid, v).Some? && GetCell(grid, v).value.id == v {
      OneCellPerId(sizeOf, tree, p, v);
      var i :| 0 <= i < |ids| && ids[i] == v;
      GetCellFinds(grid.width, grid.height, grid.cells, v);
    }
  }

  // ---------------------------------------------------------------------------------
  // Drawing (render)

  /** The cell the lookup finds for an id (the origin cell if there were none). */
  function CellOf(grid: Grid, id: nat): GridCell {
    match GetCell(grid, id)
    case Some(cell) => cell
    case None => SimpleCell(id)
  }

  /** One link per successor, from the start point to the end point of the successor's cell. */
  function LinkEvents(grid: Grid, start: Point, successors: seq<nat>, linkEnd: GridCell -> Point): (r: seq<Event>)
    ensures |r| == |successors|
    ensures forall j :: 0 <= j < |successors| ==> r[j] == LinkDrawn([start, linkEnd(CellOf(grid, successors[j]))])
  {
    if successors == [] then []
    else
      var last := LinkDrawn([start, linkEnd(CellOf(grid, successors[|successors| - 1]))]);
      LinkEvents(grid, start, successors[..|successors| - 1], linkEnd) + [last]
  }

  /** The calls for one cell: its technology, then the links to its successors. */
  function CellEvents(tree: Tree, grid: Grid, cell: GridCell, linkStart: GridCell -> Point, linkEnd: GridCell -> Point): seq<Event>
    requires cell.id < |tree|
  {
    var technology := tree[cell.id];
    [TechnologyDrawn(GetFull(technology.name), cell.centerX, cell.centerY)] +
    (if technology.successors == [] then [] else LinkEvents(grid, linkStart(cell), technology.successors, linkEnd))
  }

  /** The calls for the first k cells, in cell order. */
  function DrawEvents(tree: Tree, grid: Grid, k: nat, linkStart: GridCell -> Point, linkEnd: GridCell -> Point): seq<Event>
    requires k <= |grid.cells|
    requires forall i :: 0 <= i < |grid.cells| ==> grid.cells[i].id < |tree|
  {
    if k == 0 then []
    else DrawEvents(tree, grid, k - 1, linkStart, linkEnd) + CellEvents(tree, grid, grid.cells[k - 1], linkStart, linkEnd)
  }

  /** The calls that draw a grid: init with the grid's size, then the cells in order. */
  function GridEvents(tree: Tree, grid: Grid, linkStart: GridCell -> Point, linkEnd: GridCell -> Point): seq<Event>
    requires Drawable(tree, grid)
  {
    [Started(grid.width, grid.height)] + DrawEvents(tree, grid, |grid.cells|, linkStart, linkEnd)
  }

  /** All calls render makes for a tree. */
  ghost function RenderEvents(sizeOf: string -> Size, tree: Tree, p: nat, linkStart: GridCell -> Point, linkEnd: GridCell -> Point): seq<Event>
    requires Dag(tree)
  {
    LayoutLookups(sizeOf, tree, p);
    GridEvents(tree, TreeLayout(sizeOf, tree, p), linkStart, linkEnd)
  }

  /** TreeRenderer::render. get_link_start and get_link_end are not part of this model and
      are passed in as functions of a cell. */
  method Render(renderer: Renderer, tree: Tree, padding: nat, linkStart: GridCell -> Point, linkEnd: GridCell -> Point)
    requires Dag(tree)
    modifies renderer
    ensures renderer.log == old(renderer.log) + RenderEvents(renderer.sizeOf, tree, padding, linkStart, linkEnd)
  {
    var grid := CalculateGrid(renderer, tree, padding);
    LayoutLookups(renderer.sizeOf, tree, padding);
    DrawGrid(renderer, tree, grid, linkStart, linkEnd);
  }

  /** The drawing part of render, once the grid is known. */
  method DrawGrid(renderer: Renderer, tree: Tree, grid: Grid, linkStart: GridCell -> Point, linkEnd: GridCell -> Point)
    requires WellFormed(tree) && Drawable(tree, grid)
    modifies renderer
    ensures renderer.log == old(renderer.log) + GridEvents(tree, grid, linkStart, linkEnd)
  {
    renderer.Init(grid.width, grid.height);
    ghost var start := renderer.log;
    var i := 0;
    while i < |grid.cells|
      invariant 0 <= i <= |grid.cells|
      invariant renderer.log == start + DrawEvents(tree, grid, i, linkStart, linkEnd)
    {
      ghost var before := renderer.log;
      RenderCell(renderer, tree, grid, grid.cells[i], linkStart, linkEnd);
      DrawEventsStep(tree, grid, i, linkStart, linkEnd, start, before, renderer.log);
      i := i + 1;
    }
  }

  /** One more cell drawn extends the calls by that cell's calls. */
  lemma DrawEventsStep(tree: Tree, grid: Grid, i: nat, linkStart: GridCell -> Point, linkEnd: GridCell -> Point,
                       start: seq<Event>, before: seq<Event>, after: seq<Event>)
    requires i < |grid.cells| && Drawable(tree, grid)
    requires before == start + DrawEvents(tree, grid, i, linkStart, linkEnd)
    requires after == before + CellEvents(tree, grid, grid.cells[i], linkStart, linkEnd)
    ensures after == start + DrawEvents(tree, grid, i + 1, linkStart, linkEnd)
  {
  }

  /** The body of render's loop for one cell. */
  method RenderCell(renderer: Renderer, tree: Tree, grid: Grid, cell: GridCell, linkStart: GridCell -> Point, linkEnd: GridCell -> Point)
    requires WellFormed(tree) && cell.id < |tree|
    requires forall v: nat :: v < |tree| ==> GetCell(grid, v).Some?
    modifies renderer
    ensures renderer.log == old(renderer.log) + CellEvents(tree, grid, cell, linkStart, linkEnd)
  {
    var found := Get(tree, cell.id);
    assert found.Some?;
    var technology := found.value;
    renderer.RenderTechnology(GetFull(technology.name), cell.centerX, cell.centerY);
    if technology.successors != [] {
      var linkStartPoint := linkStart(cell);
      RenderLinks(renderer, tree, grid, linkStartPoint, technology.successors, linkEnd);
    }
  }

  /** render's inner loop: one link per successor. */
  method RenderLinks(renderer: Renderer, tree: Tree, grid: Grid, start: Point, successors: seq<nat>, linkEnd: GridCell -> Point)
    requires forall j :: 0 <= j < |successors| ==> successors[j] < |tree|
    requires forall v: nat :: v < |tree| ==> GetCell(grid, v).Some?
    modifies renderer
    ensures renderer.log == old(renderer.log) + LinkEvents(grid, start, successors, linkEnd)
  {
    var j := 0;
    while j < |successors|
      invariant 0 <= j <= |successors|
      invariant renderer.log == old(renderer.log) + LinkEvents(grid, start, successors[..j], linkEnd)
    {
      var successorCell := GetCell(grid, successors[j]);
      assert successorCell.Some?;
      renderer.RenderLink([start, linkEnd(successorCell.value)]);
      assert successors[..j + 1][..j] == successors[..j];
      j := j + 1;
    }
    assert successors[..j] == successors;
  }

  // ---------------------------------------------------------------------------------
  // Properties of the layout

  /** get_sizes keeps the shape of the columns, and every entry of a column carries the
      column's largest height. */
  lemma SizesShape(sizeOf: string -> Size, tree: Tree, groups: seq<seq<nat>>)
    requires IdsBelow(groups, |tree|)
    ensures SameShape(groups, Sizes(sizeOf, tree, groups))
    ensures forall c, k :: 0 <= c < |groups| && 0 <= k < |groups[c]| ==>
      Sizes(sizeOf, tree, groups)[c][k] == (TechSize(sizeOf, tree, groups[c][k]).0, MaxHeight(sizeOf, tree, groups[c]))
  {
  }

  /** All entries of each column have the same height. */
  predicate Uniform(sizes: seq<seq<Size>>) {
    forall c, k :: 0 <= c < |sizes| && 0 <= k < |sizes[c]| ==> sizes[c][k].1 == sizes[c][|sizes[c]| - 1].1
  }

  lemma SizesUniform(sizeOf: string -> Size, tree: Tree, groups: seq<seq<nat>>)
    requires IdsBelow(groups, |tree|)
    ensures Uniform(Sizes(sizeOf, tree, groups))
  {
  }

  lemma {:induction false} RowXGrows(sizes: seq<Size>, p: nat, k: nat, l: nat)
    requires k <= l <= |sizes|
    ensures RowX(sizes, p, k) <= RowX(sizes, p, l)
  {
    if k < l {
      RowXGrows(sizes, p, k, l - 1);
    }
  }

  lemma {:induction false} ColumnYGrows(sizes: seq<seq<Size>>, p: nat, c: nat, d: nat)
    requires c <= d <= |sizes|
    ensures ColumnY(sizes, p, c) <= ColumnY(sizes, p, d)
  {
    if c < d {
      ColumnYGrows(sizes, p, c, d - 1);
    }
  }

  lemma {:induction false} ColumnCellAt(column: seq<nat>, sizes: seq<Size>, p: nat, y: nat, n: nat, k: nat)
    requires |column| == |sizes| && k < n <= |column|
    ensures ColumnCells(column, sizes, p, y, n)[k] == Place(column[k], sizes[k], RowX(sizes, p, k), y, p)
  {
    if k < n - 1 {
      ColumnCellAt(column, sizes, p, y, n - 1, k);
    }
  }

  lemma {:induction false} LayoutCellsLength(groups: seq<seq<nat>>, sizes: seq<seq<Size>>, p: nat, c: nat)
    requires SameShape(groups, sizes) && c <= |groups|
    ensures |LayoutCells(groups, sizes, p, c)| == |Concat(groups, c)|
  {
    LayoutCellsIds(groups, sizes, p, c);
  }

  lemma {:induction false} LayoutCellAtUpTo(groups: seq<seq<nat>>, sizes: seq<seq<Size>>, p: nat, c: nat, k: nat, upTo: nat)
    requires SameShape(groups, sizes) && c < upTo <= |groups| && k < |groups[c]|
    ensures |Concat(groups, c)| + k < |LayoutCells(groups, sizes, p, upTo)|
    ensures LayoutCells(groups, sizes, p, upTo)[|Concat(groups, c)| + k] ==
      Place(groups[c][k], sizes[c][k], RowX(sizes[c], p, k), ColumnY(sizes, p, c), p)
  {
    var last := upTo - 1;
    var front := LayoutCells(groups, sizes, p, last);
    var column := ColumnCells(groups[last], sizes[last], p, ColumnY(sizes, p, last), |groups[last]|);
    assert LayoutCells(groups, sizes, p, upTo) == front + column;
    var index := |Concat(groups, c)| + k;
    if last == c {
      LayoutCellsLength(groups, sizes, p, c);
      ColumnCellAt(groups[c], sizes[c], p, ColumnY(sizes, p, c), |groups[c]|, k);
      assert (front + column)[index] == column[k];
    } else {
      LayoutCellAtUpTo(groups, sizes, p, c, k, last);
      assert (front + column)[index] == front[index];
    }
  }

  /** calculate_grid places the k-th entry of column c right after the cells of the
      earlier columns: its padded box starts at the sum of the padded widths before it in
      the column and at the sum of the heights of the earlier columns, its centre is
      half a padded box further, and its half sizes are the unpadded ones. */
  lemma LayoutCellAt(groups: seq<seq<nat>>, sizes: seq<seq<Size>>, p: nat, c: nat, k: nat)
    requires SameShape(groups, sizes) && c < |groups| && k < |groups[c]|
    ensures |Concat(groups, c)| + k < |Layout(groups, sizes, p).cells|
    ensures Layout(groups, sizes, p).cells[|Concat(groups, c)| + k] ==
      GridCell(groups[c][k],
               RowX(sizes[c], p, k) + (sizes[c][k].0 + 2 * p) / 2,
               ColumnY(sizes, p, c) + (sizes[c][k].1 + 2 * p) / 2,
               sizes[c][k].0 / 2, sizes[c][k].1 / 2)
  {
    LayoutCellAtUpTo(groups, sizes, p, c, k, |groups|);
  }

  /** Within a column the boxes go left to right and never overlap: between the boxes of
      two entries lie both paddings. */
  lemma SideBySide(column: seq<nat>, sizes: seq<Size>, p: nat, y: nat, k: nat, l: nat)
    requires |column| == |sizes| && k < l < |column|
    ensures var a := Place(column[k], sizes[k], RowX(sizes, p, k), y, p);
      var b := Place(column[l], sizes[l], RowX(sizes, p, l), y, p);
      a.centerX + a.halfWidth + 2 * p <= b.centerX - b.halfWidth
  {
    RowXGrows(sizes, p, k + 1, l);
  }

  /** Columns are stacked: with the heights that get_sizes gives, every box of an earlier
      column ends, padding included, above every box of a later one. */
  lemma Stacked(groups: seq<seq<nat>>, sizes: seq<seq<Size>>, p: nat, c: nat, k: nat, d: nat, l: nat)
    requires SameShape(groups, sizes) && Uniform(sizes)
    requires c < d < |groups| && k < |groups[c]| && l < |groups[d]|
    ensures var a := Place(groups[c][k], sizes[c][k], RowX(sizes[c], p, k), ColumnY(sizes, p, c), p);
      var b := Place(groups[d][l], sizes[d][l], RowX(sizes[d], p, l), ColumnY(sizes, p, d), p);
      a.centerY + a.halfHeight + 2 * p <= b.centerY - b.halfHeight
  {
    ColumnYGrows(sizes, p, c + 1, d);
    var h := sizes[c][k].1;
    assert h == sizes[c][|sizes[c]| - 1].1;
    assert ColumnY(sizes, p, c) + h + 2 * p == ColumnY(sizes, p, c + 1);
    assert (h + 2 * p) / 2 + h / 2 <= h + p;
    assert (sizes[d][l].1 + 2 * p) / 2 >= sizes[d][l].1 / 2 + p;
  }

  /** Every box, padding included, lies inside the grid's width and height. */
  lemma InsideGrid(groups: seq<seq<nat>>, sizes: seq<seq<Size>>, p: nat, c: nat, k: nat)
    requires SameShape(groups, sizes) && Uniform(sizes) && c < |groups| && k < |groups[c]|
    ensures var a := Place(groups[c][k], sizes[c][k], RowX(sizes[c], p, k), ColumnY(sizes, p, c), p);
      var grid := Layout(groups, sizes, p);
      a.centerX + a.halfWidth + p <= grid.width && a.centerY + a.halfHeight + p <= grid.height
  {
    RowXGrows(sizes[c], p, k + 1, |sizes[c]|);
    ColumnYGrows(sizes, p, c + 1, |sizes|);
    GridWidthIsMax(sizes, p, |sizes|);
  }

  /** The technology events of a log, in order. */
  function Drawn(events: seq<Event>): (r: seq<Event>)
    ensures forall j :: 0 <= j < |r| ==> r[j].TechnologyDrawn?
  {
    if events == [] then []
    else Drawn(events[..|events| - 1]) + (if events[|events| - 1].TechnologyDrawn? then [events[|events| - 1]] else [])
  }

  lemma {:induction false} DrawnAppend(a: seq<Event>, b: seq<Event>)
    ensures Drawn(a + b) == Drawn(a) + Drawn(b)
  {
    if b != [] {
      DrawnAppend(a, b[..|b| - 1]);
      assert (a + b)[..|a + b| - 1] == a + b[..|b| - 1];
    } else {
      assert a + b == a;
    }
  }

  lemma {:induction false} LinksDrawNothing(grid: Grid, start: Point, successors: seq<nat>, linkEnd: GridCell -> Point)
    ensures Drawn(LinkEvents(grid, start, successors, linkEnd)) == []
  {
    if successors != [] {
      var prefix := LinkEvents(grid, start, successors[..|successors| - 1], linkEnd);
      LinksDrawNothing(grid, start, successors[..|successors| - 1], linkEnd);
      DrawnAppend(prefix, [LinkDrawn([start, linkEnd(CellOf(grid, successors[|successors| - 1]))])]);
    }
  }

  lemma CellDrawn(tree: Tree, grid: Grid, cell: GridCell, linkStart: GridCell -> Point, linkEnd: GridCell -> Point)
    requires cell.id < |tree|
    ensures Drawn(CellEvents(tree, grid, cell, linkStart, linkEnd)) ==
      [TechnologyDrawn(GetFull(tree[cell.id].name), cell.centerX, cell.centerY)]
  {
    var technology := tree[cell.id];
    var head := [TechnologyDrawn(GetFull(technology.name), cell.centerX, cell.centerY)];
    var links := if technology.successors == [] then [] else LinkEvents(grid, linkStart(cell), technology.successors, linkEnd);
    if technology.successors != [] {
      LinksDrawNothing(grid, linkStart(cell), technology.successors, linkEnd);
    }
    DrawnAppend(head, links);
    assert Drawn(head) == head by {
      assert head[..0] == [];
    }
  }

  /** The technology event render makes for cell i. */
  function DrawnAt(tree: Tree, grid: Grid, i: nat): Event
    requires i < |grid.cells| && grid.cells[i].id < |tree|
  {
    TechnologyDrawn(GetFull(tree[grid.cells[i].id].name), grid.cells[i].centerX, grid.cells[i].centerY)
  }

  /** The technology events of the first k cells, one per cell in cell order. */
  function DrawnList(tree: Tree, grid: Grid, k: nat): (r: seq<Event>)
    requires k <= |grid.cells| && forall i :: 0 <= i < |grid.cells| ==> grid.cells[i].id < |tree|
    ensures |r| == k && forall i :: 0 <= i < k ==> r[i] == DrawnAt(tree, grid, i)
  {
    if k == 0 then [] else DrawnList(tree, grid, k - 1) + [DrawnAt(tree, grid, k - 1)]
  }

  /** render draws one technology per cell, in cell order, with the technology's full name
      at the cell's centre. */
  lemma {:induction false} DrawnTechnologies(tree: Tree, grid: Grid, k: nat, linkStart: GridCell -> Point, linkEnd: GridCell -> Point)
    requires (forall i :: 0 <= i < |grid.cells| ==> grid.cells[i].id < |tree|) && k <= |grid.cells|
    ensures Drawn(DrawEvents(tree, grid, k, linkStart, linkEnd)) == DrawnList(tree, grid, k)
  {
    if k > 0 {
      DrawnTechnologies(tree, grid, k - 1, linkStart, linkEnd);
      var prev := DrawEvents(tree, grid, k - 1, linkStart, linkEnd);
      var cell := CellEvents(tree, grid, grid.cells[k - 1], linkStart, linkEnd);
      CellDrawn(tree, grid, grid.cells[k - 1], linkStart, linkEnd);
      DrawnAppend(prev, cell);
    }
  }

  /** render calls init once, first, with the grid's size: no later call is an init. */
  lemma {:induction false} StartedOnce(tree: Tree, grid: Grid, linkStart: GridCell -> Point, linkEnd: GridCell -> Point, k: nat)
    requires Drawable(tree, grid) && k <= |grid.cells|
    ensures GridEvents(tree, grid, linkStart, linkEnd)[0] == Started(grid.width, grid.height)
    ensures forall e :: e in DrawEvents(tree, grid, k, linkStart, linkEnd) ==> !e.Started?
  {
    if k > 0 {
      StartedOnce(tree, grid, linkStart, linkEnd, k - 1);
    }
  }

  // ---------------------------------------------------------------------------------
  // test_render

  /** The size oracle of the test: ten units wide and twenty high per byte. */
  function MockSize(text: string): Size {
    (|text| * 10, |text| * 20)
  }

  /** The tree of test_render: bb and ccc both follow a. */
  function RenderTree(): Tree {
    [ Technology(0, Simple("a"), [], [1, 2]),
      Technology(1, Simple("bb"), [0], []),
      Technology(2, Simple("ccc"), [0], []) ]
  }

  lemma RenderTreeDag()
    ensures Dag(RenderTree())
  {
    RenderTreeConsistent();
    RenderTreeAcyclic();
  }

  lemma RenderTreeConsistent()
    ensures WellFormed(RenderTree()) && Consistent(RenderTree())
  {
    var tree := RenderTree();
    forall a, b | 0 <= a < 3 && 0 <= b < 3
      ensures b in tree[a].successors <==> a in tree[b].predecessors
    {
      assert b in tree[a].successors <==> (a, b) in {(0, 1), (0, 2)};
      assert a in tree[b].predecessors <==> (a, b) in {(0, 1), (0, 2)};
    }
  }

  lemma RenderTreeAcyclic()
    ensures WellFormed(RenderTree()) && !HasCycle(RenderTree())
  {
    var tree := RenderTree();
    var rank: seq<nat> := [2, 1, 1];
    forall u: nat, v: nat | u < |tree| && IsEdge(tree, u, v) && v < |tree|
      ensures rank[v] < rank[u]
    {
      assert u == 0 ==> v == 1 || v == 2;
      assert u != 1 && u != 2;
    }
    DecreasingRankAcyclic(tree, rank);
  }

  lemma RenderDepths()
    ensures Dag(RenderTree()) && Depths(RenderTree()) == [0, 1, 1]
  {
    RenderTreeDag();
    var tree := RenderTree();
    DepthIsMax(tree, 0);
    DepthIsMax(tree, 1);
    DepthIsMax(tree, 2);
  }

  lemma RenderMaxDepth()
    ensures MaxOf([0, 1, 1]) == 1
  {
    var depth: seq<nat> := [0, 1, 1];
    var m := MaxOf(depth);
    assert depth[1] <= m;
    var i :| 0 <= i < |depth| && depth[i] == m;
  }

  lemma RenderColumns()
    ensures AtDepth([0, 1, 1], 0, 3) == [0] && AtDepth([0, 1, 1], 1, 3) == [1, 2]
  {
    var depth: seq<nat> := [0, 1, 1];
    assert AtDepth(depth, 0, 1) == [0];
    assert AtDepth(depth, 0, 2) == [0];
    assert AtDepth(depth, 1, 1) == [];
    assert AtDepth(depth, 1, 2) == [1];
  }

  lemma RenderGroups()
    ensures Dag(RenderTree()) && Groups(RenderTree()) == [[0], [1, 2]]
  {
    RenderDepths();
    RenderMaxDepth();
    RenderColumnGroups();
    GroupsFromDepths(RenderTree(), [0, 1, 1], [[0], [1, 2]]);
  }

  lemma RenderColumnGroups()
    ensures forall d :: 0 <= d < 2 ==> [[0], [1, 2]][d] == AtDepth([0, 1, 1], d, 3)
  {
    RenderColumns();
  }

  /** The columns of a tree, given its depths and the groups of those depths. */
  lemma GroupsFromDepths(tree: Tree, depth: seq<nat>, groups: seq<seq<nat>>)
    requires Dag(tree) && Depths(tree) == depth
    requires |groups| == MaxOf(depth) + 1
    requires forall d :: 0 <= d < |groups| ==> groups[d] == AtDepth(depth, d, |depth|)
    ensures Groups(tree) == groups
  {
  }

  lemma RenderSizes()
    ensures IdsBelow([[0], [1, 2]], |RenderTree()|)
    ensures Sizes(MockSize, RenderTree(), [[0], [1, 2]]) == [[(10, 20)], [(20, 60), (30, 60)]]
  {
    var tree := RenderTree();
    assert GetFull(tree[0].name) == "a";
    assert GetFull(tree[1].name) == "bb";
    assert GetFull(tree[2].name) == "ccc";
    assert MaxHeight(MockSize, tree, [0]) == 20;
    assert [1, 2][..1] == [1];
    assert MaxHeight(MockSize, tree, [1]) == 40;
    assert MaxHeight(MockSize, tree, [1, 2]) == 60;
    assert ColumnSizes(MockSize, tree, [0]) == [(10, 20)];
    assert ColumnSizes(MockSize, tree, [1, 2]) == [(20, 60), (30, 60)];
  }

  /** The cells test_render expects, except that bb, sharing its column with the taller
      ccc, is centred at (15, 65): get_sizes gives every entry of a column the column's
      largest height. */
  function RenderCells(): seq<GridCell> {
    [GridCell(0, 10, 15, 5, 10), GridCell(1, 15, 65, 10, 30), GridCell(2, 50, 65, 15, 30)]
  }

  lemma RenderPlacement()
    ensures SameShape([[0], [1, 2]], [[(10, 20)], [(20, 60), (30, 60)]])
    ensures Layout([[0], [1, 2]], [[(10, 20)], [(20, 60), (30, 60)]], 5) == NewGrid(70, 100, RenderCells())
  {
    RenderExtent();
    RenderCellsPlaced();
  }

  lemma RenderExtent()
    ensures GridWidth([[(10, 20)], [(20, 60), (30, 60)]], 5, 2) == 70
    ensures ColumnY([[(10, 20)], [(20, 60), (30, 60)]], 5, 2) == 100
  {
    var sizes: seq<seq<Size>> := [[(10, 20)], [(20, 60), (30, 60)]];
    assert RowX(sizes[0], 5, 1) == 20;
    assert RowX(sizes[1], 5, 1) == 30;
    assert RowX(sizes[1], 5, 2) == 70;
    assert GridWidth(sizes, 5, 1) == 20;
    assert ColumnY(sizes, 5, 1) == 30;
  }

  lemma RenderCellsPlaced()
    ensures SameShape([[0], [1, 2]], [[(10, 20)], [(20, 60), (30, 60)]])
    ensures LayoutCells([[0], [1, 2]], [[(10, 20)], [(20, 60), (30, 60)]], 5, 2) == RenderCells()
  {
    var groups: seq<seq<nat>> := [[0], [1, 2]];
    var sizes: seq<seq<Size>> := [[(10, 20)], [(20, 60), (30, 60)]];
    assert RowX(sizes[0], 5, 0) == 0 && RowX(sizes[1], 5, 1) == 30;
    assert ColumnY(sizes, 5, 1) == 30;
    assert LayoutCells(groups, sizes, 5, 1) == [GridCell(0, 10, 15, 5, 10)];
    assert ColumnCells(groups[1], sizes[1], 5, 30, 1) == [GridCell(1, 15, 65, 10, 30)];
    assert ColumnCells(groups[1], sizes[1], 5, 30, 2) == [GridCell(1, 15, 65, 10, 30), GridCell(2, 50, 65, 15, 30)];
  }

  lemma RenderExampleLayout()
    ensures Dag(RenderTree())
    ensures TreeLayout(MockSize, RenderTree(), 5) == NewGrid(70, 100, RenderCells())
  {
    RenderGroups();
    RenderSizes();
    RenderPlacement();
  }

  /** What render logs for a grid: init first, then one technology per cell in order. */
  lemma GridEventsDrawn(tree: Tree, grid: Grid, linkStart: GridCell -> Point, linkEnd: GridCell -> Point)
    requires Drawable(tree, grid)
    ensures GridEvents(tree, grid, linkStart, linkEnd)[0] == Started(grid.width, grid.height)
    ensures Drawn(GridEvents(tree, grid, linkStart, linkEnd)) == DrawnList(tree, grid, |grid.cells|)
  {
    var draw := DrawEvents(tree, grid, |grid.cells|, linkStart, linkEnd);
    DrawnTechnologies(tree, grid, |grid.cells|, linkStart, linkEnd);
    DrawnAppend([Started(grid.width, grid.height)], draw);
    assert Drawn([Started(grid.width, grid.height)]) == [] by {
      assert [Started(grid.width, grid.height)][..0] == [];
    }
  }

  lemma RenderGridDrawable()
    ensures Drawable(RenderTree(), NewGrid(70, 100, RenderCells()))
  {
    var cells := RenderCells();
    assert CellIds(cells) == [0, 1, 2];
    GetCellDistinct(70, 100, cells, 0);
    GetCellDistinct(70, 100, cells, 1);
    GetCellDistinct(70, 100, cells, 2);
  }

  lemma RenderDrawnList()
    ensures Drawable(RenderTree(), NewGrid(70, 100, RenderCells()))
    ensures DrawnList(RenderTree(), NewGrid(70, 100, RenderCells()), 3) ==
      [TechnologyDrawn("a", 10, 15), TechnologyDrawn("bb", 15, 65), TechnologyDrawn("ccc", 50, 65)]
  {
    RenderGridDrawable();
    var tree := RenderTree();
    assert GetFull(tree[0].name) == "a";
    assert GetFull(tree[1].name) == "bb";
    assert GetFull(tree[2].name) == "ccc";
  }

  /** test_render with padding 5: a 70 by 100 grid with a at (10, 15), bb at (15, 65) and
      ccc at (50, 65); init comes first and the technologies are drawn in that order. */
  lemma RenderExample(linkStart: GridCell -> Point, linkEnd: GridCell -> Point)
    ensures Dag(RenderTree())
    ensures TreeLayout(MockSize, RenderTree(), 5) == NewGrid(70, 100, RenderCells())
    ensures RenderEvents(MockSize, RenderTree(), 5, linkStart, linkEnd)[0] == Started(70, 100)
    ensures Drawn(RenderEvents(MockSize, RenderTree(), 5, linkStart, linkEnd)) ==
      [TechnologyDrawn("a", 10, 15), TechnologyDrawn("bb", 15, 65), TechnologyDrawn("ccc", 50, 65)]
  {
    RenderExampleLayout();
    RenderDrawnList();
    var grid := NewGrid(70, 100, RenderCells());
    GridEventsDrawn(RenderTree(), grid, linkStart, linkEnd);
    assert RenderEvents(MockSize, RenderTree(), 5, linkStart, linkEnd) == GridEvents(RenderTree(), grid, linkStart, linkEnd);
  }
}
