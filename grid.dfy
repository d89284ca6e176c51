/** The layout grid (tech_tree/src/rendering/grid.rs): the placed cells of a tree and a
    lookup from technology id to the cell of that technology. */
module GridCells {
  import opened Wrappers
  import opened Seqs

  /** A placed technology: its centre and the halves of its unpadded size. */
  datatype GridCell = GridCell(id: nat, centerX: nat, centerY: nat, halfWidth: nat, halfHeight: nat)

  /** The grid: overall size, the cells in placement order and the id lookup built from them. */
  datatype Grid = Grid(width: nat, height: nat, cells: seq<GridCell>, idMap: map<nat, nat>)

  /** GridCell::simple: the given id, centred at the origin, without extent. */
  function SimpleCell(id: nat): (c: GridCell)
    ensures c.id == id
    ensures c.centerX == 0 && c.centerY == 0 && c.halfWidth == 0 && c.halfHeight == 0
  {
    GridCell(id, 0, 0, 0, 0)
  }

  /** The map collected from (cell id, position) pairs: a later cell with the same id
      overwrites the position of an earlier one. */
  function IdMap(cells: seq<GridCell>): map<nat, nat> {
    if cells == [] then map[]
    else IdMap(cells[..|cells| - 1])[cells[|cells| - 1].id := |cells| - 1]
  }

  /** The map holds exactly the ids of the cells, each at a position of a cell with that
      id after which no cell carries the id again. */
  lemma {:induction false} IdMapFinds(cells: seq<GridCell>)
    ensures forall id: nat :: id in IdMap(cells) <==> exists i :: 0 <= i < |cells| && cells[i].id == id
    ensures forall id: nat :: id in IdMap(cells) ==> IdMap(cells)[id] < |cells| && cells[IdMap(cells)[id]].id == id
    ensures forall id: nat, j :: id in IdMap(cells) && IdMap(cells)[id] < j < |cells| ==> cells[j].id != id
  {
    if cells != [] {
      var init := cells[..|cells| - 1];
      var last := |cells| - 1;
      IdMapFinds(init);
      var prev := IdMap(init);
      var m := IdMap(cells);
      assert m == prev[cells[last].id := last];
      forall id: nat ensures id in m <==> exists i :: 0 <= i < |cells| && cells[i].id == id {
        if id in prev {
          var i :| 0 <= i < |init| && init[i].id == id;
          assert cells[i].id == id;
        } else if id == cells[last].id {
          assert cells[last].id == id;
        } else {
          forall i | 0 <= i < |cells| ensures cells[i].id != id {
            if i < last {
              assert init[i] == cells[i];
            }
          }
        }
      }
      forall id: nat | id in m ensures m[id] < |cells| && cells[m[id]].id == id {
        if id != cells[last].id {
          assert init[prev[id]] == cells[prev[id]];
        }
      }
      forall id: nat, j | id in m && m[id] < j < |cells| ensures cells[j].id != id {
        if j < last {
          assert init[j] == cells[j];
        }
      }
    }
  }

  /** Grid::new: keeps the size and the cells and indexes the cells by id. */
  function NewGrid(width: nat, height: nat, cells: seq<GridCell>): (g: Grid)
    ensures g.width == width && g.height == height && g.cells == cells
  {
    Grid(width, height, cells, IdMap(cells))
  }

  /** Grid::get_cell: the cell the lookup names, if any. */
  function GetCell(grid: Grid, id: nat): (r: Option<GridCell>)
    ensures r.Some? <==> id in grid.idMap && grid.idMap[id] < |grid.cells|
    ensures r.Some? ==> r.value in grid.cells
  {
    if id in grid.idMap && grid.idMap[id] < |grid.cells| then Some(grid.cells[grid.idMap[id]]) else None
  }

  /** A lookup in a grid built by Grid::new succeeds exactly for the ids of its cells, and
      what it finds is a cell of the grid carrying that id. */
  lemma GetCellFinds(width: nat, height: nat, cells: seq<GridCell>, id: nat)
    ensures GetCell(NewGrid(width, height, cells), id).Some? <==>
      exists i :: 0 <= i < |cells| && cells[i].id == id
    ensures GetCell(NewGrid(width, height, cells), id).Some? ==>
      GetCell(NewGrid(width, height, cells), id).value.id == id &&
      GetCell(NewGrid(width, height, cells), id).value in cells
  {
    IdMapFinds(cells);
  }

  /** The ids of the cells, in order. */
  function CellIds(cells: seq<GridCell>): (ids: seq<nat>)
    ensures |ids| == |cells| && forall i :: 0 <= i < |cells| ==> ids[i] == cells[i].id
  {
    seq(|cells|, i requires 0 <= i < |cells| => cells[i].id)
  }

  /** With distinct ids the lookup of each cell's id finds that very cell. */
  lemma GetCellDistinct(width: nat, height: nat, cells: seq<GridCell>, i: nat)
    requires Distinct(CellIds(cells)) && i < |cells|
    ensures GetCell(NewGrid(width, height, cells), cells[i].id) == Some(cells[i])
  {
    IdMapFinds(cells);
    var m := IdMap(cells);
    var id := cells[i].id;
    assert id in m;
    var k := m[id];
    assert CellIds(cells)[k] == CellIds(cells)[i];
  }

  /** test_new: three simple cells are kept in order, each id is found, id 3 is not. */
  lemma NewGridExample()
    ensures var cells := [SimpleCell(0), SimpleCell(1), SimpleCell(2)];
      var grid := NewGrid(0, 0, cells);
      grid.cells == cells &&
      GetCell(grid, 0) == Some(cells[0]) && GetCell(grid, 1) == Some(cells[1]) &&
      GetCell(grid, 2) == Some(cells[2]) && GetCell(grid, 3) == None
  {
    var cells := [SimpleCell(0), SimpleCell(1), SimpleCell(2)];
    assert CellIds(cells) == [0, 1, 2];
    GetCellDistinct(0, 0, cells, 0);
    GetCellDistinct(0, 0, cells, 1);
    GetCellDistinct(0, 0, cells, 2);
    GetCellFinds(0, 0, cells, 3);
  }
}
