/**
 * The server's maze generator on objects: `Cell` records updated in place,
 * a grid of them indexed grid[x][y], `get_unvisited_neighbors`,
 * `remove_walls` and `generate_maze`, whose random picks come from the
 * parameters. The loop is proved against the value-level theory of
 * module Carving through ghost copies of the visited set and the walls.
 */
module MazeGenerator {
  import opened Wrappers
  import opened MazeModel
  import opened Carving

  /** `Cell(x, y)`: fixed coordinates, a visited flag and four wall flags. */
  class Cell {
    const x: int
    const y: int
    var visited: bool
    var walls: Walls

    /** A new cell has all four walls and is not visited. */
    constructor (x: int, y: int)
      ensures this.x == x && this.y == y && !visited && walls == Closed
    {
      this.x := x;
      this.y := y;
      visited := false;
      walls := Closed;
    }
  }

  /** The coordinates of a list of cells. */
  function Coords(cells: seq<Cell>): (r: seq<Point>)
    ensures |r| == |cells|
    ensures forall k :: 0 <= k < |cells| ==> r[k] == Point(cells[k].x, cells[k].y)
  {
    if cells == [] then [] else [Point(cells[0].x, cells[0].y)] + Coords(cells[1..])
  }

  /** `grid[x][y]` is the cell at (x, y), for a width-by-height grid. */
  ghost predicate Shape(grid: seq<seq<Cell>>, w: int, h: int) {
    |grid| == w &&
    forall i :: 0 <= i < w ==> (|grid[i]| == h &&
      forall j :: 0 <= j < h ==> grid[i][j].x == i && grid[i][j].y == j)
  }

  ghost function CellsOf(grid: seq<seq<Cell>>): set<Cell> {
    set i, j | 0 <= i < |grid| && 0 <= j < |grid[i]| :: grid[i][j]
  }

  /** The coordinates of the visited cells. */
  ghost function VisitedOf(grid: seq<seq<Cell>>, w: int, h: int): set<Point>
    requires Shape(grid, w, h)
    reads CellsOf(grid)
  {
    set i, j | 0 <= i < w && 0 <= j < h && grid[i][j].visited :: Point(i, j)
  }

  lemma VisitedOfMember(grid: seq<seq<Cell>>, w: int, h: int, p: Point)
    requires Shape(grid, w, h) && InGrid(w, h, p)
    ensures p in VisitedOf(grid, w, h) <==> grid[p.x][p.y].visited
  {
    if grid[p.x][p.y].visited {
      assert Point(p.x, p.y) in VisitedOf(grid, w, h);
    }
  }

  /** The grid's flags agree with a visited set and a wall map over the grid. */
  ghost predicate Mirrors(grid: seq<seq<Cell>>, w: int, h: int, visited: set<Point>, walls: map<Point, Walls>)
    reads CellsOf(grid)
  {
    Shape(grid, w, h) && visited <= AllCoords(w, h) && walls.Keys == AllCoords(w, h) &&
    forall i, j :: 0 <= i < w && 0 <= j < h ==>
      (grid[i][j].visited <==> Point(i, j) in visited) && Point(i, j) in walls &&
      grid[i][j].walls == walls[Point(i, j)]
  }

  lemma MirrorsVisited(grid: seq<seq<Cell>>, w: int, h: int, visited: set<Point>, walls: map<Point, Walls>)
    requires Mirrors(grid, w, h, visited, walls)
    ensures VisitedOf(grid, w, h) == visited
  {
    forall p | p in visited ensures p in VisitedOf(grid, w, h) {
      AllCoordsIsGrid(w, h, p);
      VisitedOfMember(grid, w, h, p);
    }
  }

  /** `[[Cell(x, y) for y in range(height)] for x in range(width)]`. */
  method MakeGrid(width: nat, height: nat) returns (grid: seq<seq<Cell>>)
    ensures Shape(grid, width, height)
    ensures forall i, j :: 0 <= i < width && 0 <= j < height ==>
      fresh(grid[i][j]) && !grid[i][j].visited && grid[i][j].walls == Closed
  {
    grid := [];
    for i := 0 to width
      invariant |grid| == i
      invariant forall a :: 0 <= a < i ==> (|grid[a]| == height &&
        forall b :: 0 <= b < height ==> (grid[a][b].x == a && grid[a][b].y == b &&
          fresh(grid[a][b]) && !grid[a][b].visited && grid[a][b].walls == Closed))
    {
      var column := MakeColumn(i, height);
      grid := grid + [column];
    }
  }

  /** `[Cell(x, y) for y in range(height)]`. */
  method MakeColumn(x: int, height: nat) returns (column: seq<Cell>)
    ensures |column| == height
    ensures forall b :: 0 <= b < height ==> (column[b].x == x && column[b].y == b &&
      fresh(column[b]) && !column[b].visited && column[b].walls == Closed)
  {
    column := [];
    for j := 0 to height
      invariant |column| == j
      invariant forall b :: 0 <= b < j ==> (column[b].x == x && column[b].y == b &&
        fresh(column[b]) && !column[b].visited && column[b].walls == Closed)
    {
      var c := new Cell(x, j);
      column := column + [c];
    }
  }

  lemma CoordsSnoc(cells: seq<Cell>, c: Cell)
    ensures Coords(cells + [c]) == Coords(cells) + [Point(c.x, c.y)]
  {
  }

  /** Trying direction i adds the neighbour that way exactly when it is inside the grid and not visited. */
  lemma NeighborStep(grid: seq<seq<Cell>>, w: int, h: int, p: Point, i: nat)
    requires Shape(grid, w, h)
    ensures var n := Heading(p, i);
      CandidatesUpTo(w, h, VisitedOf(grid, w, h), p, i + 1) ==
        CandidatesUpTo(w, h, VisitedOf(grid, w, h), p, i) +
        (if 0 <= n.x < w && 0 <= n.y < h && !grid[n.x][n.y].visited then [n] else [])
  {
    var n := Heading(p, i);
    if 0 <= n.x < w && 0 <= n.y < h {
      VisitedOfMember(grid, w, h, n);
    }
  }

  /**
   * `get_unvisited_neighbors`: the grid cells next to `cell` in the order
   * top, right, bottom, left that lie inside the grid and are not visited.
   */
  method GetUnvisitedNeighbors(cell: Cell, grid: seq<seq<Cell>>, width: int, height: int) returns (neighbors: seq<Cell>)
    requires Shape(grid, width, height)
    ensures Coords(neighbors) == Candidates(width, height, VisitedOf(grid, width, height), Point(cell.x, cell.y))
    ensures OnGrid(neighbors, grid, width, height)
  {
    neighbors := [];
    for i := 0 to 4
      invariant Coords(neighbors) == CandidatesUpTo(width, height, VisitedOf(grid, width, height), Point(cell.x, cell.y), i)
      invariant OnGrid(neighbors, grid, width, height)
    {
      neighbors := TryDirection(cell, grid, width, height, neighbors, i);
    }
  }

  /** One pass of the loop over the four directions: keep the neighbour in direction i if it qualifies. */
  method TryDirection(cell: Cell, grid: seq<seq<Cell>>, width: int, height: int, neighbors: seq<Cell>, i: nat)
    returns (neighbors': seq<Cell>)
    requires Shape(grid, width, height) && OnGrid(neighbors, grid, width, height)
    requires Coords(neighbors) == CandidatesUpTo(width, height, VisitedOf(grid, width, height), Point(cell.x, cell.y), i)
    ensures OnGrid(neighbors', grid, width, height)
    ensures Coords(neighbors') == CandidatesUpTo(width, height, VisitedOf(grid, width, height), Point(cell.x, cell.y), i + 1)
  {
    var n := Heading(Point(cell.x, cell.y), i);
    NeighborStep(grid, width, height, Point(cell.x, cell.y), i);
    if 0 <= n.x < width && 0 <= n.y < height && !grid[n.x][n.y].visited {
      CoordsSnoc(neighbors, grid[n.x][n.y]);
      neighbors' := neighbors + [grid[n.x][n.y]];
    } else {
      neighbors' := neighbors;
    }
  }

  /**
   * `remove_walls(current, next_cell)`: with dx, dy = current − next, an x
   * difference of ±1 clears the left/right pair and a y difference of ±1
   * the top/bottom pair. The same cell twice changes nothing.
   */
  method RemoveWalls(current: Cell, nextCell: Cell)
    modifies current, nextCell
    ensures current != nextCell ==>
      (current.walls, nextCell.walls) ==
        ClearedPair(old(current.walls), old(nextCell.walls), current.x - nextCell.x, current.y - nextCell.y)
    ensures current == nextCell ==> current.walls == old(current.walls)
    ensures current.visited == old(current.visited) && nextCell.visited == old(nextCell.visited)
  {
    var dx := current.x - nextCell.x;
    var dy := current.y - nextCell.y;
    if dx == 1 {
      current.walls := current.walls.(left := false);
      nextCell.walls := nextCell.walls.(right := false);
    } else if dx == -1 {
      current.walls := current.walls.(right := false);
      nextCell.walls := nextCell.walls.(left := false);
    }
    if dy == 1 {
      current.walls := current.walls.(top := false);
      nextCell.walls := nextCell.walls.(bottom := false);
    } else if dy == -1 {
      current.walls := current.walls.(bottom := false);
      nextCell.walls := nextCell.walls.(top := false);
    }
  }

  /** Every cell of the list is the grid's own cell at its coordinates. */
  ghost predicate OnGrid(cells: seq<Cell>, grid: seq<seq<Cell>>, w: int, h: int) {
    forall k :: 0 <= k < |cells| ==>
      InGrid(w, h, Point(cells[k].x, cells[k].y)) &&
      0 <= cells[k].x < |grid| && 0 <= cells[k].y < |grid[cells[k].x]| && cells[k] == grid[cells[k].x][cells[k].y]
  }

  lemma OnGridSnoc(cells: seq<Cell>, grid: seq<seq<Cell>>, w: int, h: int, c: Cell)
    requires OnGrid(cells, grid, w, h) && OnGrid([c], grid, w, h)
    ensures OnGrid(cells + [c], grid, w, h)
  {
    forall k | 0 <= k < |cells| + 1
      ensures var e := (cells + [c])[k];
        InGrid(w, h, Point(e.x, e.y)) && 0 <= e.x < |grid| && 0 <= e.y < |grid[e.x]| && e == grid[e.x][e.y]
    {
      if k == |cells| {
        assert (cells + [c])[k] == [c][0];
      } else {
        assert (cells + [c])[k] == cells[k];
      }
    }
  }

  lemma OnGridPrefix(cells: seq<Cell>, grid: seq<seq<Cell>>, w: int, h: int, n: nat)
    requires OnGrid(cells, grid, w, h) && n <= |cells|
    ensures OnGrid(cells[..n], grid, w, h)
  {
    forall k | 0 <= k < n
      ensures var e := cells[..n][k];
        InGrid(w, h, Point(e.x, e.y)) && 0 <= e.x < |grid| && 0 <= e.y < |grid[e.x]| && e == grid[e.x][e.y]
    {
      assert cells[..n][k] == cells[k];
    }
  }

  /** An entry of a list of grid cells is itself a grid cell, with its coordinates listed. */
  lemma Picked(cells: seq<Cell>, grid: seq<seq<Cell>>, w: int, h: int, k: nat)
    requires OnGrid(cells, grid, w, h) && k < |cells|
    ensures OnGrid([cells[k]], grid, w, h) && cells[k] in CellsOf(grid)
    ensures Point(cells[k].x, cells[k].y) in Coords(cells)
  {
    assert [cells[k]][0] == cells[k];
    assert Coords(cells)[k] == Point(cells[k].x, cells[k].y);
  }

  /** One column's cells as maze records. */
  function ColumnCells(col: seq<Cell>): (r: seq<MazeModel.Cell>)
    reads set k | 0 <= k < |col| :: col[k]
    ensures |r| == |col|
    ensures forall k :: 0 <= k < |col| ==> r[k] == MazeModel.Cell(col[k].x, col[k].y, col[k].walls)
  {
    if col == [] then []
    else ColumnCells(col[..|col| - 1]) + [MazeModel.Cell(col[|col| - 1].x, col[|col| - 1].y, col[|col| - 1].walls)]
  }

  /** Where the flattened list keeps cell (x, y): column by column. */
  function Index(x: int, y: int, h: int): int { x * h + y }

  /** The first i columns' cells, column by column. */
  ghost function Flatten(grid: seq<seq<Cell>>, i: nat): seq<MazeModel.Cell>
    requires i <= |grid|
    reads CellsOf(grid)
  {
    if i == 0 then [] else Flatten(grid, i - 1) + ColumnCells(grid[i - 1])
  }

  lemma {:induction false} FlattenLength(grid: seq<seq<Cell>>, w: nat, h: nat, i: nat)
    requires Shape(grid, w, h) && i <= w
    ensures |Flatten(grid, i)| == i * h
  {
    if i > 0 {
      FlattenLength(grid, w, h, i - 1);
    }
  }

  /** Cell (x, y) sits at index x · h + y of the flattened grid. */
  lemma {:induction false} FlattenIndex(grid: seq<seq<Cell>>, w: nat, h: nat, i: nat, x: nat, y: nat)
    requires Shape(grid, w, h) && i <= w && x < i && y < h
    ensures x * h + y < |Flatten(grid, i)|
    ensures Flatten(grid, i)[x * h + y] == MazeModel.Cell(x, y, grid[x][y].walls)
  {
    FlattenLength(grid, w, h, i - 1);
    FlattenLength(grid, w, h, i);
    if x < i - 1 {
      FlattenIndex(grid, w, h, i - 1, x, y);
    } else {
      assert x * h + y == |Flatten(grid, i - 1)| + y;
    }
  }

  /** Every flattened entry is a grid cell with that cell's walls. */
  lemma {:induction false} FlattenInGrid(grid: seq<seq<Cell>>, w: nat, h: nat, i: nat, k: nat)
    requires Shape(grid, w, h) && i <= w && k < |Flatten(grid, i)|
    ensures var c := Flatten(grid, i)[k];
      InGrid(w, h, Point(c.x, c.y)) && c.walls == grid[c.x][c.y].walls
  {
    if k >= |Flatten(grid, i - 1)| {
      assert Flatten(grid, i)[k] == ColumnCells(grid[i - 1])[k - |Flatten(grid, i - 1)|];
    } else {
      FlattenInGrid(grid, w, h, i - 1, k);
    }
  }

  /**
   * The flattened grid lists cell (x, y) at index x · h + y and nothing
   * else: w · h entries, each a grid cell with that cell's walls.
   */
  lemma FlattenLayout(grid: seq<seq<Cell>>, w: nat, h: nat)
    requires Shape(grid, w, h)
    ensures |Flatten(grid, w)| == w * h
    ensures forall x, y :: 0 <= x < w && 0 <= y < h ==>
      0 <= Index(x, y, h) < |Flatten(grid, w)| && Flatten(grid, w)[Index(x, y, h)] == MazeModel.Cell(x, y, grid[x][y].walls)
    ensures forall k :: 0 <= k < |Flatten(grid, w)| ==>
      InGrid(w, h, Point(Flatten(grid, w)[k].x, Flatten(grid, w)[k].y)) &&
      Flatten(grid, w)[k].walls == grid[Flatten(grid, w)[k].x][Flatten(grid, w)[k].y].walls
  {
    var f := Flatten(grid, w);
    FlattenLength(grid, w, h, w);
    forall x, y | 0 <= x < w && 0 <= y < h
      ensures 0 <= Index(x, y, h) < |f| && f[Index(x, y, h)] == MazeModel.Cell(x, y, grid[x][y].walls)
    {
      FlattenIndex(grid, w, h, w, x, y);
    }
    forall k | 0 <= k < |f|
      ensures InGrid(w, h, Point(f[k].x, f[k].y)) && f[k].walls == grid[f[k].x][f[k].y].walls
    {
      FlattenInGrid(grid, w, h, w, k);
    }
  }

  /** `[{"x": cell.x, "y": cell.y, "walls": cell.walls} for row in grid for cell in row]`. */
  method ListCells(grid: seq<seq<Cell>>, width: nat, height: nat) returns (cells: seq<MazeModel.Cell>)
    requires Shape(grid, width, height)
    ensures cells == Flatten(grid, width)
  {
    cells := [];
    for i := 0 to width
      invariant cells == Flatten(grid, i)
    {
      for j := 0 to height
        invariant cells == Flatten(grid, i) + ColumnCells(grid[i][..j])
      {
        assert grid[i][..j + 1][..j] == grid[i][..j];
        cells := cells + [MazeModel.Cell(grid[i][j].x, grid[i][j].y, grid[i][j].walls)];
      }
      assert grid[i][..height] == grid[i];
    }
  }

  /**
   * `current_cell.visited = True` on the start cell of a fresh grid: the
   * grid then mirrors one visited cell and all walls standing.
   */
  method MarkStart(grid: seq<seq<Cell>>, w: int, h: int, x: int, y: int) returns (cell: Cell)
    requires Shape(grid, w, h) && 0 <= x < w && 0 <= y < h
    requires forall i, j :: 0 <= i < w && 0 <= j < h ==> !grid[i][j].visited && grid[i][j].walls == Closed
    modifies grid[x][y]
    ensures cell == grid[x][y]
    ensures Mirrors(grid, w, h, {Point(x, y)}, AllClosed(w, h))
  {
    cell := grid[x][y];
    cell.visited := true;
    forall i, j | 0 <= i < w && 0 <= j < h
      ensures (grid[i][j].visited <==> Point(i, j) in {Point(x, y)}) && Point(i, j) in AllClosed(w, h) &&
        grid[i][j].walls == AllClosed(w, h)[Point(i, j)]
    {
      AllCoordsIsGrid(w, h, Point(i, j));
    }
    AllCoordsIsGrid(w, h, Point(x, y));
  }

  /**
   * `remove_walls(current_cell, next_cell)` followed by
   * `next_cell.visited = True`, for the neighbour in direction d: the grid
   * then mirrors the visited set with the neighbour added and the wall map
   * with that edge carved.
   */
  method CarveTo(current: Cell, next: Cell, grid: seq<seq<Cell>>, w: int, h: int,
                 ghost visited: set<Point>, ghost walls: map<Point, Walls>, ghost d: int)
    requires Mirrors(grid, w, h, visited, walls)
    requires InGrid(w, h, Point(current.x, current.y)) && current == grid[current.x][current.y]
    requires InGrid(w, h, Point(next.x, next.y)) && next == grid[next.x][next.y]
    requires 0 <= d < 4 && Point(next.x, next.y) == Heading(Point(current.x, current.y), d)
    modifies current, next
    ensures Mirrors(grid, w, h, visited + {Point(next.x, next.y)}, Carve(walls, Point(current.x, current.y), d))
  {
    ghost var p, q := Point(current.x, current.y), Point(next.x, next.y);
    AllCoordsIsGrid(w, h, p);
    AllCoordsIsGrid(w, h, q);
    assert current.walls == walls[p] && next.walls == walls[q];
    ghost var pair := ClearedPair(walls[p], walls[q], p.x - q.x, p.y - q.y);
    ghost var v, c := visited + {q}, Carve(walls, p, d);
    assert c == walls[p := pair.0][q := pair.1];
    RemoveWalls(current, next);
    next.visited := true;
    assert current.walls == pair.0 && next.walls == pair.1;
    forall i, j | 0 <= i < w && 0 <= j < h
      ensures (grid[i][j].visited <==> Point(i, j) in v) && Point(i, j) in c && grid[i][j].walls == c[Point(i, j)]
    {
      AllCoordsIsGrid(w, h, Point(i, j));
      if Point(i, j) == p {
        assert grid[i][j] == current;
      } else if Point(i, j) == q {
        assert grid[i][j] == next;
      } else {
        assert grid[i][j] != current && grid[i][j] != next;
        assert grid[i][j].walls == old(grid[i][j].walls);
      }
    }
  }

  /** `stack.pop()` on a top cell without unvisited neighbours keeps the invariant. */
  method Backtrack(grid: seq<seq<Cell>>, width: int, height: int, stack: seq<Cell>, ghost root: Point,
                   ghost visited: set<Point>, ghost walls: map<Point, Walls>, ghost parent: map<Point, Point>,
                   ghost rank: map<Point, nat>, carved: nat)
    returns (stack': seq<Cell>)
    requires stack != [] && Mirrors(grid, width, height, visited, walls) && OnGrid(stack, grid, width, height)
    requires CarveInv(width, height, root, visited, walls, Coords(stack), parent, rank, carved)
    requires Candidates(width, height, visited, Point(stack[|stack| - 1].x, stack[|stack| - 1].y)) == []
    ensures stack' == stack[..|stack| - 1]
    ensures Mirrors(grid, width, height, visited, walls) && OnGrid(stack', grid, width, height)
    ensures CarveInv(width, height, root, visited, walls, Coords(stack'), parent, rank, carved)
  {
    ghost var s := Coords(stack);
    assert s[|s| - 1] == Point(stack[|stack| - 1].x, stack[|stack| - 1].y);
    PopPreserves(width, height, root, visited, walls, s, parent, rank, carved);
    assert Coords(stack[..|stack| - 1]) == s[..|s| - 1];
    OnGridPrefix(stack, grid, width, height, |stack| - 1);
    stack' := stack[..|stack| - 1];
  }

  /**
   * Carving from the top cell to `nextCell`, one of its unvisited
   * neighbours, and pushing it keeps the invariant with one more carve.
   */
  method PushStep(grid: seq<seq<Cell>>, width: int, height: int, stack: seq<Cell>, nextCell: Cell,
                  ghost root: Point, ghost visited: set<Point>, ghost walls: map<Point, Walls>,
                  ghost parent: map<Point, Point>, ghost rank: map<Point, nat>, carved: nat)
    returns (ghost visited': set<Point>, ghost walls': map<Point, Walls>,
             ghost parent': map<Point, Point>, ghost rank': map<Point, nat>)
    requires stack != []
    requires Mirrors(grid, width, height, visited, walls) && OnGrid(stack, grid, width, height)
    requires CarveInv(width, height, root, visited, walls, Coords(stack), parent, rank, carved)
    requires OnGrid([nextCell], grid, width, height)
    requires Point(nextCell.x, nextCell.y) in Candidates(width, height, visited, Point(stack[|stack| - 1].x, stack[|stack| - 1].y))
    modifies stack[|stack| - 1], nextCell
    ensures Mirrors(grid, width, height, visited', walls') && OnGrid(stack + [nextCell], grid, width, height)
    ensures CarveInv(width, height, root, visited', walls', Coords(stack + [nextCell]), parent', rank', carved + 1)
    ensures visited' == visited + {Point(nextCell.x, nextCell.y)} && Point(nextCell.x, nextCell.y) !in visited
    ensures AllCoords(width, height) - visited' < AllCoords(width, height) - visited
  {
    var currentCell := stack[|stack| - 1];
    ghost var p := Point(currentCell.x, currentCell.y);
    ghost var q := Point(nextCell.x, nextCell.y);
    ghost var s := Coords(stack);
    assert s[|s| - 1] == p;
    assert OnGrid([currentCell], grid, width, height) by {
      assert [currentCell][0] == stack[|stack| - 1];
    }
    CandidatesMembers(width, height, visited, p, q);
    AdjacentHeading(p, q);
    ghost var d :| 0 <= d < 4 && q == Heading(p, d);
    PushPreserves(width, height, root, visited, walls, s, parent, rank, carved, d);
    CoordsSnoc(stack, nextCell);
    OnGridSnoc(stack, grid, width, height, nextCell);
    assert [currentCell][0] == currentCell && [nextCell][0] == nextCell;
    CarveTo(currentCell, nextCell, grid, width, height, visited, walls, d);
    visited', walls', parent', rank' := visited + {q}, Carve(walls, p, d), parent[q := p], rank[q := carved + 1];
    AllCoordsIsGrid(width, height, q);
    assert q in AllCoords(width, height) - visited && q !in AllCoords(width, height) - visited';
  }

  /**
   * One pass of the `while stack:` loop: the top cell is popped when it has
   * no unvisited neighbour; otherwise the neighbour at `pick % |neighbors|`
   * is carved to, marked visited and pushed. The ghost state follows: the
   * carving invariant holds again, and either a cell was added to the
   * visited set or the stack got shorter.
   */
  method CarveStep(grid: seq<seq<Cell>>, width: int, height: int, stack: seq<Cell>, pick: nat,
                   ghost root: Point, ghost visited: set<Point>, ghost walls: map<Point, Walls>,
                   ghost parent: map<Point, Point>, ghost rank: map<Point, nat>, carved: nat)
    returns (stack': seq<Cell>, carved': nat, ghost visited': set<Point>, ghost walls': map<Point, Walls>,
             ghost parent': map<Point, Point>, ghost rank': map<Point, nat>)
    requires stack != []
    requires Mirrors(grid, width, height, visited, walls) && OnGrid(stack, grid, width, height)
    requires CarveInv(width, height, root, visited, walls, Coords(stack), parent, rank, carved)
    modifies CellsOf(grid)
    ensures Mirrors(grid, width, height, visited', walls') && OnGrid(stack', grid, width, height)
    ensures CarveInv(width, height, root, visited', walls', Coords(stack'), parent', rank', carved')
    ensures visited' == visited ==> |stack'| < |stack|
    ensures visited' != visited ==> AllCoords(width, height) - visited' < AllCoords(width, height) - visited
  {
    var currentCell := stack[|stack| - 1];
    MirrorsVisited(grid, width, height, visited, walls);
    var neighbors := GetUnvisitedNeighbors(currentCell, grid, width, height);
    if |neighbors| == 0 {
      stack' := Backtrack(grid, width, height, stack, root, visited, walls, parent, rank, carved);
      carved', visited', walls', parent', rank' := carved, visited, walls, parent, rank;
      return;
    }
    var nextCell := neighbors[pick % |neighbors|];
    Picked(neighbors, grid, width, height, pick % |neighbors|);
    Picked(stack, grid, width, height, |stack| - 1);
    visited', walls', parent', rank' := PushStep(grid, width, height, stack, nextCell, root, visited, walls, parent, rank, carved);
    stack', carved' := stack + [nextCell], carved + 1;
  }

  /** The listed cells carry the mirrored wall map: cell (x, y) at `Index(x, y, h)`, and only grid cells. */
  lemma MirroredLayout(grid: seq<seq<Cell>>, w: nat, h: nat, visited: set<Point>, walls: map<Point, Walls>,
                       cells: seq<MazeModel.Cell>)
    requires Mirrors(grid, w, h, visited, walls) && cells == Flatten(grid, w)
    ensures |cells| == w * h
    ensures forall p :: InGrid(w, h, p) <==> p in walls
    ensures forall x, y :: 0 <= x < w && 0 <= y < h ==>
      0 <= Index(x, y, h) < |cells| && Point(x, y) in walls &&
      cells[Index(x, y, h)] == MazeModel.Cell(x, y, walls[Point(x, y)])
    ensures forall k :: 0 <= k < |cells| ==>
      InGrid(w, h, Point(cells[k].x, cells[k].y)) && Point(cells[k].x, cells[k].y) in walls &&
      cells[k].walls == walls[Point(cells[k].x, cells[k].y)]
  {
    FlattenLayout(grid, w, h);
    forall p ensures InGrid(w, h, p) <==> p in walls {
      AllCoordsIsGrid(w, h, p);
    }
  }

  /** When the stack is empty the tree spans the grid with width · height − 1 edges. */
  lemma SpanningTree(w: nat, h: nat, root: Point, visited: set<Point>, walls: map<Point, Walls>,
                     parent: map<Point, Point>, rank: map<Point, nat>, carved: nat)
    requires CarveInv(w, h, root, visited, walls, [], parent, rank, carved)
    ensures Tree(root, AllCoords(w, h), parent, rank)
    ensures |parent.Keys| == w * h - 1
    ensures WallsFollowTree(w, h, walls, parent) && Symmetric(w, h, walls)
  {
    CarveDone(w, h, root, visited, walls, parent, rank, carved);
    AllCoordsSize(w, h);
    assert parent.Keys == AllCoords(w, h) - {root};
  }

  /**
   * The tail of `generate_maze`: start (0, 0), end (width − 1, height − 1)
   * and the cells listed column by column, each with its walls.
   */
  method MazeData(grid: seq<seq<Cell>>, width: nat, height: nat, ghost visited: set<Point>, ghost walls: map<Point, Walls>)
    returns (maze: Maze)
    requires Mirrors(grid, width, height, visited, walls)
    ensures maze.width == width && maze.height == height
    ensures maze.start == Point(0, 0) && maze.end == Point(width - 1, height - 1)
    ensures |maze.cells| == width * height
    ensures forall p :: InGrid(width, height, p) <==> p in walls
    ensures forall x, y :: 0 <= x < width && 0 <= y < height ==>
      0 <= Index(x, y, height) < |maze.cells| && Point(x, y) in walls &&
      maze.cells[Index(x, y, height)] == MazeModel.Cell(x, y, walls[Point(x, y)])
    ensures forall k :: 0 <= k < |maze.cells| ==>
      InGrid(width, height, Point(maze.cells[k].x, maze.cells[k].y)) &&
      Point(maze.cells[k].x, maze.cells[k].y) in walls &&
      maze.cells[k].walls == walls[Point(maze.cells[k].x, maze.cells[k].y)]
  {
    var cells := ListCells(grid, width, height);
    MirroredLayout(grid, width, height, visited, walls, cells);
    maze := Maze(width, height, Point(0, 0), Point(width - 1, height - 1), cells);
  }

  /**
   * `generate_maze(width, height)`: randomized depth-first carving from the
   * start cell `(startX, startY)`; the k-th `random.choice` takes the
   * neighbour at index `choose(k) % |neighbors|`. The result lists every
   * cell once, column by column, with start (0, 0) and end
   * (width − 1, height − 1). The open walls are exactly the edges of a
   * spanning tree of the grid rooted at the start cell, so every cell is
   * reachable and there are width · height − 1 passages; the walls on
   * both sides of every edge agree.
   */
  method GenerateMaze(width: int, height: int, startX: int, startY: int, choose: nat -> nat)
    returns (maze: Maze, ghost walls: map<Point, Walls>, ghost parent: map<Point, Point>, ghost rank: map<Point, nat>)
    requires 1 <= width && 1 <= height
    requires 0 <= startX < width && 0 <= startY < height
    ensures maze.width == width && maze.height == height
    ensures maze.start == Point(0, 0) && maze.end == Point(width - 1, height - 1)
    ensures |maze.cells| == width * height
    ensures forall p :: InGrid(width, height, p) <==> p in walls
    ensures forall x, y :: 0 <= x < width && 0 <= y < height ==>
      0 <= Index(x, y, height) < |maze.cells| && Point(x, y) in walls &&
      maze.cells[Index(x, y, height)] == MazeModel.Cell(x, y, walls[Point(x, y)])
    ensures forall k :: 0 <= k < |maze.cells| ==>
      InGrid(width, height, Point(maze.cells[k].x, maze.cells[k].y)) &&
      Point(maze.cells[k].x, maze.cells[k].y) in walls &&
      maze.cells[k].walls == walls[Point(maze.cells[k].x, maze.cells[k].y)]
    ensures Tree(Point(startX, startY), AllCoords(width, height), parent, rank)
    ensures |parent.Keys| == width * height - 1
    ensures WallsFollowTree(width, height, walls, parent) && Symmetric(width, height, walls)
  {
    var grid: seq<seq<Cell>> := MakeGrid(width, height);
    var currentCell := MarkStart(grid, width, height, startX, startY);
    var stack := [currentCell];
    ghost var root := Point(startX, startY);
    ghost var visited := {root};
    walls, parent, rank := AllClosed(width, height), map[], map[root := 0];
    var picks: nat := 0;
    CarveInit(width, height, root);
    assert Coords(stack) == [root];
    while stack != []
      invariant fresh(CellsOf(grid))
      invariant Mirrors(grid, width, height, visited, walls)
      invariant OnGrid(stack, grid, width, height)
      invariant CarveInv(width, height, root, visited, walls, Coords(stack), parent, rank, picks)
      decreases AllCoords(width, height) - visited, |stack|
    {
      stack, picks, visited, walls, parent, rank :=
        CarveStep(grid, width, height, stack, choose(picks), root, visited, walls, parent, rank, picks);
    }
    SpanningTree(width, height, root, visited, walls, parent, rank, picks);
    maze := MazeData(grid, width, height, visited, walls);
  }

  /**
   * On a maze laid out as `generate_maze` returns it, `canMove` allows a
   * step in a direction exactly along an edge of the carving tree, and
   * never from a coordinate outside the grid.
   */
  lemma GeneratedMoves(maze: Maze, w: int, h: int, walls: map<Point, Walls>, parent: map<Point, Point>,
                       p: Point, d: int)
    requires 0 <= d < 4
    requires forall x, y :: 0 <= x < w && 0 <= y < h ==>
      0 <= Index(x, y, h) < |maze.cells| && Point(x, y) in walls &&
      maze.cells[Index(x, y, h)] == MazeModel.Cell(x, y, walls[Point(x, y)])
    requires forall k :: 0 <= k < |maze.cells| ==>
      InGrid(w, h, Point(maze.cells[k].x, maze.cells[k].y)) &&
      Point(maze.cells[k].x, maze.cells[k].y) in walls &&
      maze.cells[k].walls == walls[Point(maze.cells[k].x, maze.cells[k].y)]
    requires WallsFollowTree(w, h, walls, parent)
    ensures InGrid(w, h, p) ==> (CanMove(Some(maze), p, Heading(p, d)) <==> Linked(parent, p, Heading(p, d)))
    ensures !InGrid(w, h, p) ==> !CanMove(Some(maze), p, Heading(p, d))
  {
    CanMoveToward(Some(maze), p, d);
    var r := GetCell(Some(maze), p.x, p.y);
    if InGrid(w, h, p) {
      var i := Index(p.x, p.y, h);
      assert At(maze.cells[i], p.x, p.y);
      assert r.Found?;
      var k :| FirstAt(maze.cells, k, p.x, p.y) && maze.cells[k] == r.cell;
      assert r.cell.walls == walls[p];
    } else {
      assert !r.Found?;
    }
  }
}
