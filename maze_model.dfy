/** Option, for lookups that may find nothing. */
module Wrappers {
  datatype Option<+T> = None | Some(value: T)
}

/**
 * The maze as the browser receives it (a JSON object with width, height,
 * start, end and a list of cells carrying four wall flags), the lookup
 * `getCell` and the movement test `canMove` that every engine consults.
 * Coordinates are unbounded integers: nothing stops an engine from
 * stepping through an open outer wall to x = -1.
 */
module MazeModel {
  import opened Wrappers

  datatype Point = Point(x: int, y: int)

  /** The four wall flags of a cell; true means the wall is standing. */
  datatype Walls = Walls(top: bool, right: bool, bottom: bool, left: bool)

  datatype Cell = Cell(x: int, y: int, walls: Walls)

  datatype Maze = Maze(width: int, height: int, start: Point, end: Point, cells: seq<Cell>)

  /**
   * What `getCell` hands back: `null` when there is no maze yet,
   * `undefined` when no cell has the coordinate, or the first matching cell.
   */
  datatype Lookup = NoMaze | Missing | Found(cell: Cell)

  function Abs(n: int): nat { if n < 0 then -n else n }

  /** Manhattan distance 1: the two points share an edge of the grid. */
  predicate Adjacent(a: Point, b: Point) {
    Abs(a.x - b.x) + Abs(a.y - b.y) == 1
  }

  /** Direction indices as the wall followers use them: 0 up, 1 right, 2 down, 3 left. */
  function Heading(p: Point, d: int): Point {
    if d == 0 then Point(p.x, p.y - 1)
    else if d == 1 then Point(p.x + 1, p.y)
    else if d == 2 then Point(p.x, p.y + 1)
    else Point(p.x - 1, p.y)
  }

  /** The wall of a cell that faces direction `d`. */
  function WallToward(w: Walls, d: int): bool {
    if d == 0 then w.top
    else if d == 1 then w.right
    else if d == 2 then w.bottom
    else w.left
  }

  /** A `{dx, dy}` entry of the direction tables the searches iterate over. */
  datatype Delta = Delta(dx: int, dy: int)

  function Shift(p: Point, d: Delta): Point {
    Point(p.x + d.dx, p.y + d.dy)
  }

  predicate At(c: Cell, x: int, y: int) {
    c.x == x && c.y == y
  }

  /** Index `k` holds the first cell of `cells` at (x, y). */
  predicate FirstAt(cells: seq<Cell>, k: int, x: int, y: int) {
    0 <= k < |cells| && At(cells[k], x, y) &&
    forall j :: 0 <= j < k ==> !At(cells[j], x, y)
  }

  /** `cells.find(...)`, as an index: the first cell at (x, y), if any. */
  function FindCell(cells: seq<Cell>, x: int, y: int): (r: Option<nat>)
    ensures r.Some? ==> FirstAt(cells, r.value, x, y)
    ensures r.None? ==> forall k :: 0 <= k < |cells| ==> !At(cells[k], x, y)
  {
    if cells == [] then None
    else if At(cells[0], x, y) then Some(0)
    else match FindCell(cells[1..], x, y)
      case None => None
      case Some(i) => Some(i + 1)
  }

  /** `MazeGame.getCell`. */
  function GetCell(maze: Option<Maze>, x: int, y: int): (r: Lookup)
    ensures r.NoMaze? <==> maze.None?
    ensures r.Found? ==> exists k :: FirstAt(maze.value.cells, k, x, y) && maze.value.cells[k] == r.cell
    ensures r.Missing? ==> forall k :: 0 <= k < |maze.value.cells| ==> !At(maze.value.cells[k], x, y)
  {
    if maze.None? then NoMaze
    else match FindCell(maze.value.cells, x, y)
      case None => Missing
      case Some(k) => Found(maze.value.cells[k])
  }

  /**
   * `MazeGame.canMove`: only the source cell is looked up, and only its
   * wall in the direction of travel is consulted; the destination is
   * never looked up, and the two points need not be adjacent.
   */
  function CanMove(maze: Option<Maze>, from: Point, to: Point): (r: bool)
    ensures r ==> GetCell(maze, from.x, from.y).Found?
    ensures from == to ==> !r
  {
    match GetCell(maze, from.x, from.y)
    case Found(c) =>
      if from.x < to.x then !c.walls.right
      else if from.x > to.x then !c.walls.left
      else if from.y < to.y then !c.walls.bottom
      else if from.y > to.y then !c.walls.top
      else false
    case _ => false
  }

  /** A move between different columns reads the right or left wall, whatever the two rows are. */
  lemma CanMoveHorizontal(maze: Option<Maze>, from: Point, to: Point, y: int)
    requires from.x != to.x
    ensures CanMove(maze, from, to) == CanMove(maze, from, Point(to.x, y))
    ensures CanMove(maze, from, to) <==>
      GetCell(maze, from.x, from.y).Found? &&
      !(if from.x < to.x then GetCell(maze, from.x, from.y).cell.walls.right
        else GetCell(maze, from.x, from.y).cell.walls.left)
  {
  }

  /** A step in direction `d` is allowed exactly when the source cell exists and its wall toward `d` is down. */
  lemma CanMoveToward(maze: Option<Maze>, p: Point, d: int)
    requires 0 <= d < 4
    ensures Adjacent(p, Heading(p, d))
    ensures CanMove(maze, p, Heading(p, d)) <==>
      GetCell(maze, p.x, p.y).Found? && !WallToward(GetCell(maze, p.x, p.y).cell.walls, d)
  {
  }

  /** The destination's cell plays no part: an open outer wall lets a move leave the grid. */
  lemma CanMoveIgnoresDestination(m: Maze, p: Point, d: int)
    requires 0 <= d < 4
    requires GetCell(Some(m), p.x, p.y).Found?
    requires !WallToward(GetCell(Some(m), p.x, p.y).cell.walls, d)
    ensures CanMove(Some(m), p, Heading(p, d))
  {
    CanMoveToward(Some(m), p, d);
  }

  // Paths as the engines keep them: a coordinate per cell, start first.

  /** Consecutive entries are grid neighbours and each step passes `canMove`. */
  predicate Legal(maze: Maze, path: seq<Point>) {
    forall i :: 0 <= i < |path| - 1 ==>
      Adjacent(path[i], path[i + 1]) && CanMove(Some(maze), path[i], path[i + 1])
  }

  predicate Route(maze: Maze, path: seq<Point>, from: Point, to: Point) {
    |path| > 0 && path[0] == from && path[|path| - 1] == to && Legal(maze, path)
  }

  function PathSet(path: seq<Point>): set<Point> {
    set p | p in path
  }

  predicate Distinct(s: seq<Point>) {
    forall i, j :: 0 <= i < j < |s| ==> s[i] != s[j]
  }

  /** Appending one passable neighbour extends a route by one step. */
  lemma RouteExtend(maze: Maze, path: seq<Point>, from: Point, to: Point, next: Point)
    requires Route(maze, path, from, to)
    requires Adjacent(to, next) && CanMove(Some(maze), to, next)
    ensures Route(maze, path + [next], from, next)
  {
    var q := path + [next];
    forall i | 0 <= i < |q| - 1
      ensures Adjacent(q[i], q[i + 1]) && CanMove(Some(maze), q[i], q[i + 1])
    {
      if i < |path| - 1 {
        assert q[i] == path[i] && q[i + 1] == path[i + 1];
      } else {
        assert q[i] == to && q[i + 1] == next;
      }
    }
  }

  lemma PathSetAppend(path: seq<Point>, next: Point)
    ensures PathSet(path + [next]) == PathSet(path) + {next}
  {
    assert forall p :: p in path + [next] <==> p in path || p == next;
  }
}
