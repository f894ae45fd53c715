/**
 * What the two wall followers share: the facing index (0 up, 1 right,
 * 2 down, 3 left), the three directions each tries in order, and the
 * outcome of one step as a function of position and facing. The right
 * follower is the left one seen in a mirror.
 */
module WallFollowing {
  import opened Wrappers
  import opened MazeModel

  /** Left of the facing, straight on, right of it. */
  function LeftTurns(d: int): seq<int> {
    [(d + 3) % 4, d, (d + 1) % 4]
  }

  /** Right of the facing, straight on, left of it. */
  function RightTurns(d: int): seq<int> {
    [(d + 1) % 4, d, (d + 3) % 4]
  }

  /** The three candidates are three different valid facings, none of them the reverse. */
  lemma TurnsInRange(d: int)
    requires 0 <= d < 4
    ensures forall k :: 0 <= k < 3 ==> 0 <= LeftTurns(d)[k] < 4 && 0 <= RightTurns(d)[k] < 4
    ensures (d + 2) % 4 !in LeftTurns(d) && (d + 2) % 4 !in RightTurns(d)
    ensures LeftTurns(d)[0] != LeftTurns(d)[1] && LeftTurns(d)[1] != LeftTurns(d)[2] &&
      LeftTurns(d)[2] != LeftTurns(d)[0]
    ensures LeftTurns(d)[1] == RightTurns(d)[1] == d
    ensures LeftTurns(d)[0] == RightTurns(d)[2] && LeftTurns(d)[2] == RightTurns(d)[0]
  {
  }

  /** The index of the first candidate whose move `canMove` allows, if any. */
  function FirstOpen(maze: Maze, p: Point, prefs: seq<int>): (r: Option<nat>)
    ensures r.Some? ==> (r.value < |prefs| && CanMove(Some(maze), p, Heading(p, prefs[r.value])) &&
      forall j :: 0 <= j < r.value ==> !CanMove(Some(maze), p, Heading(p, prefs[j])))
    ensures r.None? ==> forall j :: 0 <= j < |prefs| ==> !CanMove(Some(maze), p, Heading(p, prefs[j]))
  {
    if prefs == [] then None
    else if CanMove(Some(maze), p, Heading(p, prefs[0])) then Some(0)
    else match FirstOpen(maze, p, prefs[1..])
      case None => None
      case Some(i) => Some(i + 1)
  }

  /**
   * Position and facing after a step that starts off the goal: the first
   * passable candidate is taken and faced; with none, the follower turns
   * around on the spot.
   */
  function Follow(maze: Maze, p: Point, d: int, prefs: seq<int>): (r: (Point, int))
    ensures (forall k :: 0 <= k < |prefs| ==> 0 <= prefs[k] < 4) && 0 <= d < 4 ==> 0 <= r.1 < 4
    ensures r.0 == p || (r.0 == Heading(p, r.1) && Adjacent(p, r.0) && CanMove(Some(maze), p, r.0))
  {
    match FirstOpen(maze, p, prefs)
    case Some(i) => (Heading(p, prefs[i]), prefs[i])
    case None => (p, (d + 2) % 4)
  }

  /** With three candidates, `Follow` is the chain of three tests the followers' `step()` spells out. */
  lemma FollowThree(maze: Maze, p: Point, d: int, a: int, b: int, c: int)
    ensures Follow(maze, p, d, [a, b, c]) ==
      if CanMove(Some(maze), p, Heading(p, a)) then (Heading(p, a), a)
      else if CanMove(Some(maze), p, Heading(p, b)) then (Heading(p, b), b)
      else if CanMove(Some(maze), p, Heading(p, c)) then (Heading(p, c), c)
      else (p, (d + 2) % 4)
  {
    var s := [a, b, c];
    assert s[1..] == [b, c] && [b, c][1..] == [c] && [c][1..] == [];
    if CanMove(Some(maze), p, Heading(p, a)) {
      assert FirstOpen(maze, p, s) == Some(0);
    } else if CanMove(Some(maze), p, Heading(p, b)) {
      assert FirstOpen(maze, p, [b, c]) == Some(0);
      assert FirstOpen(maze, p, s) == Some(1);
    } else if CanMove(Some(maze), p, Heading(p, c)) {
      assert FirstOpen(maze, p, [c]) == Some(0);
      assert FirstOpen(maze, p, [b, c]) == Some(1);
      assert FirstOpen(maze, p, s) == Some(2);
    } else {
      assert FirstOpen(maze, p, [c]) == None;
      assert FirstOpen(maze, p, [b, c]) == None;
      assert FirstOpen(maze, p, s) == None;
    }
  }

  /** A step moves exactly when one of the candidates is passable, and only a blocked step turns around. */
  lemma FollowMoves(maze: Maze, p: Point, d: int, prefs: seq<int>)
    ensures Follow(maze, p, d, prefs).0 != p <==>
      exists k :: 0 <= k < |prefs| && CanMove(Some(maze), p, Heading(p, prefs[k]))
    ensures Follow(maze, p, d, prefs).0 == p ==> Follow(maze, p, d, prefs).1 == (d + 2) % 4
  {
  }

  // ---------------------------------------------------------------------
  // The mirror image x -> -x swaps left and right

  function MirrorPoint(p: Point): Point { Point(-p.x, p.y) }

  function MirrorWalls(w: Walls): Walls { Walls(w.top, w.left, w.bottom, w.right) }

  function MirrorCells(cells: seq<Cell>): (r: seq<Cell>)
    ensures |r| == |cells|
    ensures forall k :: 0 <= k < |cells| ==> r[k] == Cell(-cells[k].x, cells[k].y, MirrorWalls(cells[k].walls))
  {
    if cells == [] then []
    else [Cell(-cells[0].x, cells[0].y, MirrorWalls(cells[0].walls))] + MirrorCells(cells[1..])
  }

  function MirrorMaze(m: Maze): Maze {
    Maze(m.width, m.height, MirrorPoint(m.start), MirrorPoint(m.end), MirrorCells(m.cells))
  }

  /** Facing up and down stay, right and left swap. */
  function MirrorDir(d: int): int { (4 - d) % 4 }

  function MirrorDirs(ds: seq<int>): (r: seq<int>)
    ensures |r| == |ds|
    ensures forall k :: 0 <= k < |ds| ==> r[k] == MirrorDir(ds[k])
  {
    if ds == [] then [] else [MirrorDir(ds[0])] + MirrorDirs(ds[1..])
  }

  lemma {:induction false} FindCellMirror(cells: seq<Cell>, x: int, y: int)
    ensures FindCell(MirrorCells(cells), -x, y) == FindCell(cells, x, y)
    decreases |cells|
  {
    if cells != [] {
      assert MirrorCells(cells)[1..] == MirrorCells(cells[1..]);
      FindCellMirror(cells[1..], x, y);
    }
  }

  /** `canMove` in the mirrored maze between mirrored points answers as in the original. */
  lemma CanMoveMirror(m: Maze, p: Point, q: Point)
    ensures CanMove(Some(MirrorMaze(m)), MirrorPoint(p), MirrorPoint(q)) == CanMove(Some(m), p, q)
  {
    FindCellMirror(m.cells, p.x, p.y);
  }

  lemma HeadingMirror(p: Point, d: int)
    requires 0 <= d < 4
    ensures MirrorPoint(Heading(p, d)) == Heading(MirrorPoint(p), MirrorDir(d))
  {
  }

  /** The left follower's candidates, mirrored, are the right follower's candidates for the mirrored facing. */
  lemma TurnsMirror(d: int)
    requires 0 <= d < 4
    ensures MirrorDirs(LeftTurns(d)) == RightTurns(MirrorDir(d))
    ensures MirrorDirs(RightTurns(d)) == LeftTurns(MirrorDir(d))
  {
  }

  lemma {:induction false} FirstOpenMirror(m: Maze, p: Point, prefs: seq<int>)
    requires forall k :: 0 <= k < |prefs| ==> 0 <= prefs[k] < 4
    ensures FirstOpen(MirrorMaze(m), MirrorPoint(p), MirrorDirs(prefs)) == FirstOpen(m, p, prefs)
    decreases |prefs|
  {
    if prefs != [] {
      HeadingMirror(p, prefs[0]);
      CanMoveMirror(m, p, Heading(p, prefs[0]));
      assert MirrorDirs(prefs)[1..] == MirrorDirs(prefs[1..]);
      FirstOpenMirror(m, p, prefs[1..]);
    }
  }

  /**
   * A right follower in the mirrored maze makes the mirror image of every
   * step the left follower makes in the original: same choice, mirrored
   * position and facing.
   */
  lemma LeftRightMirror(m: Maze, p: Point, d: int)
    requires 0 <= d < 4
    ensures var l := Follow(m, p, d, LeftTurns(d));
      Follow(MirrorMaze(m), MirrorPoint(p), MirrorDir(d), RightTurns(MirrorDir(d))) ==
        (MirrorPoint(l.0), MirrorDir(l.1))
  {
    var left, right := LeftTurns(d), RightTurns(MirrorDir(d));
    TurnsInRange(d);
    TurnsMirror(d);
    FirstOpenMirror(m, p, left);
    match FirstOpen(m, p, left)
    case Some(i) =>
      assert right[i] == MirrorDir(left[i]);
      HeadingMirror(p, left[i]);
    case None =>
      ReverseMirror(d);
  }

  /** Turning around commutes with the mirror. */
  lemma ReverseMirror(d: int)
    requires 0 <= d < 4
    ensures (MirrorDir(d) + 2) % 4 == MirrorDir((d + 2) % 4)
  {
  }
}
