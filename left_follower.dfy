/**
 * The left-hand wall follower: one move (or one turn on the spot) per
 * `step()`, trying left of the facing, then straight on, then right.
 */
module LeftFollower {
  import opened Wrappers
  import opened MazeModel
  import opened WallFollowing

  class LeftWallFollower {
    const maze: Maze
    var currentX: int
    var currentY: int
    /** 0 up, 1 right, 2 down, 3 left. */
    var direction: int
    var path: seq<Point>
    var visited: set<Point>
    var done: bool

    function Here(): Point
      reads this
    {
      Point(currentX, currentY)
    }

    /**
     * The facing is one of the four, the path is a legal route from the
     * start to the current position, `visited` is exactly its coordinates,
     * and the run only ends on the goal.
     */
    ghost predicate Valid()
      reads this
    {
      0 <= direction < 4 && Route(maze, path, maze.start, Here()) &&
      visited == PathSet(path) && (done ==> Here() == maze.end)
    }

    /** At the start, facing right, with a one-entry path. */
    constructor (maze: Maze)
      ensures Valid()
      ensures this.maze == maze && Here() == maze.start && direction == 1
      ensures path == [maze.start] && visited == {maze.start} && !done
    {
      this.maze := maze;
      currentX := maze.start.x;
      currentY := maze.start.y;
      direction := 1;
      path := [maze.start];
      visited := {maze.start};
      done := false;
      assert PathSet([maze.start]) == {maze.start};
    }

    /** `updatePosition`: move, log the coordinate on the path and in `visited`. */
    method UpdatePosition(x: int, y: int)
      modifies this
      ensures Here() == Point(x, y)
      ensures path == old(path) + [Point(x, y)] && visited == old(visited) + {Point(x, y)}
      ensures direction == old(direction) && done == old(done)
    {
      currentX := x;
      currentY := y;
      path := path + [Point(x, y)];
      visited := visited + {Point(x, y)};
    }

    /** `canMove`: asks the game about a move from the current position. */
    function CanMoveTo(x: int, y: int): (r: bool)
      reads this
      ensures r ==> GetCell(Some(maze), currentX, currentY).Found?
      ensures r ==> Point(x, y) != Here()
    {
      CanMove(Some(maze), Here(), Point(x, y))
    }

    /**
     * One step. Once done, or when it starts on the goal, the run is over
     * (the latter sets `done`). Otherwise the follower takes the first
     * passable candidate of left, straight, right and faces it, or turns
     * around where it stands; such a step returns false.
     */
    method Step() returns (finished: bool)
      requires Valid()
      modifies this
      ensures Valid()
      ensures finished <==> old(done) || old(Here()) == maze.end
      ensures finished == done
      ensures old(done) ==> unchanged(this)
      ensures !old(done) && old(Here()) == maze.end ==>
        Here() == old(Here()) && direction == old(direction) && path == old(path) && visited == old(visited)
      ensures !old(done) && old(Here()) != maze.end ==>
        var r := Follow(maze, old(Here()), old(direction), LeftTurns(old(direction)));
        Here() == r.0 && direction == r.1 &&
        if r.0 == old(Here()) then path == old(path) && visited == old(visited)
        else path == old(path) + [r.0] && visited == old(visited) + {r.0}
    {
      if done {
        return true;
      }
      if currentX == maze.end.x && currentY == maze.end.y {
        done := true;
        return true;
      }
      MoveOrTurn();
      return false;
    }

    /**
     * The part of a step off the goal: face and move to the first passable
     * candidate, or turn around on the spot when none is.
     */
    method MoveOrTurn()
      requires 0 <= direction < 4 && Route(maze, path, maze.start, Here()) && visited == PathSet(path)
      modifies this
      ensures 0 <= direction < 4 && Route(maze, path, maze.start, Here()) && visited == PathSet(path)
      ensures done == old(done)
      ensures var r := Follow(maze, old(Here()), old(direction), LeftTurns(old(direction)));
        Here() == r.0 && direction == r.1 &&
        if r.0 == old(Here()) then path == old(path) && visited == old(visited)
        else path == old(path) + [r.0] && visited == old(visited) + {r.0}
    {
      ghost var here, d0 := Here(), direction;
      ghost var r := Follow(maze, here, d0, LeftTurns(d0));
      FollowThree(maze, here, d0, (d0 + 3) % 4, d0, (d0 + 1) % 4);
      var leftDirection := (direction + 3) % 4;
      var next := Heading(Here(), leftDirection);
      if CanMoveTo(next.x, next.y) {
        assert r == (next, leftDirection);
        direction := leftDirection;
        Advance(next);
        return;
      }
      next := Heading(Here(), direction);
      if CanMoveTo(next.x, next.y) {
        assert r == (next, d0);
        Advance(next);
        return;
      }
      var rightDirection := (direction + 1) % 4;
      next := Heading(Here(), rightDirection);
      if CanMoveTo(next.x, next.y) {
        assert r == (next, rightDirection);
        direction := rightDirection;
        Advance(next);
        return;
      }
      assert r == (here, (d0 + 2) % 4);
      direction := (direction + 2) % 4;
    }

    /** A move to a passable grid neighbour, keeping the route and `visited` in step. */
    method Advance(next: Point)
      requires Route(maze, path, maze.start, Here()) && visited == PathSet(path)
      requires Adjacent(Here(), next) && CanMove(Some(maze), Here(), next)
      modifies this
      ensures Route(maze, path, maze.start, Here()) && visited == PathSet(path)
      ensures Here() == next && path == old(path) + [next] && visited == old(visited) + {next}
      ensures direction == old(direction) && done == old(done)
    {
      RouteExtend(maze, path, maze.start, Here(), next);
      PathSetAppend(path, next);
      UpdatePosition(next.x, next.y);
    }
  }
}
