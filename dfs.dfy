/**
 * Depth-first search, one pop per `step()`: a LIFO array of nodes and a
 * visited set filled when a node is pushed. The direction table is written
 * left, down, right, up so that the pops come out up, right, down, left.
 */
module DepthFirst {
  import opened Wrappers
  import opened MazeModel
  import opened Search

  /** Popping the top node and pushing what the discovery loop finds keeps the frontier invariant. */
  lemma {:induction false} PushPreserves(maze: Maze, stack: seq<Node>, visited: set<Point>, log: seq<Point>)
    requires Frontier(maze, stack, visited, log) && stack != []
    ensures var grown := Discover(maze, stack[|stack| - 1], DfsDirections, visited);
      Frontier(maze, stack[..|stack| - 1] + grown.1, grown.0, log + Positions(grown.1))
  {
    DirectionTables();
    FrontierSlice(maze, stack, visited, log, 0, |stack| - 1);
    GrowPreserves(maze, stack[..|stack| - 1], stack[|stack| - 1], DfsDirections, visited, log);
  }

  class DepthFirstSearch {
    const maze: Maze
    var stack: seq<Node>
    var visited: set<Point>
    var currentPath: seq<Point>
    var finalPath: Option<seq<Point>>
    var done: bool
    /** Every coordinate ever pushed, in push order. */
    ghost var discovered: seq<Point>

    ghost predicate Valid()
      reads this
    {
      Frontier(maze, stack, visited, discovered) &&
      |currentPath| > 0 && currentPath[0] == maze.start && Legal(maze, currentPath) &&
      (finalPath.Some? ==> done && Route(maze, finalPath.value, maze.start, maze.end))
    }

    constructor (maze: Maze)
      ensures Valid()
      ensures this.maze == maze
      ensures stack == [Node(maze.start, [maze.start])] && visited == {maze.start}
      ensures currentPath == [maze.start] && finalPath == None && !done
      ensures discovered == [maze.start]
    {
      this.maze := maze;
      stack := [Node(maze.start, [maze.start])];
      visited := {maze.start};
      currentPath := [maze.start];
      finalPath := None;
      done := false;
      discovered := [maze.start];
      FrontierInit(maze);
    }

    /** `addToVisited`: the coordinate key joins the set. */
    method AddToVisited(p: Point)
      modifies this`visited
      ensures visited == old(visited) + {p}
    {
      visited := visited + {p};
    }

    /** `hasVisited`: membership of the coordinate key. */
    function HasVisited(p: Point): (seen: bool)
      reads this
      ensures seen <==> p in visited
    {
      p in visited
    }

    /**
     * One unit of work. Done: nothing changes. Empty stack: done, no final
     * path. Otherwise the top node is popped and becomes the current path;
     * the goal ends the run with it as the final path, any other node is
     * expanded by the discovery loop and its new neighbours are pushed.
     */
    method Step() returns (finished: bool)
      requires Valid()
      modifies this
      ensures Valid()
      ensures finished == done
      ensures old(visited) <= visited
      ensures old(done) ==> unchanged(this)
      ensures !old(done) && old(stack) == [] ==>
        done && finalPath == None && stack == [] && visited == old(visited) &&
        currentPath == old(currentPath) && discovered == old(discovered)
      ensures !old(done) && old(stack) != [] ==>
        var top := |old(stack)| - 1;
        var cur := old(stack)[top];
        var grown := Discover(maze, cur, DfsDirections, old(visited));
        currentPath == cur.path &&
        if cur.pos == maze.end then
          done && finalPath == Some(cur.path) && stack == old(stack)[..top] &&
          visited == old(visited) && discovered == old(discovered)
        else
          !done && finalPath == None && visited == grown.0 &&
          stack == old(stack)[..top] + grown.1 &&
          discovered == old(discovered) + Positions(grown.1)
    {
      if done {
        return true;
      }
      if |stack| == 0 {
        done := true;
        return true;
      }
      ghost var s0 := stack;
      var current := stack[|stack| - 1];
      assert WellFormed(maze, current);
      stack := stack[..|stack| - 1];
      currentPath := current.path;
      if current.pos == maze.end {
        FrontierSlice(maze, s0, visited, discovered, 0, |s0| - 1);
        finalPath := Some(current.path);
        done := true;
        return true;
      }
      PushPreserves(maze, s0, visited, discovered);
      Expand(current, DfsDirections);
      return false;
    }

    /**
     * The direction loop of `step()`: each passable, unvisited neighbour of
     * `current` is marked visited and pushed with its extended path.
     */
    method Expand(current: Node, dirs: seq<Delta>)
      modifies this
      ensures var grown := Discover(maze, current, dirs, old(visited));
        visited == grown.0 && stack == old(stack) + grown.1 &&
        discovered == old(discovered) + Positions(grown.1)
      ensures currentPath == old(currentPath) && finalPath == old(finalPath) && done == old(done)
    {
      ghost var v0, s0, log0 := visited, stack, discovered;
      for i := 0 to |dirs|
        invariant var acc := Discover(maze, current, dirs[..i], v0);
          visited == acc.0 && stack == s0 + acc.1 && discovered == log0 + Positions(acc.1)
        invariant currentPath == old(currentPath) && finalPath == old(finalPath) && done == old(done)
      {
        ghost var acc := Discover(maze, current, dirs[..i], v0);
        DiscoverStep(maze, current, dirs, i, v0);
        VisitStep(current, dirs[i], acc, s0, log0);
      }
      assert dirs[..|dirs|] == dirs;
    }

    /** One pass of the direction loop, against `Grow` on the pair built so far. */
    method VisitStep(current: Node, d: Delta, ghost acc: (set<Point>, seq<Node>),
                     ghost s0: seq<Node>, ghost log0: seq<Point>)
      requires visited == acc.0 && stack == s0 + acc.1 && discovered == log0 + Positions(acc.1)
      modifies this
      ensures var grown := Grow(maze, current, acc, d);
        visited == grown.0 && stack == s0 + grown.1 && discovered == log0 + Positions(grown.1)
      ensures currentPath == old(currentPath) && finalPath == old(finalPath) && done == old(done)
    {
      PositionsSnoc(acc.1, Child(current, d));
      Visit(current, d);
    }

    /** One pass of the direction loop: a passable, unvisited neighbour is marked and pushed. */
    method Visit(current: Node, d: Delta)
      modifies this
      ensures Opens(maze, current, old(visited), d) ==>
        visited == old(visited) + {Child(current, d).pos} &&
        stack == old(stack) + [Child(current, d)] &&
        discovered == old(discovered) + [Child(current, d).pos]
      ensures !Opens(maze, current, old(visited), d) ==>
        visited == old(visited) && stack == old(stack) && discovered == old(discovered)
      ensures currentPath == old(currentPath) && finalPath == old(finalPath) && done == old(done)
    {
      var next := Shift(current.pos, d);
      if CanMove(Some(maze), current.pos, next) && !HasVisited(next) {
        AddToVisited(next);
        var newPath := current.path + [next];
        stack := stack + [Node(next, newPath)];
        discovered := discovered + [next];
      }
    }
  }
}
