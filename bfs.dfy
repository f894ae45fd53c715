/**
 * Breadth-first search, one dequeue per `step()`: a FIFO array of nodes
 * and a visited set that is filled when a node is enqueued, so that FIFO
 * order hands nodes out by non-decreasing path length.
 */
module BreadthFirst {
  import opened Wrappers
  import opened MazeModel
  import opened Search

  /** Path lengths never decrease from front to back and differ by at most one. */
  predicate Layered(q: seq<Node>) {
    (forall i, j :: 0 <= i < j < |q| ==> |q[i].path| <= |q[j].path|) &&
    (|q| > 0 ==> |q[|q| - 1].path| <= |q[0].path| + 1)
  }

  /** Taking the front node and appending nodes one longer than it keeps the queue layered. */
  lemma LayeredStep(q: seq<Node>, added: seq<Node>)
    requires Layered(q) && |q| > 0
    requires forall k :: 0 <= k < |added| ==> |added[k].path| == |q[0].path| + 1
    ensures Layered(q[1..] + added)
  {
    var r := q[1..] + added;
    forall i, j | 0 <= i < j < |r| ensures |r[i].path| <= |r[j].path| {
      if j < |q| - 1 {
        assert r[i] == q[i + 1] && r[j] == q[j + 1];
      } else if i < |q| - 1 {
        assert r[i] == q[i + 1] && r[j] == added[j - (|q| - 1)];
      } else {
        assert r[i] == added[i - (|q| - 1)] && r[j] == added[j - (|q| - 1)];
      }
    }
    if |r| > 0 {
      if |q| > 1 {
        assert r[0] == q[1];
        assert |q[0].path| <= |q[1].path|;
      }
      if |added| == 0 {
        assert r[|r| - 1] == q[|q| - 1];
      }
    }
  }

  /** The shared frontier invariant, and FIFO order keeps the queue layered by path length. */
  ghost predicate FrontierOk(maze: Maze, queue: seq<Node>, visited: set<Point>, log: seq<Point>) {
    Frontier(maze, queue, visited, log) && Layered(queue)
  }

  /** Dequeuing the front node and running the discovery loop on it keeps the queue invariant. */
  lemma {:induction false} ExpandPreserves(maze: Maze, queue: seq<Node>, visited: set<Point>, log: seq<Point>)
    requires FrontierOk(maze, queue, visited, log) && queue != []
    ensures var grown := Discover(maze, queue[0], BfsDirections, visited);
      FrontierOk(maze, queue[1..] + grown.1, grown.0, log + Positions(grown.1))
  {
    DirectionTables();
    FrontierSlice(maze, queue, visited, log, 1, |queue|);
    GrowPreserves(maze, queue[1..], queue[0], BfsDirections, visited, log);
    DiscoverWellFormed(maze, queue[0], BfsDirections, visited);
    LayeredStep(queue, Discover(maze, queue[0], BfsDirections, visited).1);
  }

  /** Dequeuing the goal node without expanding it keeps the queue invariant. */
  lemma {:induction false} DequeuePreserves(maze: Maze, queue: seq<Node>, visited: set<Point>, log: seq<Point>)
    requires FrontierOk(maze, queue, visited, log) && queue != []
    ensures FrontierOk(maze, queue[1..], visited, log)
  {
    FrontierSlice(maze, queue, visited, log, 1, |queue|);
    LayeredTail(queue);
  }

  /** Taking the front node alone keeps the queue layered. */
  lemma LayeredTail(q: seq<Node>)
    requires Layered(q) && |q| > 0
    ensures Layered(q[1..])
  {
    var r := q[1..];
    forall i, j | 0 <= i < j < |r| ensures |r[i].path| <= |r[j].path| {
      assert r[i] == q[i + 1] && r[j] == q[j + 1];
    }
    if |r| > 0 {
      assert r[0] == q[1] && r[|r| - 1] == q[|q| - 1];
      assert |q[0].path| <= |q[1].path|;
    }
  }

  class BreadthFirstSearch {
    const maze: Maze
    var queue: seq<Node>
    var visited: set<Point>
    var currentPath: seq<Point>
    var finalPath: Option<seq<Point>>
    var done: bool
    /** Every coordinate ever enqueued, in enqueue order. */
    ghost var discovered: seq<Point>

    ghost predicate Valid()
      reads this
    {
      FrontierOk(maze, queue, visited, discovered) &&
      |currentPath| > 0 && currentPath[0] == maze.start && Legal(maze, currentPath) &&
      (finalPath.Some? ==> done && Route(maze, finalPath.value, maze.start, maze.end))
    }

    constructor (maze: Maze)
      ensures Valid()
      ensures this.maze == maze
      ensures queue == [Node(maze.start, [maze.start])] && visited == {maze.start}
      ensures currentPath == [maze.start] && finalPath == None && !done
      ensures discovered == [maze.start]
    {
      this.maze := maze;
      queue := [Node(maze.start, [maze.start])];
      visited := {maze.start};
      currentPath := [maze.start];
      finalPath := None;
      done := false;
      discovered := [maze.start];
      FrontierInit(maze);
    }

    /** `addToVisited`: the coordinate key joins the set. */
    method AddToVisited(p: Point)
      modifies this`visited
      ensures visited == old(visited) + {p}
    {
      visited := visited + {p};
    }

    /** `hasVisited`: membership of the coordinate key. */
    function HasVisited(p: Point): (seen: bool)
      reads this
      ensures seen <==> p in visited
    {
      p in visited
    }

    /**
     * One unit of work. Done: nothing changes. Empty queue: done, no final
     * path. Otherwise the front node is dequeued and becomes the current
     * path; the goal ends the run with it as the final path, any other node
     * is expanded by the discovery loop in the order up, right, down, left.
     */
    method Step() returns (finished: bool)
      requires Valid()
      modifies this
      ensures Valid()
      ensures finished == done
      ensures old(visited) <= visited
      ensures old(done) ==> unchanged(this)
      ensures !old(done) && old(queue) == [] ==>
        done && finalPath == None && queue == [] && visited == old(visited) &&
        currentPath == old(currentPath) && discovered == old(discovered)
      ensures !old(done) && old(queue) != [] ==>
        var cur := old(queue)[0];
        var grown := Discover(maze, cur, BfsDirections, old(visited));
        currentPath == cur.path &&
        if cur.pos == maze.end then
          done && finalPath == Some(cur.path) && queue == old(queue)[1..] &&
          visited == old(visited) && discovered == old(discovered)
        else
          !done && finalPath == None && visited == grown.0 &&
          queue == old(queue)[1..] + grown.1 &&
          discovered == old(discovered) + Positions(grown.1)
    {
      if done {
        return true;
      }
      if |queue| == 0 {
        done := true;
        return true;
      }
      var current := queue[0];
      queue := queue[1..];
      currentPath := current.path;
      if current.pos == maze.end {
        DequeuePreserves(maze, old(queue), visited, discovered);
        finalPath := Some(current.path);
        done := true;
        return true;
      }
      ExpandPreserves(maze, old(queue), visited, discovered);
      Expand(current, BfsDirections);
      return false;
    }

    /**
     * The direction loop of `step()`: each passable, unvisited neighbour of
     * `current` is marked visited and enqueued with its extended path.
     */
    method Expand(current: Node, dirs: seq<Delta>)
      modifies this
      ensures var grown := Discover(maze, current, dirs, old(visited));
        visited == grown.0 && queue == old(queue) + grown.1 &&
        discovered == old(discovered) + Positions(grown.1)
      ensures currentPath == old(currentPath) && finalPath == old(finalPath) && done == old(done)
    {
      ghost var v0, q0, log0 := visited, queue, discovered;
      for i := 0 to |dirs|
        invariant var acc := Discover(maze, current, dirs[..i], v0);
          visited == acc.0 && queue == q0 + acc.1 && discovered == log0 + Positions(acc.1)
        invariant currentPath == old(currentPath) && finalPath == old(finalPath) && done == old(done)
      {
        ghost var acc := Discover(maze, current, dirs[..i], v0);
        DiscoverStep(maze, current, dirs, i, v0);
        VisitStep(current, dirs[i], acc, q0, log0);
      }
      assert dirs[..|dirs|] == dirs;
    }

    /** One pass of the direction loop, against `Grow` on the pair built so far. */
    method VisitStep(current: Node, d: Delta, ghost acc: (set<Point>, seq<Node>),
                     ghost q0: seq<Node>, ghost log0: seq<Point>)
      requires visited == acc.0 && queue == q0 + acc.1 && discovered == log0 + Positions(acc.1)
      modifies this
      ensures var grown := Grow(maze, current, acc, d);
        visited == grown.0 && queue == q0 + grown.1 && discovered == log0 + Positions(grown.1)
      ensures currentPath == old(currentPath) && finalPath == old(finalPath) && done == old(done)
    {
      PositionsSnoc(acc.1, Child(current, d));
      Visit(current, d);
    }

    /** One pass of the direction loop: a passable, unvisited neighbour is marked and enqueued. */
    method Visit(current: Node, d: Delta)
      modifies this
      ensures Opens(maze, current, old(visited), d) ==>
        visited == old(visited) + {Child(current, d).pos} &&
        queue == old(queue) + [Child(current, d)] &&
        discovered == old(discovered) + [Child(current, d).pos]
      ensures !Opens(maze, current, old(visited), d) ==>
        visited == old(visited) && queue == old(queue) && discovered == old(discovered)
      ensures currentPath == old(currentPath) && finalPath == old(finalPath) && done == old(done)
    {
      var next := Shift(current.pos, d);
      if CanMove(Some(maze), current.pos, next) && !HasVisited(next) {
        AddToVisited(next);
        var newPath := current.path + [next];
        queue := queue + [Node(next, newPath)];
        discovered := discovered + [next];
      }
    }
  }
}
