/**
 * What breadth-first and depth-first search share: the frontier node
 * (a coordinate and the whole path that reached it), the direction
 * tables, and the discovery loop of `step()`, which marks each passable,
 * unvisited neighbour visited as soon as it is put on the frontier.
 */
module Search {
  import opened Wrappers
  import opened MazeModel

  /** `{x, y, path}`: the path is copied into every node. */
  datatype Node = Node(pos: Point, path: seq<Point>)

  /** Up, right, down, left: the order breadth-first search tries. */
  const BfsDirections: seq<Delta> := [Delta(0, -1), Delta(1, 0), Delta(0, 1), Delta(-1, 0)]

  /** Left, down, right, up: the order depth-first search pushes. */
  const DfsDirections: seq<Delta> := [Delta(-1, 0), Delta(0, 1), Delta(1, 0), Delta(0, -1)]

  predicate Unit(d: Delta) { Abs(d.dx) + Abs(d.dy) == 1 }

  predicate DistinctDeltas(dirs: seq<Delta>) {
    forall i, j :: 0 <= i < j < |dirs| ==> dirs[i] != dirs[j]
  }

  function Positions(nodes: seq<Node>): (r: seq<Point>)
    ensures |r| == |nodes|
    ensures forall k :: 0 <= k < |nodes| ==> r[k] == nodes[k].pos
  {
    if nodes == [] then [] else [nodes[0].pos] + Positions(nodes[1..])
  }

  lemma {:induction false} PositionsSnoc(nodes: seq<Node>, n: Node)
    ensures Positions(nodes + [n]) == Positions(nodes) + [n.pos]
  {
    assert |Positions(nodes + [n])| == |Positions(nodes) + [n.pos]|;
    forall k | 0 <= k < |nodes| + 1
      ensures Positions(nodes + [n])[k] == (Positions(nodes) + [n.pos])[k]
    {
      if k < |nodes| {
        assert (nodes + [n])[k] == nodes[k];
      }
    }
  }

  function PosSet(nodes: seq<Node>): set<Point> {
    set k | 0 <= k < |nodes| :: nodes[k].pos
  }

  lemma PosSetSnoc(nodes: seq<Node>, n: Node)
    ensures PosSet(nodes + [n]) == PosSet(nodes) + {n.pos}
  {
    var s := nodes + [n];
    forall p | p in PosSet(nodes) ensures p in PosSet(s) {
      var k :| 0 <= k < |nodes| && nodes[k].pos == p;
      assert s[k] == nodes[k];
    }
    assert s[|nodes|] == n;
  }

  function Targets(p: Point, dirs: seq<Delta>): set<Point> {
    set d | d in dirs :: Shift(p, d)
  }

  /** The node for the neighbour of `cur` in direction `d`: `[...current.path, next]`. */
  function Child(cur: Node, d: Delta): Node {
    Node(Shift(cur.pos, d), cur.path + [Shift(cur.pos, d)])
  }

  /** A neighbour is taken when `canMove` allows it and it has not been seen. */
  predicate Opens(maze: Maze, cur: Node, seen: set<Point>, d: Delta) {
    CanMove(Some(maze), cur.pos, Shift(cur.pos, d)) && Shift(cur.pos, d) !in seen
  }

  /**
   * The direction loop of `step()`, direction by direction: returns the
   * visited set afterwards and the nodes put on the frontier, in order.
   * Every new node is a passable, previously unseen neighbour, no two share
   * a coordinate, and `visited` grows by exactly their coordinates.
   */
  function Discover(maze: Maze, cur: Node, dirs: seq<Delta>, visited: set<Point>): (r: (set<Point>, seq<Node>))
    ensures r.0 == visited + PosSet(r.1)
    ensures PosSet(r.1) <= Targets(cur.pos, dirs)
    ensures |r.1| <= |dirs|
    ensures forall k :: 0 <= k < |r.1| ==>
      r.1[k].pos !in visited && CanMove(Some(maze), cur.pos, r.1[k].pos) &&
      r.1[k].path == cur.path + [r.1[k].pos]
    ensures forall i, j :: 0 <= i < j < |r.1| ==> r.1[i].pos != r.1[j].pos
    decreases |dirs|
  {
    if dirs == [] then (visited, [])
    else
      var prev := Discover(maze, cur, dirs[..|dirs| - 1], visited);
      var d := dirs[|dirs| - 1];
      var n := Shift(cur.pos, d);
      assert Targets(cur.pos, dirs[..|dirs| - 1]) <= Targets(cur.pos, dirs);
      if CanMove(Some(maze), cur.pos, n) && n !in prev.0 then
        var added := prev.1 + [Node(n, cur.path + [n])];
        PosSetSnoc(prev.1, Node(n, cur.path + [n]));
        (prev.0 + {n}, added)
      else prev
  }

  /** One pass of the direction loop on the pair (visited set, frontier additions). */
  function Grow(maze: Maze, cur: Node, acc: (set<Point>, seq<Node>), d: Delta): (set<Point>, seq<Node>) {
    if Opens(maze, cur, acc.0, d) then (acc.0 + {Child(cur, d).pos}, acc.1 + [Child(cur, d)]) else acc
  }

  /** One more direction of the loop: the neighbour is taken or not, by the visited set so far. */
  lemma {:induction false} DiscoverStep(maze: Maze, cur: Node, dirs: seq<Delta>, i: nat, visited: set<Point>)
    requires i < |dirs|
    ensures Discover(maze, cur, dirs[..i + 1], visited) == Grow(maze, cur, Discover(maze, cur, dirs[..i], visited), dirs[i])
  {
    assert dirs[..i + 1][..i] == dirs[..i];
  }

  /**
   * Reference definition of the same loop: keep, in table order, each
   * direction whose neighbour is passable and not in the visited set the
   * step started with.
   */
  function Eligible(maze: Maze, cur: Node, dirs: seq<Delta>, visited: set<Point>): seq<Node> {
    if dirs == [] then []
    else (if Opens(maze, cur, visited, dirs[0]) then [Child(cur, dirs[0])] else [])
         + Eligible(maze, cur, dirs[1..], visited)
  }

  lemma {:induction false} EligibleAppend(maze: Maze, cur: Node, a: seq<Delta>, b: seq<Delta>, visited: set<Point>)
    ensures Eligible(maze, cur, a + b, visited) == Eligible(maze, cur, a, visited) + Eligible(maze, cur, b, visited)
  {
    if a != [] {
      assert (a + b)[1..] == a[1..] + b;
      EligibleAppend(maze, cur, a[1..], b, visited);
    } else {
      assert a + b == b;
    }
  }

  /**
   * Threading `visited` through the loop changes nothing about which
   * neighbours are taken: since the directions lead to different cells,
   * the loop keeps exactly the eligible ones, in table order.
   */
  lemma {:induction false} DiscoverIsEligible(maze: Maze, cur: Node, dirs: seq<Delta>, visited: set<Point>)
    requires DistinctDeltas(dirs)
    ensures Discover(maze, cur, dirs, visited).1 == Eligible(maze, cur, dirs, visited)
    decreases |dirs|
  {
    if dirs != [] {
      var n := |dirs|;
      var front, last := dirs[..n - 1], dirs[n - 1];
      DiscoverIsEligible(maze, cur, front, visited);
      assert dirs == front + [last];
      EligibleAppend(maze, cur, front, [last], visited);
      var prev := Discover(maze, cur, front, visited);
      assert Eligible(maze, cur, [last], visited)
          == (if Opens(maze, cur, visited, last) then [Child(cur, last)] else []);
    }
  }

  function Reverse<T>(s: seq<T>): (r: seq<T>)
    ensures |r| == |s|
    ensures forall k :: 0 <= k < |s| ==> r[k] == s[|s| - 1 - k]
  {
    if s == [] then [] else Reverse(s[1..]) + [s[0]]
  }

  lemma ReverseAppend<T>(a: seq<T>, b: seq<T>)
    ensures Reverse(a + b) == Reverse(b) + Reverse(a)
  {
  }

  lemma {:induction false} EligibleReverse(maze: Maze, cur: Node, dirs: seq<Delta>, visited: set<Point>)
    ensures Eligible(maze, cur, Reverse(dirs), visited) == Reverse(Eligible(maze, cur, dirs, visited))
    decreases |dirs|
  {
    if dirs != [] {
      var head := if Opens(maze, cur, visited, dirs[0]) then [Child(cur, dirs[0])] else [];
      EligibleReverse(maze, cur, dirs[1..], visited);
      EligibleAppend(maze, cur, Reverse(dirs[1..]), [dirs[0]], visited);
      assert Eligible(maze, cur, [dirs[0]], visited) == head;
      ReverseAppend(head, Eligible(maze, cur, dirs[1..], visited));
      assert Reverse(head) == head;
    }
  }

  lemma DirectionTables()
    ensures DfsDirections == Reverse(BfsDirections)
    ensures DistinctDeltas(BfsDirections) && DistinctDeltas(DfsDirections)
    ensures forall d :: d in BfsDirections ==> Unit(d)
    ensures forall d :: d in DfsDirections ==> Unit(d)
  {
  }

  /**
   * Depth-first search pushes left, down, right, up, so the nodes it adds
   * leave the stack in the order breadth-first search would enqueue them:
   * up, right, down, left.
   */
  lemma DfsPopsInBfsOrder(maze: Maze, cur: Node, visited: set<Point>)
    ensures Reverse(Discover(maze, cur, DfsDirections, visited).1) == Discover(maze, cur, BfsDirections, visited).1
  {
    DirectionTables();
    DiscoverIsEligible(maze, cur, DfsDirections, visited);
    DiscoverIsEligible(maze, cur, BfsDirections, visited);
    EligibleReverse(maze, cur, BfsDirections, visited);
    var e := Eligible(maze, cur, BfsDirections, visited);
    assert Reverse(Reverse(e)) == e;
  }

  /** If the upward neighbour is pushed at all, it is pushed last and so popped next. */
  lemma DfsUpOnTop(maze: Maze, cur: Node, visited: set<Point>)
    requires Opens(maze, cur, visited, Delta(0, -1))
    ensures var added := Discover(maze, cur, DfsDirections, visited).1;
      |added| > 0 && added[|added| - 1] == Child(cur, Delta(0, -1))
  {
    DirectionTables();
    DiscoverIsEligible(maze, cur, DfsDirections, visited);
    assert DfsDirections == DfsDirections[..3] + [Delta(0, -1)];
    EligibleAppend(maze, cur, DfsDirections[..3], [Delta(0, -1)], visited);
    assert Eligible(maze, cur, [Delta(0, -1)], visited) == [Child(cur, Delta(0, -1))];
  }

  /** A frontier node's path is a legal route from the start to the node. */
  predicate WellFormed(maze: Maze, n: Node) {
    Route(maze, n.path, maze.start, n.pos)
  }

  /** Children of a well-formed node built by a unit direction table are well formed. */
  lemma DiscoverWellFormed(maze: Maze, cur: Node, dirs: seq<Delta>, visited: set<Point>)
    requires WellFormed(maze, cur)
    requires forall d :: d in dirs ==> Unit(d)
    ensures forall k :: 0 <= k < |Discover(maze, cur, dirs, visited).1| ==>
      WellFormed(maze, Discover(maze, cur, dirs, visited).1[k]) &&
      |Discover(maze, cur, dirs, visited).1[k].path| == |cur.path| + 1
  {
    var added := Discover(maze, cur, dirs, visited).1;
    forall k | 0 <= k < |added|
      ensures WellFormed(maze, added[k]) && |added[k].path| == |cur.path| + 1
    {
      assert added[k].pos in PosSet(added);
      var d :| d in dirs && Shift(cur.pos, d) == added[k].pos;
      RouteExtend(maze, cur.path, maze.start, cur.pos, added[k].pos);
    }
  }

  lemma PathSetConcat(a: seq<Point>, nodes: seq<Node>)
    ensures PathSet(a + Positions(nodes)) == PathSet(a) + PosSet(nodes)
  {
    var ps := Positions(nodes);
    forall p ensures p in a + ps <==> p in a || p in PosSet(nodes) {
      if p in ps {
        var k :| 0 <= k < |ps| && ps[k] == p;
        assert nodes[k].pos == p;
      }
      if p in PosSet(nodes) {
        var k :| 0 <= k < |nodes| && nodes[k].pos == p;
        assert ps[k] == p;
      }
    }
  }

  /**
   * The log of discovered coordinates stays free of repeats when the new
   * nodes are unseen and pairwise different, and its coordinates stay the
   * visited set.
   */
  lemma {:induction false} LogGrows(log: seq<Point>, visited: set<Point>, nodes: seq<Node>)
    requires Distinct(log) && PathSet(log) == visited
    requires forall k :: 0 <= k < |nodes| ==> nodes[k].pos !in visited
    requires forall i, j :: 0 <= i < j < |nodes| ==> nodes[i].pos != nodes[j].pos
    ensures Distinct(log + Positions(nodes))
    ensures PathSet(log + Positions(nodes)) == visited + PosSet(nodes)
  {
    var s := log + Positions(nodes);
    forall i, j | 0 <= i < j < |s| ensures s[i] != s[j] {
      if i < |log| <= j {
        assert s[i] == log[i];
        assert s[i] in PathSet(log);
      }
    }
    PathSetConcat(log, nodes);
  }

  /**
   * What the frontier (queue or stack) and the visited set keep across
   * steps: every frontier node carries a legal route from the start and is
   * already visited, the start is visited, and the log of coordinates ever
   * put on the frontier has no repeats and covers exactly the visited set.
   */
  ghost predicate Frontier(maze: Maze, nodes: seq<Node>, visited: set<Point>, log: seq<Point>) {
    Distinct(log) && PathSet(log) == visited && maze.start in visited &&
    forall k :: 0 <= k < |nodes| ==> WellFormed(maze, nodes[k]) && nodes[k].pos in visited
  }

  /** The frontier a search starts from: the start node alone. */
  lemma FrontierInit(maze: Maze)
    ensures Frontier(maze, [Node(maze.start, [maze.start])], {maze.start}, [maze.start])
  {
    assert PathSet([maze.start]) == {maze.start};
  }

  /** Dropping a slice of the frontier keeps the invariant. */
  lemma FrontierSlice(maze: Maze, nodes: seq<Node>, visited: set<Point>, log: seq<Point>, lo: nat, hi: nat)
    requires Frontier(maze, nodes, visited, log) && lo <= hi <= |nodes|
    ensures Frontier(maze, nodes[lo..hi], visited, log)
  {
    forall k | 0 <= k < hi - lo
      ensures WellFormed(maze, nodes[lo..hi][k]) && nodes[lo..hi][k].pos in visited
    {
      assert nodes[lo..hi][k] == nodes[lo + k];
    }
  }

  /**
   * Running the discovery loop on a well-formed node with a unit direction
   * table, and putting the new nodes after the rest of the frontier, keeps
   * the invariant.
   */
  lemma {:induction false} GrowPreserves(maze: Maze, rest: seq<Node>, cur: Node, dirs: seq<Delta>,
                                         visited: set<Point>, log: seq<Point>)
    requires Frontier(maze, rest, visited, log) && WellFormed(maze, cur)
    requires forall d :: d in dirs ==> Unit(d)
    ensures var grown := Discover(maze, cur, dirs, visited);
      Frontier(maze, rest + grown.1, grown.0, log + Positions(grown.1))
  {
    var grown := Discover(maze, cur, dirs, visited);
    DiscoverWellFormed(maze, cur, dirs, visited);
    LogGrows(log, visited, grown.1);
    var q := rest + grown.1;
    forall k | 0 <= k < |q| ensures WellFormed(maze, q[k]) && q[k].pos in grown.0 {
      if k >= |rest| {
        assert q[k] == grown.1[k - |rest|];
        assert q[k].pos in PosSet(grown.1);
      } else {
        assert q[k] == rest[k];
      }
    }
  }
}
