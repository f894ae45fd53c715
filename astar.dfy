/**
 * A*: a priority queue kept as an array sorted by priority, a closed set
 * of expanded coordinates, and a neighbour loop that either enqueues a new
 * node or, when the coordinate is already queued with a larger g, rewrites
 * that entry's g, f and path (leaving its priority key alone) and re-sorts.
 */
module AStarSearch {
  import opened Wrappers
  import opened MazeModel
  import Search

  /** `{x, y, g, f, path}`: cost so far, estimated total cost and the route taken. */
  datatype AStarNode = AStarNode(pos: Point, g: int, f: int, path: seq<Point>)

  /** `{element, priority}`: the priority is the element's f at the time it was enqueued. */
  datatype QueueItem = QueueItem(element: AStarNode, priority: int)

  // ---------------------------------------------------------------------
  // The priority queue's order

  predicate Sorted(items: seq<QueueItem>) {
    forall i, j :: 0 <= i < j < |items| ==> items[i].priority <= items[j].priority
  }

  /**
   * Where `enqueue` splices a new item: before the first item of strictly
   * larger priority, so after every item of equal or smaller priority.
   */
  function InsertionIndex(items: seq<QueueItem>, p: int): (k: nat)
    ensures k <= |items|
    ensures forall j :: 0 <= j < k ==> items[j].priority <= p
    ensures k < |items| ==> p < items[k].priority
  {
    if items == [] then 0
    else if p < items[0].priority then 0
    else 1 + InsertionIndex(items[1..], p)
  }

  /** The three facts above pin the index down. */
  lemma InsertionIndexUnique(items: seq<QueueItem>, p: int, k: nat)
    requires k <= |items|
    requires forall j :: 0 <= j < k ==> items[j].priority <= p
    requires k < |items| ==> p < items[k].priority
    ensures k == InsertionIndex(items, p)
  {
  }

  /** The queue after `enqueue`. */
  function Insert(items: seq<QueueItem>, q: QueueItem): seq<QueueItem> {
    var k := InsertionIndex(items, q.priority);
    items[..k] + [q] + items[k..]
  }

  /**
   * The new item sits at some index k: removing it gives back the old
   * queue, everything before it has priority at most its own and everything
   * after it has strictly larger priority (equal priorities stay first in,
   * first out).
   */
  lemma InsertPlaces(items: seq<QueueItem>, q: QueueItem)
    requires Sorted(items)
    ensures var r := Insert(items, q);
      |r| == |items| + 1 &&
      exists k :: 0 <= k < |r| && r[k] == q && r[..k] + r[k + 1..] == items &&
        (forall j :: 0 <= j < k ==> r[j].priority <= q.priority) &&
        (forall j :: k < j < |r| ==> q.priority < r[j].priority)
  {
    var k := InsertionIndex(items, q.priority);
    var r := Insert(items, q);
    assert r[..k] == items[..k];
    assert r[k + 1..] == items[k..];
    assert r[..k] + r[k + 1..] == items;
    forall j | k < j < |r| ensures q.priority < r[j].priority {
      assert r[j] == items[j - 1];
      assert items[k].priority <= items[j - 1].priority || j - 1 == k;
    }
  }

  /** Where the items of a splice come from. */
  lemma SpliceAt(items: seq<QueueItem>, q: QueueItem, k: nat)
    requires k <= |items|
    ensures var r := items[..k] + [q] + items[k..];
      |r| == |items| + 1 && r[k] == q &&
      (forall j :: 0 <= j < k ==> r[j] == items[j]) &&
      (forall j :: k < j < |r| ==> r[j] == items[j - 1])
  {
  }

  /** A sorted queue stays sorted, and holds exactly one more item. */
  lemma InsertSorted(items: seq<QueueItem>, q: QueueItem)
    requires Sorted(items)
    ensures Sorted(Insert(items, q))
    ensures multiset(Insert(items, q)) == multiset(items) + multiset{q}
  {
    var k := InsertionIndex(items, q.priority);
    var r := Insert(items, q);
    SpliceAt(items, q, k);
    forall i, j | 0 <= i < j < |r| ensures r[i].priority <= r[j].priority {
      if j < k {
        assert r[i] == items[i] && r[j] == items[j];
      } else if j == k {
        assert r[i] == items[i];
      } else if i < k {
        assert r[i] == items[i] && r[j] == items[j - 1];
      } else if i == k {
        assert r[j] == items[j - 1];
        assert items[k].priority <= items[j - 1].priority || j - 1 == k;
      } else {
        assert r[i] == items[i - 1] && r[j] == items[j - 1];
      }
    }
    assert items == items[..k] + items[k..];
  }

  /**
   * `items.sort((a, b) => a.priority - b.priority)`: a stable sort by
   * priority, written as insertion of each item after its equals.
   */
  function SortByPriority(s: seq<QueueItem>): (r: seq<QueueItem>)
    ensures Sorted(r)
    ensures multiset(r) == multiset(s)
  {
    if s == [] then []
    else
      var rest := SortByPriority(s[..|s| - 1]);
      InsertSorted(rest, s[|s| - 1]);
      MultisetSnoc(s);
      Insert(rest, s[|s| - 1])
  }

  lemma MultisetSnoc(s: seq<QueueItem>)
    requires s != []
    ensures multiset(s) == multiset(s[..|s| - 1]) + multiset{s[|s| - 1]}
  {
    assert s == s[..|s| - 1] + [s[|s| - 1]];
  }

  lemma AppendAtEnd(s: seq<QueueItem>, front: seq<QueueItem>)
    requires s != [] && front == s[..|s| - 1]
    ensures front[..|front|] + [s[|s| - 1]] + front[|front|..] == s
  {
    assert front[..|front|] == front && front[|front|..] == [];
    assert front + [s[|s| - 1]] == s;
  }

  lemma SortedFront(s: seq<QueueItem>, front: seq<QueueItem>)
    requires Sorted(s) && s != [] && front == s[..|s| - 1]
    ensures Sorted(front)
    ensures forall j :: 0 <= j < |front| ==> front[j].priority <= s[|s| - 1].priority
  {
  }

  /** Sorting a queue that is already in order leaves it exactly as it was. */
  lemma {:induction false} SortedIsFixed(s: seq<QueueItem>)
    requires Sorted(s)
    ensures SortByPriority(s) == s
    decreases |s|
  {
    if s != [] {
      var front, last := s[..|s| - 1], s[|s| - 1];
      SortedFront(s, front);
      SortedIsFixed(front);
      InsertionIndexUnique(front, last.priority, |front|);
      calc {
        SortByPriority(s);
        Insert(SortByPriority(front), last);
        Insert(front, last);
        front[..|front|] + [last] + front[|front|..];
        { AppendAtEnd(s, front); }
        s;
      }
    }
  }

  /** The front of a sorted queue has the least priority: `dequeue` hands out a minimum. */
  lemma FrontIsMinimum(items: seq<QueueItem>)
    requires Sorted(items) && items != []
    ensures forall k :: 0 <= k < |items| ==> items[0].priority <= items[k].priority
  {
    forall k | 0 < k < |items| ensures items[0].priority <= items[k].priority {
      assert 0 < k;
    }
  }

  class PriorityQueue {
    var items: seq<QueueItem>

    constructor ()
      ensures items == []
    {
      items := [];
    }

    /** `enqueue`: the element is inserted with its f as priority, after all equal priorities. */
    method Enqueue(element: AStarNode)
      modifies this
      ensures items == Insert(old(items), QueueItem(element, element.f))
    {
      var queueElement := QueueItem(element, element.f);
      var added := false;
      var i := 0;
      while i < |items|
        invariant 0 <= i <= |items|
        invariant items == old(items)
        invariant forall j :: 0 <= j < i ==> items[j].priority <= queueElement.priority
      {
        if queueElement.priority < items[i].priority {
          InsertionIndexUnique(items, queueElement.priority, i);
          items := items[..i] + [queueElement] + items[i..];
          added := true;
          break;
        }
        i := i + 1;
      }
      if !added {
        InsertionIndexUnique(items, queueElement.priority, |items|);
        items := items + [queueElement];
      }
    }

    /** `dequeue`: the front element, or nothing (null) when the queue is empty. */
    method Dequeue() returns (r: Option<AStarNode>)
      modifies this
      ensures old(items) == [] ==> r == None && items == []
      ensures old(items) != [] ==> r == Some(old(items)[0].element) && items == old(items)[1..]
    {
      if IsEmpty() {
        return None;
      }
      r := Some(items[0].element);
      items := items[1..];
    }

    /** `isEmpty`. */
    function IsEmpty(): (empty: bool)
      reads this
      ensures empty <==> items == []
    {
      |items| == 0
    }
  }

  // ---------------------------------------------------------------------
  // Costs and the neighbour loop

  /** `heuristic`: Manhattan distance to the end. */
  function Heuristic(maze: Maze, p: Point): (h: nat)
    ensures h == 0 <==> p == maze.end
  {
    Abs(p.x - maze.end.x) + Abs(p.y - maze.end.y)
  }

  /** One step changes the estimate by at most one: the heuristic is consistent. */
  lemma HeuristicConsistent(maze: Maze, p: Point, q: Point)
    requires Adjacent(p, q)
    ensures Heuristic(maze, p) <= Heuristic(maze, q) + 1
    ensures Heuristic(maze, q) <= Heuristic(maze, p) + 1
  {
  }

  /** The node built for neighbour `next` of `cur`. */
  function Neighbor(maze: Maze, cur: AStarNode, next: Point): AStarNode {
    var g := cur.g + 1;
    AStarNode(next, g, g + Heuristic(maze, next), cur.path + [next])
  }

  /** A node's path is a legal route from the start, one longer than its cost, and f = g + h. */
  ghost predicate NodeOk(maze: Maze, n: AStarNode) {
    Route(maze, n.path, maze.start, n.pos) && |n.path| == n.g + 1 &&
    n.f == n.g + Heuristic(maze, n.pos)
  }

  /** The neighbour of a well-formed node across an open wall is well formed and costs one more. */
  lemma NeighborOk(maze: Maze, cur: AStarNode, next: Point)
    requires NodeOk(maze, cur)
    requires Adjacent(cur.pos, next) && CanMove(Some(maze), cur.pos, next)
    ensures NodeOk(maze, Neighbor(maze, cur, next))
    ensures Neighbor(maze, cur, next).g == cur.g + 1
    ensures Neighbor(maze, cur, next).path == cur.path + [next]
  {
    RouteExtend(maze, cur.path, maze.start, cur.pos, next);
  }

  /** The index of the first queued item at coordinate p, if any. */
  function FindOpen(items: seq<QueueItem>, p: Point): (r: Option<nat>)
    ensures r.Some? ==> (r.value < |items| && items[r.value].element.pos == p &&
      forall j :: 0 <= j < r.value ==> items[j].element.pos != p)
    ensures r.None? ==> forall j :: 0 <= j < |items| ==> items[j].element.pos != p
  {
    if items == [] then None
    else if items[0].element.pos == p then Some(0)
    else match FindOpen(items[1..], p)
      case None => None
      case Some(i) => Some(i + 1)
  }

  /** The first-match facts above pin the index down. */
  lemma FindOpenUnique(items: seq<QueueItem>, p: Point, i: nat)
    requires i < |items| && items[i].element.pos == p
    requires forall j :: 0 <= j < i ==> items[j].element.pos != p
    ensures FindOpen(items, p) == Some(i)
  {
  }

  /**
   * One pass of the neighbour loop. A passable neighbour outside the
   * closed set is enqueued when no item has its coordinate; when one has,
   * and the new cost is smaller, that item's element is replaced (same
   * coordinate, new g, f and path) with its old priority, and the queue is
   * re-sorted.
   */
  function Relax(maze: Maze, cur: AStarNode, closed: set<Point>, items: seq<QueueItem>, d: Delta): seq<QueueItem> {
    var next := Shift(cur.pos, d);
    if CanMove(Some(maze), cur.pos, next) && next !in closed then
      var nb := Neighbor(maze, cur, next);
      match FindOpen(items, next)
      case Some(i) =>
        if nb.g < items[i].element.g
        then SortByPriority(items[i := QueueItem(nb, items[i].priority)])
        else items
      case None => Insert(items, QueueItem(nb, nb.f))
    else items
  }

  /** The whole neighbour loop, direction by direction. */
  function RelaxAll(maze: Maze, cur: AStarNode, closed: set<Point>, items: seq<QueueItem>, dirs: seq<Delta>): seq<QueueItem>
    decreases |dirs|
  {
    if dirs == [] then items
    else Relax(maze, cur, closed, RelaxAll(maze, cur, closed, items, dirs[..|dirs| - 1]), dirs[|dirs| - 1])
  }

  lemma RelaxAllStep(maze: Maze, cur: AStarNode, closed: set<Point>, items: seq<QueueItem>, dirs: seq<Delta>, i: nat)
    requires i < |dirs|
    ensures RelaxAll(maze, cur, closed, items, dirs[..i + 1]) ==
      Relax(maze, cur, closed, RelaxAll(maze, cur, closed, items, dirs[..i]), dirs[i])
  {
    assert dirs[..i + 1][..i] == dirs[..i];
  }

  /**
   * Decrease-key keeps the queue's order: the rewritten entry stays where
   * it was, at the same coordinate and with the same priority, and the
   * re-sort of the unchanged keys is the identity.
   */
  lemma DecreaseKeyInPlace(maze: Maze, cur: AStarNode, closed: set<Point>, items: seq<QueueItem>, d: Delta, i: nat)
    requires Sorted(items)
    requires CanMove(Some(maze), cur.pos, Shift(cur.pos, d)) && Shift(cur.pos, d) !in closed
    requires FindOpen(items, Shift(cur.pos, d)) == Some(i)
    requires cur.g + 1 < items[i].element.g
    ensures var r := Relax(maze, cur, closed, items, d);
      |r| == |items| && r[i].priority == items[i].priority &&
      r[i].element == Neighbor(maze, cur, Shift(cur.pos, d)) &&
      r[i].element.pos == items[i].element.pos &&
      forall j :: 0 <= j < |items| && j != i ==> r[j] == items[j]
  {
    var u := items[i := QueueItem(Neighbor(maze, cur, Shift(cur.pos, d)), items[i].priority)];
    assert Sorted(u) by {
      forall a, b | 0 <= a < b < |u| ensures u[a].priority <= u[b].priority {
        assert u[a].priority == items[a].priority && u[b].priority == items[b].priority;
      }
    }
    SortedIsFixed(u);
  }

  predicate UniquePositions(items: seq<QueueItem>) {
    forall i, j :: 0 <= i < j < |items| ==> items[i].element.pos != items[j].element.pos
  }

  /**
   * What the open set keeps: sorted by priority, one entry per coordinate,
   * none of them closed, each element well formed with f at most its
   * priority (decrease-key lowers f but not the priority).
   */
  ghost predicate OpenOk(maze: Maze, items: seq<QueueItem>, closed: set<Point>) {
    Sorted(items) && UniquePositions(items) &&
    forall k :: 0 <= k < |items| ==>
      NodeOk(maze, items[k].element) && items[k].element.f <= items[k].priority &&
      items[k].element.pos !in closed
  }

  /** Inserting a fresh coordinate keeps one entry per coordinate. */
  lemma InsertUnique(items: seq<QueueItem>, q: QueueItem)
    requires UniquePositions(items)
    requires forall j :: 0 <= j < |items| ==> items[j].element.pos != q.element.pos
    ensures UniquePositions(Insert(items, q))
  {
    var k := InsertionIndex(items, q.priority);
    var r := Insert(items, q);
    SpliceAt(items, q, k);
    forall a, b | 0 <= a < b < |r| ensures r[a].element.pos != r[b].element.pos {
      if b < k {
        assert r[a] == items[a] && r[b] == items[b];
      } else if b == k {
        assert r[a] == items[a];
      } else if a < k {
        assert r[a] == items[a] && r[b] == items[b - 1];
      } else if a == k {
        assert r[b] == items[b - 1];
      } else {
        assert r[a] == items[a - 1] && r[b] == items[b - 1];
      }
    }
  }

  /** Inserting a fresh coordinate keeps the open-set invariant. */
  lemma InsertOk(maze: Maze, items: seq<QueueItem>, closed: set<Point>, q: QueueItem)
    requires OpenOk(maze, items, closed)
    requires NodeOk(maze, q.element) && q.element.f <= q.priority && q.element.pos !in closed
    requires forall j :: 0 <= j < |items| ==> items[j].element.pos != q.element.pos
    ensures OpenOk(maze, Insert(items, q), closed)
  {
    InsertSorted(items, q);
    InsertUnique(items, q);
    var k := InsertionIndex(items, q.priority);
    var r := Insert(items, q);
    SpliceAt(items, q, k);
    forall j | 0 <= j < |r|
      ensures NodeOk(maze, r[j].element) && r[j].element.f <= r[j].priority && r[j].element.pos !in closed
    {
      if j < k {
        assert r[j] == items[j];
      } else if j > k {
        assert r[j] == items[j - 1];
      }
    }
  }

  /** One pass of the neighbour loop keeps the open-set invariant. */
  lemma RelaxOk(maze: Maze, cur: AStarNode, closed: set<Point>, items: seq<QueueItem>, d: Delta)
    requires OpenOk(maze, items, closed) && NodeOk(maze, cur)
    requires Abs(d.dx) + Abs(d.dy) == 1
    ensures OpenOk(maze, Relax(maze, cur, closed, items, d), closed)
  {
    var next := Shift(cur.pos, d);
    if CanMove(Some(maze), cur.pos, next) && next !in closed {
      var nb := Neighbor(maze, cur, next);
      NeighborOk(maze, cur, next);
      match FindOpen(items, next)
      case Some(i) =>
        if nb.g < items[i].element.g {
          DecreaseKeyInPlace(maze, cur, closed, items, d, i);
          var r := Relax(maze, cur, closed, items, d);
          assert r == items[i := QueueItem(nb, items[i].priority)];
        }
      case None =>
        InsertOk(maze, items, closed, QueueItem(nb, nb.f));
    }
  }

  lemma {:induction false} RelaxAllOk(maze: Maze, cur: AStarNode, closed: set<Point>, items: seq<QueueItem>, dirs: seq<Delta>)
    requires OpenOk(maze, items, closed) && NodeOk(maze, cur)
    requires forall d :: d in dirs ==> Abs(d.dx) + Abs(d.dy) == 1
    ensures OpenOk(maze, RelaxAll(maze, cur, closed, items, dirs), closed)
    decreases |dirs|
  {
    if dirs != [] {
      var front := dirs[..|dirs| - 1];
      assert forall d :: d in front ==> d in dirs;
      RelaxAllOk(maze, cur, closed, items, front);
      RelaxOk(maze, cur, closed, RelaxAll(maze, cur, closed, items, front), dirs[|dirs| - 1]);
    }
  }

  /** Taking the front item and closing its coordinate keeps the rest of the open set valid. */
  lemma CloseFront(maze: Maze, items: seq<QueueItem>, closed: set<Point>)
    requires OpenOk(maze, items, closed) && items != []
    ensures OpenOk(maze, items[1..], closed + {items[0].element.pos})
    ensures OpenOk(maze, items[1..], closed)
  {
    var r := items[1..];
    forall k | 0 <= k < |r|
      ensures NodeOk(maze, r[k].element) && r[k].element.f <= r[k].priority &&
        r[k].element.pos !in closed + {items[0].element.pos}
    {
      assert r[k] == items[k + 1];
    }
  }

  class AStar {
    const maze: Maze
    const openSet: PriorityQueue
    var closedSet: set<Point>
    var currentPath: seq<Point>
    var finalPath: Option<seq<Point>>
    var done: bool

    ghost predicate Valid()
      reads this, openSet
    {
      OpenOk(maze, openSet.items, closedSet) && maze.end !in closedSet &&
      |currentPath| > 0 && currentPath[0] == maze.start && Legal(maze, currentPath) &&
      (finalPath.Some? ==> done && Route(maze, finalPath.value, maze.start, maze.end))
    }

    /** The open set starts with the start node, g = 0 and f = h(start); nothing is closed. */
    constructor (maze: Maze)
      ensures Valid()
      ensures this.maze == maze && fresh(openSet)
      ensures var s := AStarNode(maze.start, 0, Heuristic(maze, maze.start), [maze.start]);
        openSet.items == [QueueItem(s, s.f)]
      ensures closedSet == {} && currentPath == [maze.start] && finalPath == None && !done
    {
      this.maze := maze;
      var q := new PriorityQueue();
      q.Enqueue(AStarNode(maze.start, 0, Heuristic(maze, maze.start), [maze.start]));
      openSet := q;
      closedSet := {};
      currentPath := [maze.start];
      finalPath := None;
      done := false;
    }

    /**
     * One unit of work. Done: nothing changes. Empty open set: done and no
     * final path. Otherwise the front element is dequeued and becomes the
     * current path; the goal ends the run with it as the final path and is
     * not closed; any other coordinate is closed and its neighbours relaxed.
     */
    method Step() returns (finished: bool)
      requires Valid()
      modifies this, openSet
      ensures Valid()
      ensures finished == done
      ensures old(closedSet) <= closedSet
      ensures old(done) ==> unchanged(this) && unchanged(openSet)
      ensures !old(done) && old(openSet.items) == [] ==>
        done && finalPath == None && openSet.items == [] && closedSet == old(closedSet) &&
        currentPath == old(currentPath)
      ensures !old(done) && old(openSet.items) != [] ==>
        var cur := old(openSet.items)[0].element;
        currentPath == cur.path &&
        if cur.pos == maze.end then
          done && finalPath == Some(cur.path) && openSet.items == old(openSet.items)[1..] &&
          closedSet == old(closedSet)
        else
          !done && finalPath == None && closedSet == old(closedSet) + {cur.pos} &&
          openSet.items == RelaxAll(maze, cur, closedSet, old(openSet.items)[1..], Search.BfsDirections)
    {
      if done {
        return true;
      }
      if openSet.IsEmpty() {
        done := true;
        return true;
      }
      ghost var items0 := openSet.items;
      CloseFront(maze, items0, closedSet);
      var r := openSet.Dequeue();
      var current := r.value;
      currentPath := current.path;
      if current.pos == maze.end {
        finalPath := Some(current.path);
        done := true;
        return true;
      }
      closedSet := closedSet + {current.pos};
      assert forall d :: d in Search.BfsDirections ==> Abs(d.dx) + Abs(d.dy) == 1;
      RelaxAllOk(maze, current, closedSet, openSet.items, Search.BfsDirections);
      Expand(current, Search.BfsDirections);
      return false;
    }

    /** The neighbour loop of `step()`. */
    method Expand(current: AStarNode, dirs: seq<Delta>)
      modifies openSet
      ensures openSet.items == RelaxAll(maze, current, closedSet, old(openSet.items), dirs)
    {
      ghost var items0 := openSet.items;
      for i := 0 to |dirs|
        invariant openSet.items == RelaxAll(maze, current, closedSet, items0, dirs[..i])
      {
        RelaxAllStep(maze, current, closedSet, items0, dirs, i);
        RelaxNeighbor(current, dirs[i]);
      }
      assert dirs[..|dirs|] == dirs;
    }

    /**
     * One pass of the neighbour loop, with the linear scan of the open set
     * for an entry at the same coordinate.
     */
    method RelaxNeighbor(current: AStarNode, d: Delta)
      modifies openSet
      ensures openSet.items == Relax(maze, current, closedSet, old(openSet.items), d)
    {
      var next := Shift(current.pos, d);
      if CanMove(Some(maze), current.pos, next) && next !in closedSet {
        var tentativeG := current.g + 1;
        var neighbor := AStarNode(next, tentativeG, tentativeG + Heuristic(maze, next), current.path + [next]);
        var inOpenSet := false;
        var i := 0;
        while i < |openSet.items|
          invariant 0 <= i <= |openSet.items|
          invariant openSet.items == old(openSet.items)
          invariant forall j :: 0 <= j < i ==> openSet.items[j].element.pos != next
        {
          var item := openSet.items[i];
          if item.element.pos == next {
            FindOpenUnique(openSet.items, next, i);
            inOpenSet := true;
            if tentativeG < item.element.g {
              openSet.items := SortByPriority(openSet.items[i := QueueItem(neighbor, item.priority)]);
            }
            break;
          }
          i := i + 1;
        }
        if !inOpenSet {
          openSet.Enqueue(neighbor);
        }
      }
    }
  }
}
