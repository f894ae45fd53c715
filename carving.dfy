/**
 * The value-level theory of the server's maze carver: grid coordinates,
 * the unvisited neighbours of a cell, what `remove_walls` does to two wall
 * records, and the invariant of the randomized depth-first carving loop,
 * which ends with every cell visited and the open walls forming a spanning
 * tree of the grid.
 */
module Carving {
  import opened MazeModel

  predicate InGrid(w: int, h: int, p: Point) {
    0 <= p.x < w && 0 <= p.y < h
  }

  function AllCoords(w: int, h: int): set<Point> {
    set x: int, y: int | 0 <= x < w && 0 <= y < h :: Point(x, y)
  }

  lemma AllCoordsIsGrid(w: int, h: int, p: Point)
    ensures p in AllCoords(w, h) <==> InGrid(w, h, p)
  {
    if InGrid(w, h, p) {
      assert Point(p.x, p.y) in AllCoords(w, h);
    }
  }

  function Column(x: int, h: int): set<Point> {
    set y: int | 0 <= y < h :: Point(x, y)
  }

  lemma {:induction false} ColumnSize(x: int, h: nat)
    ensures |Column(x, h)| == h
  {
    if h > 0 {
      var prev, top := Column(x, h - 1), Point(x, h - 1);
      ColumnSize(x, h - 1);
      forall q | q in Column(x, h) ensures q in prev + {top} {
        var y :| 0 <= y < h && q == Point(x, y);
        if y < h - 1 {
          assert q in prev;
        }
      }
      forall q | q in prev + {top} ensures q in Column(x, h) {
        if q != top {
          var y :| 0 <= y < h - 1 && q == Point(x, y);
        }
      }
      assert top !in prev;
      assert Column(x, h) == prev + {top};
    } else {
      assert Column(x, h) == {};
    }
  }

  /** A width-by-height grid has width × height coordinates. */
  lemma {:induction false} AllCoordsSize(w: nat, h: nat)
    ensures |AllCoords(w, h)| == w * h
  {
    if w > 0 {
      var prev, col := AllCoords(w - 1, h), Column(w - 1, h);
      AllCoordsSize(w - 1, h);
      ColumnSize(w - 1, h);
      forall q | q in AllCoords(w, h) ensures q in prev + col {
        AllCoordsIsGrid(w, h, q);
        if q.x < w - 1 {
          AllCoordsIsGrid(w - 1, h, q);
        } else {
          assert q == Point(w - 1, q.y);
        }
      }
      forall q | q in prev + col ensures q in AllCoords(w, h) {
        AllCoordsIsGrid(w, h, q);
        AllCoordsIsGrid(w - 1, h, q);
      }
      forall q | q in col ensures q !in prev {
        AllCoordsIsGrid(w - 1, h, q);
      }
      assert AllCoords(w, h) == prev + col;
      assert prev * col == {};
      assert w * h == (w - 1) * h + h;
    } else {
      assert AllCoords(w, h) == {};
    }
  }

  // ---------------------------------------------------------------------
  // get_unvisited_neighbors

  /** The directions `get_unvisited_neighbors` tries, as facing indices: top, right, bottom, left. */
  predicate Unvisited(w: int, h: int, visited: set<Point>, q: Point) {
    InGrid(w, h, q) && q !in visited
  }

  /** The neighbours found after trying the first `n` directions, in table order. */
  function CandidatesUpTo(w: int, h: int, visited: set<Point>, p: Point, n: nat): (r: seq<Point>)
    ensures forall q :: q in r <==> exists d :: 0 <= d < n && q == Heading(p, d) && Unvisited(w, h, visited, q)
  {
    if n == 0 then []
    else
      var q := Heading(p, n - 1);
      CandidatesUpTo(w, h, visited, p, n - 1) + (if Unvisited(w, h, visited, q) then [q] else [])
  }

  function Candidates(w: int, h: int, visited: set<Point>, p: Point): seq<Point> {
    CandidatesUpTo(w, h, visited, p, 4)
  }

  /** Every grid neighbour is one of the four headings. */
  lemma AdjacentHeading(p: Point, q: Point)
    requires Adjacent(p, q)
    ensures exists d :: 0 <= d < 4 && q == Heading(p, d)
  {
    if q.x == p.x + 1 { assert q == Heading(p, 1); }
    else if q.x == p.x - 1 { assert q == Heading(p, 3); }
    else if q.y == p.y + 1 { assert q == Heading(p, 2); }
    else { assert q == Heading(p, 0); }
  }

  /** `get_unvisited_neighbors` returns exactly the in-grid, unvisited 4-neighbours. */
  lemma CandidatesMembers(w: int, h: int, visited: set<Point>, p: Point, q: Point)
    ensures q in Candidates(w, h, visited, p) <==> Adjacent(p, q) && Unvisited(w, h, visited, q)
  {
    if Adjacent(p, q) {
      AdjacentHeading(p, q);
    }
  }

  /** Visiting more cells can only remove neighbours from the list. */
  lemma CandidatesShrink(w: int, h: int, visited: set<Point>, more: set<Point>, p: Point)
    requires visited <= more && Candidates(w, h, visited, p) == []
    ensures Candidates(w, h, more, p) == []
  {
    if Candidates(w, h, more, p) != [] {
      var q := Candidates(w, h, more, p)[0];
      CandidatesMembers(w, h, more, p, q);
      CandidatesMembers(w, h, visited, p, q);
    }
  }

  // ---------------------------------------------------------------------
  // remove_walls

  /** The record with the wall toward `d` knocked down. */
  function Without(w: Walls, d: int): Walls {
    if d == 0 then w.(top := false)
    else if d == 1 then w.(right := false)
    else if d == 2 then w.(bottom := false)
    else w.(left := false)
  }

  /** Knocking one wall down changes that flag and no other. */
  lemma WithoutClearsOne(w: Walls, d: int, e: int)
    requires 0 <= d < 4 && 0 <= e < 4
    ensures WallToward(Without(w, d), e) == (WallToward(w, e) && e != d)
  {
  }

  /**
   * `remove_walls(current, next)` on the two wall records, with dx and dy
   * the coordinate differences current − next: the x test and the y test
   * are independent, so a diagonal pair would lose two walls each.
   */
  function ClearedPair(a: Walls, b: Walls, dx: int, dy: int): (Walls, Walls) {
    var (a1, b1) :=
      if dx == 1 then (a.(left := false), b.(right := false))
      else if dx == -1 then (a.(right := false), b.(left := false))
      else (a, b);
    if dy == 1 then (a1.(top := false), b1.(bottom := false))
    else if dy == -1 then (a1.(bottom := false), b1.(top := false))
    else (a1, b1)
  }

  function Opposite(d: int): int { (d + 2) % 4 }

  lemma HeadingBack(p: Point, d: int)
    requires 0 <= d < 4
    ensures Heading(Heading(p, d), Opposite(d)) == p
    ensures 0 <= Opposite(d) < 4
  {
  }

  lemma HeadingInjective(p: Point, d: int, e: int)
    requires 0 <= d < 4 && 0 <= e < 4 && Heading(p, d) == Heading(p, e)
    ensures d == e
  {
  }

  /**
   * For a neighbour in direction d, `remove_walls` clears exactly the two
   * facing flags: d on the current cell and the opposite one on the next.
   */
  lemma RemoveWallsFacing(a: Walls, b: Walls, p: Point, d: int)
    requires 0 <= d < 4
    ensures var q := Heading(p, d);
      ClearedPair(a, b, p.x - q.x, p.y - q.y) == (Without(a, d), Without(b, Opposite(d)))
  {
  }

  /** The two flags on every shared edge inside the grid agree. */
  ghost predicate Symmetric(w: int, h: int, walls: map<Point, Walls>) {
    AllCoords(w, h) <= walls.Keys &&
    forall p, d :: InGrid(w, h, p) && 0 <= d < 4 && InGrid(w, h, Heading(p, d)) ==>
      WallToward(walls[p], d) == WallToward(walls[Heading(p, d)], Opposite(d))
  }

  /** The wall map after `remove_walls` on grid neighbours p and Heading(p, d). */
  function Carve(walls: map<Point, Walls>, p: Point, d: int): map<Point, Walls> {
    var q := Heading(p, d);
    if p in walls && q in walls then
      var (a, b) := ClearedPair(walls[p], walls[q], p.x - q.x, p.y - q.y);
      walls[p := a][q := b]
    else walls
  }

  /** `remove_walls` on two grid neighbours keeps the walls symmetric. */
  lemma RemoveWallsSymmetric(w: int, h: int, walls: map<Point, Walls>, p: Point, d: int)
    requires Symmetric(w, h, walls) && InGrid(w, h, p) && 0 <= d < 4 && InGrid(w, h, Heading(p, d))
    ensures Symmetric(w, h, Carve(walls, p, d))
  {
    AllCoordsIsGrid(w, h, p);
    AllCoordsIsGrid(w, h, Heading(p, d));
    var q := Heading(p, d);
    RemoveWallsFacing(walls[p], walls[q], p, d);
    var c := Carve(walls, p, d);
    assert c == walls[p := Without(walls[p], d)][q := Without(walls[q], Opposite(d))];
    forall r, e | InGrid(w, h, r) && 0 <= e < 4 && InGrid(w, h, Heading(r, e))
      ensures WallToward(c[r], e) == WallToward(c[Heading(r, e)], Opposite(e))
    {
      AllCoordsIsGrid(w, h, r);
      AllCoordsIsGrid(w, h, Heading(r, e));
      CarvedEdge(walls, p, d, r, e);
    }
  }

  /**
   * One shared edge (r, r + e) after knocking down the edge (p, p + d):
   * if its two flags agreed before, they agree after.
   */
  lemma CarvedEdge(walls: map<Point, Walls>, p: Point, d: int, r: Point, e: int)
    requires 0 <= d < 4 && 0 <= e < 4
    requires p in walls && Heading(p, d) in walls && r in walls && Heading(r, e) in walls
    requires WallToward(walls[r], e) == WallToward(walls[Heading(r, e)], Opposite(e))
    ensures var c := walls[p := Without(walls[p], d)][Heading(p, d) := Without(walls[Heading(p, d)], Opposite(d))];
      WallToward(c[r], e) == WallToward(c[Heading(r, e)], Opposite(e))
  {
    var q, s := Heading(p, d), Heading(r, e);
    HeadingBack(p, d);
    HeadingBack(r, e);
    WithoutClearsOne(walls[p], d, e);
    WithoutClearsOne(walls[q], Opposite(d), e);
    WithoutClearsOne(walls[p], d, Opposite(e));
    WithoutClearsOne(walls[q], Opposite(d), Opposite(e));
    if r == p && s == q {
      HeadingInjective(p, d, e);
    } else if r == q && s == p {
      HeadingInjective(q, Opposite(d), e);
    } else if r == p {
      if s == q { HeadingInjective(p, d, e); }
    } else if r == q {
      if s == p { HeadingInjective(q, e, Opposite(d)); }
    } else if s == p {
      assert r == Heading(p, Opposite(e));
    }
  }

  // ---------------------------------------------------------------------
  // The carving loop

  /** `{top, right, bottom, left}` all standing, as a new `Cell` has them. */
  const Closed := Walls(true, true, true, true)

  function AllClosed(w: int, h: int): (m: map<Point, Walls>)
    ensures m.Keys == AllCoords(w, h)
    ensures forall p :: p in m ==> m[p] == Closed
  {
    map p | p in AllCoords(w, h) :: Closed
  }

  /** a and b are joined by a carved edge: one was carved from the other. */
  predicate Linked(parent: map<Point, Point>, a: Point, b: Point) {
    (b in parent && parent[b] == a) || (a in parent && parent[a] == b)
  }

  /**
   * A spanning tree of the visited cells rooted at the first cell: every
   * other visited cell records the cell it was carved from, a grid
   * neighbour carved earlier (its rank is smaller).
   */
  ghost predicate Tree(root: Point, visited: set<Point>, parent: map<Point, Point>, rank: map<Point, nat>) {
    root in visited && parent.Keys == visited - {root} && rank.Keys == visited &&
    forall p :: p in parent ==> parent[p] in visited && Adjacent(p, parent[p]) && rank[parent[p]] < rank[p]
  }

  predicate RanksBelow(rank: map<Point, nat>, n: nat) {
    forall p :: p in rank ==> rank[p] <= n
  }

  /** The walls that are down are exactly the carved edges. */
  ghost predicate WallsFollowTree(w: int, h: int, walls: map<Point, Walls>, parent: map<Point, Point>) {
    walls.Keys == AllCoords(w, h) &&
    forall p, d :: p in walls && 0 <= d < 4 ==> (!WallToward(walls[p], d) <==> Linked(parent, p, Heading(p, d)))
  }

  /**
   * What the carving loop keeps. The stack holds distinct visited cells;
   * a visited cell off the stack has no unvisited neighbour left; the
   * visited cells form a tree with one edge per carve; and the walls that
   * are down are exactly the tree's edges.
   */
  ghost predicate CarveInv(w: int, h: int, root: Point, visited: set<Point>, walls: map<Point, Walls>,
                           stack: seq<Point>, parent: map<Point, Point>, rank: map<Point, nat>, carved: nat) {
    visited <= AllCoords(w, h) && Tree(root, visited, parent, rank) &&
    RanksBelow(rank, carved) &&
    |visited| == carved + 1 &&
    Distinct(stack) && (forall i :: 0 <= i < |stack| ==> stack[i] in visited) &&
    (forall p :: p in visited && p !in stack ==> Candidates(w, h, visited, p) == []) &&
    WallsFollowTree(w, h, walls, parent)
  }

  /** The loop starts from one visited cell on the stack and all walls standing. */
  lemma CarveInit(w: int, h: int, root: Point)
    requires InGrid(w, h, root)
    ensures CarveInv(w, h, root, {root}, AllClosed(w, h), [root], map[], map[root := 0], 0)
  {
    AllCoordsIsGrid(w, h, root);
  }

  /** Popping a cell with no unvisited neighbour keeps the invariant. */
  lemma PopPreserves(w: int, h: int, root: Point, visited: set<Point>, walls: map<Point, Walls>,
                     stack: seq<Point>, parent: map<Point, Point>, rank: map<Point, nat>, carved: nat)
    requires CarveInv(w, h, root, visited, walls, stack, parent, rank, carved)
    requires stack != [] && Candidates(w, h, visited, stack[|stack| - 1]) == []
    ensures CarveInv(w, h, root, visited, walls, stack[..|stack| - 1], parent, rank, carved)
  {
    var s := stack[..|stack| - 1];
    forall p | p in visited && p !in s ensures Candidates(w, h, visited, p) == [] {
      if p in stack {
        var i :| 0 <= i < |stack| && stack[i] == p;
      }
    }
  }

  /** Wall flags after knocking down the edge between p and q = Heading(p, d). */
  lemma CarvedWalls(w: int, h: int, walls: map<Point, Walls>, parent: map<Point, Point>, p: Point, d: int)
    requires WallsFollowTree(w, h, walls, parent)
    requires InGrid(w, h, p) && 0 <= d < 4 && InGrid(w, h, Heading(p, d))
    requires Heading(p, d) !in parent && forall r :: r in parent ==> parent[r] != Heading(p, d)
    ensures WallsFollowTree(w, h, Carve(walls, p, d), parent[Heading(p, d) := p])
  {
    AllCoordsIsGrid(w, h, p);
    AllCoordsIsGrid(w, h, Heading(p, d));
    var q := Heading(p, d);
    var c := Carve(walls, p, d);
    var pa := parent[q := p];
    RemoveWallsFacing(walls[p], walls[q], p, d);
    HeadingBack(p, d);
    assert p != q;
    forall r, e | r in c && 0 <= e < 4
      ensures !WallToward(c[r], e) <==> Linked(pa, r, Heading(r, e))
    {
      var s := Heading(r, e);
      WithoutClearsOne(walls[p], d, e);
      WithoutClearsOne(walls[q], Opposite(d), e);
      if r == p {
        if e == d {
          assert Linked(pa, r, s);
        } else {
          assert s != q by { if s == q { HeadingInjective(p, d, e); } }
          assert Linked(pa, r, s) <==> Linked(parent, r, s);
        }
      } else if r == q {
        if e == Opposite(d) {
          assert Linked(pa, r, s);
        } else {
          assert s != p by { if s == p { HeadingBack(q, Opposite(d)); HeadingInjective(q, Opposite(d), e); } }
          assert !Linked(parent, r, s);
          assert Linked(pa, r, s) <==> Linked(parent, r, s);
        }
      } else {
        assert c[r] == walls[r];
        if s == q {
          assert !Linked(parent, r, s);
          assert !Linked(pa, r, s);
        } else {
          assert Linked(pa, r, s) <==> Linked(parent, r, s);
        }
      }
    }
  }

  /** A cell carved from a visited neighbour joins the tree as a leaf with the next rank. */
  lemma TreeGrow(root: Point, visited: set<Point>, parent: map<Point, Point>, rank: map<Point, nat>,
                 carved: nat, p: Point, q: Point)
    requires Tree(root, visited, parent, rank) && RanksBelow(rank, carved)
    requires p in visited && q !in visited && Adjacent(q, p)
    ensures Tree(root, visited + {q}, parent[q := p], rank[q := carved + 1])
    ensures RanksBelow(rank[q := carved + 1], carved + 1)
  {
    var pa, rk := parent[q := p], rank[q := carved + 1];
    forall r | r in pa ensures pa[r] in visited + {q} && Adjacent(r, pa[r]) && rk[pa[r]] < rk[r] {
      if r != q {
        assert pa[r] == parent[r] && pa[r] != q;
      }
    }
  }

  /** Pushing an unvisited cell keeps the stack free of repeats and inside the visited set. */
  lemma StackGrow(stack: seq<Point>, visited: set<Point>, q: Point)
    requires Distinct(stack) && (forall i :: 0 <= i < |stack| ==> stack[i] in visited) && q !in visited
    ensures Distinct(stack + [q]) && forall i :: 0 <= i < |stack| + 1 ==> (stack + [q])[i] in visited + {q}
  {
    var s := stack + [q];
    forall i, j | 0 <= i < j < |s| ensures s[i] != s[j] {
      assert s[i] == stack[i];
      if j < |stack| {
        assert s[j] == stack[j];
      }
    }
  }

  /** Marking and pushing a new cell leaves every cell off the stack without unvisited neighbours. */
  lemma OffStackGrow(w: int, h: int, stack: seq<Point>, visited: set<Point>, q: Point)
    requires forall p :: p in visited && p !in stack ==> Candidates(w, h, visited, p) == []
    ensures forall r :: r in visited + {q} && r !in stack + [q] ==> Candidates(w, h, visited + {q}, r) == []
  {
    forall r | r in visited + {q} && r !in stack + [q] ensures Candidates(w, h, visited + {q}, r) == [] {
      assert r != q && r in visited && r !in stack;
      CandidatesShrink(w, h, visited, visited + {q}, r);
    }
  }

  /** The visited set, the tree and its ranks after carving from p to its neighbour q. */
  lemma TreePush(w: int, h: int, root: Point, visited: set<Point>, parent: map<Point, Point>,
                 rank: map<Point, nat>, carved: nat, p: Point, q: Point)
    requires visited <= AllCoords(w, h) && Tree(root, visited, parent, rank) && RanksBelow(rank, carved)
    requires |visited| == carved + 1
    requires p in visited && q !in visited && Adjacent(p, q) && InGrid(w, h, q)
    ensures visited + {q} <= AllCoords(w, h) && Tree(root, visited + {q}, parent[q := p], rank[q := carved + 1])
    ensures RanksBelow(rank[q := carved + 1], carved + 1) && |visited + {q}| == carved + 2
    ensures forall r :: r in parent ==> parent[r] != q
  {
    AllCoordsIsGrid(w, h, q);
    TreeGrow(root, visited, parent, rank, carved, p, q);
  }

  /**
   * Carving from the top cell to one of its unvisited neighbours, marking
   * it visited and pushing it keeps the invariant, with one more carve.
   */
  lemma PushPreserves(w: int, h: int, root: Point, visited: set<Point>, walls: map<Point, Walls>,
                      stack: seq<Point>, parent: map<Point, Point>, rank: map<Point, nat>, carved: nat, d: int)
    requires CarveInv(w, h, root, visited, walls, stack, parent, rank, carved)
    requires stack != [] && 0 <= d < 4
    requires Heading(stack[|stack| - 1], d) in Candidates(w, h, visited, stack[|stack| - 1])
    ensures var p := stack[|stack| - 1];
      var q := Heading(p, d);
      CarveInv(w, h, root, visited + {q}, Carve(walls, p, d), stack + [q],
               parent[q := p], rank[q := carved + 1], carved + 1)
  {
    var p := stack[|stack| - 1];
    var q := Heading(p, d);
    CandidatesMembers(w, h, visited, p, q);
    AllCoordsIsGrid(w, h, p);
    TreePush(w, h, root, visited, parent, rank, carved, p, q);
    StackGrow(stack, visited, q);
    OffStackGrow(w, h, stack, visited, q);
    CarvedWalls(w, h, walls, parent, p, d);
  }

  /**
   * With the stack empty every cell has been reached: walking from the
   * root toward an unvisited cell would meet a visited cell with an
   * unvisited neighbour, and every such cell is still on the stack.
   */
  lemma {:induction false} ReachUnvisited(w: int, h: int, visited: set<Point>, p: Point, q: Point)
    requires p in visited && InGrid(w, h, p) && InGrid(w, h, q) && q !in visited
    ensures exists r :: r in visited && Candidates(w, h, visited, r) != []
    decreases Abs(p.x - q.x) + Abs(p.y - q.y)
  {
    var d := if p.x < q.x then 1 else if p.x > q.x then 3 else if p.y < q.y then 2 else 0;
    var n := Heading(p, d);
    if n in visited {
      ReachUnvisited(w, h, visited, n, q);
    } else {
      CandidatesMembers(w, h, visited, p, n);
      assert n in Candidates(w, h, visited, p);
    }
  }

  /**
   * When the loop ends every cell is visited, exactly width × height − 1
   * carves were made, the visited cells form a spanning tree and the walls
   * that are down are its edges.
   */
  lemma CarveDone(w: nat, h: nat, root: Point, visited: set<Point>, walls: map<Point, Walls>,
                  parent: map<Point, Point>, rank: map<Point, nat>, carved: nat)
    requires CarveInv(w, h, root, visited, walls, [], parent, rank, carved)
    ensures visited == AllCoords(w, h)
    ensures carved == w * h - 1
    ensures Tree(root, AllCoords(w, h), parent, rank)
    ensures Symmetric(w, h, walls)
  {
    forall q | q in AllCoords(w, h) ensures q in visited {
      if q !in visited {
        AllCoordsIsGrid(w, h, q);
        AllCoordsIsGrid(w, h, root);
        ReachUnvisited(w, h, visited, root, q);
      }
    }
    AllCoordsSize(w, h);
    TreeSymmetric(w, h, walls, parent);
  }

  /** Walls that follow a set of edges are symmetric: an edge is seen from both of its cells. */
  lemma TreeSymmetric(w: int, h: int, walls: map<Point, Walls>, parent: map<Point, Point>)
    requires WallsFollowTree(w, h, walls, parent)
    ensures Symmetric(w, h, walls)
  {
    forall p, d | InGrid(w, h, p) && 0 <= d < 4 && InGrid(w, h, Heading(p, d))
      ensures WallToward(walls[p], d) == WallToward(walls[Heading(p, d)], Opposite(d))
    {
      AllCoordsIsGrid(w, h, p);
      AllCoordsIsGrid(w, h, Heading(p, d));
      HeadingBack(p, d);
    }
  }
}
