# Maze solver: a verified model of the engines, the controller flags and the carver

This is a model of a browser maze visualiser. The browser receives a maze from the server as a JSON
object with a width, a height, a start, an end and a list of cells, each with four wall flags. Five
engines then walk the maze one `step()` at a time:

- breadth-first search;
- depth-first search;
- A* with a sorted-array priority queue;
- a left-hand wall follower and a right-hand wall follower.

A controller (`MazeGame`) holds the maze, the selected engine and the animation flags.

The server carves the maze with a randomized depth-first search over a grid of `Cell` objects.

Modules, one per file:

- `maze_model.dfy`: `Wrappers.Option` and `MazeModel`. It holds points, walls, cells and mazes, plus `getCell` as `GetCell` over `FindCell` and `canMove` as `CanMove`. It also holds the route vocabulary the engines' invariants use: `Legal`, `Route` and `PathSet`.
- `search.dfy` (`Search`): the node type and the direction loop BFS and DFS share (`Discover`), with an independent reference definition (`Eligible`). It also holds the frontier invariant both searches keep.
- `bfs.dfy` and `dfs.dfy`: the two searches as classes whose `Step` changes the queue or stack, the visited set and the paths. Each `Step` is tied to `Discover`.
- `astar.dfy` (`AStarSearch`):
  - `PriorityQueue` as a class over a sequence, specified by `Insert`.
  - The A* node relaxation as `Relax` and `RelaxAll`, including the decrease-key that rewrites an element's g, f and path but not its priority key.
  - The `AStar` class.
- `wall_following.dfy`, `left_follower.dfy` and `right_follower.dfy`:
  - The turn orders, and one step as a function (`Follow`).
  - The two follower classes.
  - A proof that the right follower is the left one in a mirror.
- `carving.dfy` (`Carving`): the value-level theory of the carver. It covers the grid, the unvisited-neighbour list, what `remove_walls` does to two wall records, and the loop invariant. That invariant ends in a spanning tree with symmetric walls.
- `generator.dfy` (`MazeGenerator`):
  - `Cell` as a class updated in place, and the grid as `seq<seq<Cell>>`.
  - `get_unvisited_neighbors`, `remove_walls` and `generate_maze` as methods, proved against `Carving` through ghost copies of the visited set and the wall map.
- `game.dfy` (`Game`): the controller's flags.
  - A `Controls` value and its transitions (`Stop`, `Start`, `Toggle`, `Respeed`, `Cleared`), with their lemmas.
  - The `MazeGame` class, whose methods are tied to those transitions and which builds a fresh engine for a known selector value.

Coordinates are unbounded integers. `canMove` never looks at the destination, so a step through an open outer wall can reach x = -1; the model keeps that. The `"x,y"` string keys of the engines' sets are modelled as `Point` values.

Where the code does something its names or comments do not suggest, the model follows the code:

- `canMove` does not require the two points to be neighbours. It reads one wall of the source cell, picked by comparing x first and then y (static/js/maze.js:314-322).
- A*'s decrease-key leaves the queue item's priority at its old value. The re-sort therefore never moves anything (`DecreaseKeyInPlace`, `SortedIsFixed`), and an entry can sit in the queue with an f below its key.
- `remove_walls` tests dx and dy independently. On a diagonal pair it would clear two walls on each cell; the carver only ever calls it on grid neighbours.
- The selector's `change` handler resets, and the reset already builds an engine for a non-empty selection. It then initialises once more, so the engine built by the reset is replaced by a second fresh one (`Game.MazeGame.SelectAlgorithm`).

## Model

| member | source | states |
|---|---|---|
| MazeModel.FindCell | static/js/maze.js:305 | the result is the index of the first cell at (x, y); no index means no cell has that coordinate |
| MazeModel.GetCell | static/js/maze.js:303-306 | null exactly when there is no maze; otherwise the first matching cell, or nothing when no cell matches |
| MazeModel.CanMove | static/js/maze.js:309-325 | a move is allowed only when a cell exists at the source; a move from a point to itself is never allowed |
| MazeModel.CanMoveHorizontal | static/js/maze.js:314-317 | with different x values the answer is the right or left wall of the source cell, whatever the y values are |
| MazeModel.CanMoveToward | static/js/maze.js:309-322 | a step in facing d reaches a grid neighbour, and is allowed exactly when the source cell exists and its wall toward d is down |
| MazeModel.CanMoveIgnoresDestination | static/js/maze.js:310-322 | an open wall lets a move through whether or not a cell exists on the other side |
| MazeModel.RouteExtend | static/js/algorithms/breadthFirstSearch.js:74 | appending a passable neighbour to a route from the start gives a route to that neighbour |
| Search.Discover | static/js/algorithms/breadthFirstSearch.js:64-83 | the direction loop adds to `visited` exactly the new nodes' coordinates; each new node is a passable, previously unvisited neighbour whose path is the current path plus its coordinate; no two share a coordinate |
| Search.DiscoverIsEligible | static/js/algorithms/breadthFirstSearch.js:64-83 | threading `visited` through the loop takes exactly the directions that were open and unvisited when the step began, in table order |
| Search.DirectionTables | static/js/algorithms/depthFirstSearch.js:57-62 | the DFS table is the BFS table reversed; both hold four distinct unit steps |
| Search.DfsPopsInBfsOrder | static/js/algorithms/depthFirstSearch.js:57-77 | the nodes DFS pushes leave the stack in the order up, right, down, left, which is the order BFS enqueues them |
| Search.DfsUpOnTop | static/js/algorithms/depthFirstSearch.js:57-77 | when the up neighbour is pushed at all, it is pushed last, so it is popped next |
| Search.DiscoverWellFormed | static/js/algorithms/breadthFirstSearch.js:74 | every node added carries a legal route from the start to itself, one entry longer than its parent's |
| Search.LogGrows | static/js/algorithms/depthFirstSearch.js:69-71 | marking visited at push time keeps the log of pushed coordinates free of repeats, so each coordinate is pushed at most once per run |
| Search.FrontierInit | static/js/algorithms/breadthFirstSearch.js:16-27 | the start node alone satisfies the frontier invariant |
| Search.GrowPreserves | static/js/algorithms/breadthFirstSearch.js:69-82 | appending the discovered nodes keeps the frontier invariant: routes from the start, everything queued is visited, the log is repeat-free and covers `visited` |
| BreadthFirst.LayeredStep | static/js/algorithms/breadthFirstSearch.js:46-77 | taking the front node and appending nodes one longer keeps path lengths non-decreasing from front to back, spanning at most one length |
| BreadthFirst.ExpandPreserves | static/js/algorithms/breadthFirstSearch.js:46-83 | a non-goal step keeps the queue invariant, including the layering by path length |
| BreadthFirst.DequeuePreserves | static/js/algorithms/breadthFirstSearch.js:46-54 | dequeuing the goal without expanding it keeps the queue invariant |
| BreadthFirst.LayeredTail | static/js/algorithms/breadthFirstSearch.js:46 | taking the front node off a queue layered by path length leaves it layered |
| BreadthFirst.BreadthFirstSearch.constructor | static/js/algorithms/breadthFirstSearch.js:8-34 | the queue holds the start node alone, only the start is visited, no final path, not done |
| BreadthFirst.BreadthFirstSearch.AddToVisited | static/js/algorithms/breadthFirstSearch.js:93-95 | the coordinate joins the visited set |
| BreadthFirst.BreadthFirstSearch.HasVisited | static/js/algorithms/breadthFirstSearch.js:97-99 | true exactly for coordinates in the visited set |
| BreadthFirst.BreadthFirstSearch.Step | static/js/algorithms/breadthFirstSearch.js:36-86 | once done, nothing changes; an empty queue sets done with no final path; dequeuing the goal sets the final path to its path; any other node is expanded as `Discover` says in the order up, right, down, left; `visited` only grows and the invariant is kept |
| BreadthFirst.BreadthFirstSearch.Expand | static/js/algorithms/breadthFirstSearch.js:64-83 | the loop leaves `visited` and the queue as `Discover` computes them |
| BreadthFirst.BreadthFirstSearch.VisitStep | static/js/algorithms/breadthFirstSearch.js:65-82 | one pass of the loop advances `visited`, the queue and the enqueue log by exactly one `Grow` step of the fold |
| BreadthFirst.BreadthFirstSearch.Visit | static/js/algorithms/breadthFirstSearch.js:65-82 | a passable, unvisited neighbour is marked visited and enqueued with the extended path; otherwise nothing changes |
| DepthFirst.PushPreserves | static/js/algorithms/depthFirstSearch.js:46-83 | popping the top node and pushing what the loop finds keeps the frontier invariant |
| DepthFirst.DepthFirstSearch.constructor | static/js/algorithms/depthFirstSearch.js:8-34 | the stack holds the start node alone, only the start is visited, no final path, not done |
| DepthFirst.DepthFirstSearch.AddToVisited | static/js/algorithms/depthFirstSearch.js:93-95 | the coordinate joins the visited set |
| DepthFirst.DepthFirstSearch.HasVisited | static/js/algorithms/depthFirstSearch.js:97-99 | true exactly for coordinates in the visited set |
| DepthFirst.DepthFirstSearch.Step | static/js/algorithms/depthFirstSearch.js:36-86 | once done, nothing changes; an empty stack sets done with no final path; popping the goal sets the final path to its path; any other node's discoveries are pushed in the order left, down, right, up; `visited` only grows and the invariant is kept |
| DepthFirst.DepthFirstSearch.Expand | static/js/algorithms/depthFirstSearch.js:64-83 | the loop leaves `visited` and the stack as `Discover` over the DFS table computes them |
| DepthFirst.DepthFirstSearch.VisitStep | static/js/algorithms/depthFirstSearch.js:65-82 | one pass of the loop advances `visited`, the stack and the push log by exactly one `Grow` step of the fold |
| DepthFirst.DepthFirstSearch.Visit | static/js/algorithms/depthFirstSearch.js:65-82 | a passable, unvisited neighbour is marked visited and pushed with the extended path; otherwise nothing changes |
| AStarSearch.InsertionIndex | static/js/algorithms/aStar.js:249-255 | the splice point comes after every item of equal or smaller priority and before the first strictly larger one |
| AStarSearch.InsertPlaces | static/js/algorithms/aStar.js:249-260 | `enqueue` puts the new item at one index; removing it gives back the old queue; items before it are no larger and items after it strictly larger, so equal priorities stay first in, first out |
| AStarSearch.InsertSorted | static/js/algorithms/aStar.js:238-261 | a sorted queue stays sorted and gains exactly the new item, as a multiset |
| AStarSearch.InsertUnique | static/js/algorithms/aStar.js:113-115 | splicing in an item whose coordinate is not yet queued keeps one entry per coordinate |
| AStarSearch.SortByPriority | static/js/algorithms/aStar.js:106 | the re-sort yields a sorted permutation of the queue |
| AStarSearch.SortedIsFixed | static/js/algorithms/aStar.js:101-107 | re-sorting an already sorted queue leaves it exactly as it was |
| AStarSearch.FrontIsMinimum | static/js/algorithms/aStar.js:263-267 | the front of a sorted queue has the least priority, so `dequeue` hands out a minimum |
| AStarSearch.PriorityQueue.constructor | static/js/algorithms/aStar.js:234-236 | a new queue is empty |
| AStarSearch.PriorityQueue.Enqueue | static/js/algorithms/aStar.js:238-261 | the queue becomes `Insert` of the item, with the element's f as priority |
| AStarSearch.PriorityQueue.Dequeue | static/js/algorithms/aStar.js:263-267 | an empty queue gives null and stays empty; otherwise the front element is returned and removed |
| AStarSearch.PriorityQueue.IsEmpty | static/js/algorithms/aStar.js:269-271 | true exactly when there are no items |
| AStarSearch.Heuristic | static/js/algorithms/aStar.js:39-41 | the Manhattan distance is zero exactly at the goal |
| AStarSearch.HeuristicConsistent | static/js/algorithms/aStar.js:39-41 | one grid step changes the heuristic by at most one |
| AStarSearch.NeighborOk | static/js/algorithms/aStar.js:83-91 | a neighbour node has g one more than the current node, f = g + h, and the current path with the neighbour appended, a legal route from the start |
| AStarSearch.FindOpen | static/js/algorithms/aStar.js:96-99 | the scan stops at the first queued item with the neighbour's coordinate, or finds none |
| AStarSearch.DecreaseKeyInPlace | static/js/algorithms/aStar.js:101-107 | decrease-key rewrites only that entry's element, to the new g, f and path; its priority and position stay, and every other entry is untouched |
| AStarSearch.InsertOk | static/js/algorithms/aStar.js:113-115 | enqueuing a coordinate not yet queued or closed keeps the open set sorted, one entry per coordinate, and disjoint from the closed set |
| AStarSearch.RelaxOk | static/js/algorithms/aStar.js:80-116 | one pass of the neighbour loop keeps the open-set invariant |
| AStarSearch.RelaxAllOk | static/js/algorithms/aStar.js:74-117 | the whole neighbour loop keeps the open-set invariant |
| AStarSearch.CloseFront | static/js/algorithms/aStar.js:53-64 | dequeuing the front and closing its coordinate keeps the rest of the open set valid and disjoint from the closed set |
| AStarSearch.AStar.constructor | static/js/algorithms/aStar.js:9-36 | the open set holds the start node alone, with g = 0 and f = h(start); nothing is closed; no final path; not done |
| AStarSearch.AStar.Step | static/js/algorithms/aStar.js:43-120 | once done, nothing changes; an empty open set sets done with no final path; the goal sets the final path and is not closed; any other coordinate is closed and its neighbours relaxed; the closed set only grows and the invariant is kept |
| AStarSearch.AStar.Expand | static/js/algorithms/aStar.js:74-117 | the loop leaves the open set as `RelaxAll` computes it |
| AStarSearch.AStar.RelaxNeighbor | static/js/algorithms/aStar.js:75-116 | one neighbour leaves the open set as `Relax` says: enqueued if absent, rewritten if cheaper, otherwise unchanged |
| WallFollowing.TurnsInRange | static/js/algorithms/leftWallFollower.js:46-113 | the three candidates are three different facings in 0..3, none of them the reverse; the right order is the left order with its ends swapped |
| WallFollowing.FirstOpen | static/js/algorithms/leftWallFollower.js:62-110 | the first candidate whose move is allowed, every earlier one being blocked; none means all are blocked |
| WallFollowing.Follow | static/js/algorithms/leftWallFollower.js:45-114 | the facing stays in 0..3, and the follower either stays put or moves to a passable grid neighbour in its new facing |
| WallFollowing.FollowThree | static/js/algorithms/leftWallFollower.js:45-114 | with three candidates, `Follow` is the chain of three tests followed by turning around |
| WallFollowing.FollowMoves | static/js/algorithms/leftWallFollower.js:112-114 | a step moves exactly when some candidate is passable, and only a blocked step faces (d + 2) % 4 |
| WallFollowing.CanMoveMirror | static/js/maze.js:314-322 | `canMove` in the mirrored maze between mirrored points answers as in the original |
| WallFollowing.FirstOpenMirror | static/js/algorithms/rightWallFollower.js:46-110 | the first passable candidate is the same one in the mirrored maze with mirrored facings |
| WallFollowing.LeftRightMirror | static/js/algorithms/rightWallFollower.js:46-114 | the right follower in the mirrored maze makes the mirror image of every step the left follower makes |
| WallFollowing.ReverseMirror | static/js/algorithms/rightWallFollower.js:113 | turning around commutes with mirroring the facing |
| LeftFollower.LeftWallFollower.constructor | static/js/algorithms/leftWallFollower.js:8-28 | position at the start, facing right, path [start], visited {start}, not done |
| LeftFollower.LeftWallFollower.UpdatePosition | static/js/algorithms/leftWallFollower.js:117-122 | the position moves and the coordinate is appended to the path and added to `visited` |
| LeftFollower.LeftWallFollower.CanMoveTo | static/js/algorithms/leftWallFollower.js:124-127 | a move is asked from the current position; an allowed one has a cell there and a different target |
| LeftFollower.LeftWallFollower.Step | static/js/algorithms/leftWallFollower.js:30-115 | returns true exactly when already done or standing on the goal, and then only sets done; otherwise tries left, straight, right and turns around if all are blocked, as `Follow` with `LeftTurns`; the path stays a legal route ending at the position and `visited` its coordinates |
| LeftFollower.LeftWallFollower.MoveOrTurn | static/js/algorithms/leftWallFollower.js:46-114 | off the goal, faces and moves to the first passable of left, straight, right, or turns around on the spot, as `Follow` with `LeftTurns`; the path stays a legal route and `visited` its coordinates |
| LeftFollower.LeftWallFollower.Advance | static/js/algorithms/leftWallFollower.js:63-67 | a move to a passable neighbour extends the route by one adjacent entry |
| RightFollower.RightWallFollower.constructor | static/js/algorithms/rightWallFollower.js:8-28 | position at the start, facing right, path [start], visited {start}, not done |
| RightFollower.RightWallFollower.UpdatePosition | static/js/algorithms/rightWallFollower.js:117-122 | the position moves and the coordinate is appended to the path and added to `visited` |
| RightFollower.RightWallFollower.CanMoveTo | static/js/algorithms/rightWallFollower.js:124-127 | a move is asked from the current position; an allowed one has a cell there and a different target |
| RightFollower.RightWallFollower.Step | static/js/algorithms/rightWallFollower.js:30-115 | as the left follower, with the order right, straight, left (`RightTurns`) |
| RightFollower.RightWallFollower.MoveOrTurn | static/js/algorithms/rightWallFollower.js:46-114 | as the left follower, with the order right, straight, left (`RightTurns`) |
| RightFollower.RightWallFollower.Advance | static/js/algorithms/rightWallFollower.js:63-67 | a move to a passable neighbour extends the route by one adjacent entry |
| Carving.AllCoordsIsGrid | app.py:68 | the grid's coordinates are exactly 0 <= x < width, 0 <= y < height |
| Carving.AllCoordsSize | app.py:68 | the grid has width × height coordinates |
| Carving.CandidatesUpTo | app.py:123-127 | after n directions the list holds exactly the in-grid, unvisited headings among the first n |
| Carving.CandidatesMembers | app.py:113-129 | a point is listed exactly when it is a grid neighbour inside the grid and not visited |
| Carving.CandidatesShrink | app.py:79-83 | a cell without unvisited neighbours keeps none as more cells are visited |
| Carving.WithoutClearsOne | app.py:137-148 | knocking one wall down clears that flag and changes no other |
| Carving.RemoveWallsFacing | app.py:131-148 | for a neighbour in facing d, `remove_walls` clears the current cell's wall toward d and the next cell's opposite wall, and nothing else |
| Carving.RemoveWallsSymmetric | app.py:131-148 | on grid neighbours, `remove_walls` keeps the two flags of every shared edge in agreement |
| Carving.CarvedEdge | app.py:131-148 | clearing the two flags of one edge leaves any edge whose two flags agreed still in agreement |
| Carving.AllClosed | app.py:58 | every grid cell starts with all four walls standing |
| Carving.CarveInit | app.py:72-74 | one visited start cell on the stack with all walls standing satisfies the loop invariant |
| Carving.PopPreserves | app.py:81-83 | popping a cell with no unvisited neighbour keeps the invariant |
| Carving.CarvedWalls | app.py:86 | after carving an edge, the walls that are down are still exactly the tree's edges |
| Carving.TreeGrow | app.py:85-89 | a cell carved from a visited neighbour joins the tree as a leaf |
| Carving.TreePush | app.py:85-89 | carving to an unvisited grid neighbour grows the visited set by one cell inside the grid, keeps the tree and ranks, and no cell had the new one as parent |
| Carving.PushPreserves | app.py:85-89 | carving to an unvisited neighbour, marking it and pushing it keeps the invariant with one more carve |
| Carving.OffStackGrow | app.py:85-89 | after marking and pushing a cell, every visited cell off the stack still has no unvisited neighbour |
| Carving.ReachUnvisited | app.py:77-89 | while some grid cell is unvisited, some visited cell still has an unvisited neighbour |
| Carving.CarveDone | app.py:77-89 | when the stack is empty every cell is visited, width × height − 1 carves were made, the cells form a spanning tree and the walls are symmetric |
| Carving.TreeSymmetric | app.py:131-148 | walls that follow a set of edges agree on every shared edge |
| MazeGenerator.Cell.constructor | app.py:53-58 | a new cell has its coordinates, all four walls and is not visited |
| MazeGenerator.MakeGrid | app.py:68 | `grid[x][y]` is a new, unvisited cell at (x, y) with all four walls standing |
| MazeGenerator.MakeColumn | app.py:68 | one column of new, unvisited, closed cells at (x, 0..height−1) |
| MazeGenerator.NeighborStep | app.py:123-127 | trying one more direction adds its neighbour exactly when it is inside the grid and not visited |
| MazeGenerator.GetUnvisitedNeighbors | app.py:113-129 | the coordinates returned are exactly `Candidates` for the grid's visited cells, and every cell returned is the grid's own cell |
| MazeGenerator.TryDirection | app.py:124-127 | one pass of the direction loop extends the neighbour list as `CandidatesUpTo` says |
| MazeGenerator.RemoveWalls | app.py:131-148 | for two different cells the walls become `ClearedPair` of dx, dy = current − next; the same cell twice changes nothing; the visited flags are untouched |
| MazeGenerator.ListCells | app.py:101-108 | the output list is the grid flattened column by column |
| MazeGenerator.FlattenIndex | app.py:107 | cell (x, y) sits at index x · height + y of the output, with its walls |
| MazeGenerator.FlattenLayout | app.py:101-108 | the output has width × height entries; cell (x, y) is at index x · height + y; every entry is a grid cell with that cell's walls |
| MazeGenerator.MarkStart | app.py:72-73 | marking the start cell visited leaves the grid with one visited cell and all walls standing |
| MazeGenerator.CarveTo | app.py:85-88 | knocking down the wall to the chosen neighbour and marking it visited updates the grid as the carve of that edge |
| MazeGenerator.Backtrack | app.py:81-83 | the pop removes the top cell and keeps the loop invariant |
| MazeGenerator.PushStep | app.py:85-89 | carving to an unvisited neighbour and pushing it keeps the invariant, with one more visited cell |
| MazeGenerator.CarveStep | app.py:78-89 | one loop pass keeps the invariant; it either pops, shortening the stack, or visits one new cell, so the loop terminates |
| MazeGenerator.MirroredLayout | app.py:101-108 | the listed cells carry the final wall map: (x, y) at index x · height + y, and nothing off the grid |
| MazeGenerator.SpanningTree | app.py:77-89 | at loop exit the visited cells form a spanning tree of the grid with width × height − 1 edges, the walls that are down are its edges, and the walls are symmetric |
| MazeGenerator.MazeData | app.py:91-109 | the maze has the given width and height, start (0, 0), end (width−1, height−1), and the cells in x-major order |
| MazeGenerator.GenerateMaze | app.py:60-111 | the output has width × height cells in x-major order, start (0, 0) and end (width−1, height−1); the walls that are down form a spanning tree rooted at the random start; and the walls are symmetric |
| MazeGenerator.GeneratedMoves | static/js/maze.js:309-322 | on a generated maze, `canMove` allows a step in a facing exactly along a tree edge, and never from outside the grid |
| Game.NamesRoundTrip | static/js/maze.js:236-254 | every engine has exactly one selector name, and the empty selection names none |
| Game.StopState | static/js/maze.js:286-292 | after a stop nothing runs and no handle is held; the engine and speed are kept; stopping twice is stopping once |
| Game.StartNoop | static/js/maze.js:273 | with no engine, or already running, a start changes nothing |
| Game.StartRuns | static/js/maze.js:272-284 | a start from a stopped game with an engine runs with a timer at the current speed, and keeps the flags consistent |
| Game.ToggleFlips | static/js/maze.js:294-300 | a toggle flips `isRunning` when an engine is selected and does nothing otherwise |
| Game.ToggleTwice | static/js/maze.js:294-300 | two toggles give back a stopped game exactly, and a running one with a new timer handle |
| Game.RespeedState | static/js/maze.js:44-50 | the speed becomes 1000 minus the slider; a running game keeps running with a timer at the new period; a stopped one stays stopped |
| Game.FasterSlider | static/js/maze.js:45 | a higher slider value gives a shorter period |
| Game.ClearedState | static/js/maze.js:262-265 | the first part of a reset leaves no engine, nothing running and no handle, whatever the state before |
| Game.InstallConsistent | static/js/maze.js:236-251 | installing an engine keeps the flags consistent |
| Game.MazeGame.constructor | static/js/maze.js:19-29 | no maze, no engine, not running, speed 100, no timer |
| Game.MazeGame.StopAnimation | static/js/maze.js:286-292 | the flags become `Stop` of the old ones, and the handle passed to `clearInterval` is the one that was held |
| Game.MazeGame.StartAnimation | static/js/maze.js:272-284 | the flags become `Start` of the old ones |
| Game.MazeGame.ToggleAnimation | static/js/maze.js:294-300 | the flags become `Toggle` of the old ones |
| Game.MazeGame.ChangeSpeed | static/js/maze.js:44-50 | the flags become `Respeed` of the old ones |
| Game.MazeGame.InitializeAlgorithm | static/js/maze.js:232-260 | a known name installs a fresh engine of that kind over the current maze, in exactly the state its constructor sets (start position, path or queue `[start]`, `visited == {start}`, A*'s single start item with g = 0 and priority h(start)); an unknown name changes nothing; the engine's maze stays the game's |
| Game.MazeGame.ResetAlgorithm | static/js/maze.js:262-270 | stops and drops the engine, then installs a fresh one in its constructor's state exactly when the selection names a known engine; afterwards the engine's maze is the game's |
| Game.MazeGame.MazeLoaded | static/js/maze.js:95-97 | the received maze is kept and the game is reset over it, so any new engine is built over that maze |
| Game.MazeGame.SelectAlgorithm | static/js/maze.js:38-41 | the game is stopped, with a fresh engine of the selected kind over the maze, or none for an unknown name |
| Game.NewEngine | static/js/maze.js:236-251 | each `switch` case builds a fresh engine of its kind over the maze, in exactly the state its constructor sets (`AtStart`) |

## Left out

- Canvas rendering is not modelled: every `draw` method, `drawMaze` and `resizeCanvas`. It only reads engine state.
- DOM wiring is not modelled: the DOM lookups in the controller's constructor, `setupEventListeners` apart from the selector and speed handlers, and the play-button handler.
- The `fetch` to the server and its JSON decoding are not modelled. Only the state update after a successful response is (`MazeLoaded`).
- `generateMazeClientSide` is not modelled. It relies on `Math.random()`.
- Game.MazeGame.Valid includes `OnMaze`: the engine was built over the maze the game holds, because an engine's moves go through the game's `getCell` on its current maze (static/js/maze.js:303-306, 309-325). Every modelled method keeps this. The client-side fallback after a failed fetch breaks it: it replaces the maze (static/js/maze.js:137-143) without a reset, so an old engine would keep its start and end but read the new walls. That path is outside the model.
- Timers are not modelled. `setInterval` is represented by the handle it returns, passed in as a parameter, and its asynchronous tick callback (a step, then a stop when done) is not modelled.
- The step button is not modelled.
- The Flask routes, `render_template`, logging, `app.run` and the route's default size are not modelled. Neither is the database schema module.
- Randomness is passed in as parameters. `random.randint` becomes the start parameters of `GenerateMaze`, with the ranges randint requires. `random.choice(neighbors)` becomes `choose(i) % |neighbors|` for the i-th carve of the loop.
- MazeGenerator.GenerateMaze requires width and height of at least 1. For a width or height of 0, `random.randint(0, -1)` raises an error.
- The `"x,y"` string keys are modelled as `Point` values. The string formatting is not.
- The engines' own `canMove`, a one-line call into the controller, is modelled as a direct call of `MazeModel.CanMove` on the engine's maze.
- Game.MazeGame.InitializeAlgorithm requires a maze when the name is known, because the engine constructors read `maze.start`. With a null maze the source throws a TypeError.
- Game.MazeGame.InitializeAlgorithm does not model the enabling of the step and reset buttons.
- The speed slider's value is taken as an integer. The string-to-number coercion of `1000 - value` is not modelled.
- Array aliasing is not modelled. The engines store a node's path by reference, and the model copies paths as sequence values; no engine mutates a path after storing it.
- `Array.prototype.sort` is modelled as a stable insertion sort (`SortByPriority`). Only its result on an already sorted array matters here, and there it is the identity.
- Optimality is not proved: neither that BFS finds a shortest path nor that A* does. Only the layering of the BFS queue by path length, the basis of the shortest-path claim, is proved.
- Termination of the wall followers is not proved. Follower Step states that the run ends only on the goal, so a maze with an unreachable goal never reports done.
- MazeModel.Heading maps every facing other than 0, 1 and 2 to left, as the followers' `else` branches do. The followers only ever use facings 0..3.
