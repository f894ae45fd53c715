/**
 * The controller's animation flags: which engine is selected, whether the
 * animation runs, the interval timer it holds and the speed that timer
 * was started with. The timer is abstracted to the handle `setInterval`
 * would hand back (a parameter) and the period it was asked for; the
 * tick callback, the canvas and the DOM are not part of this model.
 */
module Game {
  import opened Wrappers
  import opened MazeModel
  import LeftFollower
  import RightFollower
  import BreadthFirst
  import DepthFirst
  import AStarSearch
  import Search

  /** The engine the controller holds, one variant per class. */
  datatype Engine =
    | LeftWall(left: LeftFollower.LeftWallFollower)
    | RightWall(right: RightFollower.RightWallFollower)
    | Breadth(breadth: BreadthFirst.BreadthFirstSearch)
    | Depth(depth: DepthFirst.DepthFirstSearch)
    | Star(star: AStarSearch.AStar)

  datatype Kind = LeftWallKind | RightWallKind | BreadthKind | DepthKind | StarKind

  /** The selector value that names each engine. */
  function NameOf(k: Kind): string {
    match k
    case LeftWallKind => "leftWallFollower"
    case RightWallKind => "rightWallFollower"
    case BreadthKind => "breadthFirstSearch"
    case DepthKind => "depthFirstSearch"
    case StarKind => "aStar"
  }

  /** The `switch` of `initializeAlgorithm`: any other value is unknown. */
  function KindNamed(name: string): Option<Kind> {
    if name == "leftWallFollower" then Some(LeftWallKind)
    else if name == "rightWallFollower" then Some(RightWallKind)
    else if name == "breadthFirstSearch" then Some(BreadthKind)
    else if name == "depthFirstSearch" then Some(DepthKind)
    else if name == "aStar" then Some(StarKind)
    else None
  }

  /** Each engine has exactly one name, and the empty selection names none. */
  lemma NamesRoundTrip(k: Kind, name: string)
    ensures KindNamed(NameOf(k)) == Some(k)
    ensures KindNamed(name) == Some(k) <==> name == NameOf(k)
    ensures KindNamed("") == None
  {
  }

  function KindOf(e: Engine): Kind {
    match e
    case LeftWall(_) => LeftWallKind
    case RightWall(_) => RightWallKind
    case Breadth(_) => BreadthKind
    case Depth(_) => DepthKind
    case Star(_) => StarKind
  }

  /** The maze an engine was built over. */
  function EngineMaze(e: Engine): Maze {
    match e
    case LeftWall(l) => l.maze
    case RightWall(r) => r.maze
    case Breadth(b) => b.maze
    case Depth(d) => d.maze
    case Star(a) => a.maze
  }

  /** The objects an engine's state lives in. */
  function Footprint(e: Engine): set<object> {
    match e
    case LeftWall(l) => {l}
    case RightWall(r) => {r}
    case Breadth(b) => {b}
    case Depth(d) => {d}
    case Star(a) => {a, a.openSet}
  }

  /** A freshly constructed engine: its invariant holds and its state is the one its constructor sets. */
  ghost predicate AtStart(e: Engine)
    reads Footprint(e)
  {
    match e
    case LeftWall(l) =>
      l.Valid() && l.Here() == l.maze.start && l.direction == 1 &&
      l.path == [l.maze.start] && l.visited == {l.maze.start} && !l.done
    case RightWall(r) =>
      r.Valid() && r.Here() == r.maze.start && r.direction == 1 &&
      r.path == [r.maze.start] && r.visited == {r.maze.start} && !r.done
    case Breadth(b) =>
      b.Valid() && b.queue == [Search.Node(b.maze.start, [b.maze.start])] && b.visited == {b.maze.start} &&
      b.currentPath == [b.maze.start] && b.finalPath == None && !b.done && b.discovered == [b.maze.start]
    case Depth(d) =>
      d.Valid() && d.stack == [Search.Node(d.maze.start, [d.maze.start])] && d.visited == {d.maze.start} &&
      d.currentPath == [d.maze.start] && d.finalPath == None && !d.done && d.discovered == [d.maze.start]
    case Star(a) =>
      var s := AStarSearch.AStarNode(a.maze.start, 0, AStarSearch.Heuristic(a.maze, a.maze.start), [a.maze.start]);
      a.Valid() && a.openSet.items == [AStarSearch.QueueItem(s, s.f)] && a.closedSet == {} &&
      a.currentPath == [a.maze.start] && a.finalPath == None && !a.done
  }

  // ---------------------------------------------------------------------
  // The flags as a value, and the transitions on them

  /** An interval timer: the handle `setInterval` returned and the period it was given. */
  datatype Timer = Timer(handle: nat, period: int)

  datatype Controls = Controls(algorithm: Option<Engine>, isRunning: bool, speed: int, interval: Option<Timer>)

  /**
   * What holds between calls: the game runs exactly while it holds a timer,
   * only runs with an engine selected, and its timer ticks at the current speed.
   */
  predicate Consistent(c: Controls) {
    (c.isRunning <==> c.interval.Some?) &&
    (c.isRunning ==> c.algorithm.Some?) &&
    (c.interval.Some? ==> c.interval.value.period == c.speed)
  }

  /** `stopAnimation`. */
  function Stop(c: Controls): Controls {
    c.(isRunning := false, interval := None)
  }

  /** `startAnimation`, with `handle` standing for what `setInterval` returns. */
  function Start(c: Controls, handle: nat): Controls {
    if c.algorithm.None? || c.isRunning then c
    else c.(isRunning := true, interval := Some(Timer(handle, c.speed)))
  }

  /** `toggleAnimation`. */
  function Toggle(c: Controls, handle: nat): Controls {
    if c.isRunning then Stop(c) else Start(c, handle)
  }

  /** The speed slider's handler: the period is 1000 minus the slider, and a running animation is restarted. */
  function Respeed(c: Controls, slider: int, handle: nat): Controls {
    var d := c.(speed := 1000 - slider);
    if d.isRunning then Start(Stop(d), handle) else d
  }

  /** The first three statements of `resetAlgorithm`. */
  function Cleared(c: Controls): Controls {
    Stop(c).(algorithm := None)
  }

  /** After a stop nothing runs and no timer is held; stopping again changes nothing. */
  lemma StopState(c: Controls)
    ensures !Stop(c).isRunning && Stop(c).interval == None
    ensures Stop(c).algorithm == c.algorithm && Stop(c).speed == c.speed
    ensures Consistent(Stop(c))
    ensures Stop(Stop(c)) == Stop(c)
  {
  }

  /** With no engine, or already running, a start changes nothing. */
  lemma StartNoop(c: Controls, handle: nat)
    requires c.algorithm.None? || c.isRunning
    ensures Start(c, handle) == c
  {
  }

  /** A start from a stopped game with an engine runs with a timer at the current speed. */
  lemma StartRuns(c: Controls, handle: nat)
    requires Consistent(c)
    ensures Consistent(Start(c, handle))
    ensures Start(c, handle).algorithm == c.algorithm && Start(c, handle).speed == c.speed
    ensures c.algorithm.Some? && !c.isRunning ==>
      Start(c, handle).isRunning && Start(c, handle).interval == Some(Timer(handle, c.speed))
    ensures c.isRunning ==> Start(c, handle).interval == c.interval
  {
  }

  /** A toggle flips `isRunning` when an engine is selected, and does nothing otherwise. */
  lemma ToggleFlips(c: Controls, handle: nat)
    requires Consistent(c)
    ensures Consistent(Toggle(c, handle))
    ensures c.algorithm.Some? ==> Toggle(c, handle).isRunning == !c.isRunning
    ensures c.algorithm.None? ==> Toggle(c, handle) == c
  {
  }

  /**
   * Two toggles give the game back: a stopped game exactly, a running one
   * with the same flags and a new timer handle.
   */
  lemma ToggleTwice(c: Controls, h1: nat, h2: nat)
    requires Consistent(c)
    ensures !c.isRunning ==> Toggle(Toggle(c, h1), h2) == c
    ensures c.isRunning ==> Toggle(Toggle(c, h1), h2) == c.(interval := Some(Timer(h2, c.speed)))
  {
  }

  /** A speed change keeps the game running or stopped, and a running timer takes the new period. */
  lemma RespeedState(c: Controls, slider: int, handle: nat)
    requires Consistent(c)
    ensures Consistent(Respeed(c, slider, handle))
    ensures Respeed(c, slider, handle).speed == 1000 - slider
    ensures Respeed(c, slider, handle).isRunning == c.isRunning
    ensures Respeed(c, slider, handle).algorithm == c.algorithm
    ensures c.isRunning ==> Respeed(c, slider, handle).interval == Some(Timer(handle, 1000 - slider))
  {
  }

  /** A higher slider value gives a shorter period. */
  lemma FasterSlider(c: Controls, low: int, high: int, h1: nat, h2: nat)
    requires low < high
    ensures Respeed(c, high, h2).speed < Respeed(c, low, h1).speed
  {
  }

  /** A reset leaves a stopped game with no engine, whatever state it started from. */
  lemma ClearedState(c: Controls)
    ensures Cleared(c) == Controls(None, false, c.speed, None)
    ensures Consistent(Cleared(c))
  {
  }

  /** Installing an engine never breaks consistency, whether or not the game runs. */
  lemma InstallConsistent(c: Controls, e: Engine)
    requires Consistent(c)
    ensures Consistent(c.(algorithm := Some(e)))
  {
  }

  // ---------------------------------------------------------------------
  // The controller object

  class MazeGame {
    var maze: Option<Maze>
    var algorithm: Option<Engine>
    var isRunning: bool
    /** The interval period, in milliseconds. */
    var speed: int
    var animationInterval: Option<Timer>

    function Flags(): Controls
      reads this
    {
      Controls(algorithm, isRunning, speed, animationInterval)
    }

    /**
     * The engine reads the walls through the game's `getCell`, so it must
     * have been built over the maze the game holds.
     */
    predicate OnMaze()
      reads this
    {
      algorithm.Some? ==> maze == Some(EngineMaze(algorithm.value))
    }

    ghost predicate Valid()
      reads this
    {
      Consistent(Flags()) && OnMaze()
    }

    /** The fields as the constructor sets them, before any maze arrives. */
    constructor ()
      ensures Valid()
      ensures maze == None && algorithm == None && !isRunning && speed == 100 && animationInterval == None
    {
      maze := None;
      algorithm := None;
      isRunning := false;
      speed := 100;
      animationInterval := None;
    }

    /** `stopAnimation`; `cleared` is the handle passed to `clearInterval`, if one was held. */
    method StopAnimation() returns (cleared: Option<nat>)
      modifies this
      ensures Consistent(Flags())
      ensures Flags() == Stop(old(Flags())) && maze == old(maze)
      ensures cleared == if old(animationInterval).Some? then Some(old(animationInterval).value.handle) else None
    {
      cleared := None;
      if animationInterval.Some? {
        cleared := Some(animationInterval.value.handle);
        animationInterval := None;
      }
      isRunning := false;
      StopState(old(Flags()));
    }

    /** `startAnimation`; `handle` is what `setInterval` returns for a timer at `speed`. */
    method StartAnimation(handle: nat)
      requires Valid()
      modifies this
      ensures Valid()
      ensures Flags() == Start(old(Flags()), handle) && maze == old(maze)
    {
      StartRuns(Flags(), handle);
      if algorithm.None? || isRunning {
        return;
      }
      isRunning := true;
      animationInterval := Some(Timer(handle, speed));
    }

    /** `toggleAnimation`. */
    method ToggleAnimation(handle: nat)
      requires Valid()
      modifies this
      ensures Valid()
      ensures Flags() == Toggle(old(Flags()), handle) && maze == old(maze)
    {
      if isRunning {
        var _ := StopAnimation();
      } else {
        StartAnimation(handle);
      }
    }

    /** The speed slider's `input` handler. */
    method ChangeSpeed(slider: int, handle: nat)
      requires Valid()
      modifies this
      ensures Valid()
      ensures Flags() == Respeed(old(Flags()), slider, handle) && maze == old(maze)
    {
      speed := 1000 - slider;
      if isRunning {
        var _ := StopAnimation();
        StartAnimation(handle);
      }
    }

    /**
     * `initializeAlgorithm`: a known selector value installs a new engine of
     * that kind over the current maze (whose start the constructors read, so
     * a maze must be present); an unknown value changes nothing.
     */
    method InitializeAlgorithm(name: string)
      requires Valid()
      requires KindNamed(name).Some? ==> maze.Some?
      modifies this
      ensures Valid()
      ensures maze == old(maze) && isRunning == old(isRunning) && speed == old(speed)
      ensures animationInterval == old(animationInterval)
      ensures KindNamed(name).None? ==> algorithm == old(algorithm)
      ensures KindNamed(name).Some? ==>
        algorithm.Some? && KindOf(algorithm.value) == KindNamed(name).value &&
        EngineMaze(algorithm.value) == maze.value &&
        fresh(Footprint(algorithm.value)) && AtStart(algorithm.value)
    {
      match KindNamed(name)
      case None =>
        return;
      case Some(k) =>
        var e := NewEngine(k, maze.value);
        InstallConsistent(Flags(), e);
        algorithm := Some(e);
    }

    /**
     * `resetAlgorithm`: stop, drop the engine, and initialise a new one when
     * the selector holds any value. It is also called right after a new maze
     * is stored, while the old engine still points at the old one, so it
     * asks only for consistent flags.
     */
    method ResetAlgorithm(selection: string)
      requires Consistent(Flags())
      requires KindNamed(selection).Some? ==> maze.Some?
      modifies this
      ensures Valid()
      ensures !isRunning && animationInterval == None
      ensures maze == old(maze) && speed == old(speed)
      ensures KindNamed(selection).None? ==> Flags() == Cleared(old(Flags()))
      ensures KindNamed(selection).Some? ==>
        Flags() == Cleared(old(Flags())).(algorithm := algorithm) &&
        algorithm.Some? && KindOf(algorithm.value) == KindNamed(selection).value &&
        EngineMaze(algorithm.value) == maze.value &&
        fresh(Footprint(algorithm.value)) && AtStart(algorithm.value)
    {
      var _ := StopAnimation();
      isRunning := false;
      algorithm := None;
      ClearedState(old(Flags()));
      if selection != "" {
        InitializeAlgorithm(selection);
      }
    }

    /** Lines after a successful fetch in `generateMaze`: keep the new maze and reset. */
    method MazeLoaded(m: Maze, selection: string)
      requires Valid()
      modifies this
      ensures Valid()
      ensures maze == Some(m) && !isRunning && animationInterval == None && speed == old(speed)
      ensures KindNamed(selection).None? ==> algorithm == None
      ensures KindNamed(selection).Some? ==>
        algorithm.Some? && KindOf(algorithm.value) == KindNamed(selection).value &&
        EngineMaze(algorithm.value) == m &&
        fresh(Footprint(algorithm.value)) && AtStart(algorithm.value)
    {
      maze := Some(m);
      ResetAlgorithm(selection);
    }

    /**
     * The selector's `change` handler: a reset (which already builds an
     * engine for a known value) followed by a second initialisation, so the
     * engine the reset built is replaced by another fresh one.
     */
    method SelectAlgorithm(selection: string)
      requires Valid()
      requires KindNamed(selection).Some? ==> maze.Some?
      modifies this
      ensures Valid()
      ensures !isRunning && animationInterval == None && maze == old(maze) && speed == old(speed)
      ensures KindNamed(selection).None? ==> algorithm == None
      ensures KindNamed(selection).Some? ==>
        algorithm.Some? && KindOf(algorithm.value) == KindNamed(selection).value &&
        EngineMaze(algorithm.value) == maze.value &&
        fresh(Footprint(algorithm.value)) && AtStart(algorithm.value)
    {
      ResetAlgorithm(selection);
      InitializeAlgorithm(selection);
    }
  }

  /** The `new` expression of each `switch` case. */
  method NewEngine(k: Kind, maze: Maze) returns (e: Engine)
    ensures KindOf(e) == k && EngineMaze(e) == maze
    ensures fresh(Footprint(e)) && AtStart(e)
  {
    match k
    case LeftWallKind =>
      var l := new LeftFollower.LeftWallFollower(maze);
      e := LeftWall(l);
    case RightWallKind =>
      var r := new RightFollower.RightWallFollower(maze);
      e := RightWall(r);
    case BreadthKind =>
      var b := new BreadthFirst.BreadthFirstSearch(maze);
      e := Breadth(b);
    case DepthKind =>
      var d := new DepthFirst.DepthFirstSearch(maze);
      e := Depth(d);
    case StarKind =>
      var a := new AStarSearch.AStar(maze);
      e := Star(a);
  }
}
