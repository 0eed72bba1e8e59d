/** `RandomWalkGenerator.generate` (ts/maze/generators/random-walk.ts): the
    Aldous-Broder walk. From a random start the walker steps to a random
    neighbour each pass and, when that neighbour is new to the maze, carves
    the passage it walked through. */
module RandomWalk {
  import opened Grid
  import opened Mazes
  import opened Graphs
  import opened Draws

  /** The maze with the generator's `inMaze` set and `current` node. */
  datatype Walker = Walker(maze: Maze, inMaze: set<nat>, current: nat)

  /** A pass is defined: `current` is a node with at least one neighbour,
      and its neighbours are nodes of the maze. */
  predicate CanStep(w: Walker)
  {
    && w.current < |w.maze.nodes|
    && |w.maze.nodes[w.current].neighbors| > 0
    && forall j :: j in w.maze.nodes[w.current].neighbors ==> j < |w.maze.nodes|
  }

  /** One pass of the `while` loop: move to a random neighbour, carving the
      passage to it first when it is not yet in the maze. */
  function Step(w: Walker, draw: nat): (r: Walker)
    requires CanStep(w)
    ensures r.current in w.maze.nodes[w.current].neighbors
    ensures r.current in w.inMaze ==> r.maze == w.maze && r.inMaze == w.inMaze
    ensures r.current !in w.inMaze ==>
              && r.maze == Connect(w.maze, w.current, r.current)
              && r.inMaze == w.inMaze + {r.current}
  {
    var n := Choose(w.maze.nodes[w.current].neighbors, draw);
    if n in w.inMaze then Walker(w.maze, w.inMaze, n)
    else Walker(Connect(w.maze, w.current, n), w.inMaze + {n}, n)
  }

  /** The loop invariant relative to the maze `m` the walk started on and
      the start cell `root`: the walker stands on a cell of the maze, and
      from a maze without passages the carved passages are a spanning tree
      of the cells reached so far. */
  ghost predicate Inv(m: Maze, root: nat, w: Walker)
  {
    && Carved(m, w.maze)
    && w.inMaze <= Cells(|m.nodes|)
    && w.current in w.inMaze && root in w.inMaze
    && (NoLinks(m) ==> TreeOn(w.maze, w.inMaze, root))
  }

  lemma InvCanStep(m: Maze, root: nat, w: Walker)
    requires Inv(m, root, w) && |m.nodes| >= 2
    ensures CanStep(w)
  {
    ShapedNeighbors(w.maze, w.current);
  }

  /** A pass keeps the invariant and never loses a cell. */
  lemma StepKeepsInv(m: Maze, root: nat, w: Walker, draw: nat, next: Walker)
    requires Inv(m, root, w) && CanStep(w) && next == Step(w, draw)
    ensures Inv(m, root, next)
    ensures w.inMaze <= next.inMaze
  {
    var c := next.current;
    if c !in w.inMaze {
      assert Skeleton(w.maze.nodes[w.current]) == Skeleton(m.nodes[w.current]);
      CarveConnect(m, w.maze, w.current, c);
      if NoLinks(m) {
        GrowTreeTo(w.maze, w.inMaze, next.inMaze, root, w.current, c);
      }
    }
  }

  /** `generate`, cut off after at most `fuel` passes (the walk ends only
      with probability one). The walk starts on the cell picked by the first
      draw. Passages are only carved between neighbours; once every cell is
      in the maze the walk stops, and from a maze without passages it has
      then carved a spanning tree. */
  method Generate(m: Maze, draws: nat -> nat, fuel: nat) returns (w: Walker, start: nat, passes: nat)
    requires Valid(m) && |m.nodes| > 0
    ensures start < |m.nodes| && start == Pick(0, |m.nodes| - 1, draws(0))
    ensures Carved(m, w.maze) && w.inMaze <= Cells(|m.nodes|) && start in w.inMaze
    ensures passes <= fuel
    ensures |w.inMaze| < |m.nodes| ==> passes == fuel
    ensures NoLinks(m) ==> TreeOn(w.maze, w.inMaze, start)
    ensures |w.inMaze| == |m.nodes| ==>
              w.inMaze == Cells(|m.nodes|) && (NoLinks(m) ==> FullyConnected(w.maze) && EdgeCount(w.maze) == |m.nodes| - 1)
  {
    var n := |m.nodes|;
    start := Pick(0, n - 1, draws(0));
    w := Walker(m, {start}, start);
    CarvedRefl(m);
    if NoLinks(m) {
      TreeOfOne(m, start);
    }
    passes := 0;
    while |w.inMaze| < n && passes < fuel
      invariant Inv(m, start, w)
      invariant passes <= fuel
      decreases fuel - passes
    {
      InvCanStep(m, start, w);
      var next := Step(w, draws(passes + 1));
      StepKeepsInv(m, start, w, draws(passes + 1), next);
      w, passes := next, passes + 1;
    }
    if |w.inMaze| == n {
      SameSizeSubset(w.inMaze, Cells(n));
      if NoLinks(m) {
        TreeSpansAll(w.maze, start);
      }
    }
  }
}
