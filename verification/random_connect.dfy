/** `RandomConnector` (ts/maze/generators/random-connect.ts): visits the
    nodes in index order and connects each to one randomly chosen neighbour.
    It is the one generator written against the `iterate`/`isDone` protocol;
    the result need not be connected. */
module RandomConnect {
  import opened Grid
  import opened Mazes
  import opened Draws
  import opened Generators

  /** The maze together with the generator's `index` field. */
  datatype Connector = Connector(maze: Maze, index: nat)

  predicate IsDone(c: Connector)
  {
    c.index >= |c.maze.nodes|
  }

  /** What a run from a fresh maze keeps: the maze stays valid, `index` has
      not passed the end, every node before `index` has a passage, and each
      pass has added at most one passage. */
  ghost predicate Inv(c: Connector)
  {
    && Valid(c.maze) && |c.maze.nodes| >= 2
    && c.index <= |c.maze.nodes|
    && (forall i :: 0 <= i < c.index ==> |c.maze.nodes[i].connections| > 0)
    && DegreeSum(c.maze.nodes) <= 2 * c.index
  }

  /** A pass is defined: `choose` is not handed an empty neighbour list.
      Every valid maze with two or more cells allows it (`ValidCanStep`). */
  predicate CanStep(c: Connector)
  {
    !IsDone(c) ==>
      && |c.maze.nodes[c.index].neighbors| > 0
      && forall j :: j in c.maze.nodes[c.index].neighbors ==> j < |c.maze.nodes|
  }

  lemma ValidCanStep(c: Connector)
    requires Valid(c.maze) && |c.maze.nodes| >= 2
    ensures CanStep(c)
  {
    if !IsDone(c) {
      ShapedNeighbors(c.maze, c.index);
    }
  }

  /** The neighbour a pass connects `nodes[index]` to: one of its
      neighbours, whichever the draw picks. */
  function Chosen(c: Connector, draw: nat): (j: nat)
    requires CanStep(c) && !IsDone(c)
    ensures j in c.maze.nodes[c.index].neighbors && j < |c.maze.nodes|
  {
    Choose(c.maze.nodes[c.index].neighbors, draw)
  }

  /** `iterate`: nothing once done; otherwise `nodes[index]` is connected to
      the chosen neighbour and `index` moves on by one. */
  function Iterate(c: Connector, draw: nat): (r: Connector)
    requires CanStep(c)
    ensures IsDone(c) ==> r == c
    ensures !IsDone(c) ==> r.index == c.index + 1
    ensures !IsDone(c) ==> r.maze == Connect(c.maze, c.index, Chosen(c, draw))
  {
    if IsDone(c) then c
    else Connector(Connect(c.maze, c.index, Chosen(c, draw)), c.index + 1)
  }

  lemma IterateAdvances(c: Connector, draw: nat)
    requires CanStep(c) && !IsDone(c)
    ensures Iterate(c, draw).index == c.index + 1
  {
  }

  /** Every pass keeps the run invariant. */
  lemma IterateKeepsInv(c: Connector, draw: nat)
    requires Inv(c)
    ensures CanStep(c) && Inv(Iterate(c, draw))
    ensures Iterate(c, draw).maze.width == c.maze.width && Iterate(c, draw).maze.height == c.maze.height
  {
    ValidCanStep(c);
    if !IsDone(c) {
      ConnectStep(c.maze, c.index, Chosen(c, draw));
    }
  }

  /** Connecting a cell to one of its neighbours keeps the maze valid, gives
      the cell a passage, removes none and adds at most one. */
  lemma ConnectStep(m: Maze, i: nat, j: nat)
    requires Valid(m) && i < |m.nodes| && j in m.nodes[i].neighbors
    ensures j < |m.nodes|
    ensures Valid(Connect(m, i, j))
    ensures |Connect(m, i, j).nodes[i].connections| > 0
    ensures forall k :: 0 <= k < |m.nodes| ==> |Connect(m, i, j).nodes[k].connections| >= |m.nodes[k].connections|
    ensures DegreeSum(Connect(m, i, j).nodes) <= DegreeSum(m.nodes) + 2
  {
    ShapedNeighbors(m, i);
    ConnectWf(m, i, j);
    var r := Connect(m, i, j);
    assert Linked(r, i, j);
    if !Linked(m, i, j) {
      ConnectDegree(m, i, j);
    }
  }

  /** `generate` on a fresh width-by-height maze: exactly one pass per node,
      every node ends with at least one passage, and at most one passage per
      node is added. */
  method Run(width: nat, height: nat, draws: nat -> nat) returns (m: Maze, passes: nat)
    requires width > 0 && height > 0 && width * height >= 2
    ensures passes == width * height
    ensures Valid(m) && m.width == width && m.height == height
    ensures forall i :: 0 <= i < |m.nodes| ==> |m.nodes[i].connections| > 0
    ensures EdgeCount(m) <= width * height
  {
    var start := NewMaze(width, height);
    NewMazeValid(width, height);
    NoLinksNoDegree(start);
    var n := width * height;
    var iterate := (c: Connector) requires CanStep(c) => Iterate(c, draws(c.index));
    ghost var inv := (c: Connector) => Inv(c) && |c.maze.nodes| == n && c.maze.width == width && c.maze.height == height;
    ghost var rank := (c: Connector) => if c.index <= n then n - c.index else 0;
    forall t | inv(t) && !IsDone(t)
      ensures iterate.requires(t) && inv(iterate(t)) && rank(iterate(t)) < rank(t)
    {
      IterateKeepsInv(t, draws(t.index));
    }
    var final;
    final, passes := Generate(iterate, IsDone, inv, rank, Connector(start, 0));
    ghost var index := (c: Connector) => c.index as int;
    forall t | inv(t) && !IsDone(t)
      ensures iterate.requires(t) && inv(iterate(t)) && index(iterate(t)) == index(t) + 1
    {
      IterateKeepsInv(t, draws(t.index));
      IterateAdvances(t, draws(t.index));
    }
    PassesCount(iterate, IsDone, inv, index, Connector(start, 0), passes, final);
    m := final.maze;
  }
}
