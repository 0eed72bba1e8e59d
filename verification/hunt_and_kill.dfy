/** `HuntAndKillGenerator` (ts/maze/generators/hunt-and-kill.ts). From node
    0 the generator walks to random unvisited neighbours, carving as it goes
    ("kill"); at a dead end it scans the nodes in index order for the first
    one outside the maze next to the maze ("hunt"), joins it to a random
    in-maze neighbour and walks on from there. */
module HuntAndKill {
  import opened Grid
  import opened Mazes
  import opened Graphs
  import opened Draws
  import opened Wrappers

  /** The maze with the generator's `inMaze` set and `current` node; no
      current node means the hunt found nothing and generation is over. */
  datatype Hunter = Hunter(maze: Maze, inMaze: set<nat>, current: Option<nat>)

  /** The neighbours of node `k` already in the maze. */
  function InMazeNeighbors(m: Maze, inMaze: set<nat>, k: nat): seq<nat>
    requires k < |m.nodes|
  {
    Filter(m.nodes[k].neighbors, n => n in inMaze)
  }

  /** What the hunt looks for: a node outside the maze with a neighbour in
      it. */
  predicate IsStart(m: Maze, inMaze: set<nat>, k: nat)
  {
    k < |m.nodes| && k !in inMaze && |InMazeNeighbors(m, inMaze, k)| > 0
  }

  /** `findNewStart`: the first node, in index order, that can be joined to
      the maze; none when there is no such node. */
  function FindNewStart(m: Maze, inMaze: set<nat>): (r: Option<nat>)
    ensures r.Some? ==> IsStart(m, inMaze, r.value)
  {
    FindFrom(m, inMaze, 0)
  }

  /** The scan of `findNewStart` from node `k` on. */
  function FindFrom(m: Maze, inMaze: set<nat>, k: nat): (r: Option<nat>)
    ensures r.Some? ==> k <= r.value && IsStart(m, inMaze, r.value)
    decreases |m.nodes| - k
  {
    if k >= |m.nodes| then None
    else if k !in inMaze && |InMazeNeighbors(m, inMaze, k)| > 0 then Some(k)
    else FindFrom(m, inMaze, k + 1)
  }

  /** The hunt returns the first start in index order, and finds none
      exactly when there is none. */
  lemma FindNewStartFirst(m: Maze, inMaze: set<nat>)
    ensures var r := FindNewStart(m, inMaze);
            && (r.Some? ==> forall k: nat :: k < r.value ==> !IsStart(m, inMaze, k))
            && (r.None? <==> forall k: nat :: !IsStart(m, inMaze, k))
  {
    FindFromFirst(m, inMaze, 0);
  }

  lemma FindFromFirst(m: Maze, inMaze: set<nat>, k: nat)
    ensures var r := FindFrom(m, inMaze, k);
            && (r.Some? ==> forall j: nat :: k <= j < r.value ==> !IsStart(m, inMaze, j))
            && (r.None? <==> forall j: nat :: k <= j ==> !IsStart(m, inMaze, j))
  {
    var r := FindFrom(m, inMaze, k);
    forall j: nat | k <= j && (r.Some? ==> j < r.value)
      ensures !IsStart(m, inMaze, j)
    {
      FindFromSkips(m, inMaze, k, j);
    }
  }

  /** The scan from `k` passes over `j` only if `j` is not a start. */
  lemma {:induction false} FindFromSkips(m: Maze, inMaze: set<nat>, k: nat, j: nat)
    requires k <= j
    requires FindFrom(m, inMaze, k).Some? ==> j < FindFrom(m, inMaze, k).value
    ensures !IsStart(m, inMaze, j)
    decreases j - k
  {
    if k < |m.nodes| && j > k {
      assert !IsStart(m, inMaze, k);
      assert FindFrom(m, inMaze, k) == FindFrom(m, inMaze, k + 1);
      FindFromSkips(m, inMaze, k + 1, j);
    }
  }

  /** The neighbours of the current node still outside the maze
      (`possibleConnections`). */
  function Unvisited(m: Maze, inMaze: set<nat>, k: nat): seq<nat>
    requires k < |m.nodes|
  {
    Filter(m.nodes[k].neighbors, n => n !in inMaze)
  }

  /** A pass is defined: there is a current node, it is a node of the
      maze, and so is every neighbour of every node. */
  predicate CanStep(h: Hunter)
  {
    && h.current.Some?
    && h.current.value < |h.maze.nodes|
    && NeighborsInRange(h.maze)
  }

  /** One pass of the `while (true)` loop. The kill step carves from the
      current node to a random unvisited neighbour and moves there; the hunt
      step joins the first start it finds to a random in-maze neighbour, or
      ends the run. */
  function Step(h: Hunter, draw: nat): (r: Hunter)
    requires CanStep(h)
    ensures var cur := h.current.value;
            |Unvisited(h.maze, h.inMaze, cur)| > 0 ==>
              && r.current.Some?
              && r.current.value in Unvisited(h.maze, h.inMaze, cur)
              && r.inMaze == h.inMaze + {r.current.value}
              && r.maze == Connect(h.maze, cur, r.current.value)
    ensures var cur := h.current.value;
            |Unvisited(h.maze, h.inMaze, cur)| == 0 ==>
              && r.current == FindNewStart(h.maze, h.inMaze)
              && (r.current.None? ==> r.maze == h.maze && r.inMaze == h.inMaze)
              && (r.current.Some? ==>
                    && r.inMaze == h.inMaze + {r.current.value}
                    && r.maze == Connect(h.maze, r.current.value, Joined(h.maze, h.inMaze, r.current.value, draw)))
  {
    var cur := h.current.value;
    var ps := Unvisited(h.maze, h.inMaze, cur);
    if |ps| > 0 then
      var c := Choose(ps, draw);
      Hunter(Connect(h.maze, cur, c), h.inMaze + {c}, Some(c))
    else
      match FindNewStart(h.maze, h.inMaze)
      case None => Hunter(h.maze, h.inMaze, None)
      case Some(s) =>
        Hunter(Connect(h.maze, s, Joined(h.maze, h.inMaze, s, draw)), h.inMaze + {s}, Some(s))
  }

  /** The in-maze neighbour a hunted start is joined to. */
  function Joined(m: Maze, inMaze: set<nat>, s: nat, draw: nat): (j: nat)
    requires IsStart(m, inMaze, s) && NeighborsInRange(m)
    ensures j in m.nodes[s].neighbors && j in inMaze && j < |m.nodes|
  {
    Choose(InMazeNeighbors(m, inMaze, s), draw)
  }

  /** The loop invariant relative to the maze `m` the run started on. */
  ghost predicate Inv(m: Maze, h: Hunter)
  {
    && Carved(m, h.maze)
    && h.inMaze <= Cells(|m.nodes|) && 0 in h.inMaze
    && (h.current.Some? ==> h.current.value in h.inMaze)
    && (NoLinks(m) ==> TreeOn(h.maze, h.inMaze, 0))
  }

  lemma StartInv(m: Maze)
    requires Valid(m) && |m.nodes| > 0
    ensures Inv(m, Hunter(m, {0}, Some(0)))
  {
    CarvedRefl(m);
    if NoLinks(m) {
      TreeOfOne(m, 0);
    }
  }

  lemma InvCanStep(m: Maze, h: Hunter)
    requires Inv(m, h) && h.current.Some?
    ensures CanStep(h)
  {
    ShapedInRange(h.maze);
  }

  /** Connecting cell `a` to its neighbour `b`, exactly one of which is in
      the maze, keeps the invariant with the other one (`added`) added. */
  lemma JoinKeepsInv(m: Maze, h: Hunter, a: nat, b: nat, added: nat, next: Hunter)
    requires Inv(m, h) && a < |m.nodes| && b < |m.nodes| && b in m.nodes[a].neighbors
    requires (added == b && a in h.inMaze && b !in h.inMaze) || (added == a && b in h.inMaze && a !in h.inMaze)
    requires next.maze == Connect(h.maze, a, b)
    requires next.inMaze == h.inMaze + {added} && next.current == Some(added)
    ensures Inv(m, next)
    ensures |next.inMaze| == |h.inMaze| + 1
  {
    CarveConnect(m, h.maze, a, b);
    if NoLinks(m) {
      if added == b {
        GrowTreeTo(h.maze, h.inMaze, next.inMaze, 0, a, b);
      } else {
        GrowTreeTo(h.maze, h.inMaze, next.inMaze, 0, b, a);
      }
    }
  }

  /** Every pass that does not end the run adds exactly one cell to the
      maze; the pass that ends it changes nothing. */
  lemma StepKeepsInv(m: Maze, h: Hunter, draw: nat, next: Hunter)
    requires Inv(m, h) && CanStep(h) && next == Step(h, draw)
    ensures Inv(m, next)
    ensures next.current.Some? ==> |next.inMaze| == |h.inMaze| + 1
    ensures next.current.None? ==> next.maze == h.maze && next.inMaze == h.inMaze
  {
    var cur := h.current.value;
    assert Skeleton(h.maze.nodes[cur]) == Skeleton(m.nodes[cur]);
    if |Unvisited(h.maze, h.inMaze, cur)| > 0 {
      JoinKeepsInv(m, h, cur, next.current.value, next.current.value, next);
    } else if next.current.Some? {
      var s := next.current.value;
      assert Skeleton(h.maze.nodes[s]) == Skeleton(m.nodes[s]);
      JoinKeepsInv(m, h, s, Joined(h.maze, h.inMaze, s, draw), s, next);
    }
  }

  /** When the hunt finds nothing, the maze holds every cell: otherwise,
      since the grid is connected, some cell outside would border it. */
  lemma NoStartAllIn(m: Maze, h: Hunter)
    requires Inv(m, h) && FindNewStart(h.maze, h.inMaze).None?
    ensures h.inMaze == Cells(|m.nodes|)
  {
    FindNewStartFirst(h.maze, h.inMaze);
    var w, ht := h.maze.width, h.maze.height;
    forall i, j | i in h.inMaze && i < w * ht && j in NeighborsOf(w, ht, i)
      ensures j in h.inMaze
    {
      ShapedNeighbors(h.maze, i);
      ShapedNeighbors(h.maze, j);
      if j !in h.inMaze {
        assert i in InMazeNeighbors(h.maze, h.inMaze, j);
        assert IsStart(h.maze, h.inMaze, j);
      }
    }
    ClosedSetIsEverything(w, ht, h.inMaze);
  }

  /** `generate`: the run ends after exactly one pass per cell; every cell
      is then in the maze, passages were only carved between neighbours, and
      from a maze without passages the result is a spanning tree. */
  method Generate(m: Maze, draws: nat -> nat) returns (r: Maze, passes: nat)
    requires Valid(m) && |m.nodes| > 0
    ensures Carved(m, r)
    ensures passes == |m.nodes|
    ensures NoLinks(m) ==> FullyConnected(r) && EdgeCount(r) == |m.nodes| - 1
  {
    var h := Hunter(m, {0}, Some(0));
    StartInv(m);
    passes := 0;
    while h.current.Some?
      invariant Inv(m, h)
      invariant h.current.Some? ==> |h.inMaze| == passes + 1
      invariant h.current.None? ==> |h.inMaze| == passes && h.inMaze == Cells(|m.nodes|)
      decreases |m.nodes| - |h.inMaze| + (if h.current.Some? then 1 else 0)
    {
      InvCanStep(m, h);
      var next := Step(h, draws(passes));
      StepKeepsInv(m, h, draws(passes), next);
      if next.current.None? {
        NoStartAllIn(m, next);
      }
      SubsetSize(next.inMaze, Cells(|m.nodes|));
      h, passes := next, passes + 1;
    }
    r := h.maze;
    if NoLinks(m) {
      TreeSpansAll(r, 0);
    }
  }
}
