/** `GrowingTreeGenerator.generate` (ts/maze/generators/growing-tree.ts): the
    recursive backtracker. A stack starts with node 0; each pass marks the
    top visited, and either pops it (no unvisited neighbour left) or carves a
    passage to a random unvisited neighbour and pushes that. */
module GrowingTree {
  import opened Grid
  import opened Mazes
  import opened Graphs
  import opened Draws

  /** The maze with the generator's `visited` set and `toVisit` stack. */
  datatype Backtracker = Backtracker(maze: Maze, visited: set<nat>, toVisit: seq<nat>)

  /** A pass is defined: the top of the stack and its neighbours are nodes
      of the maze. */
  predicate CanStep(st: Backtracker)
  {
    && |st.toVisit| > 0
    && Top(st) < |st.maze.nodes|
    && forall j :: j in st.maze.nodes[Top(st)].neighbors ==> j < |st.maze.nodes|
  }

  function Top(st: Backtracker): nat
    requires |st.toVisit| > 0
  {
    st.toVisit[|st.toVisit| - 1]
  }

  /** `possibleConnections`: the top's neighbours not yet visited, once the
      top itself is marked. */
  function Unvisited(st: Backtracker): seq<nat>
    requires CanStep(st)
  {
    var visited := st.visited + {Top(st)};
    Filter(st.maze.nodes[Top(st)].neighbors, n => n !in visited)
  }

  /** One pass of the `while (toVisit.length > 0)` loop. */
  function Step(st: Backtracker, draw: nat): (r: Backtracker)
    requires CanStep(st)
    ensures r.visited == st.visited + {Top(st)}
    ensures |Unvisited(st)| == 0 ==>
              && r.maze == st.maze
              && r.toVisit == st.toVisit[..|st.toVisit| - 1]
              && forall n :: n in st.maze.nodes[Top(st)].neighbors ==> n in r.visited
    ensures |Unvisited(st)| > 0 ==>
              && |r.toVisit| == |st.toVisit| + 1
              && r.toVisit[..|st.toVisit|] == st.toVisit
              && Top(r) in st.maze.nodes[Top(st)].neighbors
              && Top(r) !in r.visited
              && r.maze == Connect(st.maze, Top(st), Top(r))
  {
    var node := Top(st);
    var visited := st.visited + {node};
    var ps := Unvisited(st);
    if |ps| == 0 then
      Backtracker(st.maze, visited, st.toVisit[..|st.toVisit| - 1])
    else
      var c := Choose(ps, draw);
      assert c in st.maze.nodes[node].neighbors;
      Backtracker(Connect(st.maze, node, c), visited, st.toVisit + [c])
  }

  /** Everything on the stack but the top has been visited, the stack
      repeats no node, and 0 has been reached. */
  ghost predicate StackShape(n: nat, visited: set<nat>, toVisit: seq<nat>)
  {
    && visited <= Cells(n)
    && (forall k :: 0 <= k < |toVisit| ==> toVisit[k] < n)
    && (forall k :: 0 <= k < |toVisit| - 1 ==> toVisit[k] in visited)
    && NoDup(toVisit)
    && (0 in visited || toVisit == [0])
  }

  /** The cells the carved tree spans: the visited ones and the top. */
  ghost function Spanned(st: Backtracker): set<nat>
  {
    if |st.toVisit| == 0 then st.visited else st.visited + {Top(st)}
  }

  /** The loop invariant relative to the maze `m` the run started from. */
  ghost predicate Inv(m: Maze, st: Backtracker)
  {
    && Carved(m, st.maze)
    && StackShape(|m.nodes|, st.visited, st.toVisit)
    && Closed(st)
    && (NoLinks(m) ==> TreeOn(st.maze, Spanned(st), 0))
  }

  /** A visited node off the stack has no unvisited neighbour left. */
  ghost predicate Closed(st: Backtracker)
  {
    forall v, n ::
      v in st.visited && v < |st.maze.nodes| && v !in st.toVisit && n in st.maze.nodes[v].neighbors ==> n in st.visited
  }

  /** The measure the loop lowers: unvisited cells count twice, an unvisited
      top once less; ties are broken by the stack height. */
  ghost function Work(st: Backtracker): nat
    requires st.visited <= Cells(|st.maze.nodes|)
  {
    var unvisited := |Cells(|st.maze.nodes|) - st.visited|;
    if |st.toVisit| > 0 && Top(st) !in st.visited && Top(st) < |st.maze.nodes| then
      assert Top(st) in Cells(|st.maze.nodes|) - st.visited;
      2 * unvisited - 1
    else 2 * unvisited
  }

  lemma StartInv(m: Maze)
    requires Valid(m)
    ensures Inv(m, Backtracker(m, {}, [0]))
  {
    var st := Backtracker(m, {}, [0]);
    CarvedRefl(m);
    assert Spanned(st) == {0};
    if NoLinks(m) {
      TreeOfOne(m, 0);
    }
  }

  /** The invariant makes every pass defined. */
  lemma InvCanStep(m: Maze, st: Backtracker)
    requires Inv(m, st) && |st.toVisit| > 0
    ensures CanStep(st)
  {
    ShapedNeighbors(st.maze, Top(st));
  }

  /** Marking one more cell visited leaves one fewer unvisited. */
  lemma VisitOne(n: nat, visited: set<nat>, v: nat)
    requires visited <= Cells(n) && v < n && v !in visited
    ensures |Cells(n) - (visited + {v})| == |Cells(n) - visited| - 1
  {
    assert Cells(n) - (visited + {v}) == (Cells(n) - visited) - {v};
  }

  /** A pass keeps the invariant and lowers the measure. */
  lemma StepKeepsInv(m: Maze, st: Backtracker, draw: nat, next: Backtracker)
    requires Inv(m, st) && |st.toVisit| > 0 && CanStep(st) && next == Step(st, draw)
    ensures Inv(m, next)
    ensures Work(next) < Work(st) || (Work(next) == Work(st) && |next.toVisit| < |st.toVisit|)
  {
    if |Unvisited(st)| == 0 {
      PopKeepsInv(m, st, next);
    } else {
      PushKeepsInv(m, st, next);
    }
  }

  lemma PopKeepsInv(m: Maze, st: Backtracker, next: Backtracker)
    requires Inv(m, st) && CanStep(st)
    requires next.maze == st.maze && next.visited == st.visited + {Top(st)}
    requires next.toVisit == st.toVisit[..|st.toVisit| - 1]
    requires forall n :: n in st.maze.nodes[Top(st)].neighbors ==> n in next.visited
    ensures Inv(m, next)
    ensures Work(next) < Work(st) || (Work(next) == Work(st) && |next.toVisit| < |st.toVisit|)
  {
    PopShape(|m.nodes|, st.visited, st.toVisit);
    PopClosed(st, next);
    PopSpanned(st, next);
    PopWork(st, next);
  }

  /** Popping the top, once marked visited, keeps the stack's shape. */
  lemma PopShape(n: nat, visited: set<nat>, T: seq<nat>)
    requires StackShape(n, visited, T) && |T| > 0
    ensures StackShape(n, visited + {T[|T| - 1]}, T[..|T| - 1])
  {
    var T' := T[..|T| - 1];
    assert forall k :: 0 <= k < |T'| ==> T'[k] == T[k];
  }

  /** The popped top has no unvisited neighbour, so the visited cells off
      the stack stay closed. */
  lemma PopClosed(st: Backtracker, next: Backtracker)
    requires Closed(st) && |st.toVisit| > 0 && Top(st) < |st.maze.nodes|
    requires next.maze == st.maze && next.visited == st.visited + {Top(st)}
    requires next.toVisit == st.toVisit[..|st.toVisit| - 1]
    requires forall n :: n in st.maze.nodes[Top(st)].neighbors ==> n in next.visited
    ensures Closed(next)
  {
    var T, T' := st.toVisit, next.toVisit;
    assert T == T' + [Top(st)];
    forall v, n | v in next.visited && v < |next.maze.nodes| && v !in T' && n in next.maze.nodes[v].neighbors
      ensures n in next.visited
    {
      if v != Top(st) {
        assert v !in T;
      }
    }
  }

  /** The new top, if any, was visited already: the spanned cells stay. */
  lemma PopSpanned(st: Backtracker, next: Backtracker)
    requires |st.toVisit| > 0 && forall k :: 0 <= k < |st.toVisit| - 1 ==> st.toVisit[k] in st.visited
    requires next.visited == st.visited + {Top(st)}
    requires next.toVisit == st.toVisit[..|st.toVisit| - 1]
    ensures Spanned(next) == Spanned(st)
  {
    var T := st.toVisit;
    if |next.toVisit| > 0 {
      assert Top(next) == T[|T| - 2];
    }
  }

  /** Popping visits the top at most once more and shortens the stack. */
  lemma PopWork(st: Backtracker, next: Backtracker)
    requires |st.toVisit| > 0 && Top(st) < |st.maze.nodes| && next.maze == st.maze
    requires st.visited <= Cells(|st.maze.nodes|)
    requires next.visited == st.visited + {Top(st)}
    requires next.toVisit == st.toVisit[..|st.toVisit| - 1]
    requires |next.toVisit| > 0 ==> Top(next) in st.visited
    ensures next.visited <= Cells(|next.maze.nodes|)
    ensures Work(next) < Work(st) || (Work(next) == Work(st) && |next.toVisit| < |st.toVisit|)
  {
    var N := |st.maze.nodes|;
    var node := Top(st);
    var F := |Cells(N) - st.visited|;
    assert Work(next) == 2 * |Cells(N) - next.visited|;
    if node !in st.visited {
      VisitOne(N, st.visited, node);
      assert Work(st) == 2 * F - 1;
    } else {
      assert next.visited == st.visited;
      assert Work(st) == 2 * F;
    }
  }

  lemma PushKeepsInv(m: Maze, st: Backtracker, next: Backtracker)
    requires Inv(m, st) && CanStep(st)
    requires next.visited == st.visited + {Top(st)}
    requires |next.toVisit| == |st.toVisit| + 1 && next.toVisit[..|st.toVisit|] == st.toVisit
    requires Top(next) in st.maze.nodes[Top(st)].neighbors && Top(next) !in next.visited
    requires next.maze == Connect(st.maze, Top(st), Top(next))
    ensures Inv(m, next)
    ensures Work(next) < Work(st)
  {
    PushCarved(m, st, next);
    PushShape(|m.nodes|, st, next);
    PushClosed(st, next);
    PushTree(m, st, next);
    PushWork(st, next);
  }

  /** Joining the top to a neighbour is a carving step. */
  lemma PushCarved(m: Maze, st: Backtracker, next: Backtracker)
    requires Carved(m, st.maze) && |st.toVisit| > 0 && |next.toVisit| > 0 && Top(st) < |st.maze.nodes|
    requires Top(next) in st.maze.nodes[Top(st)].neighbors && Top(next) < |st.maze.nodes|
    requires next.maze == Connect(st.maze, Top(st), Top(next))
    ensures Carved(m, next.maze)
  {
    var node, c := Top(st), Top(next);
    assert Skeleton(m.nodes[node]) == Skeleton(st.maze.nodes[node]);
    assert c in m.nodes[node].neighbors;
    CarveConnect(m, st.maze, node, c);
    assert next.maze == Connect(st.maze, node, c);
  }

  /** The newly visited top stays on the stack and the pushed cell joins
      it, so the visited cells off the stack stay closed. */
  lemma PushClosed(st: Backtracker, next: Backtracker)
    requires CanStep(st) && Closed(st)
    requires next.visited == st.visited + {Top(st)}
    requires |next.toVisit| == |st.toVisit| + 1 && next.toVisit[..|st.toVisit|] == st.toVisit
    requires Top(next) < |st.maze.nodes|
    requires next.maze == Connect(st.maze, Top(st), Top(next))
    ensures Closed(next)
  {
    var T, T' := st.toVisit, next.toVisit;
    assert T' == T + [Top(next)];
    forall v, n | v in next.visited && v < |next.maze.nodes| && v !in T' && n in next.maze.nodes[v].neighbors
      ensures n in next.visited
    {
      assert v != Top(st) && v !in T;
      assert Skeleton(next.maze.nodes[v]) == Skeleton(st.maze.nodes[v]);
    }
  }

  /** Joining the pushed cell to the top grows the tree by that cell. */
  lemma PushTree(m: Maze, st: Backtracker, next: Backtracker)
    requires ConnWf(st.maze) && |st.toVisit| > 0 && |next.toVisit| > 0 && Top(st) < |st.maze.nodes|
    requires NoLinks(m) ==> TreeOn(st.maze, Spanned(st), 0)
    requires next.visited == st.visited + {Top(st)}
    requires Top(next) < |st.maze.nodes| && Top(next) !in next.visited
    requires next.maze == Connect(st.maze, Top(st), Top(next))
    ensures NoLinks(m) ==> TreeOn(next.maze, Spanned(next), 0)
  {
    if NoLinks(m) {
      GrowTreeTo(st.maze, next.visited, next.visited + {Top(next)}, 0, Top(st), Top(next));
    }
  }

  /** Pushing an unvisited cell on top of a just-visited one keeps the
      stack's shape. */
  lemma PushShape(n: nat, st: Backtracker, next: Backtracker)
    requires StackShape(n, st.visited, st.toVisit) && |st.toVisit| > 0
    requires next.visited == st.visited + {Top(st)}
    requires |next.toVisit| == |st.toVisit| + 1 && next.toVisit[..|st.toVisit|] == st.toVisit
    requires Top(next) < n && Top(next) !in next.visited
    ensures StackShape(n, next.visited, next.toVisit)
  {
    var T, T', V', c := st.toVisit, next.toVisit, next.visited, Top(next);
    assert T' == T + [c];
    assert forall k :: 0 <= k < |T| ==> T[k] in V';
    assert c !in T;
    forall p, q | 0 <= p < q < |T'|
      ensures T'[p] != T'[q]
    {
      if q < |T| {
        assert T'[p] == T[p] && T'[q] == T[q];
      } else {
        assert T'[p] == T[p];
      }
    }
  }

  lemma PushWork(st: Backtracker, next: Backtracker)
    requires |st.toVisit| > 0 && Top(st) < |st.maze.nodes| && |next.maze.nodes| == |st.maze.nodes|
    requires st.visited <= Cells(|st.maze.nodes|)
    requires next.visited == st.visited + {Top(st)} && |next.toVisit| > 0
    requires Top(next) < |st.maze.nodes| && Top(next) !in next.visited
    ensures next.visited <= Cells(|next.maze.nodes|)
    ensures Work(next) < Work(st)
  {
    var N := |st.maze.nodes|;
    var node, c := Top(st), Top(next);
    var V' := next.visited;
    var F := |Cells(N) - st.visited|;
    VisitOne(N, V', c);
    assert Work(next) == 2 * |Cells(N) - V'| - 1;
    if node !in st.visited {
      VisitOne(N, st.visited, node);
      assert Work(st) == 2 * F - 1;
    } else {
      assert V' == st.visited;
      assert Work(st) == 2 * F;
    }
  }

  /** Once the stack is empty the visited cells are closed under taking
      neighbours, so on the connected grid they are all the cells. */
  lemma EmptyStackVisitedAll(m: Maze, st: Backtracker)
    requires Inv(m, st) && |st.toVisit| == 0
    ensures st.visited == Cells(|m.nodes|)
  {
    var w, h := st.maze.width, st.maze.height;
    forall i, j | i in st.visited && i < w * h && j in NeighborsOf(w, h, i)
      ensures j in st.visited
    {
      ShapedNeighbors(st.maze, i);
    }
    ClosedSetIsEverything(w, h, st.visited);
  }

  /** `generate`: the backtracker runs until its stack is empty. Every
      cell is reached; passages are only added, each between neighbours;
      from a maze with no passages the result is a spanning tree. */
  method Generate(m: Maze, draws: nat -> nat) returns (r: Maze)
    requires Valid(m)
    ensures Carved(m, r)
    ensures NoLinks(m) ==> FullyConnected(r) && EdgeCount(r) == |m.nodes| - 1
  {
    var st := Backtracker(m, {}, [0]);
    StartInv(m);
    var pass := 0;
    while |st.toVisit| > 0
      invariant Inv(m, st)
      decreases Work(st), |st.toVisit|
    {
      InvCanStep(m, st);
      var next := Step(st, draws(pass));
      StepKeepsInv(m, st, draws(pass), next);
      st, pass := next, pass + 1;
    }
    EmptyStackVisitedAll(m, st);
    r := st.maze;
    if NoLinks(m) {
      assert Spanned(st) == Cells(|r.nodes|);
      TreeSpansAll(r, 0);
    }
  }
}
