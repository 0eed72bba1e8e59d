/** The `TreeRenderer` constructor (ts/maze/renderers/tree-renderer.ts): a
    breadth-first search from a root cell along the maze's passages. Each
    cell met for the first time becomes a child of the node being
    expanded, one layer deeper. The resulting tree is then laid out. */
module TreeBuild {
  import opened Grid
  import opened Mazes
  import opened Graphs
  import opened TreeLayout

  /** The tree nodes in the order the search creates them, which is also
      the order of its queue: node `t` stands for the maze cell `cells[t]`,
      lies at depth `depths[t]` and has the nodes `kids[t]` as children. */
  datatype Bfs = Bfs(cells: seq<nat>, depths: seq<nat>, kids: seq<seq<nat>>)

  /** Node `c` hangs below node `t`: created later, one layer deeper, for a
      cell joined to `t`'s cell by a passage. */
  ghost predicate Hangs(m: Maze, b: Bfs, parent: seq<nat>, t: nat, c: nat)
    requires |b.cells| == |b.depths| == |parent|
  {
    && t < c < |b.cells| && parent[c] == t && b.depths[c] == b.depths[t] + 1
    && Linked(m, b.cells[t], b.cells[c])
  }

  /** The node list so far: the root is node 0 at depth 0, every cell
      appears once and is reachable from the root, and `visited` holds
      exactly the cells met so far. */
  ghost predicate Met(m: Maze, root: nat, b: Bfs, visited: set<nat>)
  {
    && |b.cells| == |b.depths| == |b.kids| && |b.cells| >= 1
    && b.cells[0] == root && b.depths[0] == 0
    && NoDup(b.cells)
    && (forall x :: x in visited <==> x in b.cells)
    && (forall t :: 0 <= t < |b.cells| ==> b.cells[t] < |m.nodes| && ReachableIn(m, Cells(|m.nodes|), root, b.cells[t]))
  }

  /** The links so far: every child hangs below its node, and every node
      but the root is a child of exactly one earlier node, its `parent`. */
  ghost predicate Hung(m: Maze, b: Bfs, parent: seq<nat>)
  {
    && |b.cells| == |b.depths| == |b.kids| == |parent|
    && (forall t, k :: 0 <= t < |b.kids| && 0 <= k < |b.kids[t]| ==> Hangs(m, b, parent, t, b.kids[t][k]))
    && (forall c :: 1 <= c < |b.cells| ==> parent[c] < c && c in b.kids[parent[c]])
  }

  /** What the search keeps true: the nodes met so far, linked up. */
  ghost predicate Searched(m: Maze, root: nat, b: Bfs, parent: seq<nat>, visited: set<nat>)
  {
    Met(m, root, b, visited) && Hung(m, b, parent)
  }

  /** The search's first state: the root alone, visited, at depth 0. */
  lemma StartSearch(m: Maze, root: nat)
    requires root < |m.nodes|
    ensures Searched(m, root, Bfs([root], [0], [[]]), [0], {root})
  {
    ReachRefl(m, Cells(|m.nodes|), root);
  }

  /** Node `head` gets a new child for cell `x`, at the end of the queue. */
  function Added(b: Bfs, head: nat, x: nat): (b': Bfs)
    requires |b.cells| == |b.depths| == |b.kids| && head < |b.cells|
    ensures |b'.cells| == |b'.depths| == |b'.kids| == |b.cells| + 1
  {
    Bfs(b.cells + [x], b.depths + [b.depths[head] + 1], b.kids[head := b.kids[head] + [|b.cells|]] + [[]])
  }

  lemma AddedMet(m: Maze, root: nat, b: Bfs, visited: set<nat>, head: nat, x: nat)
    requires Met(m, root, b, visited) && head < |b.cells|
    requires Linked(m, b.cells[head], x) && x !in visited && x < |m.nodes|
    ensures Met(m, root, Added(b, head, x), visited + {x})
  {
    ReachStep(m, Cells(|m.nodes|), root, b.cells[head], x);
  }

  lemma AddedHung(m: Maze, b: Bfs, parent: seq<nat>, head: nat, x: nat)
    requires Hung(m, b, parent) && head < |b.cells| && Linked(m, b.cells[head], x)
    ensures Hung(m, Added(b, head, x), parent + [head])
  {
    var (b', parent', c) := (Added(b, head, x), parent + [head], |b.cells|);
    forall t, k | 0 <= t < |b'.kids| && 0 <= k < |b'.kids[t]|
      ensures Hangs(m, b', parent', t, b'.kids[t][k])
    {
      if t == head && k == |b.kids[head]| {
        assert b'.kids[t][k] == c;
      } else {
        assert b'.kids[t][k] == b.kids[t][k];
        assert Hangs(m, b, parent, t, b.kids[t][k]);
      }
    }
  }

  /** How the search's state moves on while node `head` is expanded: the
      visited set and the node list only grow, nodes already there keep
      their cell, every node but `head` keeps its children, and the new
      nodes have none yet. */
  ghost predicate Grows(b: Bfs, b': Bfs, visited: set<nat>, visited': set<nat>, head: nat)
  {
    && |b.kids| == |b.cells| <= |b'.cells| == |b'.kids|
    && visited <= visited' && (visited' == visited ==> |b'.cells| == |b.cells|)
    && (forall t :: 0 <= t < |b.cells| ==> b'.cells[t] == b.cells[t])
    && (forall t :: 0 <= t < |b.cells| && t != head ==> b'.kids[t] == b.kids[t])
    && (forall t :: |b.cells| <= t < |b'.cells| ==> b'.kids[t] == [])
  }

  lemma GrowsTrans(b0: Bfs, b1: Bfs, b2: Bfs, v0: set<nat>, v1: set<nat>, v2: set<nat>, head: nat)
    requires Grows(b0, b1, v0, v1, head) && Grows(b1, b2, v1, v2, head) && head < |b0.cells|
    ensures Grows(b0, b2, v0, v2, head)
  {
    forall t | |b0.cells| <= t < |b2.cells|
      ensures b2.kids[t] == []
    {
      if t < |b1.cells| {
        assert b2.kids[t] == b1.kids[t];
      }
    }
  }

  /** A new child of node `head` for the unvisited cell `x`. */
  method AddChild(ghost m: Maze, ghost root: nat, b: Bfs, ghost parent: seq<nat>, visited: set<nat>, head: nat, x: nat)
    returns (b': Bfs, ghost parent': seq<nat>, visited': set<nat>)
    requires Searched(m, root, b, parent, visited) && head < |b.cells|
    requires Linked(m, b.cells[head], x) && x !in visited && x < |m.nodes|
    ensures Searched(m, root, b', parent', visited') && Grows(b, b', visited, visited', head)
    ensures visited' == visited + {x} && b'.cells == b.cells + [x]
    ensures b'.kids[head] == b.kids[head] + [|b.cells|]
  {
    b', parent', visited' := Added(b, head, x), parent + [head], visited + {x};
    AddedMet(m, root, b, visited, head, x);
    AddedHung(m, b, parent, head, x);
  }

  /** The search's view of one node: once node `t` is expanded, every cell
      its maze cell is joined to has been visited. */
  ghost predicate Expanded(m: Maze, b: Bfs, visited: set<nat>, t: nat)
    requires t < |b.cells|
  {
    b.cells[t] < |m.nodes| && forall x :: x in m.nodes[b.cells[t]].connections ==> x in visited
  }

  /** One turn of the outer loop: take node `head` off the queue and give it
      a child for each of its cell's passages to a cell not yet visited. */
  method Expand(ghost m: Maze, ghost root: nat, b: Bfs, ghost parent: seq<nat>, visited: set<nat>, head: nat, conns: seq<nat>)
    returns (b': Bfs, ghost parent': seq<nat>, visited': set<nat>)
    requires Searched(m, root, b, parent, visited) && head < |b.cells|
    requires conns == m.nodes[b.cells[head]].connections && forall x :: x in conns ==> x < |m.nodes|
    ensures Searched(m, root, b', parent', visited') && Grows(b, b', visited, visited', head)
    ensures Expanded(m, b', visited', head)
  {
    b', parent', visited' := b, parent, visited;
    var p := 0;
    while p < |conns|
      invariant p <= |conns| && Searched(m, root, b', parent', visited')
      invariant Grows(b, b', visited, visited', head)
      invariant forall q :: 0 <= q < p ==> conns[q] in visited'
    {
      var x := conns[p];
      assert b'.cells[head] == b.cells[head];
      assert Linked(m, b.cells[head], x);
      if x !in visited' {
        ghost var (prev, visitedPrev) := (b', visited');
        b', parent', visited' := AddChild(m, root, b', parent', visited', head, x);
        GrowsTrans(b, prev, b', visited, visitedPrev, visited', head);
      }
      p := p + 1;
    }
  }

  /** The constructor's search, run until the queue is empty. The tree
      holds exactly the cells reachable from the root, each once. */
  method Search(m: Maze, root: nat) returns (b: Bfs, ghost parent: seq<nat>)
    requires ConnWf(m) && root < |m.nodes|
    ensures Searched(m, root, b, parent, set x | x in b.cells)
    ensures forall x: nat :: x in b.cells <==> x < |m.nodes| && ReachableIn(m, Cells(|m.nodes|), root, x)
  {
    var visited := {root};
    b := Bfs([root], [0], [[]]);
    parent := [0];
    StartSearch(m, root);
    var head := 0;
    while head < |b.cells|
      invariant head <= |b.cells| && Searched(m, root, b, parent, visited)
      invariant visited <= Cells(|m.nodes|)
      invariant forall t :: 0 <= t < head ==> Expanded(m, b, visited, t)
      decreases Cells(|m.nodes|) - visited, |b.cells| - head
    {
      ghost var before := b;
      ghost var visited0 := visited;
      assert forall x :: x in m.nodes[b.cells[head]].connections ==> Linked(m, b.cells[head], x);
      b, parent, visited := Expand(m, root, b, parent, visited, head, m.nodes[b.cells[head]].connections);
      forall t | 0 <= t < head
        ensures Expanded(m, b, visited, t)
      {
        assert b.cells[t] == before.cells[t];
        assert Expanded(m, before, visited0, t);
      }
      head := head + 1;
    }
    SearchCovers(m, root, b, parent, visited);
  }

  /** When every node is expanded, the visited cells are closed under
      passages, so every cell reachable from the root was met. */
  lemma SearchCovers(m: Maze, root: nat, b: Bfs, parent: seq<nat>, visited: set<nat>)
    requires Searched(m, root, b, parent, visited)
    requires forall t :: 0 <= t < |b.cells| ==> Expanded(m, b, visited, t)
    ensures visited == set x | x in b.cells
    ensures forall x: nat :: x in b.cells <==> x < |m.nodes| && ReachableIn(m, Cells(|m.nodes|), root, x)
  {
    forall i: nat, j: nat | i in visited && Linked(m, i, j)
      ensures j in visited
    {
      var t :| 0 <= t < |b.cells| && b.cells[t] == i;
      assert Expanded(m, b, visited, t);
    }
    forall x: nat | x < |m.nodes| && ReachableIn(m, Cells(|m.nodes|), root, x)
      ensures x in b.cells
    {
      ClosedHoldsReachable(m, Cells(|m.nodes|), visited, root, x);
    }
  }

  // ---------------------------------------------------------------------
  // The tree of TreeNodes

  /** Children are always created after their parent. */
  ghost predicate Ordered(b: Bfs)
  {
    && |b.cells| == |b.depths| == |b.kids|
    && forall t, k :: 0 <= t < |b.kids| && 0 <= k < |b.kids[t]| ==> t < b.kids[t][k] < |b.cells|
  }

  /** The `TreeNode` below node `t`, with the children the search gave it. */
  function Subtree(b: Bfs, t: nat): (r: Tree)
    requires Ordered(b) && t < |b.cells|
    decreases |b.cells| - t
  {
    Tree(b.cells[t], b.depths[t], seq(|b.kids[t]|, k requires 0 <= k < |b.kids[t]| => Subtree(b, b.kids[t][k])))
  }

  /** Every child lies one layer below its parent. */
  ghost predicate Layered(t: Tree)
    decreases t
  {
    forall i :: 0 <= i < |t.children| ==> t.children[i].depth == t.depth + 1 && Layered(t.children[i])
  }

  /** The depths the search assigns: each child is one layer below its
      parent, all through the tree. */
  lemma {:induction false} SubtreeLayered(m: Maze, root: nat, b: Bfs, parent: seq<nat>, visited: set<nat>, t: nat)
    requires Searched(m, root, b, parent, visited) && t < |b.cells|
    ensures Ordered(b) && Layered(Subtree(b, t))
    decreases |b.cells| - t
  {
    assert Ordered(b) by {
      forall s, k | 0 <= s < |b.kids| && 0 <= k < |b.kids[s]|
        ensures s < b.kids[s][k] < |b.cells|
      {
        assert Hangs(m, b, parent, s, b.kids[s][k]);
      }
    }
    var r := Subtree(b, t);
    forall i | 0 <= i < |r.children|
      ensures r.children[i].depth == r.depth + 1 && Layered(r.children[i])
    {
      var c := b.kids[t][i];
      assert Hangs(m, b, parent, t, c);
      assert r.children[i] == Subtree(b, c);
      SubtreeLayered(m, root, b, parent, visited, c);
    }
  }

  /** The constructor: search from the root, build the tree of nodes, then
      lay it out. The tree's root stands for the root cell at depth 0, its
      depths go up one per layer, and its layout has one edge entry per
      layer below the root. */
  method NewTreeRenderer(m: Maze, root: nat) returns (tree: Tree, layout: Layout)
    requires ConnWf(m) && root < |m.nodes|
    ensures tree.mazeNode == root && tree.depth == 0 && Layered(tree)
    ensures |layout.leftEdge| == |layout.rightEdge| == Height(tree)
    ensures |layout.childPositions| == |tree.children|
  {
    var b;
    ghost var parent;
    b, parent := Search(m, root);
    SubtreeLayered(m, root, b, parent, set x | x in b.cells, 0);
    tree := Subtree(b, 0);
    layout := LayoutOf(tree);
  }
}
