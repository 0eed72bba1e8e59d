/** `generateBinaryMaze` (ts/maze/generators/binary.ts): each node, in index
    order, is connected to one randomly chosen neighbour with a smaller
    index, i.e. its left or upper neighbour. */
module Binary {
  import opened Grid
  import opened Mazes
  import opened Graphs
  import opened Draws

  /** The candidates of node `i`: its neighbours with a smaller index. */
  function Candidates(m: Maze, i: nat): seq<nat>
    requires i < |m.nodes|
  {
    Filter(m.nodes[i].neighbors, j => j < i)
  }

  /** On the grid the candidates of a cell are its left and upper
      neighbours, and only cell 0 has none. */
  lemma CandidatesLeftOrUp(m: Maze, i: nat)
    requires Shaped(m) && i < |m.nodes|
    ensures forall j :: j in Candidates(m, i) ==>
              (j + 1 == i && X(m.width, i) > 0) || (j + m.width == i && Y(m.width, i) > 0)
    ensures forall j :: j in Candidates(m, i) ==> j in m.nodes[i].neighbors
    ensures |Candidates(m, i)| == 0 <==> i == 0
  {
    ShapedNeighbors(m, i);
    NeighborsBelow(m.width, m.height, i);
    if i > 0 {
      if X(m.width, i) > 0 {
        assert i - 1 in Candidates(m, i);
      } else {
        assert i - m.width in Candidates(m, i);
      }
    }
  }

  /** The loop body for node `i`: no change when it has no candidate,
      otherwise a passage to the candidate the draw picks. */
  function VisitNode(m: Maze, i: nat, draw: nat): (r: Maze)
    requires Shaped(m) && i < |m.nodes|
    ensures i == 0 ==> r == m
    ensures i > 0 ==> exists j :: j in Candidates(m, i) && r == Connect(m, i, j)
  {
    var cs := Candidates(m, i);
    CandidatesLeftOrUp(m, i);
    if |cs| == 0 then m
    else
      var j := Choose(cs, draw);
      assert j in m.nodes[i].neighbors;
      ShapedNeighbors(m, i);
      Connect(m, i, j)
  }

  /** The passages of `r` are those of `m` plus, for each node `k` in
      (0, i), one to its chosen candidate `parents[k]`. */
  ghost predicate AddedParents(m: Maze, r: Maze, parents: seq<nat>, i: nat)
    requires i <= |parents| && i <= |m.nodes|
  {
    && (forall k :: 0 < k < i ==> parents[k] in Candidates(m, k) && Linked(r, k, parents[k]))
    && (forall a: nat, b: nat :: Linked(r, a, b) <==>
          Linked(m, a, b) || (0 < a < i && b == parents[a]) || (0 < b < i && a == parents[b]))
  }

  /** The loop invariant of `generateBinaryMaze` after `i` nodes. */
  ghost predicate Visited(m: Maze, r: Maze, parents: seq<nat>, i: nat)
  {
    && i <= |m.nodes| && |parents| == i
    && Valid(r) && r.width == m.width && r.height == m.height && |r.nodes| == |m.nodes|
    && (forall k :: 0 <= k < |m.nodes| ==> Skeleton(r.nodes[k]) == Skeleton(m.nodes[k]))
    && AddedParents(m, r, parents, i)
    && (NoLinks(m) && i > 0 ==> TreeOn(r, Cells(i), 0))
  }

  /** `generateBinaryMaze`: nodes are visited once each in index order, and
      every node but the first gains a passage to one of its candidates
      (reported in `parents`); nothing else changes. From a maze with no
      passages the result is a spanning tree: fully connected with one
      passage fewer than cells. */
  method GenerateBinaryMaze(m: Maze, draws: nat -> nat) returns (r: Maze, parents: seq<nat>)
    requires Valid(m)
    ensures Valid(r) && r.width == m.width && r.height == m.height
    ensures |r.nodes| == |m.nodes| && |parents| == |m.nodes|
    ensures AddedParents(m, r, parents, |m.nodes|)
    ensures NoLinks(m) ==> FullyConnected(r) && EdgeCount(r) == |m.nodes| - 1
  {
    r, parents := m, [];
    var i := 0;
    while i < |m.nodes|
      invariant Visited(m, r, parents, i)
    {
      var next := VisitNode(r, i, draws(i));
      var parent := 0;
      if i > 0 {
        parent :| parent in Candidates(r, i) && next == Connect(r, i, parent);
        VisitStep(m, r, parents, i, parent, next);
      } else {
        FirstStep(m, r);
      }
      r, parents := next, parents + [parent];
      i := i + 1;
    }
    if NoLinks(m) {
      TreeSpansAll(r, 0);
    }
  }

  /** Visiting node 0 changes nothing; from no passages it is a tree of one. */
  lemma FirstStep(m: Maze, r: Maze)
    requires Visited(m, r, [], 0) && |m.nodes| > 0
    ensures Visited(m, r, [0], 1)
  {
    if NoLinks(m) {
      TreeOfOne(r, 0);
      assert Cells(1) == {0};
    }
  }

  /** Visiting node `i > 0` with chosen candidate `j` extends the invariant. */
  lemma VisitStep(m: Maze, r: Maze, parents: seq<nat>, i: nat, j: nat, next: Maze)
    requires Visited(m, r, parents, i) && 0 < i < |m.nodes|
    requires j in Candidates(r, i) && next == Connect(r, i, j)
    ensures Visited(m, next, parents + [j], i + 1)
  {
    assert Candidates(r, i) == Candidates(m, i) by {
      assert Skeleton(r.nodes[i]).neighbors == Skeleton(m.nodes[i]).neighbors;
    }
    ShapedNeighbors(r, i);
    assert j in r.nodes[i].neighbors && j < i;
    ConnectValid(r, i, j);
    AddParent(m, r, parents, i, j);
    if NoLinks(m) {
      assert Cells(i) + {i} == Cells(i + 1);
      GrowTreeTo(r, Cells(i), Cells(i + 1), 0, j, i);
    }
  }

  lemma AddParent(m: Maze, r: Maze, parents: seq<nat>, i: nat, j: nat)
    requires ConnWf(r) && |r.nodes| == |m.nodes| && 0 < i < |m.nodes| && |parents| == i
    requires AddedParents(m, r, parents, i)
    requires j < i && j in Candidates(m, i)
    ensures AddedParents(m, Connect(r, i, j), parents + [j], i + 1)
  {
    var ps := parents + [j];
    var r' := Connect(r, i, j);
    forall k | 0 < k < i + 1
      ensures ps[k] in Candidates(m, k) && Linked(r', k, ps[k])
    {
      if k < i {
        assert ps[k] == parents[k] && Linked(r, k, parents[k]);
      }
    }
    forall a: nat, b: nat
      ensures Linked(r', a, b) <==> Linked(m, a, b) || (0 < a < i + 1 && b == ps[a]) || (0 < b < i + 1 && a == ps[b])
    {
      if 0 < a < i {
        assert ps[a] == parents[a];
      }
      if 0 < b < i {
        assert ps[b] == parents[b];
      }
    }
  }
}
