/** Sets of nodes that grow into trees. Two generators (set joining and
    row by row) keep every node in a set, carve a passage only between
    nodes of different sets and then merge the two sets. Here a set is
    named by an id: node `i` belongs to the set `owner[i]`. This module
    states what such a run keeps true and proves that a single set left at
    the end means a spanning tree. */
module Forests {
  import opened Grid
  import opened Mazes
  import opened Graphs

  /** The ids of the sets some node belongs to: the distinct sets. */
  function Ids(owner: seq<nat>): set<nat>
  {
    set i | 0 <= i < |owner| :: owner[i]
  }

  /** A node's set id after the set `removed` is merged into `merged`. */
  function Remap(x: nat, removed: nat, merged: nat): nat
  {
    if x == removed then merged else x
  }

  /** Every passage joins two nodes of one set. */
  ghost predicate LinksInside(maze: Maze, owner: seq<nat>)
  {
    forall i: nat, j: nat :: Linked(maze, i, j) ==> i < |owner| && j < |owner| && owner[i] == owner[j]
  }

  /** The nodes of a set are all joined by passages. */
  ghost predicate SetsConnected(maze: Maze, owner: seq<nat>)
  {
    forall i: nat, j: nat :: i < |owner| && j < |owner| && owner[i] == owner[j] ==>
      ReachableIn(maze, Cells(|owner|), i, j)
  }

  /** One passage fewer than nodes in every set: with `LinksInside` and
      `SetsConnected`, every set is a tree. */
  ghost predicate Counted(maze: Maze, owner: seq<nat>)
  {
    DegreeSum(maze.nodes) + 2 * |Ids(owner)| == 2 * |owner|
  }

  /** `maze` was carved from the passage-free maze `m0`, and the sets of
      `owner` are exactly the trees its passages form. */
  ghost predicate Forest(m0: Maze, maze: Maze, owner: seq<nat>)
  {
    && Carved(m0, maze) && |owner| == |m0.nodes|
    && LinksInside(maze, owner)
    && SetsConnected(maze, owner)
    && Counted(maze, owner)
  }

  /** Every node alone in its own set, named by its own index. */
  function SingletonIds(n: nat): (owner: seq<nat>)
    ensures |owner| == n && Ids(owner) == Cells(n)
    ensures forall i :: 0 <= i < n ==> owner[i] == i
  {
    var owner := seq(n, i => i);
    assert Ids(owner) == Cells(n) by {
      forall x: nat | x < n
        ensures x in Ids(owner)
      {
        assert owner[x] == x;
      }
    }
    owner
  }

  /** Before any passage, the singletons are a forest. */
  lemma StartForest(m: Maze)
    requires Valid(m) && NoLinks(m)
    ensures Forest(m, m, SingletonIds(|m.nodes|))
  {
    var n := |m.nodes|;
    var owner := SingletonIds(n);
    CarvedRefl(m);
    NoLinksNoDegree(m);
    forall i: nat, j: nat | i < n && j < n && owner[i] == owner[j]
      ensures ReachableIn(m, Cells(n), i, j)
    {
      ReachRefl(m, Cells(n), i);
    }
  }

  /** Two nodes share a set exactly when a path of passages joins them. */
  lemma SetsAreComponents(m0: Maze, maze: Maze, owner: seq<nat>)
    requires Forest(m0, maze, owner)
    ensures forall i: nat, j: nat :: i < |owner| && j < |owner| ==>
              (owner[i] == owner[j] <==> ReachableIn(maze, Cells(|owner|), i, j))
  {
    var n := |owner|;
    forall i: nat, j: nat | i < n && j < n && ReachableIn(maze, Cells(n), i, j)
      ensures owner[i] == owner[j]
    {
      var same := set k: nat | k < n && owner[k] == owner[i];
      ClosedHoldsReachable(maze, Cells(n), same, i, j);
    }
  }

  // ---------------------------------------------------------------------
  // Joining two sets

  /** `r` is `m` with the passage `a`-`b`, which `m` lacked, carved. */
  ghost predicate AddsPassage(m: Maze, r: Maze, a: nat, b: nat)
  {
    && r.width == m.width && r.height == m.height && |r.nodes| == |m.nodes|
    && (forall k :: 0 <= k < |m.nodes| ==> Skeleton(r.nodes[k]) == Skeleton(m.nodes[k]))
    && ConnWf(r)
    && (forall i: nat, j: nat :: Linked(r, i, j) <==> Linked(m, i, j) || (i == a && j == b) || (i == b && j == a))
    && DegreeSum(r.nodes) == DegreeSum(m.nodes) + 2
  }

  /** `a.connect(b)` for two cells not yet connected, seen through its
      contract: exactly one passage more. */
  method AddPassage(m: Maze, a: nat, b: nat) returns (r: Maze)
    requires ConnWf(m) && a < |m.nodes| && b < |m.nodes| && a != b && !Linked(m, a, b)
    ensures AddsPassage(m, r, a, b)
  {
    ConnectWf(m, a, b);
    ConnectDegree(m, a, b);
    r := Connect(m, a, b);
  }

  lemma CarveAdds(m0: Maze, m: Maze, r: Maze, a: nat, b: nat)
    requires Carved(m0, m) && AddsPassage(m, r, a, b)
    requires a < |m0.nodes| && b in m0.nodes[a].neighbors
    ensures Carved(m0, r)
  {
    assert Skeleton(m.nodes[a]) == Skeleton(m0.nodes[a]);
    ShapedNeighbors(m, a);
    assert Skeleton(m.nodes[b]) == Skeleton(m0.nodes[b]);
    assert Shaped(r) by {
      forall k | 0 <= k < |r.nodes|
        ensures Skeleton(r.nodes[k]) == CellSkeleton(r.width, r.height, k)
      {
        assert Skeleton(r.nodes[k]) == Skeleton(m.nodes[k]);
      }
    }
  }

  /** `owner'` is `owner` with the set of `b` merged into the set of `a`. */
  ghost predicate Merged(owner: seq<nat>, owner': seq<nat>, a: nat, b: nat)
    requires a < |owner| && b < |owner|
  {
    && |owner'| == |owner|
    && forall j :: 0 <= j < |owner| ==> owner'[j] == Remap(owner[j], owner[b], owner[a])
  }

  /** The set of `b` merged into the set of `a`. */
  function MergeInto(owner: seq<nat>, a: nat, b: nat): (owner': seq<nat>)
    requires a < |owner| && b < |owner|
    ensures Merged(owner, owner', a, b)
  {
    seq(|owner|, j requires 0 <= j < |owner| => Remap(owner[j], owner[b], owner[a]))
  }

  /** The new passage joins the merged set, and old passages stay inside
      their (possibly renamed) sets. */
  lemma JoinLinks(maze: Maze, owner: seq<nat>, maze': Maze, owner': seq<nat>, a: nat, b: nat)
    requires a < |owner| && b < |owner| && Merged(owner, owner', a, b)
    requires LinksInside(maze, owner) && owner[a] != owner[b]
    requires forall i: nat, j: nat :: Linked(maze', i, j) <==> Linked(maze, i, j) || (i == a && j == b) || (i == b && j == a)
    ensures LinksInside(maze', owner')
  {
  }

  /** After the merge, nodes of one set are joined in the carved maze: a
      node of `b`'s old set reaches `b`, crosses to `a` and reaches any node
      of `a`'s old set. */
  lemma JoinReach(maze: Maze, owner: seq<nat>, maze': Maze, owner': seq<nat>, a: nat, b: nat)
    requires a < |owner| && b < |owner| && Merged(owner, owner', a, b)
    requires SetsConnected(maze, owner) && owner[a] != owner[b]
    requires forall i: nat, j: nat :: Linked(maze, i, j) ==> Linked(maze', i, j)
    requires Linked(maze', a, b) && Linked(maze', b, a)
    ensures SetsConnected(maze', owner')
  {
    var n := |owner|;
    var all := Cells(n);
    var oa, ob := owner[a], owner[b];
    forall i: nat, j: nat | i < n && j < n && owner'[i] == owner'[j]
      ensures ReachableIn(maze', all, i, j)
    {
      if owner[i] == owner[j] {
        ReachMono(maze, maze', all, all, i, j);
      } else if owner[i] == ob {
        assert owner[j] == oa;
        ReachMono(maze, maze', all, all, i, b);
        ReachMono(maze, maze', all, all, a, j);
        ReachStep(maze', all, i, b, a);
        ReachTrans(maze', all, i, a, j);
      } else {
        assert owner[i] == oa && owner[j] == ob;
        ReachMono(maze, maze', all, all, i, a);
        ReachMono(maze, maze', all, all, b, j);
        ReachStep(maze', all, i, a, b);
        ReachTrans(maze', all, i, b, j);
      }
    }
  }

  /** The merge removes exactly one set: `b`'s. */
  lemma JoinIds(owner: seq<nat>, owner': seq<nat>, a: nat, b: nat)
    requires a < |owner| && b < |owner| && owner[a] != owner[b] && Merged(owner, owner', a, b)
    ensures Ids(owner') == Ids(owner) - {owner[b]}
    ensures |Ids(owner')| + 1 == |Ids(owner)|
  {
    var ob := owner[b];
    forall x | x in Ids(owner) - {ob}
      ensures x in Ids(owner')
    {
      var i :| 0 <= i < |owner| && owner[i] == x;
      assert owner'[i] == x;
    }
    assert owner[b] in Ids(owner);
    assert Ids(owner) == Ids(owner') + {ob};
  }

  /** Carving a passage between neighbours of different sets and merging
      the two sets keeps a forest. */
  lemma JoinKeepsForest(m0: Maze, maze: Maze, owner: seq<nat>, maze': Maze, owner': seq<nat>, a: nat, b: nat)
    requires Forest(m0, maze, owner) && a < |m0.nodes| && b in m0.nodes[a].neighbors
    requires b < |owner| && owner[a] != owner[b]
    requires AddsPassage(maze, maze', a, b) && Merged(owner, owner', a, b)
    ensures Forest(m0, maze', owner')
  {
    CarveAdds(m0, maze, maze', a, b);
    JoinLinks(maze, owner, maze', owner', a, b);
    JoinReach(maze, owner, maze', owner', a, b);
    JoinIds(owner, owner', a, b);
  }

  /** One set left: its nodes are all connected, and the maze is a single
      spanning tree. */
  lemma OneTree(m0: Maze, maze: Maze, owner: seq<nat>)
    requires Forest(m0, maze, owner) && |owner| > 0
    requires forall i :: 0 <= i < |owner| ==> owner[i] == owner[0]
    ensures FullyConnected(maze) && EdgeCount(maze) == |m0.nodes| - 1
  {
    assert Ids(owner) == {owner[0]};
  }
}
