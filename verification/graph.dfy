/** Reasoning about the connection relation as a graph: walks that stay in a
    set of cells, reachability, and the spanning-tree shape every
    passage-carving generator maintains on the cells it has added so far. */
module Graphs {
  import opened Grid
  import opened Mazes

  /** `p` is a non-empty walk along connections whose cells all lie in `s`. */
  ghost predicate IsPathIn(m: Maze, s: set<nat>, p: seq<nat>)
  {
    && |p| > 0
    && (forall k :: 0 <= k < |p| ==> p[k] in s)
    && (forall k :: 0 <= k < |p| - 1 ==> Linked(m, p[k], p[k + 1]))
  }

  /** `b` can be reached from `a` along connections without leaving `s`. */
  ghost predicate ReachableIn(m: Maze, s: set<nat>, a: nat, b: nat)
  {
    exists p :: IsPathIn(m, s, p) && p[0] == a && p[|p| - 1] == b
  }

  /** Every cell can be reached from cell 0: what `isFullyConnected` tests. */
  ghost predicate FullyConnected(m: Maze)
  {
    forall v: nat :: v < |m.nodes| ==> ReachableIn(m, Cells(|m.nodes|), 0, v)
  }

  /** The passages form a spanning tree of `s`: every passage has both ends
      in `s`, there are |s| - 1 of them, and every cell of `s` is reachable
      from `root` inside `s`. */
  ghost predicate TreeOn(m: Maze, s: set<nat>, root: nat)
  {
    && root in s
    && (forall v :: v in s ==> v < |m.nodes|)
    && (forall i: nat, j: nat :: Linked(m, i, j) ==> i in s && j in s)
    && DegreeSum(m.nodes) == 2 * (|s| - 1)
    && (forall v :: v in s ==> ReachableIn(m, s, root, v))
  }

  lemma ReachRefl(m: Maze, s: set<nat>, a: nat)
    requires a in s
    ensures ReachableIn(m, s, a, a)
  {
    assert IsPathIn(m, s, [a]);
  }

  lemma ReachStep(m: Maze, s: set<nat>, a: nat, b: nat, c: nat)
    requires ReachableIn(m, s, a, b) && Linked(m, b, c) && c in s
    ensures ReachableIn(m, s, a, c)
  {
    var p :| IsPathIn(m, s, p) && p[0] == a && p[|p| - 1] == b;
    var q := p + [c];
    assert IsPathIn(m, s, q);
  }

  lemma ReachTrans(m: Maze, s: set<nat>, a: nat, b: nat, c: nat)
    requires ReachableIn(m, s, a, b) && ReachableIn(m, s, b, c)
    ensures ReachableIn(m, s, a, c)
  {
    var p :| IsPathIn(m, s, p) && p[0] == a && p[|p| - 1] == b;
    var q :| IsPathIn(m, s, q) && q[0] == b && q[|q| - 1] == c;
    var r := p + q[1..];
    forall k | 0 <= k < |r| - 1
      ensures Linked(m, r[k], r[k + 1])
    {
      if k == |p| - 1 {
        assert r[k] == q[0] && r[k + 1] == q[1];
      } else if k >= |p| {
        assert r[k] == q[k - |p| + 1] && r[k + 1] == q[k - |p| + 2];
      }
    }
    assert IsPathIn(m, s, r);
  }

  /** With connections recorded at both ends, reachability is symmetric. */
  lemma ReachSym(m: Maze, s: set<nat>, a: nat, b: nat)
    requires ConnWf(m) && ReachableIn(m, s, a, b)
    ensures ReachableIn(m, s, b, a)
  {
    var p :| IsPathIn(m, s, p) && p[0] == a && p[|p| - 1] == b;
    var r := seq(|p|, k requires 0 <= k < |p| => p[|p| - 1 - k]);
    forall k | 0 <= k < |r| - 1
      ensures Linked(m, r[k], r[k + 1])
    {
      assert Linked(m, p[|p| - 2 - k], p[|p| - 1 - k]);
    }
    assert IsPathIn(m, s, r);
  }

  /** Walks survive enlarging the allowed set and any change that keeps the
      connections among the allowed cells. */
  lemma ReachMono(m: Maze, m': Maze, s: set<nat>, s': set<nat>, a: nat, b: nat)
    requires s <= s'
    requires forall i: nat, j: nat :: i in s && j in s && Linked(m, i, j) ==> Linked(m', i, j)
    requires ReachableIn(m, s, a, b)
    ensures ReachableIn(m', s', a, b)
  {
    var p :| IsPathIn(m, s, p) && p[0] == a && p[|p| - 1] == b;
    assert IsPathIn(m', s', p);
  }

  /** A set closed under connections that holds `a` holds everything
      reachable from `a`. */
  lemma ClosedHoldsReachable(m: Maze, s: set<nat>, c: set<nat>, a: nat, b: nat)
    requires a in c
    requires forall i: nat, j: nat :: i in c && Linked(m, i, j) ==> j in c
    requires ReachableIn(m, s, a, b)
    ensures b in c
  {
    var p :| IsPathIn(m, s, p) && p[0] == a && p[|p| - 1] == b;
    var k := 0;
    while k < |p| - 1
      invariant 0 <= k < |p| && p[k] in c
    {
      assert Linked(m, p[k], p[k + 1]);
      k := k + 1;
    }
  }

  /** Replacing passages keeps a maze connected when the ends of every
      passage that went can still reach each other: here every lost
      passage lies inside a set of cells that stay mutually reachable. */
  lemma RerouteConnected(m: Maze, m': Maze, c: set<nat>)
    requires ConnWf(m) && |m'.nodes| == |m.nodes| && FullyConnected(m)
    requires forall i: nat, j: nat :: Linked(m, i, j) ==> Linked(m', i, j) || (i in c && j in c)
    requires forall u, v :: u in c && v in c ==> ReachableIn(m', Cells(|m.nodes|), u, v)
    ensures FullyConnected(m')
  {
    var n := |m.nodes|;
    var all := Cells(n);
    if n > 0 {
      var s := set v: nat | v < n && ReachableIn(m', all, 0, v);
      ReachRefl(m', all, 0);
      forall i: nat, j: nat | i in s && Linked(m, i, j)
        ensures j in s
      {
        if Linked(m', i, j) {
          ReachStep(m', all, 0, i, j);
        } else {
          ReachTrans(m', all, 0, i, j);
        }
      }
      forall v: nat | v < n
        ensures ReachableIn(m', all, 0, v)
      {
        ClosedHoldsReachable(m, all, s, 0, v);
      }
    }
  }

  /** A single cell with no passages at all is a tree. */
  lemma TreeOfOne(m: Maze, root: nat)
    requires root < |m.nodes|
    requires forall i: nat, j: nat :: !Linked(m, i, j)
    ensures TreeOn(m, {root}, root)
  {
    NoLinksNoDegree(m);
    ReachRefl(m, {root}, root);
  }

  /** Connecting a cell of the tree to a cell outside it (in either argument
      order) grows the tree by that cell and that passage. */
  lemma GrowTree(m: Maze, s: set<nat>, root: nat, a: nat, b: nat)
    requires ConnWf(m) && TreeOn(m, s, root)
    requires a in s && b < |m.nodes| && b !in s
    ensures ConnWf(Connect(m, a, b)) && TreeOn(Connect(m, a, b), s + {b}, root)
    ensures ConnWf(Connect(m, b, a)) && TreeOn(Connect(m, b, a), s + {b}, root)
  {
    assert a != b;
    assert !Linked(m, a, b);
    assert !Linked(m, b, a);
    GrowTreeOrdered(m, s, root, a, b, Connect(m, a, b));
    GrowTreeOrdered(m, s, root, a, b, Connect(m, b, a));
  }

  /** `GrowTree` with the grown cell set named by the caller. */
  lemma GrowTreeTo(m: Maze, s: set<nat>, s': set<nat>, root: nat, a: nat, b: nat)
    requires ConnWf(m) && TreeOn(m, s, root)
    requires a in s && b < |m.nodes| && b !in s && s' == s + {b}
    ensures ConnWf(Connect(m, a, b)) && TreeOn(Connect(m, a, b), s', root)
    ensures ConnWf(Connect(m, b, a)) && TreeOn(Connect(m, b, a), s', root)
  {
    GrowTree(m, s, root, a, b);
  }

  lemma GrowTreeOrdered(m: Maze, s: set<nat>, root: nat, a: nat, b: nat, m': Maze)
    requires ConnWf(m) && TreeOn(m, s, root)
    requires a in s && b < |m.nodes| && b !in s
    requires m' == Connect(m, a, b) || m' == Connect(m, b, a)
    ensures ConnWf(m') && TreeOn(m', s + {b}, root)
  {
    var s' := s + {b};
    assert !Linked(m, a, b) && !Linked(m, b, a);
    if m' == Connect(m, a, b) {
      ConnectWf(m, a, b);
      ConnectDegree(m, a, b);
    } else {
      ConnectWf(m, b, a);
      ConnectDegree(m, b, a);
    }
    assert forall i: nat, j: nat :: Linked(m', i, j) <==> Linked(m, i, j) || (i == a && j == b) || (i == b && j == a);
    forall v | v in s'
      ensures ReachableIn(m', s', root, v)
    {
      if v in s {
        ReachMono(m, m', s, s', root, v);
      } else {
        ReachMono(m, m', s, s', root, a);
        ReachStep(m', s', root, a, b);
      }
    }
  }

  /** A spanning tree of all cells makes the maze fully connected with
      exactly (cell count - 1) passages. */
  lemma TreeSpansAll(m: Maze, root: nat)
    requires ConnWf(m) && |m.nodes| > 0 && TreeOn(m, Cells(|m.nodes|), root)
    ensures FullyConnected(m)
    ensures EdgeCount(m) == |m.nodes| - 1
  {
    var all := Cells(|m.nodes|);
    forall v: nat | v < |m.nodes|
      ensures ReachableIn(m, all, 0, v)
    {
      ReachSym(m, all, root, 0);
      ReachTrans(m, all, 0, root, v);
    }
  }
}
