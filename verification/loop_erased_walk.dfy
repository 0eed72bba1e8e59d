/** `LoopErasedWalkGenerator` (ts/maze/generators/loop-erased-walk.ts):
    Wilson's algorithm. The maze is seeded with one start node. Then, while
    some node is outside the maze, a walk starts at a random such node and
    steps to random neighbours, carving as it goes; when it steps back onto
    its own path the loop it closed is erased (its passages removed again),
    and when it steps onto the maze the whole path joins the maze. */
module LoopErasedWalk {
  import opened Grid
  import opened Mazes
  import opened Graphs
  import opened Draws
  import opened Wrappers

  // ---------------------------------------------------------------------
  // The current path

  function Last(path: seq<nat>): nat
    requires |path| > 0
  {
    path[|path| - 1]
  }

  /** `indexOf`: the position of the first occurrence of `a`. */
  function Pos(path: seq<nat>, a: nat): (k: nat)
    requires a in path
    ensures k < |path| && path[k] == a && a !in path[..k]
  {
    if path[0] == a then 0
    else
      var k := Pos(path[1..], a);
      assert path[..k + 1] == [path[0]] + path[1..][..k];
      k + 1
  }

  /** On a path without repeats, the position of the entry at `k` is `k`. */
  lemma PosOfIndex(path: seq<nat>, k: nat)
    requires NoDup(path) && k < |path|
    ensures Pos(path, path[k]) == k
  {
    var p := Pos(path, path[k]);
    assert path[p] == path[k];
  }

  /** Positions in a prefix are positions in the whole path. */
  lemma PosPrefix(path: seq<nat>, n: nat, a: nat)
    requires n <= |path| && a in path[..n]
    ensures a in path && Pos(path[..n], a) == Pos(path, a)
  {
    var k := Pos(path[..n], a);
    assert path[k] == a;
    assert path[..n][..k] == path[..k];
    var k' := Pos(path, a);
    assert forall j :: 0 <= j < k ==> path[j] == path[..k][j];
    assert forall j :: 0 <= j < k' ==> path[j] == path[..k'][j];
  }

  /** The cells of a path. */
  function Elems(path: seq<nat>): (s: set<nat>)
    ensures forall x :: x in s <==> x in path
  {
    set x | x in path
  }

  /** A path without repeats has as many cells as entries. */
  lemma {:induction false} ElemsSize(path: seq<nat>)
    requires NoDup(path)
    ensures |Elems(path)| == |path|
  {
    if |path| > 0 {
      var rest := path[1..];
      assert NoDup(rest) by {
        forall p, q | 0 <= p < q < |rest|
          ensures rest[p] != rest[q]
        {
          assert rest[p] == path[p + 1] && rest[q] == path[q + 1];
        }
      }
      ElemsSize(rest);
      assert path[0] !in rest by {
        forall k | 0 <= k < |rest|
          ensures rest[k] != path[0]
        {
          assert rest[k] == path[k + 1];
        }
      }
      assert Elems(path) == Elems(rest) + {path[0]} by {
        assert path == [path[0]] + rest;
      }
    }
  }

  /** Cells `a` and `b` are next to each other on the path, at a position
      no earlier than `lo`. */
  ghost predicate Consec(path: seq<nat>, a: nat, b: nat, lo: nat)
  {
    && a in path && b in path
    && ((Pos(path, a) + 1 == Pos(path, b) && lo <= Pos(path, a))
        || (Pos(path, b) + 1 == Pos(path, a) && lo <= Pos(path, b)))
  }

  lemma ConsecAt(path: seq<nat>, j: nat, lo: nat)
    requires NoDup(path) && j + 1 < |path| && lo <= j
    ensures Consec(path, path[j], path[j + 1], lo) && Consec(path, path[j + 1], path[j], lo)
  {
    PosOfIndex(path, j);
    PosOfIndex(path, j + 1);
  }

  /** The pairs next to each other from position `i` on are the pair at `i`
      and those from `i + 1` on. */
  lemma ConsecFrom(path: seq<nat>, i: nat)
    requires NoDup(path) && i + 1 < |path|
    ensures forall a, b :: Consec(path, a, b, i) <==>
              (a == path[i] && b == path[i + 1]) || (a == path[i + 1] && b == path[i]) || Consec(path, a, b, i + 1)
  {
    PosOfIndex(path, i);
    PosOfIndex(path, i + 1);
  }

  /** Appending a new cell adds exactly one adjacent pair. */
  lemma ConsecExtend(path: seq<nat>, c: nat)
    requires NoDup(path) && |path| > 0 && c !in path
    ensures NoDup(path + [c])
    ensures forall a, b :: Consec(path + [c], a, b, 0) <==>
              Consec(path, a, b, 0) || (a == Last(path) && b == c) || (a == c && b == Last(path))
  {
    var p := path + [c];
    assert p[..|path|] == path;
    forall a | a in path
      ensures Pos(p, a) == Pos(path, a)
    {
      PosPrefix(p, |path|, a);
    }
    assert Pos(p, c) == |path| by {
      assert forall j :: 0 <= j < |path| ==> p[j] == path[j];
    }
    PosOfIndex(path, |path| - 1);
  }

  /** Cutting the path after position `t` keeps the pairs that lie before
      `t`. */
  lemma ConsecPrefix(path: seq<nat>, t: nat)
    requires NoDup(path) && t < |path|
    ensures NoDup(path[..t + 1])
    ensures forall a, b :: Consec(path[..t + 1], a, b, 0) <==> Consec(path, a, b, 0) && !Consec(path, a, b, t)
  {
    var p := path[..t + 1];
    forall a | a in p
      ensures a in path && Pos(p, a) == Pos(path, a)
    {
      PosPrefix(path, t + 1, a);
    }
    forall a | a in path && Pos(path, a) <= t
      ensures a in p
    {
      assert p[Pos(path, a)] == a;
    }
  }

  // ---------------------------------------------------------------------
  // Loop erasure

  /** The disconnect loop of the loop erasure: the passage between
      `path[j]` and `path[j + 1]` is removed for every `j` from `i` on. */
  function Erase(m: Maze, path: seq<nat>, i: nat): (r: Maze)
    requires forall k :: 0 <= k < |path| ==> path[k] < |m.nodes|
    requires ConnWf(m) && NoDup(path)
    ensures r.width == m.width && r.height == m.height && |r.nodes| == |m.nodes|
    ensures forall k :: 0 <= k < |m.nodes| ==> Skeleton(r.nodes[k]) == Skeleton(m.nodes[k])
    ensures ConnWf(r)
    decreases |path| - i
  {
    if i + 1 >= |path| then m
    else
      DisconnectWf(m, path[i], path[i + 1]);
      Erase(Disconnect(m, path[i], path[i + 1]), path, i + 1)
  }

  /** Erasing from `i` on removes exactly the passages between cells next to
      each other on the path from position `i` on. */
  lemma {:induction false} EraseLinks(m: Maze, path: seq<nat>, i: nat)
    requires forall k :: 0 <= k < |path| ==> path[k] < |m.nodes|
    requires ConnWf(m) && NoDup(path)
    ensures forall a: nat, b: nat :: Linked(Erase(m, path, i), a, b) <==> Linked(m, a, b) && !Consec(path, a, b, i)
    decreases |path| - i
  {
    if i + 1 < |path| {
      var m1 := Disconnect(m, path[i], path[i + 1]);
      DisconnectWf(m, path[i], path[i + 1]);
      ConsecFrom(path, i);
      EraseLinks(m1, path, i + 1);
      assert Erase(m, path, i) == Erase(m1, path, i + 1);
    }
  }

  /** When every pair from `i` on is a passage, erasing removes
      `|path| - 1 - i` passages. */
  lemma {:induction false} EraseDegree(m: Maze, path: seq<nat>, i: nat)
    requires forall k :: 0 <= k < |path| ==> path[k] < |m.nodes|
    requires ConnWf(m) && NoDup(path) && i < |path|
    requires forall j :: i <= j < |path| - 1 ==> Linked(m, path[j], path[j + 1])
    ensures DegreeSum(Erase(m, path, i).nodes) + 2 * (|path| - 1 - i) == DegreeSum(m.nodes)
    decreases |path| - i
  {
    if i + 1 < |path| {
      var m1 := Disconnect(m, path[i], path[i + 1]);
      DisconnectDegree(m, path[i], path[i + 1]);
      DisconnectWf(m, path[i], path[i + 1]);
      forall j | i + 1 <= j < |path| - 1
        ensures Linked(m1, path[j], path[j + 1])
      {
        assert Linked(m, path[j], path[j + 1]);
        assert path[j] != path[i] && path[j + 1] != path[i];
      }
      EraseDegree(m1, path, i + 1);
      assert Erase(m, path, i) == Erase(m1, path, i + 1);
    }
  }

  /** The disconnect loop of the loop erasure, as the `for` loop runs it:
      from position `lo` on, the passage between each cell and the next is
      removed. The passages left are exactly those that do not join cells
      next to each other from `lo` on; when all of those were passages,
      `|path| - 1 - lo` passages are gone. */
  method EraseFrom(m: Maze, path: seq<nat>, lo: nat) returns (r: Maze)
    requires forall k :: 0 <= k < |path| ==> path[k] < |m.nodes|
    requires ConnWf(m) && NoDup(path)
    ensures r.width == m.width && r.height == m.height && |r.nodes| == |m.nodes|
    ensures forall k :: 0 <= k < |m.nodes| ==> Skeleton(r.nodes[k]) == Skeleton(m.nodes[k])
    ensures ConnWf(r)
    ensures forall a: nat, b: nat :: Linked(r, a, b) <==> Linked(m, a, b) && !Consec(path, a, b, lo)
    ensures lo < |path| && (forall j :: lo <= j < |path| - 1 ==> Linked(m, path[j], path[j + 1])) ==>
              DegreeSum(r.nodes) + 2 * (|path| - 1 - lo) == DegreeSum(m.nodes)
  {
    r := m;
    var i := lo;
    while i + 1 < |path|
      invariant lo <= i
      invariant |r.nodes| == |m.nodes| && ConnWf(r)
      invariant Erase(r, path, i) == Erase(m, path, lo)
      decreases |path| - i
    {
      EraseStep(r, path, i);
      r, i := Disconnect(r, path[i], path[i + 1]), i + 1;
    }
    EraseLinks(m, path, lo);
    if lo < |path| && forall j :: lo <= j < |path| - 1 ==> Linked(m, path[j], path[j + 1]) {
      EraseDegree(m, path, lo);
    }
  }

  /** One turn of the disconnect loop: erasing from `i` is disconnecting the
      pair at `i`, then erasing from `i + 1`. */
  lemma EraseStep(r: Maze, path: seq<nat>, i: nat)
    requires forall k :: 0 <= k < |path| ==> path[k] < |r.nodes|
    requires ConnWf(r) && NoDup(path) && i + 1 < |path|
    ensures var r' := Disconnect(r, path[i], path[i + 1]);
      && |r'.nodes| == |r.nodes| && ConnWf(r')
      && Erase(r', path, i + 1) == Erase(r, path, i)
  {
    DisconnectWf(r, path[i], path[i + 1]);
  }

  /** Cells `a` and `b` are the pair `x`, `y` in either order. */
  predicate IsPair(a: nat, b: nat, x: nat, y: nat)
  {
    (a == x && b == y) || (a == y && b == x)
  }

  /** What the loop erasure at position `t` leaves: the same grid, and the
      passages of `m` except those between cells next to each other from
      position `t` on, plus the one between positions `t - 1` and `t`. When
      every pair along the path was a passage, `|path| - 1 - t` are gone. */
  ghost predicate LoopErased(m: Maze, path: seq<nat>, t: nat, r: Maze)
    requires t < |path|
  {
    && r.width == m.width && r.height == m.height && |r.nodes| == |m.nodes|
    && (forall k :: 0 <= k < |m.nodes| ==> Skeleton(r.nodes[k]) == Skeleton(m.nodes[k]))
    && ConnWf(r)
    && (forall a: nat, b: nat :: Linked(r, a, b) <==>
          (Linked(m, a, b) && !Consec(path, a, b, t)) || (t >= 1 && IsPair(a, b, path[t - 1], path[t])))
    && ((forall j :: 0 <= j < |path| - 1 ==> Linked(m, path[j], path[j + 1])) ==>
          DegreeSum(r.nodes) + 2 * (|path| - 1 - t) == DegreeSum(m.nodes))
  }

  /** Carving the passage between positions `t - 1` and `t` again after
      erasing from `t - 1` on completes the loop erasure. */
  lemma Recarve(m: Maze, path: seq<nat>, t: nat, erased: Maze)
    requires forall k :: 0 <= k < |path| ==> path[k] < |m.nodes|
    requires ConnWf(m) && NoDup(path) && 1 <= t < |path|
    requires erased.width == m.width && erased.height == m.height && |erased.nodes| == |m.nodes|
    requires forall k :: 0 <= k < |m.nodes| ==> Skeleton(erased.nodes[k]) == Skeleton(m.nodes[k])
    requires ConnWf(erased)
    requires forall a: nat, b: nat :: Linked(erased, a, b) <==> Linked(m, a, b) && !Consec(path, a, b, t - 1)
    requires (forall j :: 0 <= j < |path| - 1 ==> Linked(m, path[j], path[j + 1])) ==>
               DegreeSum(erased.nodes) + 2 * (|path| - t) == DegreeSum(m.nodes)
    ensures LoopErased(m, path, t, Connect(erased, path[t - 1], path[t]))
  {
    var x, y := path[t - 1], path[t];
    var r := Connect(erased, x, y);
    assert !Linked(erased, x, y) by {
      ConsecAt(path, t - 1, t - 1);
    }
    ConnectWf(erased, x, y);
    ConnectDegree(erased, x, y);
    RecarveLinks(m, erased, r, path, t);
    LoopErasedIntro(m, path, t, r);
  }

  lemma LoopErasedIntro(m: Maze, path: seq<nat>, t: nat, r: Maze)
    requires t < |path|
    requires r.width == m.width && r.height == m.height && |r.nodes| == |m.nodes|
    requires forall k :: 0 <= k < |m.nodes| ==> Skeleton(r.nodes[k]) == Skeleton(m.nodes[k])
    requires ConnWf(r)
    requires forall a: nat, b: nat :: Linked(r, a, b) <==>
               (Linked(m, a, b) && !Consec(path, a, b, t)) || (t >= 1 && IsPair(a, b, path[t - 1], path[t]))
    requires (forall j :: 0 <= j < |path| - 1 ==> Linked(m, path[j], path[j + 1])) ==>
               DegreeSum(r.nodes) + 2 * (|path| - 1 - t) == DegreeSum(m.nodes)
    ensures LoopErased(m, path, t, r)
  {
  }

  /** The passage relation after the recarve, stated on its own. */
  lemma RecarveLinks(m: Maze, erased: Maze, r: Maze, path: seq<nat>, t: nat)
    requires NoDup(path) && 1 <= t < |path|
    requires forall a: nat, b: nat :: Linked(erased, a, b) <==> Linked(m, a, b) && !Consec(path, a, b, t - 1)
    requires forall a: nat, b: nat :: Linked(r, a, b) <==> Linked(erased, a, b) || IsPair(a, b, path[t - 1], path[t])
    ensures forall a: nat, b: nat :: Linked(r, a, b) <==>
              (Linked(m, a, b) && !Consec(path, a, b, t)) || (t >= 1 && IsPair(a, b, path[t - 1], path[t]))
  {
    ConsecFrom(path, t - 1);
  }

  // ---------------------------------------------------------------------
  // One step of the walk

  /** The maze with the walk's `currentPath`; `current` is always the last
      cell of the path. */
  datatype Walk = Walk(maze: Maze, path: seq<nat>)

  /** A step is defined: the path is a repeat-free list of cells, the last
      of which has a neighbour, and all neighbours are cells. */
  ghost predicate CanWalk(m: Maze, path: seq<nat>)
  {
    && ConnWf(m) && NeighborsInRange(m)
    && |path| > 0 && NoDup(path)
    && (forall k :: 0 <= k < |path| ==> path[k] < |m.nodes|)
    && |m.nodes[Last(path)].neighbors| > 0
  }

  /** `choose(current.neighbors)`: where the walk steps next. */
  function Next(m: Maze, path: seq<nat>, draw: nat): (c: nat)
    requires CanWalk(m, path)
    ensures c in m.nodes[Last(path)].neighbors && c < |m.nodes|
  {
    Choose(m.nodes[Last(path)].neighbors, draw)
  }

  /** The outcome of one pass that steps onto cell `c`. Onto the maze or
      onto a fresh cell: `c` is appended and carved to. Back onto the path:
      the loop is erased and the path cut after the earlier occurrence of
      `c`. */
  ghost predicate Stepped(m: Maze, inMaze: set<nat>, path: seq<nat>, c: nat, r: Walk)
    requires |path| > 0 && Last(path) < |m.nodes| && c < |m.nodes|
  {
    && |r.path| > 0 && Last(r.path) == c
    && (c in inMaze || c !in path ==>
          r.path == path + [c] && r.maze == Connect(m, Last(path), c))
    && (c !in inMaze && c in path ==>
          r.path == path[..Pos(path, c) + 1] && LoopErased(m, path, Pos(path, c), r.maze))
  }

  /** One pass of the inner `while (true)` loop: step to a random neighbour
      `c`. Onto the maze: `c` is appended and carved to. Onto the path: the
      passages from the one before the earlier occurrence of `c` on are
      removed, the path is cut before that occurrence, and `c` is appended
      and carved to again. Elsewhere: `c` is appended and carved to. */
  method WalkStep(m: Maze, inMaze: set<nat>, path: seq<nat>, draw: nat) returns (r: Walk)
    requires CanWalk(m, path)
    ensures Stepped(m, inMaze, path, Next(m, path, draw), r)
  {
    var c := Next(m, path, draw);
    if c in inMaze {
      r := Walk(Connect(m, Last(path), c), path + [c]);
    } else if c in path {
      var t := Pos(path, c);
      var erased := EraseFrom(m, path, if t >= 1 then t - 1 else 0);
      var p := path[..t] + [c];
      assert p == path[..t + 1];
      if |p| > 1 {
        Recarve(m, path, t, erased);
        r := Walk(Connect(erased, p[|p| - 2], c), p);
      } else {
        r := Walk(erased, p);
      }
    } else {
      r := Walk(Connect(m, Last(path), c), path + [c]);
    }
  }

  // ---------------------------------------------------------------------
  // Invariants

  /** Between walks: `tree` carries a spanning tree of `inMaze` rooted at
      the start node, and nothing else. */
  ghost predicate TreeState(m0: Maze, start: nat, inMaze: set<nat>, tree: Maze)
  {
    && Carved(m0, tree)
    && inMaze <= Cells(|m0.nodes|)
    && TreeOn(tree, inMaze, start)
  }

  /** During a walk from the state `tree`: the path repeats no cell, only
      its last cell may be in the maze, and the passages are those of `tree`
      plus one between each two cells next to each other on the path. */
  ghost predicate WalkInv(m0: Maze, tree: Maze, inMaze: set<nat>, w: Walk)
  {
    WalkCells(m0, inMaze, w) && WalkLinks(tree, inMaze, w)
  }

  /** The cells half of `WalkInv`: the carving and the path's cells. */
  ghost predicate WalkCells(m0: Maze, inMaze: set<nat>, w: Walk)
  {
    && Carved(m0, w.maze)
    && |w.path| > 0 && NoDup(w.path)
    && (forall k :: 0 <= k < |w.path| ==> w.path[k] < |m0.nodes|)
    && (forall k :: 0 <= k < |w.path| - 1 ==> w.path[k] !in inMaze)
  }

  /** The passages half of `WalkInv`: the tree's and the path's. */
  ghost predicate WalkLinks(tree: Maze, inMaze: set<nat>, w: Walk)
  {
    && (forall a: nat, b: nat :: Linked(tree, a, b) ==> a in inMaze && b in inMaze)
    && PathLinks(w.maze, tree, w.path)
    && DegreeSum(w.maze.nodes) == DegreeSum(tree.nodes) + 2 * (|w.path| - 1)
  }

  /** The passages of `m` are those of `tree` and one between each two
      cells next to each other on the path. */
  ghost predicate PathLinks(m: Maze, tree: Maze, path: seq<nat>)
  {
    forall a: nat, b: nat :: Linked(m, a, b) <==> Linked(tree, a, b) || Consec(path, a, b, 0)
  }

  /** Connecting the last cell of the path to a cell `c` off the path
      adds the one pair `c` makes with it, and a new passage. */
  lemma ExtendLinks(m: Maze, tree: Maze, inMaze: set<nat>, path: seq<nat>, c: nat)
    requires PathLinks(m, tree, path) && NoDup(path) && |path| > 0 && c !in path
    requires Last(path) < |m.nodes| && c < |m.nodes| && Last(path) !in inMaze
    requires forall a: nat, b: nat :: Linked(tree, a, b) ==> a in inMaze && b in inMaze
    ensures !Linked(m, Last(path), c)
    ensures PathLinks(Connect(m, Last(path), c), tree, path + [c])
  {
    ConsecExtend(path, c);
    assert !Consec(path, Last(path), c, 0);
  }

  /** The cells of a path extended by a cell `c` off the path: still no
      repeats, all cells of the maze, and only the new last cell may be in
      the maze. */
  lemma ExtendCells(path: seq<nat>, c: nat, n: nat, inMaze: set<nat>)
    requires NoDup(path) && |path| > 0 && c !in path && c < n
    requires forall k :: 0 <= k < |path| ==> path[k] < n
    requires forall k :: 0 <= k < |path| - 1 ==> path[k] !in inMaze
    requires Last(path) !in inMaze
    ensures NoDup(path + [c])
    ensures forall k :: 0 <= k < |path + [c]| ==> (path + [c])[k] < n
    ensures forall k :: 0 <= k < |path + [c]| - 1 ==> (path + [c])[k] !in inMaze
  {
    assert forall k :: 0 <= k < |path| ==> (path + [c])[k] == path[k];
  }

  lemma WalkStart(m0: Maze, start: nat, inMaze: set<nat>, tree: Maze, s: nat)
    requires TreeState(m0, start, inMaze, tree) && s < |m0.nodes| && s !in inMaze
    ensures WalkInv(m0, tree, inMaze, Walk(tree, [s]))
  {
  }

  lemma InvCanWalk(m0: Maze, tree: Maze, inMaze: set<nat>, w: Walk)
    requires WalkInv(m0, tree, inMaze, w) && |m0.nodes| >= 2
    ensures CanWalk(w.maze, w.path)
  {
    ShapedInRange(w.maze);
    ShapedNeighbors(w.maze, Last(w.path));
  }

  /** A step onto a cell off the path extends the path and its passages by
      one. */
  lemma ExtendKeeps(m0: Maze, inMaze: set<nat>, tree: Maze, w: Walk, c: nat)
    requires WalkInv(m0, tree, inMaze, w) && Last(w.path) !in inMaze
    requires c < |m0.nodes| && c in w.maze.nodes[Last(w.path)].neighbors && c !in w.path
    ensures WalkInv(m0, tree, inMaze, Walk(Connect(w.maze, Last(w.path), c), w.path + [c]))
  {
    var last := Last(w.path);
    assert Skeleton(w.maze.nodes[last]) == Skeleton(m0.nodes[last]);
    CarveConnect(m0, w.maze, last, c);
    ExtendCells(w.path, c, |m0.nodes|, inMaze);
    ExtendLinks(w.maze, tree, inMaze, w.path, c);
    ConnectDegree(w.maze, last, c);
  }

  /** Every pair of cells next to each other on the path is a passage. */
  lemma PathLinked(m: Maze, tree: Maze, path: seq<nat>)
    requires PathLinks(m, tree, path) && NoDup(path)
    ensures forall j :: 0 <= j < |path| - 1 ==> Linked(m, path[j], path[j + 1]) && Linked(m, path[j + 1], path[j])
  {
    forall j | 0 <= j < |path| - 1
      ensures Linked(m, path[j], path[j + 1]) && Linked(m, path[j + 1], path[j])
    {
      ConsecAt(path, j, 0);
    }
  }

  /** No passage of the tree joins two cells next to each other on the
      path, since at most the last cell of the path is in the maze. */
  lemma TreeOffPath(tree: Maze, inMaze: set<nat>, path: seq<nat>)
    requires forall a: nat, b: nat :: Linked(tree, a, b) ==> a in inMaze && b in inMaze
    requires |path| > 0 && forall k :: 0 <= k < |path| - 1 ==> path[k] !in inMaze
    ensures forall a: nat, b: nat :: Linked(tree, a, b) ==> !Consec(path, a, b, 0)
  {
    forall a: nat, b: nat | a in path && b in path && a != b
      ensures a !in inMaze || b !in inMaze
    {
      var i, j := Pos(path, a), Pos(path, b);
      assert i < |path| - 1 || j < |path| - 1;
    }
  }

  /** Only the passages of the maze are ever carved or erased: a maze whose
      passages are among those of a maze carved from one without passages
      is carved from it as well. */
  lemma CarveFewer(m0: Maze, r: Maze, r': Maze)
    requires Carved(m0, r) && NoLinks(m0) && ConnWf(r')
    requires r'.width == r.width && r'.height == r.height && |r'.nodes| == |r.nodes|
    requires forall k :: 0 <= k < |r.nodes| ==> Skeleton(r'.nodes[k]) == Skeleton(r.nodes[k])
    requires forall a: nat, b: nat :: Linked(r', a, b) ==> Linked(r, a, b)
    ensures Carved(m0, r')
  {
  }

  /** The cells of the path cut after position `t`. */
  lemma CutCells(path: seq<nat>, t: nat, cut: seq<nat>, n: nat, inMaze: set<nat>)
    requires NoDup(path) && t < |path| && cut == path[..t + 1]
    requires forall k :: 0 <= k < |path| ==> path[k] < n
    requires forall k :: 0 <= k < |path| ==> path[k] !in inMaze
    ensures NoDup(cut)
    ensures forall k :: 0 <= k < |cut| ==> cut[k] < n
    ensures forall k :: 0 <= k < |cut| - 1 ==> cut[k] !in inMaze
  {
    assert forall k :: 0 <= k <= t ==> cut[k] == path[k];
  }

  /** The passages after the loop erasure are those of the tree and of the
      cut path. */
  lemma CutLinks(m: Maze, r: Maze, tree: Maze, path: seq<nat>, t: nat)
    requires PathLinks(m, tree, path) && NoDup(path) && t < |path|
    requires forall a: nat, b: nat :: Linked(tree, a, b) ==> !Consec(path, a, b, 0)
    requires forall a: nat, b: nat :: Linked(r, a, b) <==> Linked(m, a, b) && !Consec(path, a, b, t)
    ensures PathLinks(r, tree, path[..t + 1])
  {
    ConsecPrefix(path, t);
  }

  /** When every pair along the path is a passage, the loop erasure at `t`
      removes exactly the passages between cells next to each other from `t`
      on. */
  lemma ErasedLinks(m: Maze, path: seq<nat>, t: nat, r: Maze)
    requires NoDup(path) && t < |path| && LoopErased(m, path, t, r)
    requires forall j :: 0 <= j < |path| - 1 ==> Linked(m, path[j], path[j + 1]) && Linked(m, path[j + 1], path[j])
    ensures forall a: nat, b: nat :: Linked(r, a, b) <==> Linked(m, a, b) && !Consec(path, a, b, t)
    ensures forall a: nat, b: nat :: Linked(r, a, b) ==> Linked(m, a, b)
  {
    if t >= 1 {
      PosOfIndex(path, t - 1);
      PosOfIndex(path, t);
    }
  }

  /** A step back onto the path at position `t` leaves the path cut after
      `t`, with the passages of the cut path. */
  lemma EraseKeeps(m0: Maze, inMaze: set<nat>, tree: Maze, w: Walk, t: nat, next: Walk)
    requires NoLinks(m0)
    requires WalkInv(m0, tree, inMaze, w) && Last(w.path) !in inMaze && t < |w.path|
    requires next.path == w.path[..t + 1] && LoopErased(w.maze, w.path, t, next.maze)
    ensures WalkInv(m0, tree, inMaze, next)
  {
    OffMaze(m0, inMaze, w);
    PathLinked(w.maze, tree, w.path);
    EraseKeepsCells(m0, inMaze, w, t, next);
    EraseKeepsLinks(m0, inMaze, tree, w, t, next);
  }

  /** While its last cell is off the maze, the whole path is. */
  lemma OffMaze(m0: Maze, inMaze: set<nat>, w: Walk)
    requires WalkCells(m0, inMaze, w) && Last(w.path) !in inMaze
    ensures forall k :: 0 <= k < |w.path| ==> w.path[k] < |m0.nodes| && w.path[k] !in inMaze
  {
    var P := w.path;
    forall k | 0 <= k < |P|
      ensures P[k] !in inMaze
    {
      if k == |P| - 1 {
        assert P[k] == Last(P);
      }
    }
  }

  /** The loop erasure carves nothing new and cuts the path to a prefix. */
  lemma EraseKeepsCells(m0: Maze, inMaze: set<nat>, w: Walk, t: nat, next: Walk)
    requires NoLinks(m0) && Carved(m0, w.maze) && NoDup(w.path) && t < |w.path|
    requires forall k :: 0 <= k < |w.path| ==> w.path[k] < |m0.nodes| && w.path[k] !in inMaze
    requires forall j :: 0 <= j < |w.path| - 1 ==> Linked(w.maze, w.path[j], w.path[j + 1]) && Linked(w.maze, w.path[j + 1], w.path[j])
    requires next.path == w.path[..t + 1] && LoopErased(w.maze, w.path, t, next.maze)
    ensures WalkCells(m0, inMaze, next)
  {
    var P := w.path;
    ErasedLinks(w.maze, P, t, next.maze);
    CarveFewer(m0, w.maze, next.maze);
    CutCells(P, t, next.path, |m0.nodes|, inMaze);
  }

  /** After the loop erasure the passages are the tree's and those along the
      cut path, one per pair. */
  lemma EraseKeepsLinks(m0: Maze, inMaze: set<nat>, tree: Maze, w: Walk, t: nat, next: Walk)
    requires WalkInv(m0, tree, inMaze, w) && t < |w.path|
    requires next.path == w.path[..t + 1] && LoopErased(w.maze, w.path, t, next.maze)
    ensures WalkLinks(tree, inMaze, next)
  {
    var P := w.path;
    PathLinked(w.maze, tree, P);
    ErasedLinks(w.maze, P, t, next.maze);
    TreeOffPath(tree, inMaze, P);
    CutLinks(w.maze, next.maze, tree, P, t);
  }

  /** A pass keeps the walk invariant. */
  lemma StepKeeps(m0: Maze, inMaze: set<nat>, tree: Maze, w: Walk, c: nat, next: Walk)
    requires NoLinks(m0)
    requires WalkInv(m0, tree, inMaze, w) && Last(w.path) !in inMaze
    requires c < |m0.nodes| && c in w.maze.nodes[Last(w.path)].neighbors
    requires Stepped(w.maze, inMaze, w.path, c, next)
    ensures WalkInv(m0, tree, inMaze, next) && next.path[0] == w.path[0]
  {
    if c !in inMaze && c in w.path {
      EraseKeeps(m0, inMaze, tree, w, Pos(w.path, c), next);
    } else {
      assert forall k :: 0 <= k < |w.path| ==> w.path[k] !in inMaze;
      ExtendKeeps(m0, inMaze, tree, w, c);
    }
  }

  /** Along a path whose consecutive cells are linked, everything on it can
      be reached once its last cell can. */
  lemma {:induction false} ReachAlong(m: Maze, s: set<nat>, root: nat, path: seq<nat>, k: nat)
    requires k < |path| && ReachableIn(m, s, root, Last(path))
    requires forall j :: 0 <= j < |path| - 1 ==> Linked(m, path[j + 1], path[j])
    requires forall j :: 0 <= j < |path| ==> path[j] in s
    ensures ReachableIn(m, s, root, path[k])
    decreases |path| - k
  {
    if k < |path| - 1 {
      ReachAlong(m, s, root, path, k + 1);
      ReachStep(m, s, root, path[k + 1], path[k]);
    }
  }

  /** Adding the cells of a finished path but its last grows the maze by
      that many cells, and puts the whole path in the maze. */
  lemma JoinCells(path: seq<nat>, inMaze: set<nat>, n: nat)
    requires |path| > 0 && NoDup(path) && Last(path) in inMaze
    requires forall k :: 0 <= k < |path| - 1 ==> path[k] !in inMaze
    requires forall k :: 0 <= k < |path| ==> path[k] < n
    requires inMaze <= Cells(n)
    ensures |inMaze + Elems(path[..|path| - 1])| == |inMaze| + |path| - 1
    ensures forall j :: 0 <= j < |path| ==> path[j] in inMaze + Elems(path[..|path| - 1])
    ensures forall v :: v in inMaze + Elems(path[..|path| - 1]) ==> v in inMaze || v in path
    ensures inMaze + Elems(path[..|path| - 1]) <= Cells(n)
  {
    var body := path[..|path| - 1];
    assert forall v :: v in body ==> v in path;
    assert forall j :: 0 <= j < |body| ==> body[j] == path[j];
    assert NoDup(body);
    ElemsSize(body);
    assert inMaze !! Elems(body) by {
      forall x | x in body
        ensures x !in inMaze
      {
        var j :| 0 <= j < |body| && body[j] == x;
        assert path[j] == x;
      }
    }
  }

  /** Every passage of the finished walk lies inside the grown maze. */
  lemma JoinLinksInside(m: Maze, tree: Maze, path: seq<nat>, s: set<nat>)
    requires PathLinks(m, tree, path)
    requires forall a: nat, b: nat :: Linked(tree, a, b) ==> a in s && b in s
    requires forall j :: 0 <= j < |path| ==> path[j] in s
    ensures forall a: nat, b: nat :: Linked(m, a, b) ==> a in s && b in s
  {
    forall a: nat, b: nat | Linked(m, a, b)
      ensures a in s && b in s
    {
      if !Linked(tree, a, b) {
        assert path[Pos(path, a)] == a && path[Pos(path, b)] == b;
      }
    }
  }

  /** Every cell of the grown maze is reached from the start: the old cells
      through the tree, the new ones back along the path from its last cell,
      which the tree already reaches. */
  lemma JoinReach(m: Maze, tree: Maze, inMaze: set<nat>, s: set<nat>, start: nat, path: seq<nat>)
    requires TreeOn(tree, inMaze, start) && inMaze <= s
    requires PathLinks(m, tree, path) && NoDup(path) && |path| > 0 && Last(path) in inMaze
    requires forall j :: 0 <= j < |path| ==> path[j] in s
    requires forall v :: v in s ==> v in inMaze || v in path
    ensures forall v :: v in s ==> ReachableIn(m, s, start, v)
  {
    PathLinked(m, tree, path);
    ReachMono(tree, m, inMaze, s, start, Last(path));
    forall v | v in s
      ensures ReachableIn(m, s, start, v)
    {
      if v in inMaze {
        ReachMono(tree, m, inMaze, s, start, v);
      } else {
        ReachAlong(m, s, start, path, Pos(path, v));
      }
    }
  }

  /** A walk that has reached the maze joins it: all cells of the path but
      the last are added, and the passages form a spanning tree again. */
  lemma FinishKeeps(m0: Maze, start: nat, inMaze: set<nat>, tree: Maze, w: Walk)
    requires TreeState(m0, start, inMaze, tree)
    requires WalkInv(m0, tree, inMaze, w) && Last(w.path) in inMaze
    ensures TreeState(m0, start, inMaze + Elems(w.path[..|w.path| - 1]), w.maze)
  {
    var P := w.path;
    var s' := inMaze + Elems(P[..|P| - 1]);
    JoinCells(P, inMaze, |m0.nodes|);
    assert DegreeSum(w.maze.nodes) == 2 * (|s'| - 1);
    assert forall v :: v in s' ==> v < |w.maze.nodes|;
    JoinLinksInside(w.maze, tree, P, s');
    JoinReach(w.maze, tree, inMaze, s', start, P);
    assert Carved(m0, w.maze);
    assert s' <= Cells(|m0.nodes|);
    assert start in s';
    assert forall i: nat, j: nat :: Linked(w.maze, i, j) ==> i in s' && j in s';
    assert forall v :: v in s' ==> ReachableIn(w.maze, s', start, v);
    assert TreeOn(w.maze, s', start);
  }

  // ---------------------------------------------------------------------
  // The generator

  /** `getStartNode`: the start node is drawn on the first call and
      remembered in `memo`, so later calls return the same node. */
  function GetStartNode(memo: Option<nat>, n: nat, draw: nat): (r: (nat, Option<nat>))
    requires n > 0 && (memo.Some? ==> memo.value < n)
    ensures r.0 < n && r.1 == Some(r.0)
    ensures memo.Some? ==> r.0 == memo.value
  {
    match memo
    case Some(s) => (s, memo)
    case None =>
      var s := Pick(0, n - 1, draw);
      (s, Some(s))
  }

  /** `maze.nodes.filter(n => !inMaze.has(n))`, as indices. */
  function NotInMaze(n: nat, inMaze: set<nat>): (r: seq<nat>)
    ensures forall k: nat :: k in r <==> k < n && k !in inMaze
  {
    var all := seq(n, i => i);
    assert forall k: nat :: k in all <==> k < n by {
      forall k: nat | k < n
        ensures k in all
      {
        assert all[k] == k;
      }
    }
    Filter(all, k => k !in inMaze)
  }

  /** A pass of the walk from the state `tree`, with the walk invariant
      carried along. */
  method Pass(ghost m0: Maze, inMaze: set<nat>, ghost tree: Maze, w: Walk, draw: nat) returns (next: Walk)
    requires NoLinks(m0) && |m0.nodes| >= 2
    requires WalkInv(m0, tree, inMaze, w) && Last(w.path) !in inMaze
    ensures WalkInv(m0, tree, inMaze, next) && next.path[0] == w.path[0]
  {
    InvCanWalk(m0, tree, inMaze, w);
    next := WalkStep(w.maze, inMaze, w.path, draw);
    StepKeeps(m0, inMaze, tree, w, Next(w.maze, w.path, draw), next);
  }

  /** The inner walk, cut off after `fuel` passes (it ends only with
      probability one): from `s` until it steps onto the maze. */
  method WalkToMaze(ghost m0: Maze, inMaze: set<nat>, tree: Maze, s: nat,
                    draws: nat -> nat, d: nat, fuel: nat)
    returns (w: Walk, d': nat, left: nat)
    requires NoLinks(m0) && s !in inMaze && |m0.nodes| >= 2
    requires WalkInv(m0, tree, inMaze, Walk(tree, [s]))
    ensures WalkInv(m0, tree, inMaze, w) && w.path[0] == s
    ensures left <= fuel && (fuel > 0 ==> left < fuel)
    ensures Last(w.path) !in inMaze ==> left == 0
  {
    w := Walk(tree, [s]);
    d', left := d, fuel;
    while Last(w.path) !in inMaze && left > 0
      invariant WalkInv(m0, tree, inMaze, w) && w.path[0] == s
      invariant left <= fuel && (left == fuel ==> w.path == [s])
    {
      w := Pass(m0, inMaze, tree, w, draws(d'));
      d', left := d' + 1, left - 1;
    }
  }

  /** `generate`, with every inner walk counted against one budget of
      `fuel` steps. Passages are only carved between neighbours. When the
      run completes, every node is in the maze and the passages form a
      spanning tree; otherwise the budget is spent. */
  method Generate(m: Maze, draws: nat -> nat, fuel: nat) returns (r: Maze, inMaze: set<nat>, done: bool, left: nat)
    requires Valid(m) && NoLinks(m) && |m.nodes| > 0
    ensures Carved(m, r) && inMaze <= Cells(|m.nodes|)
    ensures done ==> inMaze == Cells(|m.nodes|) && FullyConnected(r) && EdgeCount(r) == |m.nodes| - 1
    ensures !done ==> left == 0
  {
    var n := |m.nodes|;
    var start, memo := GetStartNode(None, n, draws(0)).0, GetStartNode(None, n, draws(0)).1;
    inMaze := {start};
    r := m;
    CarvedRefl(m);
    TreeOfOne(m, start);
    var d := 1;
    done, left := false, fuel;
    while !done && left > 0
      invariant TreeState(m, start, inMaze, r)
      invariant done ==> inMaze == Cells(n)
      decreases left, if done then 0 else 1
    {
      var notIn := NotInMaze(n, inMaze);
      if |notIn| == 0 {
        assert forall k: nat :: k < n ==> k in inMaze;
        done := true;
      } else {
        var s := Choose(notIn, draws(d));
        var w;
        WalkStart(m, start, inMaze, r, s);
        w, d, left := WalkToMaze(m, inMaze, r, s, draws, d + 1, left);
        if Last(w.path) in inMaze {
          FinishKeeps(m, start, inMaze, r, w);
          inMaze, r := inMaze + Elems(w.path[..|w.path| - 1]), w.maze;
        } else {
          r := w.maze;
          break;
        }
      }
    }
    if done {
      TreeSpansAll(r, start);
    }
  }
}
