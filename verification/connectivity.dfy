/** `Maze.isFullyConnected` (ts/maze/maze.ts): a depth-first sweep from the
    first node over the connection lists. */
module Connectivity {
  import opened Grid
  import opened Mazes
  import opened Graphs

  /** Everything waiting on the stack or already swept is reachable from
      node 0. */
  ghost predicate SweptReachable(m: Maze, inMaze: set<nat>, toVisit: seq<nat>)
  {
    && (forall v :: v in inMaze ==> ReachableIn(m, Cells(|m.nodes|), 0, v))
    && (forall k :: 0 <= k < |toVisit| ==> ReachableIn(m, Cells(|m.nodes|), 0, toVisit[k]))
  }

  /** An entry of the stack that has already been swept has each of its
      connections swept or waiting above it. */
  ghost predicate StackOrdered(m: Maze, inMaze: set<nat>, toVisit: seq<nat>)
    requires forall k :: 0 <= k < |toVisit| ==> toVisit[k] < |m.nodes|
  {
    forall k, c :: 0 <= k < |toVisit| && toVisit[k] in inMaze && c in m.nodes[toVisit[k]].connections ==>
      c in inMaze || c in toVisit[k + 1..]
  }

  /** The inner loop of the sweep: pushes, in list order, every connection
      of `node` not yet swept. */
  method PushUnswept(m: Maze, node: nat, inMaze: set<nat>, toVisit: seq<nat>) returns (r: seq<nat>)
    requires node < |m.nodes| && ConnWf(m)
    ensures |toVisit| <= |r| && r[..|toVisit|] == toVisit
    ensures forall k :: |toVisit| <= k < |r| ==> r[k] in m.nodes[node].connections && r[k] !in inMaze
    ensures forall c :: c in m.nodes[node].connections ==> c in inMaze || c in r[|toVisit|..]
    ensures (forall c :: c in m.nodes[node].connections ==> c in inMaze) ==> r == toVisit
  {
    var conns := m.nodes[node].connections;
    r := toVisit;
    var i := 0;
    while i < |conns|
      invariant 0 <= i <= |conns|
      invariant |toVisit| <= |r| && r[..|toVisit|] == toVisit
      invariant forall k :: |toVisit| <= k < |r| ==> r[k] in conns && r[k] !in inMaze
      invariant forall j :: 0 <= j < i ==> conns[j] in inMaze || conns[j] in r[|toVisit|..]
      invariant (forall c :: c in conns ==> c in inMaze) ==> r == toVisit
    {
      if conns[i] !in inMaze {
        ghost var prev := r;
        r := r + [conns[i]];
        assert r[|toVisit|..] == prev[|toVisit|..] + [conns[i]];
      }
      i := i + 1;
    }
  }

  /** Returns true iff every node is reachable from `nodes[0]` through
      connections; the maze itself is a value and is not modified. */
  method IsFullyConnected(m: Maze) returns (connected: bool)
    requires |m.nodes| > 0 && ConnWf(m)
    ensures connected <==> FullyConnected(m)
  {
    var n := |m.nodes|;
    var all := Cells(n);
    var inMaze: set<nat> := {};
    var toVisit: seq<nat> := [0];
    ReachRefl(m, all, 0);
    while |toVisit| > 0
      invariant forall k :: 0 <= k < |toVisit| ==> toVisit[k] < n
      invariant inMaze <= all
      invariant 0 in inMaze || toVisit == [0]
      invariant SweptReachable(m, inMaze, toVisit)
      invariant StackOrdered(m, inMaze, toVisit)
      invariant forall v, c :: v in inMaze && c in m.nodes[v].connections ==> c in inMaze || c in toVisit
      decreases all - inMaze, |toVisit|
    {
      var node := toVisit[|toVisit| - 1];
      var base := toVisit[..|toVisit| - 1];
      ghost var oldSwept := inMaze;
      ghost var oldStack := toVisit;
      inMaze := inMaze + {node};
      toVisit := PushUnswept(m, node, inMaze, base);
      SweepStep(m, oldSwept, oldStack, inMaze, toVisit);
    }
    assert forall i: nat, j: nat :: i in inMaze && Linked(m, i, j) ==> j in inMaze;
    forall v: nat | v < n && ReachableIn(m, all, 0, v)
      ensures v in inMaze
    {
      ClosedHoldsReachable(m, all, inMaze, 0, v);
    }
    assert 0 in inMaze;
    if |inMaze| == n {
      SameSizeSubset(inMaze, all);
      forall v: nat | v < n
        ensures ReachableIn(m, all, 0, v)
      {
        assert v in inMaze;
      }
    }
    if FullyConnected(m) {
      assert inMaze == all;
    }
    connected := |inMaze| == n;
  }

  /** What the inner loop leaves behind when `node`, popped off `stack`, has
      been marked swept and its unswept connections pushed. */
  ghost predicate Pushed(m: Maze, swept: set<nat>, stack: seq<nat>, swept': set<nat>, stack': seq<nat>)
    requires |stack| > 0 && stack[|stack| - 1] < |m.nodes|
  {
    var node := stack[|stack| - 1]; var base := stack[..|stack| - 1];
    && swept' == swept + {node}
    && |base| <= |stack'| && stack'[..|base|] == base
    && (forall k :: |base| <= k < |stack'| ==> stack'[k] in m.nodes[node].connections && stack'[k] !in swept')
    && (forall c :: c in m.nodes[node].connections ==> c in swept' || c in stack'[|base|..])
    && ((forall c :: c in m.nodes[node].connections ==> c in swept') ==> stack' == base)
  }

  /** One pass of the sweep keeps the loop invariants and makes progress. */
  lemma SweepStep(m: Maze, swept: set<nat>, stack: seq<nat>, swept': set<nat>, stack': seq<nat>)
    requires ConnWf(m) && |stack| > 0 && |m.nodes| > 0
    requires forall k :: 0 <= k < |stack| ==> stack[k] < |m.nodes|
    requires swept <= Cells(|m.nodes|)
    requires 0 in swept || stack == [0]
    requires SweptReachable(m, swept, stack)
    requires StackOrdered(m, swept, stack)
    requires forall v, c :: v in swept && c in m.nodes[v].connections ==> c in swept || c in stack
    requires Pushed(m, swept, stack, swept', stack')
    ensures forall k :: 0 <= k < |stack'| ==> stack'[k] < |m.nodes|
    ensures swept' <= Cells(|m.nodes|)
    ensures 0 in swept'
    ensures SweptReachable(m, swept', stack')
    ensures StackOrdered(m, swept', stack')
    ensures forall v, c :: v in swept' && c in m.nodes[v].connections ==> c in swept' || c in stack'
    ensures (Cells(|m.nodes|) - swept' < Cells(|m.nodes|) - swept) || (swept' == swept && |stack'| < |stack|)
  {
    SweepReach(m, swept, stack, swept', stack');
    SweepOrdered(m, swept, stack, swept', stack');
    SweepClosed(m, swept, stack, swept', stack');
    SweepProgress(m, swept, stack, swept', stack');
  }

  /** Everything pushed is a connection of a reachable node, so reachable. */
  lemma SweepReach(m: Maze, swept: set<nat>, stack: seq<nat>, swept': set<nat>, stack': seq<nat>)
    requires ConnWf(m) && |stack| > 0
    requires forall k :: 0 <= k < |stack| ==> stack[k] < |m.nodes|
    requires swept <= Cells(|m.nodes|)
    requires SweptReachable(m, swept, stack)
    requires Pushed(m, swept, stack, swept', stack')
    ensures forall k :: 0 <= k < |stack'| ==> stack'[k] < |m.nodes|
    ensures swept' <= Cells(|m.nodes|)
    ensures SweptReachable(m, swept', stack')
  {
    var all := Cells(|m.nodes|);
    var top := |stack| - 1;
    var node := stack[top];
    var base := stack[..top];
    assert ReachableIn(m, all, 0, node);
    forall k | |base| <= k < |stack'|
      ensures stack'[k] < |m.nodes| && ReachableIn(m, all, 0, stack'[k])
    {
      assert Linked(m, node, stack'[k]);
      ReachStep(m, all, 0, node, stack'[k]);
    }
    forall k | 0 <= k < |base|
      ensures stack'[k] == stack[k]
    {
      assert stack'[k] == base[k];
    }
  }

  /** A swept entry of the new stack still has its connections swept or
      waiting above it. */
  lemma SweepOrdered(m: Maze, swept: set<nat>, stack: seq<nat>, swept': set<nat>, stack': seq<nat>)
    requires |stack| > 0
    requires forall k :: 0 <= k < |stack| ==> stack[k] < |m.nodes|
    requires forall k :: 0 <= k < |stack'| ==> stack'[k] < |m.nodes|
    requires StackOrdered(m, swept, stack)
    requires Pushed(m, swept, stack, swept', stack')
    ensures StackOrdered(m, swept', stack')
  {
    var top := |stack| - 1;
    var node := stack[top];
    var base := stack[..top];
    forall k, c | 0 <= k < |stack'| && stack'[k] in swept' && c in m.nodes[stack'[k]].connections
      ensures c in swept' || c in stack'[k + 1..]
    {
      if k < |base| {
        assert stack'[k] == stack[k] by { assert stack'[k] == base[k]; }
        if stack'[k] == node {
          if c !in swept' {
            var j :| |base| <= j < |stack'| && stack'[j] == c;
            assert stack'[k + 1..][j - k - 1] == c;
          }
        } else {
          assert stack[k] in swept;
          assert c in swept || c in stack[k + 1..];
          if c !in swept && c != node {
            var j :| k + 1 <= j < |stack| && stack[j] == c;
            assert j < top && stack'[j] == base[j];
            assert stack'[k + 1..][j - k - 1] == c;
          }
        }
      }
    }
  }

  /** Every connection of a swept node is swept or on the new stack. */
  lemma SweepClosed(m: Maze, swept: set<nat>, stack: seq<nat>, swept': set<nat>, stack': seq<nat>)
    requires |stack| > 0
    requires forall k :: 0 <= k < |stack| ==> stack[k] < |m.nodes|
    requires swept <= Cells(|m.nodes|)
    requires forall v, c :: v in swept && c in m.nodes[v].connections ==> c in swept || c in stack
    requires Pushed(m, swept, stack, swept', stack')
    ensures forall v, c :: v in swept' && c in m.nodes[v].connections ==> c in swept' || c in stack'
  {
    var top := |stack| - 1;
    var node := stack[top];
    var base := stack[..top];
    forall v, c | v in swept' && c in m.nodes[v].connections
      ensures c in swept' || c in stack'
    {
      if v == node {
        if c !in swept' {
          var j :| |base| <= j < |stack'| && stack'[j] == c;
        }
      } else if c !in swept' {
        assert c in stack && c != node;
        var k :| 0 <= k < |stack| && stack[k] == c;
        assert k < top && stack'[k] == base[k];
      }
    }
  }

  /** Either a new node is swept or the stack shrinks. */
  lemma SweepProgress(m: Maze, swept: set<nat>, stack: seq<nat>, swept': set<nat>, stack': seq<nat>)
    requires |stack| > 0
    requires forall k :: 0 <= k < |stack| ==> stack[k] < |m.nodes|
    requires swept <= Cells(|m.nodes|)
    requires 0 in swept || stack == [0]
    requires StackOrdered(m, swept, stack)
    requires Pushed(m, swept, stack, swept', stack')
    ensures 0 in swept'
    ensures (Cells(|m.nodes|) - swept' < Cells(|m.nodes|) - swept) || (swept' == swept && |stack'| < |stack|)
  {
    var all := Cells(|m.nodes|);
    var top := |stack| - 1;
    var node := stack[top];
    if node in swept {
      assert forall c :: c in m.nodes[node].connections ==> c in swept || c in stack[top + 1..];
      assert swept' == swept;
    } else {
      assert node in all - swept;
    }
  }
}
