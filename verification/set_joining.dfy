/** `SetJoiningGenerator` (ts/maze/generators/set-joining.ts), Kruskal's
    algorithm. Every node starts in a set of its own; the candidate passages
    (each pair of neighbours once, lower index first) are visited in a
    random order, and a candidate whose ends lie in different sets is carved
    and the two sets merged.

    The source maps each node to a `Set<Node>` object and compares sets by
    reference. Here each node carries the id of its set (`owner`) and
    `blocks` maps an id to the set's contents: two nodes share a set object
    exactly when they have the same id. */
module SetJoining {
  import opened Grid
  import opened Mazes
  import opened Graphs
  import opened Forests

  // ---------------------------------------------------------------------
  // Candidate passages

  /** `(k, c)` for every `c` of `cs`, in order. */
  function PairsWith(k: nat, cs: seq<nat>): (r: seq<(nat, nat)>)
    ensures |r| == |cs|
    ensures forall i :: 0 <= i < |r| ==> r[i] == (k, cs[i])
  {
    seq(|cs|, i requires 0 <= i < |cs| => (k, cs[i]))
  }

  /** The candidates contributed by nodes `k`, `k + 1`, ...: each node
      paired with its neighbours of higher index. */
  function CandidatesFrom(m: Maze, k: nat): seq<(nat, nat)>
    requires k <= |m.nodes|
    decreases |m.nodes| - k
  {
    if k == |m.nodes| then []
    else PairsWith(k, Filter(m.nodes[k].neighbors, c => c > k)) + CandidatesFrom(m, k + 1)
  }

  /** `allPotentialConnections` before the shuffle. */
  function Candidates(m: Maze): seq<(nat, nat)>
  {
    CandidatesFrom(m, 0)
  }

  lemma {:induction false} FilterNoDup(xs: seq<nat>, keep: nat -> bool)
    requires NoDup(xs)
    ensures NoDup(Filter(xs, keep))
  {
    if xs != [] {
      assert NoDup(xs[1..]) by {
        forall p, q | 0 <= p < q < |xs[1..]|
          ensures xs[1..][p] != xs[1..][q]
        {
          assert xs[1..][p] == xs[p + 1] && xs[1..][q] == xs[q + 1];
        }
      }
      FilterNoDup(xs[1..], keep);
      assert xs[0] !in xs[1..] by {
        forall q | 0 <= q < |xs[1..]|
          ensures xs[1..][q] != xs[0]
        {
          assert xs[1..][q] == xs[q + 1];
        }
      }
    }
  }

  lemma {:induction false} CandidatesFromMembers(m: Maze, k: nat)
    requires k <= |m.nodes|
    ensures forall a: nat, b: nat :: (a, b) in CandidatesFrom(m, k) <==>
              k <= a < |m.nodes| && a < b && b in m.nodes[a].neighbors
    decreases |m.nodes| - k
  {
    if k < |m.nodes| {
      CandidatesFromMembers(m, k + 1);
      var cs := Filter(m.nodes[k].neighbors, c => c > k);
      var head, tail := PairsWith(k, cs), CandidatesFrom(m, k + 1);
      assert CandidatesFrom(m, k) == head + tail;
      forall a: nat, b: nat
        ensures (a, b) in head <==> a == k && a < b && b in m.nodes[a].neighbors
      {
        if (a, b) in head {
          var i :| 0 <= i < |head| && head[i] == (a, b);
          assert cs[i] in cs;
        }
        if a == k && a < b && b in m.nodes[a].neighbors {
          assert b in cs;
          var i :| 0 <= i < |cs| && cs[i] == b;
          assert head[i] == (a, b);
        }
      }
    }
  }

  lemma {:induction false} CandidatesFromDistinct(m: Maze, k: nat)
    requires k <= |m.nodes|
    requires forall i :: 0 <= i < |m.nodes| ==> NoDup(m.nodes[i].neighbors)
    ensures forall p, q :: 0 <= p < q < |CandidatesFrom(m, k)| ==>
              CandidatesFrom(m, k)[p] != CandidatesFrom(m, k)[q]
    decreases |m.nodes| - k
  {
    if k < |m.nodes| {
      CandidatesFromDistinct(m, k + 1);
      CandidatesFromMembers(m, k + 1);
      var cs := Filter(m.nodes[k].neighbors, c => c > k);
      var tail := CandidatesFrom(m, k + 1);
      assert CandidatesFrom(m, k) == PairsWith(k, cs) + tail;
      FilterNoDup(m.nodes[k].neighbors, c => c > k);
      forall i | 0 <= i < |tail|
        ensures tail[i].0 > k
      {
        assert (tail[i].0, tail[i].1) in tail;
      }
      PairsThenDistinct(k, cs, tail);
    }
  }

  /** The pairs of `k` followed by pairs of higher first entries repeat
      nothing when neither part does. */
  lemma PairsThenDistinct(k: nat, cs: seq<nat>, tail: seq<(nat, nat)>)
    requires NoDup(cs)
    requires forall p, q :: 0 <= p < q < |tail| ==> tail[p] != tail[q]
    requires forall i :: 0 <= i < |tail| ==> tail[i].0 > k
    ensures forall p, q :: 0 <= p < q < |PairsWith(k, cs) + tail| ==>
              (PairsWith(k, cs) + tail)[p] != (PairsWith(k, cs) + tail)[q]
  {
    var head := PairsWith(k, cs);
    var r := head + tail;
    forall p, q | 0 <= p < q < |r|
      ensures r[p] != r[q]
    {
      if q < |head| {
        assert r[p] == (k, cs[p]) && r[q] == (k, cs[q]);
      } else if p < |head| {
        assert r[p].0 == k && r[q] == tail[q - |head|];
      } else {
        assert r[p] == tail[p - |head|] && r[q] == tail[q - |head|];
      }
    }
  }

  /** The candidate list holds exactly the pairs of neighbours `(a, b)` with
      `a < b`: every passage the grid allows, in one direction only. */
  lemma CandidatesSpec(m: Maze)
    requires Shaped(m)
    ensures forall a: nat, b: nat :: (a, b) in Candidates(m) <==>
              a < b < |m.nodes| && b in m.nodes[a].neighbors
  {
    CandidatesFromMembers(m, 0);
    ShapedInRange(m);
  }

  /** No candidate is listed twice. */
  lemma CandidatesDistinct(m: Maze)
    requires Shaped(m)
    ensures forall p, q :: 0 <= p < q < |Candidates(m)| ==> Candidates(m)[p] != Candidates(m)[q]
  {
    forall i | 0 <= i < |m.nodes|
      ensures NoDup(m.nodes[i].neighbors)
    {
      ShapedNeighbors(m, i);
      NeighborsSpec(m.width, m.height, i);
    }
    CandidatesFromDistinct(m, 0);
  }

  // ---------------------------------------------------------------------
  // The sets

  /** The maze being carved together with the `sets` map: node `i` belongs
      to the set with id `owner[i]`, whose contents are `blocks[owner[i]]`. */
  datatype Joiner = Joiner(maze: Maze, owner: seq<nat>, blocks: map<nat, set<nat>>)

  /** The nodes whose set has id `x`. */
  function Members(owner: seq<nat>, x: nat): set<nat>
  {
    set j: nat | j < |owner| && owner[j] == x
  }

  /** `blocks` describes the partition `owner` induces on the `n` nodes:
      each node's set is there, and holds exactly the nodes with its id. */
  ghost predicate Partition(st: Joiner, n: nat)
  {
    && |st.owner| == n
    && forall i :: 0 <= i < n ==> st.owner[i] in st.blocks && st.blocks[st.owner[i]] == Members(st.owner, st.owner[i])
  }

  /** `new Map(maze.nodes.map(n => [n, new Set([n])]))`. */
  function Singletons(m: Maze): (st: Joiner)
    ensures st.maze == m && Partition(st, |m.nodes|)
    ensures forall i, j :: 0 <= i < |m.nodes| && 0 <= j < |m.nodes| ==>
              (st.owner[i] == st.owner[j] <==> i == j)
    ensures Ids(st.owner) == Cells(|m.nodes|)
  {
    var n := |m.nodes|;
    Joiner(m, SingletonIds(n), map i: nat | i < n :: {i})
  }

  /** The loop over `removedSet`: each of its nodes is added to `a`'s set
      and made to point at it. Every node of `b`'s set ends up in `a`'s,
      nobody else moves, and the partition stays described. */
  method Merge(st: Joiner, n: nat, a: nat, b: nat) returns (r: Joiner)
    requires Partition(st, n) && a < n && b < n && st.owner[a] != st.owner[b]
    ensures r.maze == st.maze && Partition(r, n)
    ensures forall j :: 0 <= j < n ==> r.owner[j] == Remap(st.owner[j], st.owner[b], st.owner[a])
    ensures st.owner[a] in r.blocks && st.owner[b] in st.blocks
    ensures r.blocks[st.owner[a]] == st.blocks[st.owner[a]] + st.blocks[st.owner[b]]
  {
    var merged, gone := st.owner[a], st.owner[b];
    var removed := st.blocks[gone];
    assert removed == Members(st.owner, gone);
    var owner, grown := MoveAll(st.owner, st.blocks[merged], removed, merged);
    r := Joiner(st.maze, owner, st.blocks[merged := grown]);
    forall j | 0 <= j < n
      ensures r.owner[j] == Remap(st.owner[j], gone, merged)
    {
      assert j in removed <==> j in Members(st.owner, gone);
    }
    assert merged in st.blocks && st.blocks[merged] == Members(st.owner, merged);
    MergedPartition(st, r, n, merged, gone);
  }

  /** `for (const node of removedSet) { mergedSet.add(node);
      this.sets.set(node, mergedSet); }`, in whatever order the set is
      visited: every node of `removed` joins `grown` and takes its id. */
  method MoveAll(owner: seq<nat>, grown: set<nat>, removed: set<nat>, merged: nat)
    returns (owner': seq<nat>, grown': set<nat>)
    requires forall j :: j in removed ==> j < |owner|
    ensures |owner'| == |owner| && grown' == grown + removed
    ensures forall j :: 0 <= j < |owner| ==> owner'[j] == if j in removed then merged else owner[j]
  {
    owner', grown' := owner, grown;
    var rest := removed;
    while rest != {}
      invariant rest <= removed && |owner'| == |owner|
      invariant forall j :: 0 <= j < |owner| ==> owner'[j] == if j in removed - rest then merged else owner[j]
      invariant grown' == grown + (removed - rest)
      decreases |rest|
    {
      var node :| node in rest;
      grown', owner' := grown' + {node}, owner'[node := merged];
      rest := rest - {node};
    }
  }

  /** The sets after the merge are again described by `blocks`. */
  lemma MergedPartition(st: Joiner, r: Joiner, n: nat, merged: nat, gone: nat)
    requires Partition(st, n) && merged != gone && |r.owner| == n
    requires merged in st.blocks && gone in st.blocks
    requires st.blocks[merged] == Members(st.owner, merged) && st.blocks[gone] == Members(st.owner, gone)
    requires forall j :: 0 <= j < n ==> r.owner[j] == Remap(st.owner[j], gone, merged)
    requires r.blocks == st.blocks[merged := st.blocks[merged] + st.blocks[gone]]
    ensures Partition(r, n)
  {
    forall i | 0 <= i < n
      ensures r.owner[i] in r.blocks && r.blocks[r.owner[i]] == Members(r.owner, r.owner[i])
    {
      var x := r.owner[i];
      if x != merged {
        assert st.owner[i] == x && st.blocks[x] == Members(st.owner, x);
      }
      forall j: nat
        ensures j in r.blocks[x] <==> j in Members(r.owner, x)
      {
        if j < n {
          assert r.owner[j] == Remap(st.owner[j], gone, merged);
        }
      }
    }
  }

  // ---------------------------------------------------------------------
  // The invariant

  /** The state of a run from the passage-free maze `m`: the carving so far
      is legal, the sets partition the nodes, and they are exactly the
      trees the passages form. */
  ghost predicate Inv(m: Maze, st: Joiner)
  {
    Forest(m, st.maze, st.owner) && Partition(st, |m.nodes|)
  }

  lemma StartInv(m: Maze)
    requires Valid(m) && NoLinks(m)
    ensures Inv(m, Singletons(m))
  {
    StartForest(m);
  }

  /** One candidate `(a, b)`: skipped when `a` and `b` already share a set,
      otherwise carved and the two sets merged. */
  method Compare(st: Joiner, n: nat, a: nat, b: nat) returns (r: Joiner)
    requires Partition(st, n) && LinksInside(st.maze, st.owner) && ConnWf(st.maze)
    requires a < n && b < n && a != b && n == |st.maze.nodes|
    ensures st.owner[a] == st.owner[b] ==> r == st
    ensures st.owner[a] != st.owner[b] ==>
              AddsPassage(st.maze, r.maze, a, b) && Partition(r, n) && Merged(st.owner, r.owner, a, b)
  {
    if st.owner[a] == st.owner[b] {
      return st;
    }
    assert !Linked(st.maze, a, b);
    var carved := AddPassage(st.maze, a, b);
    r := Merge(st.(maze := carved), n, a, b);
  }

  /** Both ends of `p` share a set. */
  predicate Same(st: Joiner, p: (nat, nat))
  {
    p.0 < |st.owner| && p.1 < |st.owner| && st.owner[p.0] == st.owner[p.1]
  }

  /** Comparing a candidate keeps the invariant. */
  lemma CompareKeepsInv(m: Maze, st: Joiner, a: nat, b: nat, r: Joiner)
    requires Inv(m, st) && a < b < |m.nodes| && b in m.nodes[a].neighbors
    requires st.owner[a] == st.owner[b] ==> r == st
    requires st.owner[a] != st.owner[b] ==>
               AddsPassage(st.maze, r.maze, a, b) && Partition(r, |m.nodes|) && Merged(st.owner, r.owner, a, b)
    ensures Inv(m, r)
  {
    if st.owner[a] != st.owner[b] {
      JoinKeepsForest(m, st.maze, st.owner, r.maze, r.owner, a, b);
    }
  }

  /** Merging never separates two nodes and leaves `a` and `b` together,
      so the first `k + 1` candidates all end up inside sets. */
  lemma CompareJoins(st: Joiner, n: nat, a: nat, b: nat, r: Joiner, order: seq<(nat, nat)>, k: nat)
    requires |st.owner| == n && |r.owner| == n && a < n && b < n
    requires k < |order| && order[k] == (a, b)
    requires forall q :: 0 <= q < k ==> Same(st, order[q])
    requires st.owner[a] == st.owner[b] ==> r == st
    requires st.owner[a] != st.owner[b] ==> Merged(st.owner, r.owner, a, b)
    ensures forall q :: 0 <= q < k + 1 ==> Same(r, order[q])
  {
    forall q | 0 <= q < k + 1
      ensures Same(r, order[q])
    {
      if q < k {
        assert Same(st, order[q]);
      }
    }
  }

  /** One pass of the `for` loop over the shuffled list `order`, at
      position `k`. */
  method Pass(m: Maze, st: Joiner, order: seq<(nat, nat)>, k: nat) returns (r: Joiner)
    requires Inv(m, st) && k < |order| && forall q :: 0 <= q < k ==> Same(st, order[q])
    requires order[k].0 < order[k].1 < |m.nodes| && order[k].1 in m.nodes[order[k].0].neighbors
    ensures Inv(m, r)
    ensures forall q :: 0 <= q < k + 1 ==> Same(r, order[q])
  {
    var (a, b) := order[k];
    r := Compare(st, |m.nodes|, a, b);
    CompareKeepsInv(m, st, a, b, r);
    CompareJoins(st, |m.nodes|, a, b, r, order, k);
  }

  /** When every pair of neighbours shares a set, every node is in node
      0's set: that set is closed under the grid's neighbour relation. */
  lemma AllJoined(m: Maze, owner: seq<nat>)
    requires Shaped(m) && |owner| == |m.nodes| > 0
    requires forall a: nat, b: nat :: a < b < |m.nodes| && b in m.nodes[a].neighbors ==> owner[a] == owner[b]
    ensures forall i :: 0 <= i < |m.nodes| ==> owner[i] == owner[0]
  {
    var n, w, h := |m.nodes|, m.width, m.height;
    var one := set k: nat | k < n && owner[k] == owner[0];
    forall i, j | i in one && i < w * h && j in NeighborsOf(w, h, i)
      ensures j in one
    {
      ShapedNeighbors(m, i);
      ShapedNeighbors(m, j);
    }
    ClosedSetIsEverything(w, h, one);
    forall i | 0 <= i < n
      ensures owner[i] == owner[0]
    {
      assert i in one;
    }
  }

  /** One set left: its nodes are all connected, and the maze is a single
      spanning tree. */
  lemma OneSet(m: Maze, st: Joiner)
    requires Inv(m, st) && |m.nodes| > 0
    requires forall i :: 0 <= i < |m.nodes| ==> st.owner[i] == st.owner[0]
    ensures FullyConnected(st.maze) && EdgeCount(st.maze) == |m.nodes| - 1
    ensures st.owner[0] in st.blocks && st.blocks[st.owner[0]] == Cells(|m.nodes|)
  {
    OneTree(m, st.maze, st.owner);
    assert st.blocks[st.owner[0]] == Members(st.owner, st.owner[0]);
  }

  /** `generate`, with `order` the shuffled candidate list: any
      rearrangement of the candidates. From a maze without passages the
      result is a spanning tree, and all nodes end in one set. */
  method Generate(m: Maze, order: seq<(nat, nat)>) returns (r: Maze, st: Joiner)
    requires Valid(m) && NoLinks(m) && |m.nodes| > 0
    requires multiset(order) == multiset(Candidates(m))
    ensures r == st.maze && Carved(m, r)
    ensures FullyConnected(r) && EdgeCount(r) == |m.nodes| - 1
    ensures |st.owner| == |m.nodes| && st.owner[0] in st.blocks
    ensures st.blocks[st.owner[0]] == Cells(|m.nodes|)
  {
    var n := |m.nodes|;
    CandidatesSpec(m);
    st := Singletons(m);
    StartInv(m);
    var k := 0;
    while k < |order|
      invariant k <= |order| && Inv(m, st)
      invariant forall q :: 0 <= q < k ==> Same(st, order[q])
    {
      assert order[k] in multiset(Candidates(m));
      assert order[k] == (order[k].0, order[k].1);
      st := Pass(m, st, order, k);
      k := k + 1;
    }
    r := st.maze;
    EveryCandidateSame(m, order, st);
    AllJoined(m, st.owner);
    OneSet(m, st);
  }

  /** Once the whole shuffled list is through, every pair of neighbours
      shares a set. */
  lemma EveryCandidateSame(m: Maze, order: seq<(nat, nat)>, st: Joiner)
    requires Shaped(m) && multiset(order) == multiset(Candidates(m))
    requires forall q :: 0 <= q < |order| ==> Same(st, order[q])
    ensures forall a: nat, b: nat :: a < b < |m.nodes| && b in m.nodes[a].neighbors ==> Same(st, (a, b))
  {
    CandidatesSpec(m);
    forall a: nat, b: nat | a < b < |m.nodes| && b in m.nodes[a].neighbors
      ensures Same(st, (a, b))
    {
      assert (a, b) in multiset(order);
      var q :| 0 <= q < |order| && order[q] == (a, b);
    }
  }
}
