/** The maze graph of `ts/maze/node.ts` and `ts/maze/maze.ts`: cells with a
    fixed position and neighbour list, and a mutable, symmetric list of
    connections (the passages). Nodes refer to one another by index into the
    maze's node sequence. */
module Mazes {
  import opened Grid

  datatype Node = Node(index: nat, x: nat, y: nat, neighbors: seq<nat>, connections: seq<nat>)

  datatype Maze = Maze(width: nat, height: nat, nodes: seq<Node>)

  /** A node without its connections: the part that connect and disconnect
      must leave alone. */
  function Skeleton(n: Node): Node
  {
    n.(connections := [])
  }

  predicate NoDup(s: seq<nat>)
  {
    forall p, q :: 0 <= p < q < |s| ==> s[p] != s[q]
  }

  /** `xs.filter(keep)`: the entries `keep` accepts, in their order. */
  function Filter(xs: seq<nat>, keep: nat -> bool): (r: seq<nat>)
    ensures forall x :: x in r <==> x in xs && keep(x)
    ensures |r| <= |xs|
    ensures r == [] <==> forall x :: x in xs ==> !keep(x)
  {
    if xs == [] then []
    else (if keep(xs[0]) then [xs[0]] else []) + Filter(xs[1..], keep)
  }

  // ---------------------------------------------------------------------
  // Construction

  /** Row `y` of a fresh grid. */
  function NewRow(width: nat, height: nat, y: nat): (row: seq<Node>)
    ensures |row| == width
  {
    seq(width, x requires 0 <= x < width =>
      Node(CellIndex(width, x, y), x, y, NeighborsAt(width, height, x, y), []))
  }

  /** The 2-D lookup table the constructor fills, row by row. */
  function NewGrid(width: nat, height: nat): (grid: seq<seq<Node>>)
    ensures |grid| == height
    ensures forall y :: 0 <= y < height ==> grid[y] == NewRow(width, height, y)
  {
    seq(height, y requires 0 <= y < height => NewRow(width, height, y))
  }

  /** Rows laid end to end. */
  function Flatten(rows: seq<seq<Node>>): seq<Node>
  {
    if rows == [] then [] else Flatten(rows[..|rows| - 1]) + rows[|rows| - 1]
  }

  /** `new Maze(width, height)`: the nodes are the grid's rows laid end to end,
      every connection list empty. */
  function NewMaze(width: nat, height: nat): (m: Maze)
    ensures m.width == width && m.height == height
  {
    Maze(width, height, Flatten(NewGrid(width, height)))
  }

  /** The row-major 2-D view `grid[y][x]` of a maze's nodes. */
  function GridOf(m: Maze): (grid: seq<seq<Node>>)
    requires |m.nodes| == m.width * m.height
    ensures |grid| == m.height
    ensures forall y :: 0 <= y < m.height ==> |grid[y]| == m.width
  {
    seq(m.height, y requires 0 <= y < m.height =>
      seq(m.width, x requires 0 <= x < m.width =>
        IndexInRange(m.width, m.height, x, y);
        m.nodes[CellIndex(m.width, x, y)]))
  }

  lemma {:induction false} FlattenIndex(rows: seq<seq<Node>>, width: nat)
    requires forall y :: 0 <= y < |rows| ==> |rows[y]| == width
    ensures |Flatten(rows)| == |rows| * width
    ensures forall x, y :: 0 <= x < width && 0 <= y < |rows| ==>
              CellIndex(width, x, y) < |Flatten(rows)| && Flatten(rows)[CellIndex(width, x, y)] == rows[y][x]
  {
    if rows != [] {
      var n := |rows|;
      var init := rows[..n - 1];
      FlattenIndex(init, width);
      assert |Flatten(init)| == (n - 1) * width;
      assert n * width == (n - 1) * width + width;
      forall x, y | 0 <= x < width && 0 <= y < n
        ensures CellIndex(width, x, y) < |Flatten(rows)| && Flatten(rows)[CellIndex(width, x, y)] == rows[y][x]
      {
        if y < n - 1 {
          IndexInRange(width, n - 1, x, y);
        } else {
          assert CellIndex(width, x, y) == (n - 1) * width + x;
        }
      }
    }
  }

  /** The geometry every maze keeps from construction onwards: node `i` has
      index `i`, sits at column `i % width` of row `i / width`, and has the
      constructor's neighbour list. */
  ghost predicate Shaped(m: Maze)
  {
    && m.width > 0 && m.height > 0
    && |m.nodes| == m.width * m.height
    && forall i :: 0 <= i < |m.nodes| ==> Skeleton(m.nodes[i]) == CellSkeleton(m.width, m.height, i)
  }

  function CellSkeleton(width: nat, height: nat, i: nat): Node
    requires width > 0
  {
    Node(i, X(width, i), Y(width, i), NeighborsOf(width, height, i), [])
  }

  /** Node `i` of a fresh maze is the grid cell at column `i % width`, row
      `i / width`. */
  lemma NewMazeNode(width: nat, height: nat, i: nat)
    requires width > 0 && height > 0 && i < width * height
    ensures var m := NewMaze(width, height);
      && |m.nodes| == width * height
      && i / width < height
      && m.nodes[i] == NewGrid(width, height)[i / width][i % width]
      && Skeleton(m.nodes[i]) == CellSkeleton(width, height, i)
      && m.nodes[i].connections == []
  {
    var grid := NewGrid(width, height);
    FlattenIndex(grid, width);
    IndexOfCoords(width, height, i);
    var x, y := i % width, i / width;
    assert Flatten(grid)[CellIndex(width, x, y)] == grid[y][x];
    assert grid[y][x] == Node(CellIndex(width, x, y), x, y, NeighborsAt(width, height, x, y), []);
  }

  lemma NewMazeNodes(width: nat, height: nat)
    requires width > 0 && height > 0
    ensures var m := NewMaze(width, height);
      && |m.nodes| == width * height
      && forall i :: 0 <= i < |m.nodes| ==>
           && i / width < height
           && m.nodes[i] == NewGrid(width, height)[i / width][i % width]
           && Skeleton(m.nodes[i]) == CellSkeleton(width, height, i)
           && m.nodes[i].connections == []
  {
    MulAtLeast(height, width);
    NewMazeNode(width, height, 0);
    var m := NewMaze(width, height);
    forall i | 0 <= i < |m.nodes|
      ensures i / width < height
      ensures m.nodes[i] == NewGrid(width, height)[i / width][i % width]
      ensures Skeleton(m.nodes[i]) == CellSkeleton(width, height, i)
      ensures m.nodes[i].connections == []
    {
      NewMazeNode(width, height, i);
    }
  }

  /** `grid[y][x]` of a fresh maze is the node with index `y*width + x` at
      (x, y), and `nodes` is the row-major flattening of `grid`. */
  lemma NewMazeGrid(width: nat, height: nat, m: Maze)
    requires width > 0 && height > 0 && m == NewMaze(width, height)
    ensures |m.nodes| == width * height
    ensures GridOf(m) == NewGrid(width, height)
    ensures forall x, y :: 0 <= x < width && 0 <= y < height ==>
              && GridOf(m)[y][x].index == CellIndex(width, x, y)
              && GridOf(m)[y][x].x == x && GridOf(m)[y][x].y == y
    ensures forall i :: 0 <= i < |m.nodes| ==> i / width < height && m.nodes[i] == GridOf(m)[i / width][i % width]
  {
    var grid: seq<seq<Node>> := NewGrid(width, height);
    NewMazeGridIsNewGrid(width, height);
    forall x: nat, y: nat | x < width && y < height
      ensures grid[y][x].index == CellIndex(width, x, y) && grid[y][x].x == x && grid[y][x].y == y
    {
      assert grid[y] == NewRow(width, height, y);
    }
    forall i | 0 <= i < |m.nodes|
      ensures i / width < height && m.nodes[i] == grid[i / width][i % width]
    {
      NewMazeNode(width, height, i);
    }
  }

  lemma NewMazeGridIsNewGrid(width: nat, height: nat)
    requires width > 0 && height > 0
    ensures |NewMaze(width, height).nodes| == width * height
    ensures GridOf(NewMaze(width, height)) == NewGrid(width, height)
  {
    var m := NewMaze(width, height);
    var grid := NewGrid(width, height);
    FlattenIndex(grid, width);
    var g := GridOf(m);
    forall y | 0 <= y < height
      ensures g[y] == grid[y]
    {
      forall x | 0 <= x < width
        ensures g[y][x] == grid[y][x]
      {
        GridOfCell(m, x, y);
      }
    }
  }

  lemma GridOfCell(m: Maze, x: nat, y: nat)
    requires |m.nodes| == m.width * m.height && x < m.width && y < m.height
    ensures CellIndex(m.width, x, y) < |m.nodes|
    ensures GridOf(m)[y][x] == m.nodes[CellIndex(m.width, x, y)]
  {
    IndexInRange(m.width, m.height, x, y);
  }

  /** Every connection list of a fresh maze is empty, and its nodes have the
      constructor's geometry. */
  lemma NewMazeShaped(width: nat, height: nat)
    requires width > 0 && height > 0
    ensures Shaped(NewMaze(width, height))
    ensures forall i :: 0 <= i < |NewMaze(width, height).nodes| ==> NewMaze(width, height).nodes[i].connections == []
  {
    NewMazeNodes(width, height);
  }

  /** The neighbour relation the constructor builds is exactly grid adjacency,
      hence symmetric and irreflexive, and no list repeats a cell. */
  lemma NewMazeNeighbors(width: nat, height: nat, i: nat)
    requires width > 0 && height > 0 && i < width * height
    ensures var m := NewMaze(width, height);
      && |m.nodes| == width * height
      && (forall j :: j in m.nodes[i].neighbors <==> Adjacent(width, height, i, j))
      && (forall j :: j in m.nodes[i].neighbors ==> j != i && i in m.nodes[j].neighbors)
      && NoDup(m.nodes[i].neighbors)
  {
    NewMazeNodes(width, height);
    var m := NewMaze(width, height);
    NeighborsSpec(width, height, i);
    forall j | j in m.nodes[i].neighbors
      ensures j != i && i in m.nodes[j].neighbors
    {
      NeighborsSymmetric(width, height, i, j);
    }
  }

  // ---------------------------------------------------------------------
  // The connection relation

  /** Cell `j` appears in the connection list of cell `i`. */
  predicate Linked(m: Maze, i: nat, j: nat)
  {
    i < |m.nodes| && j in m.nodes[i].connections
  }

  /** Connection lists are well formed: entries are other cells of the maze,
      each listed once, and every connection is recorded at both ends. */
  ghost predicate ConnWf(m: Maze)
  {
    && (forall i: nat, j: nat :: Linked(m, i, j) ==> j < |m.nodes| && j != i && Linked(m, j, i))
    && (forall i :: 0 <= i < |m.nodes| ==> NoDup(m.nodes[i].connections))
  }

  /** No passage at all: the state of a freshly constructed maze. */
  ghost predicate NoLinks(m: Maze)
  {
    forall a: nat, b: nat :: !Linked(m, a, b)
  }

  /** A maze as every generator sees it. */
  ghost predicate Valid(m: Maze)
  {
    Shaped(m) && ConnWf(m)
  }

  /** In a shaped maze, node `i`'s neighbours are the grid neighbours of
      cell `i`: other cells of the maze, each listing `i` back, and there is
      at least one as soon as the maze has two cells. */
  lemma ShapedNeighbors(m: Maze, i: nat)
    requires Shaped(m) && i < |m.nodes|
    ensures m.nodes[i].neighbors == NeighborsOf(m.width, m.height, i)
    ensures forall j :: j in m.nodes[i].neighbors ==> j < |m.nodes| && j != i && i in m.nodes[j].neighbors
    ensures |m.nodes| >= 2 ==> |m.nodes[i].neighbors| > 0
  {
    assert Skeleton(m.nodes[i]).neighbors == m.nodes[i].neighbors;
    forall j | j in m.nodes[i].neighbors
      ensures j < |m.nodes| && j != i && i in m.nodes[j].neighbors
    {
      NeighborsSymmetric(m.width, m.height, i, j);
      assert Skeleton(m.nodes[j]).neighbors == m.nodes[j].neighbors;
    }
    if |m.nodes| >= 2 {
      NeighborsNonEmpty(m.width, m.height, i);
    }
  }

  /** Every neighbour of every node is a node of the maze. */
  predicate NeighborsInRange(m: Maze)
  {
    forall k, j :: 0 <= k < |m.nodes| && j in m.nodes[k].neighbors ==> j < |m.nodes|
  }

  lemma ShapedInRange(m: Maze)
    requires Shaped(m)
    ensures NeighborsInRange(m)
  {
    forall k, j | 0 <= k < |m.nodes| && j in m.nodes[k].neighbors
      ensures j < |m.nodes|
    {
      ShapedNeighbors(m, k);
    }
  }

  lemma NewMazeValid(width: nat, height: nat)
    requires width > 0 && height > 0
    ensures Valid(NewMaze(width, height))
    ensures forall i: nat, j: nat :: !Linked(NewMaze(width, height), i, j)
  {
    NewMazeShaped(width, height);
  }

  /** Replaces the connection list of node `i`. */
  function SetConnections(m: Maze, i: nat, conns: seq<nat>): (r: Maze)
    requires i < |m.nodes|
    ensures r.width == m.width && r.height == m.height && |r.nodes| == |m.nodes|
    ensures r.nodes[i].connections == conns
    ensures Skeleton(r.nodes[i]) == Skeleton(m.nodes[i])
    ensures forall k :: 0 <= k < |m.nodes| && k != i ==> r.nodes[k] == m.nodes[k]
  {
    m.(nodes := m.nodes[i := m.nodes[i].(connections := conns)])
  }

  /** `a.connect(b)`: a no-op when `b` is already among `a`'s connections,
      otherwise `b` is appended to `a`'s list and `a` to `b`'s. */
  function Connect(m: Maze, a: nat, b: nat): (r: Maze)
    requires a < |m.nodes| && b < |m.nodes|
    ensures r.width == m.width && r.height == m.height && |r.nodes| == |m.nodes|
    ensures forall i :: 0 <= i < |m.nodes| ==> Skeleton(r.nodes[i]) == Skeleton(m.nodes[i])
    ensures forall i :: 0 <= i < |m.nodes| && i != a && i != b ==> r.nodes[i] == m.nodes[i]
    ensures Linked(m, a, b) ==> r == m
    ensures !Linked(m, a, b) && a != b ==>
              && r.nodes[a].connections == m.nodes[a].connections + [b]
              && r.nodes[b].connections == m.nodes[b].connections + [a]
    ensures forall i: nat, j: nat :: Linked(r, i, j) <==>
              Linked(m, i, j) || (!Linked(m, a, b) && ((i == a && j == b) || (i == b && j == a)))
  {
    if b in m.nodes[a].connections then m
    else
      var m1 := SetConnections(m, a, m.nodes[a].connections + [b]);
      SetConnections(m1, b, m1.nodes[b].connections + [a])
  }

  /** `filter(n => n !== v)`: every occurrence of `v` dropped, the rest kept
      in order. */
  function Remove(s: seq<nat>, v: nat): (r: seq<nat>)
    ensures forall e :: e in r <==> e in s && e != v
    ensures multiset(r) == multiset(s)[v := 0]
    ensures v !in s ==> r == s
  {
    if s == [] then []
    else
      assert s == [s[0]] + s[1..];
      (if s[0] == v then [] else [s[0]]) + Remove(s[1..], v)
  }

  lemma AppendAssoc(a: seq<nat>, b: seq<nat>, c: seq<nat>)
    ensures a + (b + c) == (a + b) + c
  {
  }

  /** Removal from a list with a known head. */
  lemma RemoveCons(x: nat, u: seq<nat>, v: nat)
    ensures Remove([x] + u, v) == (if x == v then [] else [x]) + Remove(u, v)
  {
    var xu := [x] + u;
    assert xu[0] == x && xu[1..] == u;
  }

  /** Removal commutes with concatenation, so the surviving entries keep
      their relative order. */
  lemma {:induction false} RemoveConcat(s: seq<nat>, t: seq<nat>, v: nat)
    ensures Remove(s + t, v) == Remove(s, v) + Remove(t, v)
  {
    if s != [] {
      var h := if s[0] == v then [] else [s[0]];
      var rest := s[1..];
      assert s == [s[0]] + rest;
      assert s + t == [s[0]] + (rest + t);
      RemoveConcat(rest, t, v);
      RemoveCons(s[0], rest, v);
      RemoveCons(s[0], rest + t, v);
      AppendAssoc(h, Remove(rest, v), Remove(t, v));
    } else {
      assert s + t == t;
    }
  }

  /** The tail of a duplicate-free list is duplicate free and misses the head. */
  lemma NoDupTail(s: seq<nat>)
    requires NoDup(s) && s != []
    ensures NoDup(s[1..]) && s[0] !in s[1..]
  {
    var t := s[1..];
    forall p, q | 0 <= p < q < |t|
      ensures t[p] != t[q]
    {
      assert t[p] == s[p + 1] && t[q] == s[q + 1];
    }
    forall k | 0 <= k < |t|
      ensures t[k] != s[0]
    {
      assert t[k] == s[k + 1];
    }
  }

  /** Prefixing a duplicate-free list with at most one absent entry keeps it
      duplicate free. */
  lemma NoDupCons(h: seq<nat>, t: seq<nat>)
    requires |h| <= 1 && NoDup(t)
    requires forall e :: e in h ==> e !in t
    ensures NoDup(h + t)
  {
    forall p, q | 0 <= p < q < |h + t|
      ensures (h + t)[p] != (h + t)[q]
    {
      if p < |h| {
        assert (h + t)[q] == t[q - |h|];
        assert t[q - |h|] in t;
      } else {
        assert (h + t)[p] == t[p - |h|];
        assert (h + t)[q] == t[q - |h|];
      }
    }
  }

  lemma {:induction false} RemoveNoDup(s: seq<nat>, v: nat)
    requires NoDup(s)
    ensures NoDup(Remove(s, v))
    ensures v in s ==> |Remove(s, v)| == |s| - 1
  {
    if s != [] {
      var t := s[1..];
      NoDupTail(s);
      RemoveNoDup(t, v);
      var h := if s[0] == v then [] else [s[0]];
      var rt := Remove(t, v);
      assert Remove(s, v) == h + rt;
      NoDupCons(h, rt);
      if v in s {
        if s[0] == v {
          assert rt == t;
        } else {
          assert v in t by { assert s == [s[0]] + t; }
          assert |rt| == |t| - 1;
        }
      }
    }
  }

  /** `a.disconnect(b)`: every occurrence of `b` leaves `a`'s list and every
      occurrence of `a` leaves `b`'s list. */
  function Disconnect(m: Maze, a: nat, b: nat): (r: Maze)
    requires a < |m.nodes| && b < |m.nodes|
    ensures r.width == m.width && r.height == m.height && |r.nodes| == |m.nodes|
    ensures forall i :: 0 <= i < |m.nodes| ==> Skeleton(r.nodes[i]) == Skeleton(m.nodes[i])
    ensures forall i :: 0 <= i < |m.nodes| && i != a && i != b ==> r.nodes[i] == m.nodes[i]
    ensures a != b ==>
              && r.nodes[a].connections == Remove(m.nodes[a].connections, b)
              && r.nodes[b].connections == Remove(m.nodes[b].connections, a)
    ensures !Linked(m, a, b) && !Linked(m, b, a) ==> r == m
    ensures forall i: nat, j: nat :: Linked(r, i, j) <==> Linked(m, i, j) && !(i == a && j == b) && !(i == b && j == a)
  {
    var m1 := SetConnections(m, a, Remove(m.nodes[a].connections, b));
    var r := SetConnections(m1, b, Remove(m1.nodes[b].connections, a));
    assert !Linked(m, a, b) && !Linked(m, b, a) ==> r.nodes == m.nodes;
    r
  }

  /** Connecting keeps the lists well formed and is idempotent. */
  lemma ConnectWf(m: Maze, a: nat, b: nat)
    requires ConnWf(m) && a < |m.nodes| && b < |m.nodes| && a != b
    ensures ConnWf(Connect(m, a, b))
    ensures Connect(Connect(m, a, b), a, b) == Connect(m, a, b)
  {
  }

  /** Connecting two different cells keeps a maze valid. */
  lemma ConnectValid(m: Maze, a: nat, b: nat)
    requires Valid(m) && a < |m.nodes| && b < |m.nodes| && a != b
    ensures Valid(Connect(m, a, b))
  {
    ConnectWf(m, a, b);
  }

  /** `r` grew from `m` by carving: same grid, every passage of `m` kept,
      and every new passage joins two neighbours. */
  ghost predicate Carved(m: Maze, r: Maze)
  {
    && Valid(r) && r.width == m.width && r.height == m.height && |r.nodes| == |m.nodes|
    && (forall k :: 0 <= k < |m.nodes| ==> Skeleton(r.nodes[k]) == Skeleton(m.nodes[k]))
    && (forall a: nat, b: nat :: Linked(m, a, b) ==> Linked(r, a, b))
    && (forall a: nat, b: nat :: Linked(r, a, b) ==> Linked(m, a, b) || b in m.nodes[a].neighbors)
  }

  lemma CarvedRefl(m: Maze)
    requires Valid(m)
    ensures Carved(m, m)
  {
  }

  /** Connecting a cell to one of its neighbours is carving. */
  lemma CarveConnect(m: Maze, r: Maze, a: nat, b: nat)
    requires Carved(m, r) && a < |m.nodes| && b in m.nodes[a].neighbors
    ensures b < |m.nodes| && b != a && a in m.nodes[b].neighbors
    ensures Carved(m, Connect(r, a, b))
  {
    assert Skeleton(r.nodes[a]) == Skeleton(m.nodes[a]);
    ShapedNeighbors(r, a);
    assert Skeleton(r.nodes[b]) == Skeleton(m.nodes[b]);
    ConnectValid(r, a, b);
  }

  /** On a maze that started without passages, removing a passage again
      is still carving. */
  lemma CarveDisconnect(m: Maze, r: Maze, a: nat, b: nat)
    requires Carved(m, r) && NoLinks(m) && a < |m.nodes| && b < |m.nodes| && a != b
    ensures Carved(m, Disconnect(r, a, b))
  {
    DisconnectWf(r, a, b);
  }

  /** Disconnecting keeps the lists well formed. */
  lemma DisconnectWf(m: Maze, a: nat, b: nat)
    requires ConnWf(m) && a < |m.nodes| && b < |m.nodes| && a != b
    ensures ConnWf(Disconnect(m, a, b))
    ensures !Linked(Disconnect(m, a, b), a, b) && !Linked(Disconnect(m, a, b), b, a)
  {
    RemoveNoDup(m.nodes[a].connections, b);
    RemoveNoDup(m.nodes[b].connections, a);
  }

  // ---------------------------------------------------------------------
  // Counting edges

  /** Sum of the lengths of all connection lists. */
  function DegreeSum(ns: seq<Node>): nat
  {
    if ns == [] then 0 else DegreeSum(ns[..|ns| - 1]) + |ns[|ns| - 1].connections|
  }

  /** Each undirected passage is listed at both of its ends. */
  function EdgeCount(m: Maze): nat
  {
    DegreeSum(m.nodes) / 2
  }

  lemma {:induction false} DegreeSumUpdate(ns: seq<Node>, k: nat, n: Node)
    requires k < |ns|
    ensures DegreeSum(ns[k := n]) + |ns[k].connections| == DegreeSum(ns) + |n.connections|
  {
    var last := |ns| - 1;
    if k < last {
      assert ns[k := n][..last] == ns[..last][k := n];
      DegreeSumUpdate(ns[..last], k, n);
    } else {
      assert ns[k := n][..last] == ns[..last];
    }
  }

  lemma SetConnectionsDegree(m: Maze, i: nat, conns: seq<nat>)
    requires i < |m.nodes|
    ensures DegreeSum(SetConnections(m, i, conns).nodes) + |m.nodes[i].connections| == DegreeSum(m.nodes) + |conns|
  {
    DegreeSumUpdate(m.nodes, i, m.nodes[i].(connections := conns));
  }

  /** Connecting two unconnected cells adds exactly one passage. */
  lemma ConnectDegree(m: Maze, a: nat, b: nat)
    requires ConnWf(m) && a < |m.nodes| && b < |m.nodes| && a != b && !Linked(m, a, b)
    ensures DegreeSum(Connect(m, a, b).nodes) == DegreeSum(m.nodes) + 2
  {
    var m1 := SetConnections(m, a, m.nodes[a].connections + [b]);
    SetConnectionsDegree(m, a, m.nodes[a].connections + [b]);
    SetConnectionsDegree(m1, b, m1.nodes[b].connections + [a]);
  }

  /** Disconnecting two connected cells removes exactly one passage. */
  lemma DisconnectDegree(m: Maze, a: nat, b: nat)
    requires ConnWf(m) && a < |m.nodes| && b < |m.nodes| && a != b && Linked(m, a, b)
    ensures DegreeSum(Disconnect(m, a, b).nodes) + 2 == DegreeSum(m.nodes)
  {
    RemoveNoDup(m.nodes[a].connections, b);
    RemoveNoDup(m.nodes[b].connections, a);
    var m1 := SetConnections(m, a, Remove(m.nodes[a].connections, b));
    SetConnectionsDegree(m, a, Remove(m.nodes[a].connections, b));
    SetConnectionsDegree(m1, b, Remove(m1.nodes[b].connections, a));
  }

  /** A maze without connections has no passages. */
  lemma NoLinksNoDegree(m: Maze)
    requires forall i: nat, j: nat :: !Linked(m, i, j)
    ensures DegreeSum(m.nodes) == 0
  {
    forall i | 0 <= i < |m.nodes|
      ensures m.nodes[i].connections == []
    {
      if m.nodes[i].connections != [] {
        assert Linked(m, i, m.nodes[i].connections[0]);
      }
    }
    NoLinksNoDegreeSeq(m.nodes);
  }

  lemma {:induction false} NoLinksNoDegreeSeq(ns: seq<Node>)
    requires forall i :: 0 <= i < |ns| ==> ns[i].connections == []
    ensures DegreeSum(ns) == 0
  {
    if ns != [] {
      NoLinksNoDegreeSeq(ns[..|ns| - 1]);
    }
  }

  /** A duplicate-free list is as long as the set of its entries. */
  lemma {:induction false} NoDupSize(s: seq<nat>)
    requires NoDup(s)
    ensures |set x: nat | x in s| == |s|
  {
    if s != [] {
      var t, last := s[..|s| - 1], s[|s| - 1];
      var a, b := set x: nat | x in t, set x: nat | x in s;
      assert b == a + {last};
      assert last !in a;
      assert NoDup(t);
      NoDupSize(t);
    }
  }

  lemma {:induction false} SameDegreeSeq(a: seq<Node>, b: seq<Node>)
    requires |a| == |b|
    requires forall k :: 0 <= k < |a| ==> |a[k].connections| == |b[k].connections|
    ensures DegreeSum(a) == DegreeSum(b)
  {
    if a != [] {
      SameDegreeSeq(a[..|a| - 1], b[..|b| - 1]);
    }
  }

  /** The passage count depends only on which cells are connected: two
      well-formed mazes of the same size with the same connections list
      the same number of them. */
  lemma SameLinksSameDegree(m: Maze, r: Maze)
    requires ConnWf(m) && ConnWf(r) && |m.nodes| == |r.nodes|
    requires forall i: nat, j: nat :: Linked(m, i, j) <==> Linked(r, i, j)
    ensures DegreeSum(m.nodes) == DegreeSum(r.nodes)
  {
    forall k | 0 <= k < |m.nodes|
      ensures |m.nodes[k].connections| == |r.nodes[k].connections|
    {
      var a, b := m.nodes[k].connections, r.nodes[k].connections;
      assert (set x: nat | x in a) == (set x: nat | x in b) by {
        forall x: nat
          ensures x in a <==> x in b
        {
          assert Linked(m, k, x) <==> Linked(r, k, x);
        }
      }
      NoDupSize(a);
      NoDupSize(b);
    }
    SameDegreeSeq(m.nodes, r.nodes);
  }

  /** The maze with every connection list emptied. */
  function Cleared(m: Maze): (r: Maze)
    ensures |r.nodes| == |m.nodes| && ConnWf(r) && NoLinks(r)
  {
    m.(nodes := seq(|m.nodes|, k requires 0 <= k < |m.nodes| => m.nodes[k].(connections := [])))
  }

  /** Each pair of a list of node pairs is in range, joins two different
      cells, and no passage is listed twice in either orientation. */
  ghost predicate DistinctPairs(pairs: seq<(nat, nat)>, count: nat)
  {
    && (forall d :: 0 <= d < |pairs| ==> pairs[d].0 < count && pairs[d].1 < count && pairs[d].0 != pairs[d].1)
    && (forall d, e :: 0 <= d < e < |pairs| ==> !Listed([pairs[d]], pairs[e].0, pairs[e].1))
  }

  /** Every pair of the list connected in turn. */
  ghost function ConnectAll(m: Maze, pairs: seq<(nat, nat)>): (r: Maze)
    requires DistinctPairs(pairs, |m.nodes|)
    ensures |r.nodes| == |m.nodes|
  {
    if pairs == [] then m
    else
      var p := pairs[|pairs| - 1];
      Connect(ConnectAll(m, pairs[..|pairs| - 1]), p.0, p.1)
  }

  /** Connecting distinct pairs one after another, starting from no
      passages, gives exactly those passages, one per pair. */
  lemma {:induction false} ConnectAllCount(m: Maze, pairs: seq<(nat, nat)>)
    requires ConnWf(m) && NoLinks(m) && DistinctPairs(pairs, |m.nodes|)
    ensures ConnWf(ConnectAll(m, pairs))
    ensures forall i: nat, j: nat :: Linked(ConnectAll(m, pairs), i, j) <==> Listed(pairs, i, j)
    ensures DegreeSum(ConnectAll(m, pairs).nodes) == 2 * |pairs|
  {
    if pairs == [] {
      NoLinksNoDegree(m);
    } else {
      var front := pairs[..|pairs| - 1];
      assert DistinctPairs(front, |m.nodes|);
      ConnectAllCount(m, front);
      ConnectAllStep(ConnectAll(m, front), pairs);
    }
  }

  /** The last pair is new: connecting it adds one passage. */
  lemma ConnectAllStep(before: Maze, pairs: seq<(nat, nat)>)
    requires pairs != [] && DistinctPairs(pairs, |before.nodes|) && ConnWf(before)
    requires forall i: nat, j: nat :: Linked(before, i, j) <==> Listed(pairs[..|pairs| - 1], i, j)
    ensures var p := pairs[|pairs| - 1];
      && ConnWf(Connect(before, p.0, p.1))
      && (forall i: nat, j: nat :: Linked(Connect(before, p.0, p.1), i, j) <==> Listed(pairs, i, j))
      && DegreeSum(Connect(before, p.0, p.1).nodes) == DegreeSum(before.nodes) + 2
  {
    var front, p := pairs[..|pairs| - 1], pairs[|pairs| - 1];
    assert pairs == front + [p];
    forall d | 0 <= d < |front|
      ensures front[d] != (p.0, p.1) && front[d] != (p.1, p.0)
    {
      assert !Listed([pairs[d]], pairs[|pairs| - 1].0, pairs[|pairs| - 1].1);
    }
    ConnectWf(before, p.0, p.1);
    ConnectDegree(before, p.0, p.1);
  }

  /** A well-formed maze whose passages are exactly a list of distinct
      pairs has one passage per pair. */
  lemma PassagesOfPairs(r: Maze, pairs: seq<(nat, nat)>)
    requires ConnWf(r) && DistinctPairs(pairs, |r.nodes|)
    requires forall i: nat, j: nat :: Linked(r, i, j) <==> Listed(pairs, i, j)
    ensures EdgeCount(r) == |pairs|
  {
    var e := Cleared(r);
    ConnectAllCount(e, pairs);
    SameLinksSameDegree(r, ConnectAll(e, pairs));
  }

  // ---------------------------------------------------------------------
  // Single-passage steps, seen through their contracts only

  /** `r` is `m` on the same grid, still well formed. */
  ghost predicate SameGrid(m: Maze, r: Maze)
  {
    && Valid(r) && r.width == m.width && r.height == m.height && |r.nodes| == |m.nodes|
    && (forall k :: 0 <= k < |m.nodes| ==> Skeleton(r.nodes[k]) == Skeleton(m.nodes[k]))
  }

  /** `(i, j)` or `(j, i)` is one of the pairs. */
  predicate Listed(pairs: seq<(nat, nat)>, i: nat, j: nat)
  {
    (i, j) in pairs || (j, i) in pairs
  }

  /** `a.disconnect(b)` as one step: only that passage goes. */
  method DisconnectPair(m: Maze, a: nat, b: nat) returns (r: Maze)
    requires ConnWf(m) && a < |m.nodes| && b < |m.nodes| && a != b
    ensures r.width == m.width && r.height == m.height && |r.nodes| == |m.nodes|
    ensures forall k :: 0 <= k < |m.nodes| ==> Skeleton(r.nodes[k]) == Skeleton(m.nodes[k])
    ensures ConnWf(r)
    ensures forall i: nat, j: nat :: Linked(r, i, j) <==> Linked(m, i, j) && !Listed([(a, b)], i, j)
  {
    DisconnectWf(m, a, b);
    r := Disconnect(m, a, b);
  }

  /** `a.connect(b)` between two different cells as one step: only that
      passage is added. */
  method ConnectPair(m: Maze, a: nat, b: nat) returns (r: Maze)
    requires ConnWf(m) && a < |m.nodes| && b < |m.nodes| && a != b
    ensures r.width == m.width && r.height == m.height && |r.nodes| == |m.nodes|
    ensures forall k :: 0 <= k < |m.nodes| ==> Skeleton(r.nodes[k]) == Skeleton(m.nodes[k])
    ensures ConnWf(r)
    ensures forall i: nat, j: nat :: Linked(r, i, j) <==> Linked(m, i, j) || Listed([(a, b)], i, j)
  {
    ConnectWf(m, a, b);
    r := Connect(m, a, b);
  }

  /** Changing only connections keeps a maze shaped. */
  lemma KeepShape(m: Maze, r: Maze)
    requires Shaped(m) && r.width == m.width && r.height == m.height && |r.nodes| == |m.nodes|
    requires forall k :: 0 <= k < |m.nodes| ==> Skeleton(r.nodes[k]) == Skeleton(m.nodes[k])
    ensures Shaped(r)
  {
    forall k | 0 <= k < |r.nodes|
      ensures Skeleton(r.nodes[k]) == CellSkeleton(r.width, r.height, k)
    {
      assert Skeleton(r.nodes[k]) == Skeleton(m.nodes[k]);
    }
  }

  lemma SameGridTrans(a: Maze, b: Maze, c: Maze)
    requires SameGrid(a, b) && SameGrid(b, c)
    ensures SameGrid(a, c)
  {
  }
}
