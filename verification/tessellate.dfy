/** `TessellateGenerator` (ts/maze/generators/tesselate.ts). A filled block
    in the top-left corner starts as the single cell (0, 0). Each round copies
    the block's passages next to it along one axis, joins the block and its
    copy through one random seam, and doubles the block along that axis,
    clamped to the maze. The axis alternates while both dimensions are
    unfilled. The run stops once the block covers the maze. */
module Tessellate {
  import opened Grid
  import opened Mazes
  import opened Draws
  import opened Wrappers
  import opened Graphs
  import opened Forests

  // ---------------------------------------------------------------------
  // The filled block and the axis to copy along

  datatype Axis = AlongX | AlongY

  /** The width and height of the filled block. */
  datatype Dims = Dims(x: nat, y: nat)

  /** The generator's fields: the axis of the next copy (`"x"` at first)
      and the filled block, absent before `generate` starts. */
  datatype State = State(dimensionToCopy: Axis, filled: Option<Dims>)

  /** A generator as constructed: copying along x, nothing filled yet. */
  function Initial(): (s: State)
    ensures s.dimensionToCopy == AlongX && s.filled.None?
  {
    State(AlongX, None)
  }

  /** `generate`'s first step: the block is the single cell (0, 0). */
  function Start(s: State): (s': State)
    ensures s'.filled == Some(Dims(1, 1)) && s'.dimensionToCopy == s.dimensionToCopy
  {
    s.(filled := Some(Dims(1, 1)))
  }

  /** `sizeAfterCopying`: the block doubled along the axis to copy, or
      nothing before the run starts. */
  function SizeAfterCopying(s: State): (r: Option<Dims>)
    ensures r.None? <==> s.filled.None?
    ensures r.Some? && s.dimensionToCopy == AlongX ==> r.value == Dims(2 * s.filled.value.x, s.filled.value.y)
    ensures r.Some? && s.dimensionToCopy == AlongY ==> r.value == Dims(s.filled.value.x, 2 * s.filled.value.y)
  {
    match s.filled
    case None => None
    case Some(d) =>
      if s.dimensionToCopy == AlongX then Some(Dims(d.x * 2, d.y)) else Some(Dims(d.x, d.y * 2))
  }

  function Min(a: nat, b: nat): nat
  {
    if a <= b then a else b
  }

  /** The end of a round: the doubled block, clamped to the maze, then the
      exit test and the choice of the next axis. */
  function EndRound(s: State, width: nat, height: nat): (r: (State, bool))
    requires s.filled.Some?
  {
    var d := SizeAfterCopying(s).value;
    var filled := Dims(Min(d.x, width), Min(d.y, height));
    var hasFilledWidth := filled.x == width;
    var hasFilledHeight := filled.y == height;
    var axis :=
      if hasFilledWidth && hasFilledHeight then s.dimensionToCopy
      else if hasFilledWidth then AlongY
      else if hasFilledHeight then AlongX
      else if s.dimensionToCopy == AlongX then AlongY else AlongX;
    (State(axis, Some(filled)), hasFilledWidth && hasFilledHeight)
  }

  /** The state between rounds: a non-empty block inside the maze, and the
      next copy goes along an axis the block does not fill yet. */
  ghost predicate RoundReady(s: State, width: nat, height: nat)
  {
    && s.filled.Some?
    && 1 <= s.filled.value.x <= width && 1 <= s.filled.value.y <= height
    && (s.dimensionToCopy == AlongX ==> s.filled.value.x < width)
    && (s.dimensionToCopy == AlongY ==> s.filled.value.y < height)
  }

  /** How many doublings take a side of length `f` to at least `n`. */
  function Doublings(f: nat, n: nat): nat
    requires f >= 1
    decreases n - f
  {
    if f >= n then 0 else 1 + Doublings(2 * f, n)
  }

  /** The rounds still to go: the doublings both sides still need. */
  function RoundsLeft(s: State, width: nat, height: nat): nat
    requires RoundReady(s, width, height)
  {
    Doublings(s.filled.value.x, width) + Doublings(s.filled.value.y, height)
  }

  /** Clamping after doubling does not change the doublings still needed. */
  lemma DoublingsClamped(f: nat, n: nat)
    requires 1 <= f < n
    ensures Doublings(Min(2 * f, n), n) == Doublings(f, n) - 1
  {
  }

  /** A round grows the block along the axis it copied, keeps it inside the
      maze, and leaves exactly one round fewer to go. It stops exactly when
      the block fills the maze; otherwise the next axis is an unfilled one,
      the other axis whenever both are unfilled. */
  lemma EndRoundSpec(s: State, width: nat, height: nat)
    requires RoundReady(s, width, height)
    ensures var (s', done) := EndRound(s, width, height);
      var d, d' := s.filled.value, s'.filled.value;
      && (s.dimensionToCopy == AlongX ==> d'.x == Min(2 * d.x, width) && d'.x > d.x && d'.y == d.y)
      && (s.dimensionToCopy == AlongY ==> d'.y == Min(2 * d.y, height) && d'.y > d.y && d'.x == d.x)
      && (done <==> d'.x == width && d'.y == height)
      && (!done ==> RoundReady(s', width, height) && RoundsLeft(s', width, height) + 1 == RoundsLeft(s, width, height))
      && (done ==> RoundsLeft(s, width, height) == 1)
      && (d'.x < width && d'.y < height ==> s'.dimensionToCopy != s.dimensionToCopy)
  {
    var d := s.filled.value;
    if s.dimensionToCopy == AlongX {
      DoublingsClamped(d.x, width);
    } else {
      DoublingsClamped(d.y, height);
    }
  }

  // ---------------------------------------------------------------------
  // Geometry of a copy

  /** Cell `k` lies in the filled block of `bw` columns and `bh` rows. */
  predicate InBlock(width: nat, bw: nat, bh: nat, k: nat)
    requires width > 0
  {
    X(width, k) < bw && Y(width, k) < bh
  }

  /** How far, in cell indices, a copy moves a cell: `bw` columns to the
      right, or `bh` rows down. */
  function Delta(width: nat, bw: nat, bh: nat, axis: Axis): nat
  {
    if axis == AlongX then bw else bh * width
  }

  /** Cell `k` is a cell of the maze in the copy of the block: right of it
      along x, below it along y. */
  predicate InCopy(width: nat, height: nat, bw: nat, bh: nat, axis: Axis, k: nat)
    requires width > 0
  {
    && k < width * height
    && (axis == AlongX ==> bw <= X(width, k) < 2 * bw && Y(width, k) < bh)
    && (axis == AlongY ==> X(width, k) < bw && bh <= Y(width, k) < 2 * bh)
  }

  /** `(dx, dy)`: where cell `j` lies as seen from cell `i`. */
  function Offset(width: nat, i: nat, j: nat): (int, int)
    requires width > 0
  {
    (X(width, j) as int - X(width, i) as int, Y(width, j) as int - Y(width, i) as int)
  }

  /** `copySection`'s target for a block cell: moved by `Delta`, and a cell
      of the copy exactly when the moved coordinates stay inside the maze
      (otherwise the source skips it). */
  lemma Shifted(width: nat, height: nat, bw: nat, bh: nat, axis: Axis, k: nat)
    requires width > 0 && bw <= width && bh <= height && InBlock(width, bw, bh, k)
    ensures var n := k + Delta(width, bw, bh, axis);
      && (axis == AlongX ==> (InCopy(width, height, bw, bh, axis, n) <==> X(width, k) + bw < width))
      && (axis == AlongY ==> (InCopy(width, height, bw, bh, axis, n) <==> Y(width, k) + bh < height))
      && (InCopy(width, height, bw, bh, axis, n) ==>
            && X(width, n) == X(width, k) + (if axis == AlongX then bw else 0)
            && Y(width, n) == Y(width, k) + (if axis == AlongY then bh else 0))
  {
    if axis == AlongX {
      ShiftedX(width, height, bw, bh, k);
    } else {
      ShiftedY(width, height, bw, bh, k);
    }
  }

  lemma ShiftedX(width: nat, height: nat, bw: nat, bh: nat, k: nat)
    requires width > 0 && bw <= width && bh <= height && InBlock(width, bw, bh, k)
    ensures InCopy(width, height, bw, bh, AlongX, k + bw) <==> X(width, k) + bw < width
    ensures InCopy(width, height, bw, bh, AlongX, k + bw) ==>
              X(width, k + bw) == X(width, k) + bw && Y(width, k + bw) == Y(width, k)
  {
    var x, y := X(width, k), Y(width, k);
    assert k == y * width + x;
    if x + bw < width {
      CoordsOfIndex(width, x + bw, y);
      IndexInRange(width, height, x + bw, y);
    } else {
      assert k + bw == (y + 1) * width + (x + bw - width);
      CoordsOfIndex(width, x + bw - width, y + 1);
    }
  }

  lemma ShiftedY(width: nat, height: nat, bw: nat, bh: nat, k: nat)
    requires width > 0 && bw <= width && bh <= height && InBlock(width, bw, bh, k)
    ensures InCopy(width, height, bw, bh, AlongY, k + bh * width) <==> Y(width, k) + bh < height
    ensures X(width, k + bh * width) == X(width, k) && Y(width, k + bh * width) == Y(width, k) + bh
  {
    var x, y := X(width, k), Y(width, k);
    assert k == y * width + x;
    assert k + bh * width == (y + bh) * width + x;
    CoordsOfIndex(width, x, y + bh);
    if y + bh < height {
      IndexInRange(width, height, x, y + bh);
    } else {
      RowsFit(width, y + bh + 1, height);
    }
  }

  /** Every cell of the copy is the target of a block cell. */
  lemma CopySource(width: nat, height: nat, bw: nat, bh: nat, axis: Axis, n: nat)
    requires width > 0 && bw <= width && bh <= height && InCopy(width, height, bw, bh, axis, n)
    ensures n >= Delta(width, bw, bh, axis)
    ensures InBlock(width, bw, bh, n - Delta(width, bw, bh, axis))
  {
    var x, y := X(width, n), Y(width, n);
    assert n == y * width + x;
    if axis == AlongX {
      CoordsOfIndex(width, x - bw, y);
    } else {
      assert n - bh * width == (y - bh) * width + x;
      CoordsOfIndex(width, x, y - bh);
    }
  }

  /** Block cells `e` and `c` are neighbours, and `n`, the copy of `e`, is a
      cell of the maze. */
  predicate ShiftCase(width: nat, height: nat, bw: nat, bh: nat, axis: Axis, e: nat, c: nat, n: nat)
  {
    && width > 0 && bw <= width && bh <= height && e < width * height
    && InBlock(width, bw, bh, e) && InBlock(width, bw, bh, c)
    && c in NeighborsOf(width, height, e)
    && n == e + Delta(width, bw, bh, axis) && InCopy(width, height, bw, bh, axis, n)
  }

  /** The neighbour of the copied cell in the direction of a passage of its
      source: it exists exactly when the source's partner has a copy, and
      then it is that copy. */
  lemma ShiftNeighbor(width: nat, height: nat, bw: nat, bh: nat, axis: Axis, e: nat, c: nat, n: nat)
    requires ShiftCase(width, height, bw, bh, axis, e, c, n)
    ensures var c' := c + Delta(width, bw, bh, axis);
      InCopy(width, height, bw, bh, axis, c') ==>
        c' in NeighborsOf(width, height, n) && Offset(width, n, c') == Offset(width, e, c)
    ensures forall k :: k in NeighborsOf(width, height, n) && Offset(width, n, k) == Offset(width, e, c) ==>
              k == c + Delta(width, bw, bh, axis) && InCopy(width, height, bw, bh, axis, k)
  {
    var d := Delta(width, bw, bh, axis);
    NeighborsSpec(width, height, e);
    NeighborsSpec(width, height, n);
    Shifted(width, height, bw, bh, axis, e);
    Shifted(width, height, bw, bh, axis, c);
    IndexOfCoords(width, height, c);
    forall k | k in NeighborsOf(width, height, n) && Offset(width, n, k) == Offset(width, e, c)
      ensures k == c + d && InCopy(width, height, bw, bh, axis, c + d)
    {
      IndexOfCoords(width, height, k);
      assert InCopy(width, height, bw, bh, axis, c + d);
      IndexOfCoords(width, height, c + d);
    }
  }

  // ---------------------------------------------------------------------
  // Copying one cell

  /** The inner search of `copySection`: the first of `ks` lying in
      direction `off` from cell `n`, if any. */
  function FirstInDirection(width: nat, ks: seq<nat>, n: nat, off: (int, int)): (r: Option<nat>)
    requires width > 0
    ensures r.Some? ==> r.value in ks && Offset(width, n, r.value) == off
    ensures r.None? ==> forall k :: k in ks ==> Offset(width, n, k) != off
  {
    if ks == [] then None
    else if Offset(width, n, ks[0]) == off then Some(ks[0])
    else FirstInDirection(width, ks[1..], n, off)
  }

  /** Every passage joins two neighbours. */
  ghost predicate Adjacency(m: Maze)
  {
    forall a: nat, b: nat :: Linked(m, a, b) ==> a < |m.nodes| && b in m.nodes[a].neighbors
  }

  /** Every passage joins two cells of the block. */
  ghost predicate Within(m: Maze, bw: nat, bh: nat)
    requires m.width > 0
  {
    forall i: nat, j: nat :: Linked(m, i, j) ==> InBlock(m.width, bw, bh, i) && InBlock(m.width, bw, bh, j)
  }

  /** A copy of a `bw` by `bh` block inside the maze, along `axis`. */
  datatype Copy = Copy(bw: nat, bh: nat, axis: Axis)

  ghost predicate Fits(m: Maze, f: Copy)
  {
    Valid(m) && 1 <= f.bw <= m.width && 1 <= f.bh <= m.height
  }

  /** The passage `i`-`j` is the copy of a passage of the block in `m`: both
      ends are cells of the copy, and their sources are joined in `m`. */
  ghost predicate CopiedLink(m: Maze, f: Copy, i: nat, j: nat)
    requires m.width > 0
  {
    var d := Delta(m.width, f.bw, f.bh, f.axis);
    && InCopy(m.width, m.height, f.bw, f.bh, f.axis, i) && InCopy(m.width, m.height, f.bw, f.bh, f.axis, j)
    && i >= d && j >= d && Linked(m, i - d, j - d)
  }

  /** What the loop over one connection list has done so far: the cells in
      `added` are the copies of the source's partners seen so far that fall
      inside the maze, and each is now joined to the copied cell `n`. */
  ghost predicate CellSoFar(m0: Maze, f: Copy, r: Maze, r': Maze, e: nat, n: nat,
                            conns: seq<nat>, added: set<nat>, p: nat)
    requires m0.width > 0
  {
    var d := Delta(m0.width, f.bw, f.bh, f.axis);
    && p <= |conns|
    && SameGrid(r, r') && Adjacency(r')
    && (forall k :: k in added ==> CopiedLink(m0, f, n, k))
    && (forall q :: 0 <= q < p && InCopy(m0.width, m0.height, f.bw, f.bh, f.axis, conns[q] + d) ==> conns[q] + d in added)
    && (forall i: nat, j: nat :: Linked(r', i, j) <==> Linked(r, i, j) || (i == n && j in added) || (j == n && i in added))
  }

  /** Joining two neighbours keeps every passage between neighbours. */
  lemma AdjacencyConnect(m: Maze, r: Maze, a: nat, b: nat)
    requires Adjacency(m) && |r.nodes| == |m.nodes| && a < |m.nodes| && b < |m.nodes|
    requires forall k :: 0 <= k < |m.nodes| ==> Skeleton(r.nodes[k]) == Skeleton(m.nodes[k])
    requires b in m.nodes[a].neighbors && a in m.nodes[b].neighbors
    requires forall i: nat, j: nat :: Linked(r, i, j) ==> Linked(m, i, j) || (i == a && j == b) || (i == b && j == a)
    ensures Adjacency(r)
  {
    forall i: nat, j: nat | Linked(r, i, j)
      ensures i < |r.nodes| && j in r.nodes[i].neighbors
    {
      assert Skeleton(r.nodes[i]) == Skeleton(m.nodes[i]);
    }
  }

  /** `a.connect(b)` for two neighbours: one passage more, and still only
      passages between neighbours. */
  method JoinNeighbors(m: Maze, a: nat, b: nat) returns (r: Maze)
    requires Valid(m) && Adjacency(m) && a < |m.nodes| && b in m.nodes[a].neighbors
    ensures SameGrid(m, r) && Adjacency(r)
    ensures forall i: nat, j: nat :: Linked(r, i, j) <==> Linked(m, i, j) || Listed([(a, b)], i, j)
  {
    ShapedNeighbors(m, a);
    r := ConnectPair(m, a, b);
    KeepShape(m, r);
    AdjacencyConnect(m, r, a, b);
  }

  /** The facts every pass over a connection list relies on. */
  ghost predicate NodeCopy(m0: Maze, f: Copy, r: Maze, e: nat, n: nat)
  {
    && Fits(m0, f) && Adjacency(m0) && Within(m0, f.bw, f.bh)
    && SameGrid(m0, r) && Adjacency(r)
    && e < |m0.nodes| && InBlock(m0.width, f.bw, f.bh, e)
    && n == e + Delta(m0.width, f.bw, f.bh, f.axis) && InCopy(m0.width, m0.height, f.bw, f.bh, f.axis, n)
    && (forall c: nat :: Linked(r, e, c) <==> Linked(m0, e, c))
  }

  /** One connection of the source cell: find the copied cell's neighbour in
      the same direction and, if there is one, connect to it. */
  method CellPass(ghost m0: Maze, f: Copy, ghost r: Maze, r1: Maze, e: nat, n: nat, conns: seq<nat>,
                  ghost added: set<nat>, p: nat)
    returns (r2: Maze, ghost added': set<nat>)
    requires NodeCopy(m0, f, r, e, n) && conns == r.nodes[e].connections
    requires CellSoFar(m0, f, r, r1, e, n, conns, added, p) && p < |conns|
    ensures CellSoFar(m0, f, r, r2, e, n, conns, added', p + 1)
  {
    var w := r1.width;
    var c := conns[p];
    PassFacts(m0, f, r, r1, e, n, c);
    Direction(m0, f, e, n, c);
    match FirstInDirection(w, r1.nodes[n].neighbors, n, Offset(w, e, c))
    case Some(k) =>
      r2 := JoinNeighbors(r1, n, k);
      added' := added + {k};
      CellStepJoin(m0, f, r, r1, r2, e, n, conns, added, p, k);
    case None =>
      r2, added' := r1, added;
      CellStepSkip(m0, f, r, r1, e, n, conns, added, p);
  }

  /** What a pass needs to know about the source's partner `c` and the
      copied cell `n`. */
  lemma PassFacts(m0: Maze, f: Copy, r: Maze, r1: Maze, e: nat, n: nat, c: nat)
    requires NodeCopy(m0, f, r, e, n) && SameGrid(r, r1) && Linked(r, e, c)
    ensures Linked(m0, e, c) && e < m0.width * m0.height && InBlock(m0.width, f.bw, f.bh, c)
    ensures c in NeighborsOf(m0.width, m0.height, e)
    ensures n < |r1.nodes| && ConnWf(r1) && r1.width == m0.width && r1.height == m0.height
    ensures r1.nodes[n].neighbors == NeighborsOf(m0.width, m0.height, n)
  {
    assert Linked(m0, e, c);
    ShapedNeighbors(m0, e);
    ShapedNeighbors(r1, n);
  }

  /** The search from the copied cell `n` in the direction of the source's
      partner `c` finds the copy of `c` exactly when that copy is a cell of
      the maze, and then the copy joins `n` in a copied passage. */
  lemma Direction(m0: Maze, f: Copy, e: nat, n: nat, c: nat)
    requires ShiftCase(m0.width, m0.height, f.bw, f.bh, f.axis, e, c, n) && Linked(m0, e, c)
    ensures var d := Delta(m0.width, f.bw, f.bh, f.axis);
      var found := FirstInDirection(m0.width, NeighborsOf(m0.width, m0.height, n), n, Offset(m0.width, e, c));
      && (found.Some? ==> found.value == c + d && CopiedLink(m0, f, n, found.value))
      && (found.None? ==> !InCopy(m0.width, m0.height, f.bw, f.bh, f.axis, c + d))
  {
    var d := Delta(m0.width, f.bw, f.bh, f.axis);
    var ks := NeighborsOf(m0.width, m0.height, n);
    var off := Offset(m0.width, e, c);
    ShiftNeighbor(m0.width, m0.height, f.bw, f.bh, f.axis, e, c, n);
    var found := FirstInDirection(m0.width, ks, n, off);
    if found.Some? {
      var k := found.value;
      assert k in ks && Offset(m0.width, n, k) == off;
      assert k == c + d;
      CopiedOf(m0, f, e, c, n);
    }
  }

  /** The copy of a passage of the block, seen from the copied cell. */
  lemma CopiedOf(m0: Maze, f: Copy, e: nat, c: nat, n: nat)
    requires m0.width > 0 && Linked(m0, e, c)
    requires n == e + Delta(m0.width, f.bw, f.bh, f.axis)
    requires InCopy(m0.width, m0.height, f.bw, f.bh, f.axis, n)
    requires InCopy(m0.width, m0.height, f.bw, f.bh, f.axis, c + Delta(m0.width, f.bw, f.bh, f.axis))
    ensures CopiedLink(m0, f, n, c + Delta(m0.width, f.bw, f.bh, f.axis))
  {
  }

  lemma CellStepSkip(m0: Maze, f: Copy, r: Maze, r1: Maze, e: nat, n: nat, conns: seq<nat>, added: set<nat>, p: nat)
    requires m0.width > 0 && CellSoFar(m0, f, r, r1, e, n, conns, added, p) && p < |conns|
    requires !InCopy(m0.width, m0.height, f.bw, f.bh, f.axis, conns[p] + Delta(m0.width, f.bw, f.bh, f.axis))
    ensures CellSoFar(m0, f, r, r1, e, n, conns, added, p + 1)
  {
  }

  lemma CellStepJoin(m0: Maze, f: Copy, r: Maze, r1: Maze, r2: Maze, e: nat, n: nat, conns: seq<nat>,
                     added: set<nat>, p: nat, k: nat)
    requires m0.width > 0 && CellSoFar(m0, f, r, r1, e, n, conns, added, p) && p < |conns|
    requires k == conns[p] + Delta(m0.width, f.bw, f.bh, f.axis) && CopiedLink(m0, f, n, k)
    requires SameGrid(r1, r2) && Adjacency(r2)
    requires forall i: nat, j: nat :: Linked(r2, i, j) <==> Linked(r1, i, j) || Listed([(n, k)], i, j)
    ensures CellSoFar(m0, f, r, r2, e, n, conns, added + {k}, p + 1)
  {
    SameGridTrans(r, r1, r2);
    var d := Delta(m0.width, f.bw, f.bh, f.axis);
    var added' := added + {k};
    forall q | 0 <= q < p + 1 && InCopy(m0.width, m0.height, f.bw, f.bh, f.axis, conns[q] + d)
      ensures conns[q] + d in added'
    {
      if q < p {
        assert conns[q] + d in added;
      }
    }
    forall i: nat, j: nat
      ensures Linked(r2, i, j) <==> Linked(r, i, j) || (i == n && j in added') || (j == n && i in added')
    {
      assert Linked(r2, i, j) <==> Linked(r1, i, j) || Listed([(n, k)], i, j);
      assert Listed([(n, k)], i, j) <==> (i == n && j == k) || (i == k && j == n);
    }
  }

  /** The passages of `r'` are those of `r` and the copies of the block's
      passages that end at the copied cell `n`. */
  ghost predicate CellCopied(m0: Maze, f: Copy, r: Maze, r': Maze, n: nat)
    requires m0.width > 0
  {
    && SameGrid(r, r') && Adjacency(r')
    && forall i: nat, j: nat :: Linked(r', i, j) <==> Linked(r, i, j) || ((i == n || j == n) && CopiedLink(m0, f, i, j))
  }

  /** The body of `copySection` for a block cell `e` whose copy `n` is a
      cell of the maze: connect `n` the way `e` is connected. */
  method CopyCell(ghost m0: Maze, f: Copy, r: Maze, e: nat, n: nat) returns (r': Maze)
    requires NodeCopy(m0, f, r, e, n)
    ensures CellCopied(m0, f, r, r', n)
  {
    var conns := r.nodes[e].connections;
    r' := r;
    ghost var added: set<nat> := {};
    var p := 0;
    while p < |conns|
      invariant CellSoFar(m0, f, r, r', e, n, conns, added, p)
    {
      r', added := CellPass(m0, f, r, r', e, n, conns, added, p);
      p := p + 1;
    }
    CellDone(m0, f, r, r', e, n, added);
  }

  /** After the whole connection list, the cells joined to `n` are exactly
      the copies of `e`'s partners: the copied passages at `n`. */
  lemma CellDone(m0: Maze, f: Copy, r: Maze, r': Maze, e: nat, n: nat, added: set<nat>)
    requires NodeCopy(m0, f, r, e, n)
    requires CellSoFar(m0, f, r, r', e, n, r.nodes[e].connections, added, |r.nodes[e].connections|)
    ensures CellCopied(m0, f, r, r', n)
  {
    AddedExactly(m0, f, r, e, n, r.nodes[e].connections, added);
    forall i: nat, j: nat
      ensures Linked(r', i, j) <==> Linked(r, i, j) || ((i == n || j == n) && CopiedLink(m0, f, i, j))
    {
      CellDonePair(m0, f, r, r', n, added, i, j);
    }
  }

  /** One pair after the loop: joined at `n` exactly by a copied passage. */
  lemma CellDonePair(m0: Maze, f: Copy, r: Maze, r': Maze, n: nat, added: set<nat>, i: nat, j: nat)
    requires m0.width > 0 && ConnWf(m0)
    requires Linked(r', i, j) <==> Linked(r, i, j) || (i == n && j in added) || (j == n && i in added)
    requires i in added <==> CopiedLink(m0, f, n, i)
    requires j in added <==> CopiedLink(m0, f, n, j)
    ensures Linked(r', i, j) <==> Linked(r, i, j) || ((i == n || j == n) && CopiedLink(m0, f, i, j))
  {
    if CopiedLink(m0, f, i, j) {
      CopiedSymmetric(m0, f, i, j);
    }
    if CopiedLink(m0, f, j, i) {
      CopiedSymmetric(m0, f, j, i);
    }
  }

  /** The cells the loop joined to `n` are the copies of `e`'s partners. */
  lemma AddedExactly(m0: Maze, f: Copy, r: Maze, e: nat, n: nat, conns: seq<nat>, added: set<nat>)
    requires m0.width > 0 && e < |r.nodes| && conns == r.nodes[e].connections
    requires n == e + Delta(m0.width, f.bw, f.bh, f.axis)
    requires forall c: nat :: Linked(r, e, c) <==> Linked(m0, e, c)
    requires forall k :: k in added ==> CopiedLink(m0, f, n, k)
    requires forall q :: 0 <= q < |conns| && InCopy(m0.width, m0.height, f.bw, f.bh, f.axis, conns[q] + Delta(m0.width, f.bw, f.bh, f.axis)) ==>
               conns[q] + Delta(m0.width, f.bw, f.bh, f.axis) in added
    ensures forall k: nat :: k in added <==> CopiedLink(m0, f, n, k)
  {
    forall k: nat | CopiedLink(m0, f, n, k)
      ensures k in added
    {
      AddedOne(m0, f, r, e, n, conns, added, k);
    }
  }

  /** One copied passage at `n`: its source is a connection of `e`, which
      the loop reached. */
  lemma AddedOne(m0: Maze, f: Copy, r: Maze, e: nat, n: nat, conns: seq<nat>, added: set<nat>, k: nat)
    requires m0.width > 0 && e < |r.nodes| && conns == r.nodes[e].connections
    requires n == e + Delta(m0.width, f.bw, f.bh, f.axis) && CopiedLink(m0, f, n, k)
    requires Linked(m0, e, k - Delta(m0.width, f.bw, f.bh, f.axis)) ==> Linked(r, e, k - Delta(m0.width, f.bw, f.bh, f.axis))
    requires forall q :: 0 <= q < |conns| && InCopy(m0.width, m0.height, f.bw, f.bh, f.axis, conns[q] + Delta(m0.width, f.bw, f.bh, f.axis)) ==>
               conns[q] + Delta(m0.width, f.bw, f.bh, f.axis) in added
    ensures k in added
  {
    var d := Delta(m0.width, f.bw, f.bh, f.axis);
    var c: nat := k - d;
    assert c in conns;
    var q :| 0 <= q < |conns| && conns[q] == c;
    assert conns[q] + d == k;
  }

  /** Copies of passages run both ways, like the passages. */
  lemma CopiedSymmetric(m0: Maze, f: Copy, i: nat, j: nat)
    requires m0.width > 0 && ConnWf(m0) && CopiedLink(m0, f, i, j)
    ensures CopiedLink(m0, f, j, i)
  {
  }

  // ---------------------------------------------------------------------
  // Copying the block

  /** What `copySection` has done before the block cell with index `pos`:
      exactly the copies of the passages at the block cells visited so far.
      The loops visit the block row by row, left to right, which is the
      order of the cell indices. */
  ghost predicate SectionSoFar(m: Maze, f: Copy, r: Maze, pos: nat)
    requires m.width > 0
  {
    SameGrid(m, r) && Adjacency(r) && SectionLinks(m, f, r, pos)
  }

  ghost predicate SectionLinks(m: Maze, f: Copy, r: Maze, pos: nat)
    requires m.width > 0
  {
    var d := Delta(m.width, f.bw, f.bh, f.axis);
    forall i: nat, j: nat :: Linked(r, i, j) <==>
      Linked(m, i, j) || (CopiedLink(m, f, i, j) && (i - d < pos || j - d < pos))
  }

  /** The pair `i`, `j` is joined in `r` exactly when it was in `m` or is
      the copy of a passage at a block cell before `pos`. */
  ghost predicate SectionLink(m: Maze, f: Copy, r: Maze, pos: nat, i: nat, j: nat)
    requires m.width > 0
  {
    var d := Delta(m.width, f.bw, f.bh, f.axis);
    Linked(r, i, j) <==> Linked(m, i, j) || (CopiedLink(m, f, i, j) && (i - d < pos || j - d < pos))
  }

  /** `copySection`: the maze gains exactly the copies of the block's
      passages that fall inside it. */
  method CopySection(m: Maze, f: Copy) returns (r: Maze)
    requires Fits(m, f) && Adjacency(m) && Within(m, f.bw, f.bh)
    ensures SameGrid(m, r) && Adjacency(r)
    ensures forall i: nat, j: nat :: Linked(r, i, j) <==> Linked(m, i, j) || CopiedLink(m, f, i, j)
  {
    r := m;
    StartSection(m, f);
    var y := 0;
    ghost var start := 0;
    while y < f.bh
      invariant y <= f.bh && start == y * m.width && SectionSoFar(m, f, r, start)
    {
      r := CopyRow(m, f, r, y, start);
      NextRow(m.width, y, start);
      y, start := y + 1, start + m.width;
    }
    SectionDone(m, f, r, start);
  }

  lemma StartSection(m: Maze, f: Copy)
    requires Fits(m, f) && Adjacency(m)
    ensures SectionSoFar(m, f, m, 0)
  {
  }

  /** The first cell of the next row. */
  lemma NextRow(width: nat, y: nat, start: nat)
    requires start == y * width
    ensures start + width == (y + 1) * width
  {
  }

  /** One row of the block: the inner loop of `copySection`. */
  method CopyRow(ghost m: Maze, f: Copy, r: Maze, y: nat, ghost start: nat) returns (r': Maze)
    requires Fits(m, f) && Adjacency(m) && Within(m, f.bw, f.bh)
    requires y < f.bh && start == y * m.width && SectionSoFar(m, f, r, start)
    ensures SectionSoFar(m, f, r', start + m.width)
  {
    r' := r;
    var x := 0;
    while x < f.bw
      invariant x <= f.bw && SectionSoFar(m, f, r', start + x)
    {
      r' := CopyAt(m, f, r', x, y, start);
      x := x + 1;
    }
    assert x == f.bw;
    RowDone(m, f, r', y, start);
  }

  /** One step of `copySection`'s loops: the bounds test, then the copy of
      one cell. */
  method CopyAt(ghost m: Maze, f: Copy, r: Maze, x: nat, y: nat, ghost start: nat) returns (r': Maze)
    requires Fits(m, f) && Adjacency(m) && Within(m, f.bw, f.bh)
    requires x < f.bw && y < f.bh && start == y * m.width && SectionSoFar(m, f, r, start + x)
    ensures SectionSoFar(m, f, r', start + (x + 1))
  {
    var nx, ny := x, y;
    if f.axis == AlongX {
      nx := nx + f.bw;
    } else {
      ny := ny + f.bh;
    }
    var e := CellIndex(r.width, x, y);
    assert r.width == m.width && r.height == m.height;
    assert e == start + x;
    Target(m, f, x, y, nx, ny);
    if nx >= r.width || ny >= r.height {
      r' := r;
      assert !InCopy(m.width, m.height, f.bw, f.bh, f.axis, e + Delta(m.width, f.bw, f.bh, f.axis));
      SkipAt(m, f, r, e, start + (x + 1));
    } else {
      var n := CellIndex(r.width, nx, ny);
      StartCell(m, f, r, e, n, e);
      r' := CopyCell(m, f, r, e, n);
      CopiedAt(m, f, r, r', e, n, start + (x + 1));
    }
  }

  /** The block cell (x, y) and its target (nx, ny): the target is inside
      the maze exactly when it is a cell of the copy, `Delta` cells on. */
  lemma Target(m: Maze, f: Copy, x: nat, y: nat, nx: nat, ny: nat)
    requires Fits(m, f) && x < f.bw && y < f.bh
    requires f.axis == AlongX ==> nx == x + f.bw && ny == y
    requires f.axis == AlongY ==> nx == x && ny == y + f.bh
    ensures var e := CellIndex(m.width, x, y);
      && e < |m.nodes| && InBlock(m.width, f.bw, f.bh, e)
      && (nx < m.width && ny < m.height <==> InCopy(m.width, m.height, f.bw, f.bh, f.axis, e + Delta(m.width, f.bw, f.bh, f.axis)))
      && (nx < m.width && ny < m.height ==> CellIndex(m.width, nx, ny) == e + Delta(m.width, f.bw, f.bh, f.axis))
  {
    var w := m.width;
    var e := CellIndex(w, x, y);
    CoordsOfIndex(w, x, y);
    IndexInRange(w, m.height, x, y);
    Shifted(w, m.height, f.bw, f.bh, f.axis, e);
    if f.axis == AlongY {
      assert CellIndex(w, nx, ny) == e + f.bh * w;
    }
  }

  /** Both ends of a copied passage are copies of block cells. */
  lemma CopiedFromBlock(m: Maze, f: Copy, i: nat, j: nat)
    requires m.width > 0 && f.bw <= m.width && f.bh <= m.height && CopiedLink(m, f, i, j)
    ensures var d := Delta(m.width, f.bw, f.bh, f.axis);
      InBlock(m.width, f.bw, f.bh, i - d) && InBlock(m.width, f.bw, f.bh, j - d)
  {
    CopySource(m.width, m.height, f.bw, f.bh, f.axis, i);
    CopySource(m.width, m.height, f.bw, f.bh, f.axis, j);
  }

  /** A block cell's passages are still the block's when its turn comes:
      no copied passage ends in the block. */
  lemma StartCell(m: Maze, f: Copy, r: Maze, e: nat, n: nat, pos: nat)
    requires Fits(m, f) && Adjacency(m) && Within(m, f.bw, f.bh) && SectionSoFar(m, f, r, pos)
    requires e < |m.nodes| && InBlock(m.width, f.bw, f.bh, e)
    requires n == e + Delta(m.width, f.bw, f.bh, f.axis) && InCopy(m.width, m.height, f.bw, f.bh, f.axis, n)
    ensures NodeCopy(m, f, r, e, n)
  {
    forall c: nat
      ensures Linked(r, e, c) <==> Linked(m, e, c)
    {
      assert SectionLink(m, f, r, pos, e, c);
      assert !InCopy(m.width, m.height, f.bw, f.bh, f.axis, e);
    }
  }

  /** A block cell whose copy falls outside the maze adds nothing. */
  lemma SkipAt(m: Maze, f: Copy, r: Maze, e: nat, next: nat)
    requires m.width > 0 && SectionLinks(m, f, r, e) && next == e + 1
    requires !InCopy(m.width, m.height, f.bw, f.bh, f.axis, e + Delta(m.width, f.bw, f.bh, f.axis))
    ensures SectionLinks(m, f, r, next)
  {
    var d := Delta(m.width, f.bw, f.bh, f.axis);
    forall i: nat, j: nat
      ensures Linked(r, i, j) <==> Linked(m, i, j) || (CopiedLink(m, f, i, j) && (i - d < next || j - d < next))
    {
      assert SectionLink(m, f, r, e, i, j);
      if CopiedLink(m, f, i, j) {
        assert i != e + d && j != e + d;
      }
    }
  }

  /** A copied cell adds the copies of its block cell's passages. */
  lemma CopiedAt(m: Maze, f: Copy, r: Maze, r': Maze, e: nat, n: nat, next: nat)
    requires m.width > 0 && SectionSoFar(m, f, r, e) && CellCopied(m, f, r, r', n)
    requires n == e + Delta(m.width, f.bw, f.bh, f.axis) && next == e + 1
    ensures SectionSoFar(m, f, r', next)
  {
    SameGridTrans(m, r, r');
    var d := Delta(m.width, f.bw, f.bh, f.axis);
    forall i: nat, j: nat
      ensures Linked(r', i, j) <==> Linked(m, i, j) || (CopiedLink(m, f, i, j) && (i - d < next || j - d < next))
    {
      assert SectionLink(m, f, r, e, i, j);
      if CopiedLink(m, f, i, j) && (i == n || j == n) {
        assert i - d == e || j - d == e;
      }
      if CopiedLink(m, f, i, j) && (i - d == e || j - d == e) {
        assert i == n || j == n;
      }
    }
  }

  /** A block cell lies before the end of its row of the block exactly when
      it lies before the next row. */
  lemma RowGap(width: nat, bw: nat, y: nat, start: nat, k: nat)
    requires width > 0 && bw <= width && X(width, k) < bw && start == y * width
    ensures k < start + bw <==> k < start + width
  {
    if start + bw <= k < start + width {
      DivModUnique(k, width, y, k - start);
    }
  }

  /** A block cell lies before the first row after the block. */
  lemma BlockBound(width: nat, bh: nat, k: nat)
    requires width > 0 && Y(width, k) < bh
    ensures k < bh * width
  {
    var q := Y(width, k);
    assert k == q * width + X(width, k);
    assert bh * width == (q + 1) * width + (bh - q - 1) * width;
  }

  /** The end of a row of the block is the start of the next. */
  lemma RowDone(m: Maze, f: Copy, r: Maze, y: nat, start: nat)
    requires m.width > 0 && f.bw <= m.width && f.bh <= m.height && start == y * m.width
    requires SectionLinks(m, f, r, start + f.bw)
    ensures SectionLinks(m, f, r, start + m.width)
  {
    var d := Delta(m.width, f.bw, f.bh, f.axis);
    var pos, next := start + f.bw, start + m.width;
    forall i: nat, j: nat
      ensures Linked(r, i, j) <==> Linked(m, i, j) || (CopiedLink(m, f, i, j) && (i - d < next || j - d < next))
    {
      assert SectionLink(m, f, r, pos, i, j);
      RowDoneAt(m, f, r, y, start, i, j);
    }
  }

  lemma RowDoneAt(m: Maze, f: Copy, r: Maze, y: nat, start: nat, i: nat, j: nat)
    requires m.width > 0 && f.bw <= m.width && f.bh <= m.height && start == y * m.width
    requires SectionLink(m, f, r, start + f.bw, i, j)
    ensures SectionLink(m, f, r, start + m.width, i, j)
  {
    var d := Delta(m.width, f.bw, f.bh, f.axis);
    if CopiedLink(m, f, i, j) {
      CopiedFromBlock(m, f, i, j);
      RowGap(m.width, f.bw, y, start, i - d);
      RowGap(m.width, f.bw, y, start, j - d);
    }
  }

  /** After the last row every copied passage is in place. */
  lemma SectionDone(m: Maze, f: Copy, r: Maze, end: nat)
    requires Fits(m, f) && end == f.bh * m.width && SectionSoFar(m, f, r, end)
    ensures SameGrid(m, r) && Adjacency(r)
    ensures forall i: nat, j: nat :: Linked(r, i, j) <==> Linked(m, i, j) || CopiedLink(m, f, i, j)
  {
    forall i: nat, j: nat
      ensures Linked(r, i, j) <==> Linked(m, i, j) || CopiedLink(m, f, i, j)
    {
      assert SectionLink(m, f, r, end, i, j);
      SectionDoneAt(m, f, r, end, i, j);
    }
  }

  lemma SectionDoneAt(m: Maze, f: Copy, r: Maze, end: nat, i: nat, j: nat)
    requires m.width > 0 && f.bw <= m.width && f.bh <= m.height && end == f.bh * m.width
    requires SectionLink(m, f, r, end, i, j)
    ensures Linked(r, i, j) <==> Linked(m, i, j) || CopiedLink(m, f, i, j)
  {
    var d := Delta(m.width, f.bw, f.bh, f.axis);
    if CopiedLink(m, f, i, j) {
      CopiedFromBlock(m, f, i, j);
      BlockBound(m.width, f.bh, i - d);
    }
  }

  // ---------------------------------------------------------------------
  // The seam and the rounds

  /** The cells the seam joins. Along x: the block's last column and the
      copy's first, in a drawn row of the block. Along y: the block's last
      row and the copy's first, in a drawn column of the block. */
  function SeamEnds(width: nat, f: Copy, draw: nat): (nat, nat)
    requires 1 <= f.bw && 1 <= f.bh
  {
    if f.axis == AlongX then
      var y := Pick(0, f.bh - 1, draw);
      (CellIndex(width, f.bw - 1, y), CellIndex(width, f.bw, y))
    else
      var x := Pick(0, f.bw - 1, draw);
      (CellIndex(width, x, f.bh - 1), CellIndex(width, x, f.bh))
  }

  /** The seam straddles the boundary: one end is a block cell on the
      block's far edge, the other its neighbour in the copy, across it. */
  lemma SeamSpec(width: nat, height: nat, f: Copy, draw: nat)
    requires 1 <= f.bw <= width && 1 <= f.bh <= height
    requires f.axis == AlongX ==> f.bw < width
    requires f.axis == AlongY ==> f.bh < height
    ensures var (a, b) := SeamEnds(width, f, draw);
      && a < width * height && InBlock(width, f.bw, f.bh, a)
      && b < width * height && InCopy(width, height, f.bw, f.bh, f.axis, b)
      && b in NeighborsOf(width, height, a)
      && (f.axis == AlongX ==> X(width, a) + 1 == f.bw == X(width, b) && Y(width, a) == Y(width, b))
      && (f.axis == AlongY ==> Y(width, a) + 1 == f.bh == Y(width, b) && X(width, a) == X(width, b))
  {
    var (a, b) := SeamEnds(width, f, draw);
    if f.axis == AlongX {
      var y := Pick(0, f.bh - 1, draw);
      CoordsOfIndex(width, f.bw - 1, y);
      CoordsOfIndex(width, f.bw, y);
      IndexInRange(width, height, f.bw, y);
      RightAndBelow(width, height, f.bw - 1, y);
    } else {
      var x := Pick(0, f.bw - 1, draw);
      CoordsOfIndex(width, x, f.bh - 1);
      CoordsOfIndex(width, x, f.bh);
      IndexInRange(width, height, x, f.bh);
      RightAndBelow(width, height, x, f.bh - 1);
    }
  }

  /** Every passage lies inside the block or inside its copy: none crosses
      between them yet. */
  ghost predicate Halves(m: Maze, f: Copy)
    requires m.width > 0
  {
    forall i: nat, j: nat :: Linked(m, i, j) ==>
      (InBlock(m.width, f.bw, f.bh, i) && InBlock(m.width, f.bw, f.bh, j)) ||
      (InCopy(m.width, m.height, f.bw, f.bh, f.axis, i) && InCopy(m.width, m.height, f.bw, f.bh, f.axis, j))
  }

  /** The seam of a round: one passage more, the one across the boundary
      between block and copy at the drawn row or column. */
  method Seam(r: Maze, f: Copy, draw: nat) returns (r': Maze)
    requires Fits(r, f) && Adjacency(r) && Halves(r, f)
    requires f.axis == AlongX ==> f.bw < r.width
    requires f.axis == AlongY ==> f.bh < r.height
    ensures var (a, b) := SeamEnds(r.width, f, draw);
      SameGrid(r, r') && Adjacency(r') && AddsPassage(r, r', a, b)
  {
    var (a, b) := SeamEnds(r.width, f, draw);
    SeamSpec(r.width, r.height, f, draw);
    ShapedNeighbors(r, a);
    assert !Linked(r, a, b);
    r' := AddPassage(r, a, b);
    KeepShape(r, r');
    AdjacencyConnect(r, r', a, b);
  }

  /** The copy's passages keep to the copy, and the block's to the block. */
  lemma CopiedHalves(m: Maze, r: Maze, f: Copy)
    requires Fits(m, f) && Within(m, f.bw, f.bh) && SameGrid(m, r)
    requires forall i: nat, j: nat :: Linked(r, i, j) <==> Linked(m, i, j) || CopiedLink(m, f, i, j)
    ensures Halves(r, f)
  {
  }

  /** After a round, every passage lies in the grown block. */
  lemma GrownWithin(m: Maze, r: Maze, f: Copy, a: nat, b: nat, bw': nat, bh': nat)
    requires Fits(m, f) && Within(m, f.bw, f.bh)
    requires InBlock(m.width, f.bw, f.bh, a) && InCopy(m.width, m.height, f.bw, f.bh, f.axis, b)
    requires f.axis == AlongX ==> bw' == Min(2 * f.bw, m.width) && bh' == f.bh
    requires f.axis == AlongY ==> bh' == Min(2 * f.bh, m.height) && bw' == f.bw
    requires r.width == m.width
    requires forall i: nat, j: nat :: Linked(r, i, j) ==> Linked(m, i, j) || CopiedLink(m, f, i, j) || Listed([(a, b)], i, j)
    ensures Within(r, bw', bh')
  {
    forall k: nat | InBlock(m.width, f.bw, f.bh, k) || InCopy(m.width, m.height, f.bw, f.bh, f.axis, k)
      ensures InBlock(m.width, bw', bh', k)
    {
      if InCopy(m.width, m.height, f.bw, f.bh, f.axis, k) {
        IndexOfCoords(m.width, m.height, k);
      }
    }
  }

  /** One round of `generate`: copy the block, join block and copy at the
      seam, then grow the block and pick the next axis. The maze gains
      exactly the copied passages and the seam, and all its passages lie in
      the grown block. */
  method Round(s: State, r: Maze, draw: nat) returns (s': State, r': Maze, done: bool)
    requires Valid(r) && Adjacency(r) && RoundReady(s, r.width, r.height)
    requires Within(r, s.filled.value.x, s.filled.value.y)
    ensures var f := Copy(s.filled.value.x, s.filled.value.y, s.dimensionToCopy);
      var (a, b) := SeamEnds(r.width, f, draw);
      && SameGrid(r, r') && Adjacency(r')
      && (forall i: nat, j: nat :: Linked(r', i, j) <==> Linked(r, i, j) || CopiedLink(r, f, i, j) || Listed([(a, b)], i, j))
      && (s', done) == EndRound(s, r.width, r.height)
      && Within(r', s'.filled.value.x, s'.filled.value.y)
  {
    var f := Copy(s.filled.value.x, s.filled.value.y, s.dimensionToCopy);
    var r1 := CopySection(r, f);
    CopiedHalves(r, r1, f);
    r' := Seam(r1, f, draw);
    SameGridTrans(r, r1, r');
    var (a, b) := SeamEnds(r.width, f, draw);
    SeamSpec(r.width, r.height, f, draw);
    s', done := EndRound(s, r.width, r.height).0, EndRound(s, r.width, r.height).1;
    EndRoundSpec(s, r.width, r.height);
    GrownWithin(r, r', f, a, b, s'.filled.value.x, s'.filled.value.y);
  }

  /** A maze without passages, carved only between neighbours. */
  lemma CarvedByAdjacency(m: Maze, r: Maze)
    requires NoLinks(m) && SameGrid(m, r) && Adjacency(r)
    ensures Carved(m, r)
  {
    forall a: nat, b: nat | Linked(r, a, b)
      ensures b in m.nodes[a].neighbors
    {
      assert Skeleton(r.nodes[a]) == Skeleton(m.nodes[a]);
    }
  }

  /** `TessellateGenerator.generate` run to the end: rounds until the block
      fills the maze. It carves passages only between neighbours, and it
      takes exactly as many rounds as doublings take each side from 1 to
      the maze's. */
  method Generate(m: Maze, draws: nat -> nat) returns (r: Maze, rounds: nat)
    requires Valid(m) && NoLinks(m) && m.width >= 2
    ensures Carved(m, r)
    ensures rounds == Doublings(1, m.width) + Doublings(1, m.height)
  {
    var s := Start(Initial());
    r := m;
    rounds := 0;
    var done := false;
    ghost var total := Doublings(1, m.width) + Doublings(1, m.height);
    while !done
      invariant SameGrid(m, r) && Adjacency(r) && s.filled.Some?
      invariant Within(r, s.filled.value.x, s.filled.value.y)
      invariant !done ==> RoundReady(s, m.width, m.height) && rounds + RoundsLeft(s, m.width, m.height) == total
      invariant done ==> rounds == total
      decreases if done then 0 else 1 + RoundsLeft(s, m.width, m.height)
    {
      EndRoundSpec(s, m.width, m.height);
      s, r, done := Round(s, r, draws(rounds));
      rounds := rounds + 1;
    }
    CarvedByAdjacency(m, r);
  }
}
