/** `SubdivisionGenerator` (ts/maze/generators/subdivision.ts), recursive
    division. The generator first connects every node to every neighbour,
    then keeps a stack of rectangular regions, starting with the whole
    grid. Each pass pops a region; unless it is a single cell, a random
    line splits it in two, every passage across the line inside the region
    is removed, exactly one is put back, and the two halves are pushed. */
module Subdivision {
  import opened Grid
  import opened Mazes
  import opened Graphs
  import opened Draws

  // ---------------------------------------------------------------------
  // Bounds

  /** class `Bounds`: a fresh object has all four limits undefined
      (`Unset`); `extend` defines them all at once. */
  datatype Bounds = Unset | Box(minX: nat, maxX: nat, minY: nat, maxY: nat)

  /** `contains(x, y)`: inclusive on all four sides. */
  predicate Contains(b: Bounds, x: nat, y: nat)
  {
    b.Box? && b.minX <= x <= b.maxX && b.minY <= y <= b.maxY
  }

  /** A defined box whose limits are in order. */
  predicate Proper(b: Bounds)
  {
    b.Box? && b.minX <= b.maxX && b.minY <= b.maxY
  }

  /** Box `c` includes box `b` (anything includes an unset box). */
  predicate Covers(c: Bounds, b: Bounds)
  {
    b.Unset? || (c.Box? && c.minX <= b.minX && b.maxX <= c.maxX && c.minY <= b.minY && b.maxY <= c.maxY)
  }

  /** `extend(x, y)`: the smallest box holding the old one and (x, y). */
  function Extend(b: Bounds, x: nat, y: nat): (r: Bounds)
    ensures Proper(r) && Contains(r, x, y) && Covers(r, b)
    ensures forall c: Bounds :: Covers(c, b) && Contains(c, x, y) ==> Covers(c, r)
  {
    if b.Unset? then Box(x, x, y, y)
    else Box(if x < b.minX then x else b.minX, if x > b.maxX then x else b.maxX,
             if y < b.minY then y else b.minY, if y > b.maxY then y else b.maxY)
  }

  /** A box holds every point of the boxes it covers. */
  lemma CoversContains(c: Bounds, b: Bounds)
    requires Covers(c, b)
    ensures forall x: nat, y: nat :: Contains(b, x, y) ==> Contains(c, x, y)
  {
  }

  /** Extending by a point already inside changes nothing. */
  lemma ExtendInside(b: Bounds, x: nat, y: nat)
    requires Proper(b) && Contains(b, x, y)
    ensures Extend(b, x, y) == b
  {
  }

  /** The `width` getter: `maxX - minX + 1`. */
  function Width(b: Bounds): int
    requires b.Box?
  {
    b.maxX - b.minX + 1
  }

  /** The `height` getter: `maxY - minY + 1`. */
  function Height(b: Bounds): int
    requires b.Box?
  {
    b.maxY - b.minY + 1
  }

  function Area(b: Bounds): int
    requires b.Box?
  {
    Width(b) * Height(b)
  }

  /** `width` and `height` count the columns and rows a proper box
      contains. */
  lemma SizeCounts(b: Bounds)
    requires Proper(b)
    ensures Width(b) >= 1 && Height(b) >= 1 && Area(b) >= 1
    ensures forall x: nat, y: nat :: Contains(b, x, y) <==>
              b.minX <= x < b.minX + Width(b) && b.minY <= y < b.minY + Height(b)
  {
    MulAtLeast(Width(b), Height(b));
  }

  /** `splitAtX(x)`: the columns up to `x`, and those after it. */
  function SplitAtX(b: Bounds, x: nat): (Bounds, Bounds)
    requires b.Box?
  {
    (b.(maxX := x), b.(minX := x + 1))
  }

  /** `splitAtY(y)`: the rows up to `y`, and those after it. */
  function SplitAtY(b: Bounds, y: nat): (Bounds, Bounds)
    requires b.Box?
  {
    (b.(maxY := y), b.(minY := y + 1))
  }

  /** The two parts of a box: both proper, every point of the box in
      exactly one of them, each strictly smaller, areas adding up. */
  ghost predicate Halves(b: Bounds, p: (Bounds, Bounds))
    requires b.Box?
  {
    && Proper(p.0) && Proper(p.1)
    && (forall x: nat, y: nat :: Contains(b, x, y) <==> Contains(p.0, x, y) || Contains(p.1, x, y))
    && (forall x: nat, y: nat :: !(Contains(p.0, x, y) && Contains(p.1, x, y)))
    && Area(p.0) < Area(b) && Area(p.1) < Area(b)
    && Area(p.0) + Area(p.1) == Area(b)
  }

  lemma SplitAtXHalves(b: Bounds, x: nat)
    requires Proper(b) && b.minX <= x < b.maxX
    ensures Halves(b, SplitAtX(b, x))
  {
    var (l, r) := SplitAtX(b, x);
    var h := Height(b);
    assert Area(l) + Area(r) == Area(b) by {
      assert Width(l) + Width(r) == Width(b);
      assert Width(l) * h + Width(r) * h == (Width(l) + Width(r)) * h;
    }
    SizeCounts(l);
    SizeCounts(r);
  }

  lemma SplitAtYHalves(b: Bounds, y: nat)
    requires Proper(b) && b.minY <= y < b.maxY
    ensures Halves(b, SplitAtY(b, y))
  {
    var (t, u) := SplitAtY(b, y);
    var w := Width(b);
    assert Area(t) + Area(u) == Area(b) by {
      assert Height(t) + Height(u) == Height(b);
      assert w * Height(t) + w * Height(u) == w * (Height(t) + Height(u));
    }
    SizeCounts(t);
    SizeCounts(u);
  }

  // ---------------------------------------------------------------------
  // Choosing a split

  /** `possibleSplits`: one per inner column line and inner row line. */
  function PossibleSplits(b: Bounds): int
    requires b.Box?
  {
    (Width(b) - 1) + (Height(b) - 1)
  }

  /** A region has nothing to split exactly when it is a single cell. */
  lemma NoSplitIsOneCell(b: Bounds)
    requires Proper(b)
    ensures PossibleSplits(b) >= 0
    ensures PossibleSplits(b) == 0 <==> Width(b) == 1 && Height(b) == 1
    ensures PossibleSplits(b) == 0 <==> Area(b) == 1
  {
    SizeCounts(b);
    if Width(b) > 1 {
      MulAtLeast(Height(b), Width(b));
      assert Area(b) == Height(b) * Width(b);
      assert Area(b) >= Width(b);
    }
  }

  /** A split line: after column `x`, or after row `y`. */
  datatype Split = AtX(x: nat) | AtY(y: nat)

  /** `splitIndex = floor(rng() * possibleSplits)`; an index below
      `width - 1` is the column line `minX + splitIndex`, the rest are the
      row lines `minY + splitIndex - (width - 1)`. */
  function ChooseSplit(b: Bounds, draw: nat): (s: Split)
    requires Proper(b) && PossibleSplits(b) > 0
    ensures s.AtX? ==> b.minX <= s.x < b.maxX
    ensures s.AtY? ==> b.minY <= s.y < b.maxY
  {
    var i := Pick(0, PossibleSplits(b) - 1, draw);
    if i < Width(b) - 1 then AtX(b.minX + i)
    else AtY(b.minY + i - (Width(b) - 1))
  }

  /** Every split line inside the region is the outcome of some draw. */
  lemma ChooseSplitCovers(b: Bounds)
    requires Proper(b) && PossibleSplits(b) > 0
    ensures forall x: nat :: b.minX <= x < b.maxX ==> ChooseSplit(b, x - b.minX) == AtX(x)
    ensures forall y: nat :: b.minY <= y < b.maxY ==>
              ChooseSplit(b, (Width(b) - 1) + (y - b.minY)) == AtY(y)
  {
    var n := PossibleSplits(b);
    forall x: nat | b.minX <= x < b.maxX
      ensures ChooseSplit(b, x - b.minX) == AtX(x)
    {
      DivModUnique(x - b.minX, n, 0, x - b.minX);
    }
    forall y: nat | b.minY <= y < b.maxY
      ensures ChooseSplit(b, (Width(b) - 1) + (y - b.minY)) == AtY(y)
    {
      var d := (Width(b) - 1) + (y - b.minY);
      DivModUnique(d, n, 0, d);
    }
  }

  /** The two regions a split leaves. */
  function Sections(b: Bounds, s: Split): (Bounds, Bounds)
    requires b.Box?
  {
    match s
    case AtX(x) => SplitAtX(b, x)
    case AtY(y) => SplitAtY(b, y)
  }

  lemma SectionsHalves(b: Bounds, draw: nat)
    requires Proper(b) && PossibleSplits(b) > 0
    ensures Halves(b, Sections(b, ChooseSplit(b, draw)))
  {
    match ChooseSplit(b, draw)
    case AtX(x) => SplitAtXHalves(b, x);
    case AtY(y) => SplitAtYHalves(b, y);
  }

  // ---------------------------------------------------------------------
  // Walls

  /** A proper box inside the `width` x `height` grid. */
  predicate InGrid(b: Bounds, width: nat, height: nat)
  {
    Proper(b) && b.maxX < width && b.maxY < height
  }

  /** The node pairs facing each other across the split line inside the
      region, in the order the source visits them: `grid[y][splitX]` and
      `grid[y][splitX + 1]` for each row `y`, or `grid[splitY][x]` and
      `grid[splitY + 1][x]` for each column `x`. */
  function Crossing(b: Bounds, s: Split, width: nat): (r: seq<(nat, nat)>)
    requires Proper(b)
  {
    match s
    case AtX(sx) =>
      seq(Height(b), k requires 0 <= k < Height(b) =>
        (CellIndex(width, sx, b.minY + k), CellIndex(width, sx + 1, b.minY + k)))
    case AtY(sy) =>
      seq(Width(b), k requires 0 <= k < Width(b) =>
        (CellIndex(width, b.minX + k, sy), CellIndex(width, b.minX + k, sy + 1)))
  }

  /** Cells `i` and `j` face each other across split line `s` inside `b`:
      `i` on the near side, `j` on the far side. */
  ghost predicate Straddles(b: Bounds, s: Split, width: nat, height: nat, i: nat, j: nat)
    requires width > 0 && b.Box?
  {
    && i < width * height && j < width * height
    && match s
       case AtX(sx) =>
         Y(width, i) == Y(width, j) && b.minY <= Y(width, i) <= b.maxY
         && X(width, i) == sx && X(width, j) == sx + 1
       case AtY(sy) =>
         X(width, i) == X(width, j) && b.minX <= X(width, i) <= b.maxX
         && Y(width, i) == sy && Y(width, j) == sy + 1
  }

  /** The crossing list holds exactly the straddling pairs. */
  lemma CrossingSpec(b: Bounds, s: Split, width: nat, height: nat)
    requires width > 0 && InGrid(b, width, height)
    requires s.AtX? ==> b.minX <= s.x < b.maxX
    requires s.AtY? ==> b.minY <= s.y < b.maxY
    ensures forall i: nat, j: nat :: (i, j) in Crossing(b, s, width) <==> Straddles(b, s, width, height, i, j)
  {
    var c := Crossing(b, s, width);
    forall i: nat, j: nat
      ensures (i, j) in c <==> Straddles(b, s, width, height, i, j)
    {
      if (i, j) in c {
        var k :| 0 <= k < |c| && c[k] == (i, j);
        match s
        case AtX(sx) =>
          CoordsOfIndex(width, sx, b.minY + k);
          CoordsOfIndex(width, sx + 1, b.minY + k);
          IndexInRange(width, height, sx, b.minY + k);
          IndexInRange(width, height, sx + 1, b.minY + k);
        case AtY(sy) =>
          CoordsOfIndex(width, b.minX + k, sy);
          CoordsOfIndex(width, b.minX + k, sy + 1);
          IndexInRange(width, height, b.minX + k, sy);
          IndexInRange(width, height, b.minX + k, sy + 1);
      }
      if Straddles(b, s, width, height, i, j) {
        IndexOfCoords(width, height, i);
        IndexOfCoords(width, height, j);
        match s
        case AtX(sx) =>
          var k := Y(width, i) - b.minY;
          assert c[k] == (i, j);
        case AtY(sy) =>
          var k := X(width, i) - b.minX;
          assert c[k] == (i, j);
      }
    }
  }

  /** Straddling cells are neighbours on the grid. */
  lemma StraddlesAdjacent(b: Bounds, s: Split, width: nat, height: nat, i: nat, j: nat)
    requires width > 0 && b.Box? && Straddles(b, s, width, height, i, j)
    ensures Adjacent(width, height, i, j) && i != j
  {
  }

  lemma ListedStep(pairs: seq<(nat, nat)>, k: nat)
    requires k < |pairs|
    ensures forall i: nat, j: nat :: Listed(pairs[..k + 1], i, j) <==> Listed(pairs[..k], i, j) || Listed([pairs[k]], i, j)
  {
    assert pairs[..k + 1] == pairs[..k] + [pairs[k]];
  }

  /** The `disconnect` loop: every pair of the list disconnected in turn. */
  method DisconnectAll(m: Maze, pairs: seq<(nat, nat)>) returns (r: Maze)
    requires ConnWf(m)
    requires forall k :: 0 <= k < |pairs| ==> pairs[k].0 < |m.nodes| && pairs[k].1 < |m.nodes| && pairs[k].0 != pairs[k].1
    ensures r.width == m.width && r.height == m.height && |r.nodes| == |m.nodes|
    ensures forall k :: 0 <= k < |m.nodes| ==> Skeleton(r.nodes[k]) == Skeleton(m.nodes[k])
    ensures ConnWf(r)
    ensures forall i: nat, j: nat :: Linked(r, i, j) <==> Linked(m, i, j) && !Listed(pairs, i, j)
  {
    r := m;
    var k := 0;
    while k < |pairs|
      invariant k <= |pairs| && ConnWf(r)
      invariant r.width == m.width && r.height == m.height && |r.nodes| == |m.nodes|
      invariant forall q :: 0 <= q < |m.nodes| ==> Skeleton(r.nodes[q]) == Skeleton(m.nodes[q])
      invariant forall i: nat, j: nat :: Linked(r, i, j) <==> Linked(m, i, j) && !Listed(pairs[..k], i, j)
    {
      r := DisconnectPair(r, pairs[k].0, pairs[k].1);
      ListedStep(pairs, k);
      k := k + 1;
    }
    assert pairs[..k] == pairs;
  }

  /** The pair the random door is put back between: the `connectionY`-th
      row (or `connectionX`-th column) of the crossing list. */
  function Door(b: Bounds, s: Split, width: nat, draw: nat): (p: (nat, nat))
    requires Proper(b)
  {
    match s
    case AtX(sx) =>
      var cy := Pick(b.minY, b.maxY, draw);
      (CellIndex(width, sx, cy), CellIndex(width, sx + 1, cy))
    case AtY(sy) =>
      var cx := Pick(b.minX, b.maxX, draw);
      (CellIndex(width, cx, sy), CellIndex(width, cx, sy + 1))
  }

  /** The door is one of the crossing pairs, and each crossing pair is the
      door for some draw. */
  lemma DoorCrosses(b: Bounds, s: Split, width: nat, draw: nat)
    requires Proper(b)
    ensures Door(b, s, width, draw) in Crossing(b, s, width)
    ensures forall k :: 0 <= k < |Crossing(b, s, width)| ==> Door(b, s, width, k) == Crossing(b, s, width)[k]
  {
    var c := Crossing(b, s, width);
    match s
    case AtX(sx) =>
      assert c[draw % Height(b)] == Door(b, s, width, draw);
      forall k | 0 <= k < |c|
        ensures Door(b, s, width, k) == c[k]
      {
        DivModUnique(k, Height(b), 0, k);
      }
    case AtY(sy) =>
      assert c[draw % Width(b)] == Door(b, s, width, draw);
      forall k | 0 <= k < |c|
        ensures Door(b, s, width, k) == c[k]
      {
        DivModUnique(k, Width(b), 0, k);
      }
  }

  /** `splitSection`: nothing happens to a single cell; otherwise the
      region is cut along a random line, every passage across the line
      inside the region is removed, the door is put back, and the two
      halves are returned. */
  method SplitSection(m: Maze, b: Bounds, splitDraw: nat, doorDraw: nat) returns (r: Maze, sections: seq<Bounds>)
    requires Valid(m) && InGrid(b, m.width, m.height)
    ensures SameGrid(m, r)
    ensures PossibleSplits(b) == 0 ==> r == m && sections == []
    ensures PossibleSplits(b) > 0 ==>
              var s := ChooseSplit(b, splitDraw);
              var cross := Crossing(b, s, m.width);
              var door := Door(b, s, m.width, doorDraw);
              && sections == [Sections(b, s).0, Sections(b, s).1]
              && door in cross
              && (forall i: nat, j: nat :: Linked(r, i, j) <==>
                   (Linked(m, i, j) && !Listed(cross, i, j)) || Listed([door], i, j))
              && (forall i: nat, j: nat :: Straddles(b, s, m.width, m.height, i, j) ==>
                   (Linked(r, i, j) <==> (i, j) == door))
  {
    NoSplitIsOneCell(b);
    if PossibleSplits(b) == 0 {
      CarvedRefl(m);
      return m, [];
    }
    var w, h := m.width, m.height;
    var s := ChooseSplit(b, splitDraw);
    var cross := Crossing(b, s, w);
    CrossingSpec(b, s, w, h);
    forall k | 0 <= k < |cross|
      ensures cross[k].0 < |m.nodes| && cross[k].1 < |m.nodes| && cross[k].0 != cross[k].1
    {
      assert (cross[k].0, cross[k].1) in cross;
      StraddlesAdjacent(b, s, w, h, cross[k].0, cross[k].1);
    }
    r := DisconnectAll(m, cross);
    var door := Door(b, s, w, doorDraw);
    DoorCrosses(b, s, w, doorDraw);
    assert (door.0, door.1) in cross;
    r := ConnectPair(r, door.0, door.1);
    sections := [Sections(b, s).0, Sections(b, s).1];
    KeepShape(m, r);
  }

  // ---------------------------------------------------------------------
  // Setup

  /** `j` is among the first `t` entries of `ns`. */
  ghost predicate InPrefix(ns: seq<nat>, t: nat, j: nat)
  {
    exists p :: 0 <= p < t && p < |ns| && ns[p] == j
  }

  lemma PrefixStep(ns: seq<nat>, t: nat, j: nat)
    requires t < |ns|
    ensures InPrefix(ns, t + 1, j) <==> InPrefix(ns, t, j) || ns[t] == j
  {
    if ns[t] == j {
      assert 0 <= t < t + 1 && ns[t] == j;
    }
  }

  lemma PrefixAll(ns: seq<nat>, j: nat)
    ensures InPrefix(ns, |ns|, j) <==> j in ns
  {
    if j in ns {
      var p :| 0 <= p < |ns| && ns[p] == j;
    }
  }

  /** The inner setup loop for node `k`: connect it to each of its
      neighbours in turn. */
  method ConnectNode(m: Maze, k: nat) returns (r: Maze)
    requires ConnWf(m) && Shaped(m) && k < |m.nodes|
    ensures r.width == m.width && r.height == m.height && |r.nodes| == |m.nodes|
    ensures forall q :: 0 <= q < |m.nodes| ==> Skeleton(r.nodes[q]) == Skeleton(m.nodes[q])
    ensures ConnWf(r)
    ensures forall i: nat, j: nat :: Linked(r, i, j) <==>
              Linked(m, i, j) || (i == k && j in m.nodes[k].neighbors) || (j == k && i in m.nodes[k].neighbors)
  {
    var ns := m.nodes[k].neighbors;
    ShapedNeighbors(m, k);
    r := m;
    var t := 0;
    while t < |ns|
      invariant t <= |ns| && ConnWf(r)
      invariant r.width == m.width && r.height == m.height && |r.nodes| == |m.nodes|
      invariant forall q :: 0 <= q < |m.nodes| ==> Skeleton(r.nodes[q]) == Skeleton(m.nodes[q])
      invariant LinkedUpTo(m, r, k, ns, t)
    {
      assert ns[t] in ns;
      ghost var before := r;
      r := ConnectPair(r, k, ns[t]);
      LinkedUpToStep(m, before, r, k, ns, t);
      t := t + 1;
    }
    forall j: nat ensures InPrefix(ns, t, j) <==> j in ns {
      PrefixAll(ns, j);
    }
  }

  /** `r` is `m` with `k` connected to the first `t` of `ns`. */
  ghost predicate LinkedUpTo(m: Maze, r: Maze, k: nat, ns: seq<nat>, t: nat)
  {
    forall i: nat, j: nat :: Linked(r, i, j) <==>
      Linked(m, i, j) || (i == k && InPrefix(ns, t, j)) || (j == k && InPrefix(ns, t, i))
  }

  lemma LinkedUpToStep(m: Maze, r: Maze, r': Maze, k: nat, ns: seq<nat>, t: nat)
    requires t < |ns| && LinkedUpTo(m, r, k, ns, t)
    requires forall i: nat, j: nat :: Linked(r', i, j) <==> Linked(r, i, j) || Listed([(k, ns[t])], i, j)
    ensures LinkedUpTo(m, r', k, ns, t + 1)
  {
    forall j: nat ensures InPrefix(ns, t + 1, j) <==> InPrefix(ns, t, j) || ns[t] == j {
      PrefixStep(ns, t, j);
    }
  }

  /** What the inner loop does to the bounds: each neighbour extends them
      by the node's own position, which after the first time changes
      nothing, so a node with neighbours extends them once and a node
      without leaves them as they were. */
  function NodeExtend(bounds: Bounds, node: Node): (r: Bounds)
    ensures |node.neighbors| == 0 ==> r == bounds
    ensures |node.neighbors| > 0 ==> Proper(r) && Contains(r, node.x, node.y) && Covers(r, bounds)
  {
    ExtendEach(bounds, node.x, node.y, |node.neighbors|)
  }

  /** Extending `count` times by the same point. */
  function ExtendEach(bounds: Bounds, x: nat, y: nat, count: nat): (r: Bounds)
    ensures count > 0 ==> r == Extend(bounds, x, y)
    ensures count == 0 ==> r == bounds
  {
    if count == 0 then bounds
    else
      var e := ExtendEach(bounds, x, y, count - 1);
      if count > 1 then ExtendInside(e, x, y); Extend(e, x, y)
      else Extend(e, x, y)
  }

  /** The bounds after the first `k` nodes: an unset box if none of them
      has a neighbour, otherwise a proper box inside the grid holding each
      of them that has one. */
  ghost predicate BoundsSoFar(m: Maze, bounds: Bounds, k: nat)
    requires k <= |m.nodes|
  {
    && (bounds.Unset? <==> forall q :: 0 <= q < k ==> |m.nodes[q].neighbors| == 0)
    && (bounds.Box? ==> InGrid(bounds, m.width, m.height))
    && (forall q :: 0 <= q < k && |m.nodes[q].neighbors| > 0 ==> Contains(bounds, m.nodes[q].x, m.nodes[q].y))
  }

  /** The setup loop: every node connected to every neighbour, and the
      bounds extended over every node that has a neighbour. On a grid of
      two or more cells that is the whole grid; on a single cell the bounds
      stay unset. */
  method Setup(m: Maze) returns (r: Maze, bounds: Bounds)
    requires Valid(m)
    ensures SameGrid(m, r)
    ensures forall i: nat, j: nat :: Linked(r, i, j) <==> Linked(m, i, j) || (i < |m.nodes| && j in m.nodes[i].neighbors)
    ensures |m.nodes| >= 2 ==> bounds == Box(0, m.width - 1, 0, m.height - 1)
    ensures |m.nodes| == 1 ==> bounds == Unset
  {
    var n, w, h := |m.nodes|, m.width, m.height;
    r, bounds := m, Unset;
    var k := 0;
    while k < n
      invariant k <= n && ConnWf(r)
      invariant r.width == w && r.height == h && |r.nodes| == n
      invariant forall q :: 0 <= q < n ==> Skeleton(r.nodes[q]) == Skeleton(m.nodes[q])
      invariant forall i: nat, j: nat :: Linked(r, i, j) <==>
                  Linked(m, i, j) || (i < k && j in m.nodes[i].neighbors) || (j < k && i in m.nodes[j].neighbors)
      invariant BoundsSoFar(m, bounds, k)
    {
      KeepShape(m, r);
      assert Skeleton(r.nodes[k]) == Skeleton(m.nodes[k]);
      NodeBounds(m, bounds, k);
      bounds := NodeExtend(bounds, r.nodes[k]);
      r := ConnectNode(r, k);
      k := k + 1;
    }
    KeepShape(m, r);
    forall i: nat, j: nat | j < n && i in m.nodes[j].neighbors
      ensures i < n && j in m.nodes[i].neighbors
    {
      ShapedNeighbors(m, j);
    }
    SetupBounds(m, bounds);
  }

  /** One more node keeps `BoundsSoFar`. */
  lemma NodeBounds(m: Maze, before: Bounds, k: nat)
    requires Shaped(m) && k < |m.nodes| && BoundsSoFar(m, before, k)
    ensures BoundsSoFar(m, NodeExtend(before, m.nodes[k]), k + 1)
  {
    assert Skeleton(m.nodes[k]) == CellSkeleton(m.width, m.height, k);
    IndexOfCoords(m.width, m.height, k);
    var after := NodeExtend(before, m.nodes[k]);
    if |m.nodes[k].neighbors| > 0 && before.Box? {
      CoversContains(after, before);
    }
  }

  /** With every node processed, the bounds are the whole grid, or unset
      on a single cell. */
  lemma SetupBounds(m: Maze, bounds: Bounds)
    requires Shaped(m) && BoundsSoFar(m, bounds, |m.nodes|)
    ensures |m.nodes| >= 2 ==> bounds == Box(0, m.width - 1, 0, m.height - 1)
    ensures |m.nodes| == 1 ==> bounds == Unset
  {
    var n, w, h := |m.nodes|, m.width, m.height;
    Corners(w, h);
    assert Skeleton(m.nodes[0]) == CellSkeleton(w, h, 0);
    if n >= 2 {
      ShapedNeighbors(m, 0);
      assert Skeleton(m.nodes[n - 1]) == CellSkeleton(w, h, n - 1);
      assert Contains(bounds, 0, 0);
      assert Contains(bounds, w - 1, h - 1) by {
        ShapedNeighbors(m, n - 1);
      }
    } else {
      assert NeighborsAt(w, h, 0, 0) == [];
    }
  }

  // ---------------------------------------------------------------------
  // The split stack

  /** The passes left for a stack of regions: a region of area `a` is
      popped `2a - 1` times counting the pops of all its sub-regions. */
  function Work(stack: seq<Bounds>): int
    requires forall k :: 0 <= k < |stack| ==> stack[k].Box?
  {
    if stack == [] then 0
    else Work(stack[..|stack| - 1]) + 2 * Area(stack[|stack| - 1]) - 1
  }

  /** Every region in the stack is a proper box inside the grid. */
  ghost predicate AllInGrid(stack: seq<Bounds>, width: nat, height: nat)
  {
    forall k :: 0 <= k < |stack| ==> InGrid(stack[k], width, height)
  }

  /** Each region costs at least one pass. */
  lemma {:induction false} WorkAtLeast(stack: seq<Bounds>, width: nat, height: nat)
    requires AllInGrid(stack, width, height)
    ensures Work(stack) >= |stack|
  {
    if stack != [] {
      var b := stack[|stack| - 1];
      assert AllInGrid(stack[..|stack| - 1], width, height);
      WorkAtLeast(stack[..|stack| - 1], width, height);
      SizeCounts(b);
      MulAtLeast(Height(b), Width(b));
    }
  }

  /** Pushing regions adds their work. */
  lemma {:induction false} WorkAppend(stack: seq<Bounds>, more: seq<Bounds>)
    requires forall k :: 0 <= k < |stack| ==> stack[k].Box?
    requires forall k :: 0 <= k < |more| ==> more[k].Box?
    ensures Work(stack + more) == Work(stack) + Work(more)
    decreases |more|
  {
    if more == [] {
      assert stack + more == stack;
    } else {
      var all := stack + more;
      assert all[|all| - 1] == more[|more| - 1];
      assert all[..|all| - 1] == stack + more[..|more| - 1];
      WorkAppend(stack, more[..|more| - 1]);
    }
  }

  /** The halves of a region inside the grid are inside the grid. */
  lemma HalvesInGrid(b: Bounds, p: (Bounds, Bounds), width: nat, height: nat)
    requires InGrid(b, width, height) && Halves(b, p)
    ensures InGrid(p.0, width, height) && InGrid(p.1, width, height)
  {
    assert Contains(p.0, p.0.maxX, p.0.maxY) && Contains(p.1, p.1.maxX, p.1.maxY);
  }

  /** The sections a region splits into hold two passes fewer than the
      region itself, and stay inside the grid. */
  lemma SplitWork(b: Bounds, splitDraw: nat, sections: seq<Bounds>, width: nat, height: nat)
    requires InGrid(b, width, height)
    requires PossibleSplits(b) == 0 ==> sections == []
    requires PossibleSplits(b) > 0 ==>
               sections == [Sections(b, ChooseSplit(b, splitDraw)).0, Sections(b, ChooseSplit(b, splitDraw)).1]
    ensures AllInGrid(sections, width, height)
    ensures Work(sections) == 2 * Area(b) - 2
  {
    NoSplitIsOneCell(b);
    if PossibleSplits(b) > 0 {
      var p := Sections(b, ChooseSplit(b, splitDraw));
      SectionsHalves(b, splitDraw);
      HalvesInGrid(b, p, width, height);
      assert sections[..1] == [p.0] && [p.0][..0] == [];
      assert Work([p.0]) == 2 * Area(p.0) - 1;
      assert Work(sections) == Work([p.0]) + 2 * Area(p.1) - 1;
    }
  }

  // ---------------------------------------------------------------------
  // What the stack stands for

  /** Cell `i` lies in region `b`. */
  ghost predicate CellIn(b: Bounds, width: nat, i: nat)
    requires width > 0
  {
    Contains(b, X(width, i), Y(width, i))
  }

  /** Neighbours `i` and `j` both lie in region `b`: a passage the region
      keeps open until it is split. */
  ghost predicate Inner(b: Bounds, width: nat, height: nat, i: nat, j: nat)
    requires width > 0
  {
    Adjacent(width, height, i, j) && CellIn(b, width, i) && CellIn(b, width, j)
  }

  /** `i` and `j` are neighbours inside one of the stacked regions. */
  ghost predicate InStack(stack: seq<Bounds>, width: nat, height: nat, i: nat, j: nat)
    requires width > 0
  {
    exists k :: 0 <= k < |stack| && Inner(stack[k], width, height, i, j)
  }

  /** No cell lies in two stacked regions. */
  ghost predicate Disjoint(stack: seq<Bounds>, width: nat)
    requires width > 0
  {
    forall p, q, i :: 0 <= p < q < |stack| ==> !(CellIn(stack[p], width, i) && CellIn(stack[q], width, i))
  }

  /** The doors put back so far: each joins two neighbours, no passage is
      a door twice, and no door has both ends in one stacked region. */
  ghost predicate DoorsApart(stack: seq<Bounds>, doors: seq<(nat, nat)>, width: nat, height: nat)
    requires width > 0
  {
    && (forall d :: 0 <= d < |doors| ==> Adjacent(width, height, doors[d].0, doors[d].1))
    && (forall d, e :: 0 <= d < e < |doors| ==> !Listed([doors[d]], doors[e].0, doors[e].1))
    && (forall k, d :: 0 <= k < |stack| && 0 <= d < |doors| ==>
          !(CellIn(stack[k], width, doors[d].0) && CellIn(stack[k], width, doors[d].1)))
  }

  /** The passages are exactly the neighbour pairs inside a stacked region
      and the doors. */
  ghost predicate LinksOf(r: Maze, stack: seq<Bounds>, doors: seq<(nat, nat)>)
    requires r.width > 0
  {
    forall i: nat, j: nat :: Linked(r, i, j) <==> InStack(stack, r.width, r.height, i, j) || Listed(doors, i, j)
  }

  /** The main loop's invariant on a maze that started without passages:
      disjoint regions, whose inner passages are all open, joined to each
      other by the doors, and every cell reachable from cell 0. */
  ghost predicate Regions(r: Maze, stack: seq<Bounds>, doors: seq<(nat, nat)>)
  {
    && r.width > 0 && |r.nodes| == r.width * r.height
    && AllInGrid(stack, r.width, r.height)
    && Disjoint(stack, r.width)
    && DoorsApart(stack, doors, r.width, r.height)
    && LinksOf(r, stack, doors)
    && FullyConnected(r)
  }

  /** The split line lies strictly inside the region. */
  predicate SplitsInside(b: Bounds, s: Split)
    requires b.Box?
  {
    match s
    case AtX(x) => b.minX <= x < b.maxX
    case AtY(y) => b.minY <= y < b.maxY
  }

  /** The sections of a region hold exactly its cells, each in one of
      them. */
  lemma SectionCells(b: Bounds, s: Split, width: nat, i: nat)
    requires width > 0 && Proper(b) && SplitsInside(b, s)
    ensures CellIn(b, width, i) <==> CellIn(Sections(b, s).0, width, i) || CellIn(Sections(b, s).1, width, i)
    ensures !(CellIn(Sections(b, s).0, width, i) && CellIn(Sections(b, s).1, width, i))
  {
  }

  /** Two cells straddling the split line are neighbours inside the
      region, the first in the near section and the second in the far
      one. */
  lemma StraddlesSides(b: Bounds, s: Split, width: nat, height: nat, i: nat, j: nat)
    requires width > 0 && Proper(b) && SplitsInside(b, s) && Straddles(b, s, width, height, i, j)
    ensures Inner(b, width, height, i, j)
    ensures CellIn(Sections(b, s).0, width, i) && CellIn(Sections(b, s).1, width, j)
  {
  }

  /** The neighbour pairs of a region are those of its two sections and
      those straddling the split line. */
  lemma InnerSplit(b: Bounds, s: Split, width: nat, height: nat, i: nat, j: nat)
    requires width > 0 && Proper(b) && SplitsInside(b, s)
    ensures Inner(b, width, height, i, j) <==>
              || Inner(Sections(b, s).0, width, height, i, j) || Inner(Sections(b, s).1, width, height, i, j)
              || Straddles(b, s, width, height, i, j) || Straddles(b, s, width, height, j, i)
    ensures Inner(Sections(b, s).0, width, height, i, j) || Inner(Sections(b, s).1, width, height, i, j) ==>
              !Straddles(b, s, width, height, i, j) && !Straddles(b, s, width, height, j, i)
  {
  }

  /** A single cell has no inner neighbour pairs. */
  lemma OneCellNoInner(b: Bounds, width: nat, height: nat, i: nat, j: nat)
    requires width > 0 && Proper(b) && PossibleSplits(b) == 0
    ensures !Inner(b, width, height, i, j)
  {
    NoSplitIsOneCell(b);
  }

  /** Pushing a region adds its inner pairs. */
  lemma InStackPush(stack: seq<Bounds>, b: Bounds, width: nat, height: nat, i: nat, j: nat)
    requires width > 0
    ensures InStack(stack + [b], width, height, i, j) <==>
              InStack(stack, width, height, i, j) || Inner(b, width, height, i, j)
  {
    var st := stack + [b];
    if InStack(stack, width, height, i, j) {
      var k :| 0 <= k < |stack| && Inner(stack[k], width, height, i, j);
      assert st[k] == stack[k];
    }
    if Inner(b, width, height, i, j) {
      assert st[|stack|] == b;
    }
    if InStack(st, width, height, i, j) {
      var k :| 0 <= k < |st| && Inner(st[k], width, height, i, j);
      if k < |stack| {
        assert st[k] == stack[k];
      }
    }
  }

  // ---------------------------------------------------------------------
  // Reaching across a region

  /** Two cells next to each other inside a region whose inner passages
      are all open are connected. */
  lemma StepLinked(r: Maze, c: Bounds, x: nat, y: nat, x': nat, y': nat)
    requires r.width > 0 && InGrid(c, r.width, r.height)
    requires forall i: nat, j: nat :: Inner(c, r.width, r.height, i, j) ==> Linked(r, i, j)
    requires Contains(c, x, y) && Contains(c, x', y')
    requires (y == y' && (x + 1 == x' || x' + 1 == x)) || (x == x' && (y + 1 == y' || y' + 1 == y))
    ensures Linked(r, CellIndex(r.width, x, y), CellIndex(r.width, x', y'))
  {
    var w, h := r.width, r.height;
    CoordsOfIndex(w, x, y);
    CoordsOfIndex(w, x', y');
    IndexInRange(w, h, x, y);
    IndexInRange(w, h, x', y');
    assert Inner(c, w, h, CellIndex(w, x, y), CellIndex(w, x', y'));
  }

  /** In a region whose inner passages are all open, every cell reaches
      every other: along its row to the target column, then along that
      column. */
  lemma {:induction false} ReachAcross(r: Maze, c: Bounds, x: nat, y: nat, x': nat, y': nat)
    requires r.width > 0 && |r.nodes| == r.width * r.height && InGrid(c, r.width, r.height)
    requires forall i: nat, j: nat :: Inner(c, r.width, r.height, i, j) ==> Linked(r, i, j)
    requires Contains(c, x, y) && Contains(c, x', y')
    ensures ReachableIn(r, Cells(|r.nodes|), CellIndex(r.width, x, y), CellIndex(r.width, x', y'))
    decreases if x < x' then x' - x else x - x', if y < y' then y' - y else y - y'
  {
    var w, all := r.width, Cells(|r.nodes|);
    IndexInRange(w, r.height, x', y');
    if x == x' && y == y' {
      ReachRefl(r, all, CellIndex(w, x, y));
    } else if x != x' {
      var px: nat := if x < x' then x' - 1 else x' + 1;
      ReachAcross(r, c, x, y, px, y');
      StepLinked(r, c, px, y', x', y');
      ReachStep(r, all, CellIndex(w, x, y), CellIndex(w, px, y'), CellIndex(w, x', y'));
    } else {
      var py: nat := if y < y' then y' - 1 else y' + 1;
      ReachAcross(r, c, x, y, x', py);
      StepLinked(r, c, x', py, x', y');
      ReachStep(r, all, CellIndex(w, x, y), CellIndex(w, x', py), CellIndex(w, x', y'));
    }
  }

  /** The same, for cell indices. */
  lemma ReachInRegion(r: Maze, c: Bounds, u: nat, v: nat)
    requires r.width > 0 && |r.nodes| == r.width * r.height && InGrid(c, r.width, r.height)
    requires forall i: nat, j: nat :: Inner(c, r.width, r.height, i, j) ==> Linked(r, i, j)
    requires u < |r.nodes| && v < |r.nodes| && CellIn(c, r.width, u) && CellIn(c, r.width, v)
    ensures ReachableIn(r, Cells(|r.nodes|), u, v)
  {
    var w := r.width;
    IndexOfCoords(w, r.height, u);
    IndexOfCoords(w, r.height, v);
    ReachAcross(r, c, X(w, u), Y(w, u), X(w, v), Y(w, v));
  }

  /** Any two cells of a split region still reach each other: within a
      section through its open inner passages, and between the sections
      through the door. */
  lemma ReachThroughDoor(r: Maze, b: Bounds, s: Split, door: (nat, nat), u: nat, v: nat)
    requires r.width > 0 && |r.nodes| == r.width * r.height && InGrid(b, r.width, r.height) && SplitsInside(b, s)
    requires forall i: nat, j: nat :: Inner(Sections(b, s).0, r.width, r.height, i, j) ==> Linked(r, i, j)
    requires forall i: nat, j: nat :: Inner(Sections(b, s).1, r.width, r.height, i, j) ==> Linked(r, i, j)
    requires Straddles(b, s, r.width, r.height, door.0, door.1)
    requires Linked(r, door.0, door.1) && Linked(r, door.1, door.0)
    requires u < |r.nodes| && v < |r.nodes| && CellIn(b, r.width, u) && CellIn(b, r.width, v)
    ensures ReachableIn(r, Cells(|r.nodes|), u, v)
  {
    var w, all := r.width, Cells(|r.nodes|);
    var p := Sections(b, s);
    StraddlesSides(b, s, w, r.height, door.0, door.1);
    SectionCells(b, s, w, u);
    SectionCells(b, s, w, v);
    var (near, far) := if CellIn(p.0, w, u) then (door.0, door.1) else (door.1, door.0);
    var (pu, pv) := (if CellIn(p.0, w, u) then p.0 else p.1, if CellIn(p.0, w, v) then p.0 else p.1);
    if pu == pv {
      ReachInRegion(r, pu, u, v);
    } else {
      ReachInRegion(r, pu, u, near);
      ReachInRegion(r, pv, far, v);
      ReachStep(r, all, u, near, far);
      ReachTrans(r, all, u, far, v);
    }
  }

  /** A pop of a single cell keeps the invariant. */
  lemma PopRegions(r: Maze, stack: seq<Bounds>, doors: seq<(nat, nat)>)
    requires stack != [] && Regions(r, stack, doors) && PossibleSplits(stack[|stack| - 1]) == 0
    ensures Regions(r, stack[..|stack| - 1], doors)
  {
    var w, h, rest := r.width, r.height, stack[..|stack| - 1];
    assert stack == rest + [stack[|stack| - 1]];
    forall i: nat, j: nat
      ensures InStack(stack, w, h, i, j) <==> InStack(rest, w, h, i, j)
    {
      InStackPush(rest, stack[|stack| - 1], w, h, i, j);
      OneCellNoInner(stack[|stack| - 1], w, h, i, j);
    }
  }

  /** Splitting the top region keeps the regions disjoint. */
  lemma SplitDisjoint(stack: seq<Bounds>, s: Split, width: nat)
    requires width > 0 && stack != [] && Proper(stack[|stack| - 1]) && SplitsInside(stack[|stack| - 1], s)
    requires Disjoint(stack, width)
    ensures var p := Sections(stack[|stack| - 1], s);
      Disjoint(stack[..|stack| - 1] + [p.0, p.1], width)
  {
    var b := stack[|stack| - 1];
    var p := Sections(b, s);
    var rest := stack[..|stack| - 1];
    var st := rest + [p.0, p.1];
    forall a, q, i | 0 <= a < q < |st|
      ensures !(CellIn(st[a], width, i) && CellIn(st[q], width, i))
    {
      SectionCells(b, s, width, i);
      if q < |rest| {
        assert st[a] == stack[a] && st[q] == stack[q];
      } else if a < |rest| {
        assert st[a] == stack[a];
        assert !(CellIn(stack[a], width, i) && CellIn(stack[|stack| - 1], width, i));
      }
    }
  }

  /** Splitting the top region and putting back a door across the split
      line keeps the doors apart. */
  lemma SplitDoors(stack: seq<Bounds>, doors: seq<(nat, nat)>, s: Split, door: (nat, nat), width: nat, height: nat)
    requires width > 0 && stack != [] && Proper(stack[|stack| - 1]) && SplitsInside(stack[|stack| - 1], s)
    requires Disjoint(stack, width) && DoorsApart(stack, doors, width, height)
    requires Straddles(stack[|stack| - 1], s, width, height, door.0, door.1)
    ensures var p := Sections(stack[|stack| - 1], s);
      DoorsApart(stack[..|stack| - 1] + [p.0, p.1], doors + [door], width, height)
  {
    var b := stack[|stack| - 1];
    var p := Sections(b, s);
    var rest := stack[..|stack| - 1];
    var st, ds := rest + [p.0, p.1], doors + [door];
    StraddlesSides(b, s, width, height, door.0, door.1);
    SectionCells(b, s, width, door.0);
    SectionCells(b, s, width, door.1);
    forall d, e | 0 <= d < e < |ds|
      ensures !Listed([ds[d]], ds[e].0, ds[e].1)
    {
      if e == |doors| {
        assert !(CellIn(b, width, doors[d].0) && CellIn(b, width, doors[d].1));
      }
    }
    forall k, d | 0 <= k < |st| && 0 <= d < |ds|
      ensures !(CellIn(st[k], width, ds[d].0) && CellIn(st[k], width, ds[d].1))
    {
      if d < |doors| {
        SectionCells(b, s, width, doors[d].0);
        SectionCells(b, s, width, doors[d].1);
        assert !(CellIn(b, width, doors[d].0) && CellIn(b, width, doors[d].1));
        if k < |rest| {
          assert st[k] == stack[k];
        }
      } else if k < |rest| {
        assert st[k] == stack[k];
        assert !(CellIn(b, width, door.0) && CellIn(stack[k], width, door.0));
      }
    }
  }

  /** A pair straddling the split line of the top region lies in no other
      region and is not an earlier door. */
  lemma CrossOnlyHere(stack: seq<Bounds>, doors: seq<(nat, nat)>, s: Split, width: nat, height: nat, i: nat, j: nat)
    requires width > 0 && stack != [] && Proper(stack[|stack| - 1]) && SplitsInside(stack[|stack| - 1], s)
    requires Disjoint(stack, width) && DoorsApart(stack, doors, width, height)
    requires Straddles(stack[|stack| - 1], s, width, height, i, j) || Straddles(stack[|stack| - 1], s, width, height, j, i)
    ensures !InStack(stack[..|stack| - 1], width, height, i, j) && !Listed(doors, i, j)
  {
    var b := stack[|stack| - 1];
    SectionCells(b, s, width, i);
    SectionCells(b, s, width, j);
    assert CellIn(b, width, i) && CellIn(b, width, j);
    forall k | 0 <= k < |stack| - 1
      ensures !Inner(stack[k], width, height, i, j)
    {
      assert !(CellIn(b, width, i) && CellIn(stack[k], width, i));
    }
    forall d | 0 <= d < |doors|
      ensures doors[d] != (i, j) && doors[d] != (j, i)
    {
      assert !(CellIn(b, width, doors[d].0) && CellIn(b, width, doors[d].1));
    }
  }

  /** The passages after a split, one pair at a time: those of the other
      regions and the old doors survive, the region's own pairs are those
      of its sections plus the straddling ones, of which only the door
      survives. */
  lemma SplitLinksAt(stack: seq<Bounds>, doors: seq<(nat, nat)>, s: Split, door: (nat, nat),
                     width: nat, height: nat, cross: seq<(nat, nat)>, before: bool, after: bool, i: nat, j: nat)
    requires width > 0 && stack != [] && Proper(stack[|stack| - 1]) && SplitsInside(stack[|stack| - 1], s)
    requires Disjoint(stack, width) && DoorsApart(stack, doors, width, height)
    requires Listed(cross, i, j) <==>
               Straddles(stack[|stack| - 1], s, width, height, i, j) || Straddles(stack[|stack| - 1], s, width, height, j, i)
    requires before <==> InStack(stack, width, height, i, j) || Listed(doors, i, j)
    requires after <==> (before && !Listed(cross, i, j)) || Listed([door], i, j)
    ensures var p := Sections(stack[|stack| - 1], s);
      after <==> InStack(stack[..|stack| - 1] + [p.0, p.1], width, height, i, j) || Listed(doors + [door], i, j)
  {
    var b := stack[|stack| - 1];
    var p := Sections(b, s);
    var rest := stack[..|stack| - 1];
    assert stack == rest + [b];
    assert rest + [p.0, p.1] == (rest + [p.0]) + [p.1];
    InStackPush(rest, b, width, height, i, j);
    InStackPush(rest, p.0, width, height, i, j);
    InStackPush(rest + [p.0], p.1, width, height, i, j);
    InnerSplit(b, s, width, height, i, j);
    if Listed(cross, i, j) {
      CrossOnlyHere(stack, doors, s, width, height, i, j);
    }
    assert Listed(doors + [door], i, j) <==> Listed(doors, i, j) || Listed([door], i, j);
  }

  /** Cutting the straddling passages of a region and putting one back
      keeps every cell reachable from cell 0. */
  lemma SplitConnected(r: Maze, r': Maze, b: Bounds, s: Split, door: (nat, nat))
    requires ConnWf(r) && FullyConnected(r) && r.width > 0 && |r.nodes| == r.width * r.height
    requires r'.width == r.width && r'.height == r.height && |r'.nodes| == |r.nodes|
    requires InGrid(b, r.width, r.height) && SplitsInside(b, s)
    requires forall i: nat, j: nat :: Linked(r, i, j) ==>
               Linked(r', i, j) || Straddles(b, s, r.width, r.height, i, j) || Straddles(b, s, r.width, r.height, j, i)
    requires forall i: nat, j: nat :: Inner(Sections(b, s).0, r.width, r.height, i, j) ==> Linked(r', i, j)
    requires forall i: nat, j: nat :: Inner(Sections(b, s).1, r.width, r.height, i, j) ==> Linked(r', i, j)
    requires Straddles(b, s, r.width, r.height, door.0, door.1)
    requires Linked(r', door.0, door.1) && Linked(r', door.1, door.0)
    ensures FullyConnected(r')
  {
    var w, h := r.width, r.height;
    var c := set i: nat | i < |r.nodes| && CellIn(b, w, i);
    forall i: nat, j: nat | Linked(r, i, j)
      ensures Linked(r', i, j) || (i in c && j in c)
    {
      if Straddles(b, s, w, h, i, j) {
        StraddlesSides(b, s, w, h, i, j);
      } else if Straddles(b, s, w, h, j, i) {
        StraddlesSides(b, s, w, h, j, i);
      }
    }
    forall u, v | u in c && v in c
      ensures ReachableIn(r', Cells(|r.nodes|), u, v)
    {
      ReachThroughDoor(r', b, s, door, u, v);
    }
    RerouteConnected(r, r', c);
  }

  /** A split of the top region keeps the invariant, with its door added
      to the doors and its sections in its place on the stack. */
  lemma SplitRegions(r: Maze, r': Maze, stack: seq<Bounds>, doors: seq<(nat, nat)>, s: Split, door: (nat, nat))
    requires Valid(r) && SameGrid(r, r') && stack != [] && Regions(r, stack, doors)
    requires SplitsInside(stack[|stack| - 1], s) && door in Crossing(stack[|stack| - 1], s, r.width)
    requires forall i: nat, j: nat :: Linked(r', i, j) <==>
               (Linked(r, i, j) && !Listed(Crossing(stack[|stack| - 1], s, r.width), i, j)) || Listed([door], i, j)
    ensures var p := Sections(stack[|stack| - 1], s);
      Regions(r', stack[..|stack| - 1] + [p.0, p.1], doors + [door])
  {
    var w, h := r.width, r.height;
    var b := stack[|stack| - 1];
    var p := Sections(b, s);
    var rest := stack[..|stack| - 1];
    var st, ds := rest + [p.0, p.1], doors + [door];
    var cross := Crossing(b, s, w);
    CrossingSpec(b, s, w, h);
    assert Straddles(b, s, w, h, door.0, door.1);
    SplitDisjoint(stack, s, w);
    SplitDoors(stack, doors, s, door, w, h);
    forall i: nat, j: nat
      ensures Linked(r', i, j) <==> InStack(st, w, h, i, j) || Listed(ds, i, j)
    {
      SplitLinksAt(stack, doors, s, door, w, h, cross, Linked(r, i, j), Linked(r', i, j), i, j);
    }
    forall i: nat, j: nat | Inner(p.0, w, h, i, j)
      ensures Linked(r', i, j)
    {
      assert st[|rest|] == p.0;
    }
    forall i: nat, j: nat | Inner(p.1, w, h, i, j)
      ensures Linked(r', i, j)
    {
      assert st[|rest| + 1] == p.1;
    }
    SplitConnected(r, r', b, s, door);
    assert AllInGrid(st, w, h) by {
      assert forall k :: 0 <= k < |rest| ==> st[k] == stack[k];
    }
  }

  /** After the setup of a maze that had no passages, the whole grid is
      the only region, every neighbour pair is open, and there are no
      doors yet. */
  lemma InitialRegions(m: Maze, r: Maze, bounds: Bounds)
    requires Valid(m) && NoLinks(m) && SameGrid(m, r) && |m.nodes| >= 2
    requires forall i: nat, j: nat :: Linked(r, i, j) <==> Linked(m, i, j) || (i < |m.nodes| && j in m.nodes[i].neighbors)
    requires bounds == Box(0, m.width - 1, 0, m.height - 1)
    ensures Regions(r, [bounds], [])
  {
    var w, h, n := m.width, m.height, |m.nodes|;
    forall i: nat, j: nat
      ensures Linked(r, i, j) <==> Inner(bounds, w, h, i, j)
    {
      if i < n {
        ShapedNeighbors(m, i);
        NeighborsSpec(w, h, i);
        IndexOfCoords(w, h, i);
      }
      if j < n {
        IndexOfCoords(w, h, j);
      }
    }
    forall i: nat, j: nat
      ensures InStack([bounds], w, h, i, j) <==> Inner(bounds, w, h, i, j)
    {
      assert [bounds][0] == bounds;
    }
    forall v: nat | v < n
      ensures ReachableIn(r, Cells(n), 0, v)
    {
      IndexOfCoords(w, h, 0);
      IndexOfCoords(w, h, v);
      ReachInRegion(r, bounds, 0, v);
    }
  }

  /** With the stack empty, the passages are exactly the doors: a
      connected maze with one passage per door. */
  lemma FinishedRegions(r: Maze, doors: seq<(nat, nat)>)
    requires ConnWf(r) && Regions(r, [], doors)
    ensures FullyConnected(r) && EdgeCount(r) == |doors|
  {
    assert DistinctPairs(doors, |r.nodes|);
    PassagesOfPairs(r, doors);
  }

  /** One pass of the main loop: pop the last region and push the
      sections it splits into. The work left drops by exactly one; a
      split adds one region and one door, a single cell removes one
      region; and the pass keeps the invariant of `Regions`. */
  method Pass(m: Maze, r: Maze, stack: seq<Bounds>, splitDraw: nat, doorDraw: nat, ghost doors: seq<(nat, nat)>)
    returns (r': Maze, stack': seq<Bounds>, ghost doors': seq<(nat, nat)>)
    requires SameGrid(m, r) && stack != [] && AllInGrid(stack, m.width, m.height)
    ensures SameGrid(m, r') && AllInGrid(stack', m.width, m.height)
    ensures Work(stack') == Work(stack) - 1
    ensures |stack'| + 2 * |doors| + 1 == |stack| + 2 * |doors'|
    ensures Regions(r, stack, doors) ==> Regions(r', stack', doors')
  {
    var section := stack[|stack| - 1];
    var rest := stack[..|stack| - 1];
    assert AllInGrid(rest, m.width, m.height);
    var sections;
    r', sections := SplitSection(r, section, splitDraw, doorDraw);
    SplitWork(section, splitDraw, sections, m.width, m.height);
    WorkAppend(rest, sections);
    stack' := rest + sections;
    SameGridTrans(m, r, r');
    if PossibleSplits(section) == 0 {
      doors' := doors;
      if Regions(r, stack, doors) {
        PopRegions(r, stack, doors);
        assert stack' == rest;
      }
    } else {
      var s := ChooseSplit(section, splitDraw);
      var door := Door(section, s, m.width, doorDraw);
      doors' := doors + [door];
      if Regions(r, stack, doors) {
        SplitRegions(r, r', stack, doors, s, door);
      }
    }
  }

  /** The whole generator: connect everything, then split regions from a
      stack until every region is a single cell. On a grid of `n >= 2`
      cells the main loop runs exactly `2n - 1` times (each region of
      area `a` is split once per interior wall line it gains plus one
      final pop per cell), and the result is still a maze on the same
      grid. Started from a maze without passages, the result is a
      spanning tree: connected, with `n - 1` passages, one door per
      split. */
  method Generate(m: Maze, draws: nat -> nat) returns (r: Maze, passes: nat)
    requires Valid(m) && |m.nodes| >= 2
    ensures SameGrid(m, r)
    ensures passes == 2 * |m.nodes| - 1
    ensures NoLinks(m) ==> FullyConnected(r) && EdgeCount(r) == |m.nodes| - 1
  {
    var bounds;
    r, bounds := Setup(m);
    var stack := [bounds];
    assert Work(stack) == 2 * Area(bounds) - 1 by {
      assert stack[..0] == [];
    }
    SizeCounts(bounds);
    ghost var doors: seq<(nat, nat)> := [];
    if NoLinks(m) {
      InitialRegions(m, r, bounds);
    }
    passes := 0;
    while stack != []
      invariant SameGrid(m, r) && AllInGrid(stack, m.width, m.height)
      invariant Work(stack) + passes == 2 * |m.nodes| - 1
      invariant passes + |stack| == 2 * |doors| + 1
      invariant NoLinks(m) ==> Regions(r, stack, doors)
      decreases Work(stack)
    {
      WorkAtLeast(stack, m.width, m.height);
      r, stack, doors := Pass(m, r, stack, draws(2 * passes), draws(2 * passes + 1), doors);
      passes := passes + 1;
    }
    if NoLinks(m) {
      FinishedRegions(r, doors);
    }
  }
}
