/** Geometry of the rectangular lattice a maze lives on: row-major cell
    indices, their coordinates, and the fixed 4-neighbour adjacency that the
    maze constructor wires up once and never changes. */
module Grid {

  /** Index of the cell in column `x` of row `y`, counted row by row. */
  function CellIndex(width: nat, x: nat, y: nat): (i: nat)
  {
    y * width + x
  }

  /** Column of cell `i`. */
  function X(width: nat, i: nat): (x: nat)
    requires width > 0
  {
    i % width
  }

  /** Row of cell `i`. */
  function Y(width: nat, i: nat): (y: nat)
    requires width > 0
  {
    i / width
  }

  /** The set of all cell indices of a grid with `count` cells. */
  function Cells(count: nat): (s: set<nat>)
    ensures forall i: nat :: i in s <==> i < count
    ensures |s| == count
  {
    if count == 0 then {} else
      var s := Cells(count - 1);
      assert count - 1 !in s;
      s + {count - 1}
  }

  /** Coordinates and index are inverse to each other. */
  lemma CoordsOfIndex(width: nat, x: nat, y: nat)
    requires x < width
    ensures X(width, CellIndex(width, x, y)) == x
    ensures Y(width, CellIndex(width, x, y)) == y
  {
    DivModUnique(y * width + x, width, y, x);
  }

  /** Euclidean division is unique: a quotient and remainder in range are the
      ones Dafny's `/` and `%` produce. */
  lemma DivModUnique(i: nat, w: nat, q: nat, r: nat)
    requires w > 0 && r < w && i == q * w + r
    ensures i / w == q && i % w == r
  {
    var q', r' := i / w, i % w;
    var d := q' - q;
    assert q' * w + r' == q * w + r;
    assert d * w == q' * w - q * w;
    assert (-d) * w == -(d * w);
    MulAtLeast(d, w);
    MulAtLeast(-d, w);
  }

  lemma MulAtLeast(a: int, w: int)
    ensures w > 0 && a >= 1 ==> a * w >= w
  {
    if w > 0 && a >= 1 {
      assert a * w == (a - 1) * w + w;
      assert (a - 1) * w >= 0;
    }
  }

  /** The last cell of the grid sits in its bottom-right corner, and a
      grid of one cell is one wide and one high. */
  lemma Corners(width: nat, height: nat)
    requires width > 0 && height > 0
    ensures X(width, width * height - 1) == width - 1 && Y(width, width * height - 1) == height - 1
    ensures width * height == 1 ==> width == 1 && height == 1
  {
    assert width * height - 1 == (height - 1) * width + (width - 1);
    DivModUnique(width * height - 1, width, height - 1, width - 1);
    MulAtLeast(height, width);
    MulAtLeast(width, height);
  }

  lemma IndexOfCoords(width: nat, height: nat, i: nat)
    requires width > 0 && i < width * height
    ensures CellIndex(width, X(width, i), Y(width, i)) == i
    ensures X(width, i) < width && Y(width, i) < height
  {
    var q := i / width;
    assert i == q * width + i % width;
    MulAtLeast(q - height + 1, width);
    assert (q - height + 1) * width == q * width - height * width + width;
  }

  /** Rows 0 to `y` of a grid at least `y + 1` rows high fit inside it. */
  lemma RowsFit(width: nat, height: nat, y: nat)
    requires y < height
    ensures (y + 1) * width <= width * height
  {
    var d := height - (y + 1);
    assert d * width >= 0;
    assert width * height == (y + 1) * width + d * width;
  }

  /** Multiplication commutes: rows times width is width times rows. */
  lemma MulCommutes(width: nat, height: nat)
    ensures height * width == width * height
  {
  }

  lemma IndexInRange(width: nat, height: nat, x: nat, y: nat)
    requires x < width && y < height
    ensures CellIndex(width, x, y) < width * height
  {
    assert y * width + x < (y + 1) * width;
    RowsFit(width, height, y);
  }

  /** The neighbours the constructor wires to the cell at (x, y): the
      in-bounds cells among left, right, up and down, in that order. */
  function NeighborsAt(width: nat, height: nat, x: nat, y: nat): (ns: seq<nat>)
  {
    (if x > 0 then [CellIndex(width, x - 1, y)] else [])
    + (if x + 1 < width then [CellIndex(width, x + 1, y)] else [])
    + (if y > 0 then [CellIndex(width, x, y - 1)] else [])
    + (if y + 1 < height then [CellIndex(width, x, y + 1)] else [])
  }

  /** The neighbours of cell `i`. */
  function NeighborsOf(width: nat, height: nat, i: nat): (ns: seq<nat>)
    requires width > 0
  {
    NeighborsAt(width, height, X(width, i), Y(width, i))
  }

  /** Reference adjacency: two in-range cells at Manhattan distance one. */
  ghost predicate Adjacent(width: nat, height: nat, i: nat, j: nat)
    requires width > 0
  {
    && i < width * height && j < width * height
    && ((Y(width, i) == Y(width, j) && (X(width, j) + 1 == X(width, i) || X(width, i) + 1 == X(width, j)))
        || (X(width, i) == X(width, j) && (Y(width, j) + 1 == Y(width, i) || Y(width, i) + 1 == Y(width, j))))
  }

  /** The constructed neighbour list holds exactly the adjacent cells, each
      once. */
  lemma NeighborsSpec(width: nat, height: nat, i: nat)
    requires width > 0 && i < width * height
    ensures forall j :: j in NeighborsOf(width, height, i) <==> Adjacent(width, height, i, j)
    ensures forall p, q :: 0 <= p < q < |NeighborsOf(width, height, i)| ==>
              NeighborsOf(width, height, i)[p] != NeighborsOf(width, height, i)[q]
  {
    var x, y := X(width, i), Y(width, i);
    IndexOfCoords(width, height, i);
    if x > 0 {
      CoordsOfIndex(width, x - 1, y);
      IndexInRange(width, height, x - 1, y);
    }
    if x + 1 < width {
      CoordsOfIndex(width, x + 1, y);
      IndexInRange(width, height, x + 1, y);
    }
    if y > 0 {
      CoordsOfIndex(width, x, y - 1);
      IndexInRange(width, height, x, y - 1);
    }
    if y + 1 < height {
      CoordsOfIndex(width, x, y + 1);
      IndexInRange(width, height, x, y + 1);
    }
    forall j | Adjacent(width, height, i, j)
      ensures j in NeighborsOf(width, height, i)
    {
      IndexOfCoords(width, height, j);
    }
  }

  /** The cell to the right of (x, y) and the cell below it are among its
      neighbours, and the one below is `width` further on. */
  lemma RightAndBelow(width: nat, height: nat, x: nat, y: nat)
    requires x < width && y < height
    ensures CellIndex(width, x, y) < width * height
    ensures x + 1 < width ==> CellIndex(width, x + 1, y) in NeighborsOf(width, height, CellIndex(width, x, y))
    ensures CellIndex(width, x, y + 1) == CellIndex(width, x, y) + width
    ensures y + 1 < height ==> CellIndex(width, x, y + 1) in NeighborsOf(width, height, CellIndex(width, x, y))
  {
    CoordsOfIndex(width, x, y);
    IndexInRange(width, height, x, y);
    assert (y + 1) * width == y * width + width;
  }

  /** The neighbour relation is symmetric and irreflexive. */
  lemma NeighborsSymmetric(width: nat, height: nat, i: nat, j: nat)
    requires width > 0 && i < width * height
    requires j in NeighborsOf(width, height, i)
    ensures j < width * height && j != i
    ensures i in NeighborsOf(width, height, j)
  {
    NeighborsSpec(width, height, i);
    NeighborsSpec(width, height, j);
  }

  /** Every cell of a grid with at least two cells has a neighbour. */
  lemma NeighborsNonEmpty(width: nat, height: nat, i: nat)
    requires width > 0 && i < width * height && width * height >= 2
    ensures |NeighborsOf(width, height, i)| > 0
  {
    IndexOfCoords(width, height, i);
    if width == 1 {
      assert width * height == height;
    }
  }

  /** The neighbours with a smaller index are the left one (when the cell is
      not in column 0) and the upper one (when it is not in row 0). */
  lemma NeighborsBelow(width: nat, height: nat, i: nat)
    requires width > 0 && i < width * height
    ensures forall j :: j in NeighborsOf(width, height, i) && j < i ==>
              (j + 1 == i && X(width, i) > 0) || (j + width == i && Y(width, i) > 0)
    ensures X(width, i) > 0 ==> i - 1 in NeighborsOf(width, height, i)
    ensures X(width, i) == 0 && i > 0 ==> i >= width && i - width in NeighborsOf(width, height, i)
  {
    IndexOfCoords(width, height, i);
    var x, y := X(width, i), Y(width, i);
    var yw := y * width;
    assert i == yw + x;
    if y > 0 {
      assert CellIndex(width, x, y - 1) == yw - width + x by {
        assert (y - 1) * width == yw - width;
      }
    }
    assert CellIndex(width, x, y + 1) == yw + width + x by {
      assert (y + 1) * width == yw + width;
    }
    if x == 0 && i > 0 {
      MulAtLeast(y, width);
    }
  }

  /** The grid is connected: a set of cells that holds cell 0 and is closed
      under taking neighbours holds every cell. */
  lemma {:induction false} ClosedSetIsEverything(width: nat, height: nat, s: set<nat>)
    requires width > 0
    requires 0 < width * height ==> 0 in s
    requires forall i, j :: i in s && i < width * height && j in NeighborsOf(width, height, i) ==> j in s
    ensures forall i: nat :: i < width * height ==> i in s
  {
    forall i: nat | i < width * height
      ensures i in s
    {
      ReachesCell(width, height, s, i);
    }
  }

  lemma {:induction false} ReachesCell(width: nat, height: nat, s: set<nat>, i: nat)
    requires width > 0 && i < width * height
    requires 0 in s
    requires forall i, j :: i in s && i < width * height && j in NeighborsOf(width, height, i) ==> j in s
    ensures i in s
    decreases i
  {
    if i > 0 {
      IndexOfCoords(width, height, i);
      var x, y := X(width, i), Y(width, i);
      if x > 0 {
        var l := CellIndex(width, x - 1, y);
        CoordsOfIndex(width, x - 1, y);
        IndexInRange(width, height, x - 1, y);
        ReachesCell(width, height, s, l);
        NeighborsSpec(width, height, l);
      } else {
        var u := CellIndex(width, x, y - 1);
        CoordsOfIndex(width, x, y - 1);
        IndexInRange(width, height, x, y - 1);
        ReachesCell(width, height, s, u);
        NeighborsSpec(width, height, u);
      }
    }
  }

  /** A subset as large as its superset is the whole superset. */
  lemma SameSizeSubset(a: set<nat>, b: set<nat>)
    requires a <= b && |a| == |b|
    ensures a == b
  {
    assert b == a + (b - a);
    assert |b| == |a| + |b - a|;
  }

  /** A subset is no larger than its superset. */
  lemma SubsetSize(a: set<nat>, b: set<nat>)
    requires a <= b
    ensures |a| <= |b|
  {
    assert b == a + (b - a);
    assert |b| == |a| + |b - a|;
  }
}
