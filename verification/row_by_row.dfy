/** `RowByRowGenerator` (ts/maze/generators/row-by-row.ts), Eller's
    algorithm. The maze is carved one row at a time while the generator
    remembers, for each cell of the current row only, which set of
    connected cells it belongs to.

    The source keeps one `Set<Node>` object per set and compares sets by
    reference. Here a row of sets is a sequence of set ids, one per column,
    and two cells share a set exactly when their ids are equal; a set holds
    exactly the cells of its row carrying its id. A set carried down to the
    next row keeps its id (the source makes a fresh object, but no other set
    of the new row shares it), and a fresh singleton for the cell (x, y) is
    named by that cell's index. */
module RowByRow {
  import opened Grid
  import opened Mazes
  import opened Graphs
  import opened Draws
  import opened Wrappers
  import opened Forests

  // ---------------------------------------------------------------------
  // Rows of sets

  /** `firstRowSets`: each cell of row 0 alone in a set of its own. */
  function FirstRow(width: nat): (row: seq<nat>)
    ensures |row| == width
    ensures forall x, x' :: 0 <= x < width && 0 <= x' < width ==> (row[x] == row[x'] <==> x == x')
  {
    seq(width, x => x)
  }

  /** The columns among the first `k` whose set is `id`, left to right:
      the nodes of that set, as `Array.from(set)` lists them (up to order,
      which the random pick makes irrelevant). */
  function Columns(row: seq<nat>, id: nat, k: nat): (xs: seq<nat>)
    requires k <= |row|
    ensures forall x :: x in xs <==> 0 <= x < k && row[x] == id
    ensures forall p :: 0 <= p < |xs| ==> xs[p] < k
    ensures NoDup(xs)
  {
    if k == 0 then []
    else
      var xs := Columns(row, id, k - 1);
      if row[k - 1] == id then xs + [k - 1] else xs
  }

  /** `new Set(prevRowSets)`: the sets of a row, each once, in the order
      they first appear. */
  function Distinct(row: seq<nat>): (ids: seq<nat>)
    ensures NoDup(ids)
    ensures forall v :: v in ids <==> v in row
  {
    if row == [] then []
    else
      var ids := Distinct(row[..|row| - 1]);
      var v := row[|row| - 1];
      assert forall u :: u in row <==> u in row[..|row| - 1] || u == v;
      if v in ids then ids else ids + [v]
  }

  /** The merge in `randomlyConnectAcrossRow` (set of column `x + 1` into
      the set of column `x`): every cell of the right-hand set now points
      at the left-hand set, which holds both, and no other slot changes. */
  lemma MergeAcross(row: seq<nat>, x: nat)
    requires x + 1 < |row|
    ensures var row' := MergeInto(row, x, x + 1);
      && |row'| == |row|
      && (forall z :: 0 <= z < |row| ==> (row'[z] == row[x] <==> row[z] == row[x] || row[z] == row[x + 1]))
      && (forall z :: 0 <= z < |row| && row[z] != row[x + 1] ==> row'[z] == row[z])
      && row'[x + 1] == row'[x]
  {
  }

  /** `fillRemainingSets`: every slot still undefined gets a fresh
      singleton, named by its cell's index; the others keep their set. */
  function Fill(slots: seq<Option<nat>>, width: nat, y: nat): (row: seq<nat>)
    requires |slots| == width
    ensures |row| == width
    ensures forall x :: 0 <= x < width && slots[x].Some? ==> row[x] == slots[x].value
    ensures forall x :: 0 <= x < width && slots[x].None? ==> row[x] == CellIndex(width, x, y)
  {
    seq(width, x requires 0 <= x < width => if slots[x].Some? then slots[x].value else CellIndex(width, x, y))
  }

  /** When the sets carried down all come from earlier rows, the sets
      `Fill` creates are new and hold one cell each. */
  lemma FillFresh(slots: seq<Option<nat>>, width: nat, y: nat)
    requires |slots| == width
    requires forall x :: 0 <= x < width && slots[x].Some? ==> slots[x].value < y * width
    ensures var row := Fill(slots, width, y);
      forall x, x' :: 0 <= x < width && 0 <= x' < width && slots[x].None? ==> (row[x] == row[x'] <==> x == x')
  {
  }

  // ---------------------------------------------------------------------
  // The invariant

  /** Cell `i` is a set by itself, named by its own index. */
  ghost predicate Single(owner: seq<nat>, i: nat)
  {
    i < |owner| && owner[i] == i && forall j :: 0 <= j < |owner| && owner[j] == i ==> j == i
  }

  /** The row of sets shows the sets of the cells of row `y`. */
  ghost predicate RowView(owner: seq<nat>, width: nat, y: nat, row: seq<nat>)
  {
    && |row| == width && (y + 1) * width <= |owner|
    && forall x :: 0 <= x < width ==> row[x] == owner[CellIndex(width, x, y)]
  }

  /** Each of the first `k` cells is in a set shown in `row`. */
  ghost predicate Reach(owner: seq<nat>, k: nat, row: seq<nat>)
  {
    forall i :: 0 <= i < k && i < |owner| ==> owner[i] in row
  }

  /** Cells from `k` on are still alone, and so untouched by any passage. */
  ghost predicate Untouched(owner: seq<nat>, k: nat)
  {
    forall i :: k <= i < |owner| ==> Single(owner, i)
  }

  /** The state after row `y` is finished: the passages carved from the
      empty maze `m0` form trees, the sets are exactly those trees, every
      tree reaches row `y` and the rows below are untouched. */
  ghost predicate RowInv(m0: Maze, maze: Maze, owner: seq<nat>, y: nat, row: seq<nat>)
  {
    && Forest(m0, maze, owner) && m0.width > 0 && y < m0.height
    && RowView(owner, m0.width, y, row)
    && Reach(owner, (y + 1) * m0.width, row)
    && Untouched(owner, (y + 1) * m0.width)
  }

  /** Row 0 before any passage. */
  lemma StartRowInv(m: Maze)
    requires Valid(m) && NoLinks(m)
    ensures RowInv(m, m, SingletonIds(|m.nodes|), 0, FirstRow(m.width))
  {
    var w, n := m.width, |m.nodes|;
    var owner, row := SingletonIds(n), FirstRow(w);
    StartForest(m);
    MulAtLeast(m.height, w);
    forall x | 0 <= x < w
      ensures row[x] == owner[CellIndex(w, x, 0)]
    {
      assert CellIndex(w, x, 0) == x;
    }
    forall i | 0 <= i < w && i < n
      ensures owner[i] in row
    {
      assert row[i] == i;
    }
  }

  // ---------------------------------------------------------------------
  // Across a row

  /** The passage between columns `x` and `x + 1` of row `y`, in either
      direction. */
  predicate Beside(width: nat, y: nat, x: nat, i: nat, j: nat)
  {
    var a := CellIndex(width, x, y);
    (i == a && j == a + 1) || (i == a + 1 && j == a)
  }

  /** A passage of row `y` between a column of `joined` and the next. */
  ghost predicate Across(joined: set<nat>, width: nat, y: nat, i: nat, j: nat)
  {
    exists x :: x in joined && Beside(width, y, x, i, j)
  }

  /** One pass of the loop in `randomlyConnectAcrossRow`, at column `x`:
      cells already in one set are skipped without a draw; otherwise a draw
      decides (with chance one half, or always on the last row) whether the
      two are connected and their sets merged. */
  method JoinAcross(ghost m0: Maze, maze: Maze, ghost owner: seq<nat>, y: nat, row: seq<nat>, x: nat,
                    always: bool, draws: nat -> nat, t: nat)
    returns (maze': Maze, ghost owner': seq<nat>, row': seq<nat>, joined: bool, t': nat)
    requires RowInv(m0, maze, owner, y, row) && x + 1 < |row|
    ensures RowInv(m0, maze', owner', y, row')
    ensures row[x] == row[x + 1] ==> !joined && t' == t
    ensures row[x] != row[x + 1] ==> joined == (always || Coin(draws(t))) && t' == t + 1
    ensures !joined ==> maze' == maze && row' == row
    ensures joined ==> AddsPassage(maze, maze', CellIndex(m0.width, x, y), CellIndex(m0.width, x + 1, y))
    ensures joined ==> row' == MergeInto(row, x, x + 1) && row[x] != row[x + 1]
  {
    maze', owner', row', joined, t' := maze, owner, row, false, t;
    if row[x] == row[x + 1] {
      return;
    }
    t' := t + 1;
    if always || Coin(draws(t)) {
      var w := maze.width;
      var a, b := CellIndex(w, x, y), CellIndex(w, x + 1, y);
      RightAndBelow(w, m0.height, x, y);
      assert CellIndex(w, x + 1, y) == a + 1;
      assert !Linked(maze, a, b);
      maze' := AddPassage(maze, a, b);
      owner' := MergeInto(owner, a, b);
      row' := MergeInto(row, x, x + 1);
      joined := true;
      MergeKeepsRowInv(m0, maze, owner, y, row, x, maze', owner', row');
    }
  }

  /** Merging the sets of two neighbours of row `y` keeps the invariant. */
  lemma MergeKeepsRowInv(m0: Maze, maze: Maze, owner: seq<nat>, y: nat, row: seq<nat>, x: nat,
                         maze': Maze, owner': seq<nat>, row': seq<nat>)
    requires RowInv(m0, maze, owner, y, row) && x + 1 < |row| && row[x] != row[x + 1]
    requires var w := m0.width;
      && CellIndex(w, x, y) < |owner| && CellIndex(w, x + 1, y) < |owner|
      && CellIndex(w, x + 1, y) in m0.nodes[CellIndex(w, x, y)].neighbors
      && AddsPassage(maze, maze', CellIndex(w, x, y), CellIndex(w, x + 1, y))
      && Merged(owner, owner', CellIndex(w, x, y), CellIndex(w, x + 1, y))
      && row' == MergeInto(row, x, x + 1)
    ensures RowInv(m0, maze', owner', y, row')
  {
    var w := m0.width;
    var a, b := CellIndex(w, x, y), CellIndex(w, x + 1, y);
    JoinKeepsForest(m0, maze, owner, maze', owner', a, b);
    forall i | 0 <= i < (y + 1) * w && i < |owner'|
      ensures owner'[i] in row'
    {
      var z :| 0 <= z < |row| && row[z] == owner[i];
      assert row'[z] == owner'[i];
    }
    forall i | (y + 1) * w <= i < |owner'|
      ensures Single(owner', i)
    {
      assert Single(owner, i);
      assert owner[a] != i && owner[b] != i;
    }
  }

  /** The loop of `randomlyConnectAcrossRow` before column `x`, starting
      from `maze` and `row`: sets have only merged, each carved passage
      joins a column of `joined` to the next, those two now share a set,
      and the sets dropped by one per passage. On the last row every column
      so far shares the first column's set. */
  ghost predicate AcrossSoFar(width: nat, maze: Maze, row: seq<nat>, y: nat, always: bool,
                              maze': Maze, row': seq<nat>, joined: set<nat>, x: nat)
  {
    var w := |row|;
    && x <= w && |row'| == w
    && (forall a, b :: 0 <= a < w && 0 <= b < w && row[a] == row[b] ==> row'[a] == row'[b])
    && (forall z :: 0 <= z < w ==> row'[z] in row)
    && (forall c :: c in joined ==> c < x && c + 1 < w && row'[c] == row'[c + 1])
    && |Ids(row')| + |joined| == |Ids(row)|
    && (forall i: nat, j: nat :: Linked(maze', i, j) <==> Linked(maze, i, j) || Across(joined, width, y, i, j))
    && (always ==> forall z :: 0 <= z <= x && z < w ==> row'[z] == row'[0])
  }

  /** A column without a passage keeps the loop's facts. */
  lemma AcrossSkip(width: nat, maze: Maze, row: seq<nat>, y: nat, always: bool,
                   maze': Maze, row': seq<nat>, joined: set<nat>, x: nat)
    requires AcrossSoFar(width, maze, row, y, always, maze', row', joined, x) && x + 1 < |row|
    requires always ==> row'[x] == row'[x + 1]
    ensures AcrossSoFar(width, maze, row, y, always, maze', row', joined, x + 1)
  {
  }

  /** A column with a passage keeps the loop's facts, with `x` joined. */
  lemma AcrossJoin(width: nat, maze: Maze, row: seq<nat>, y: nat, always: bool,
                   maze1: Maze, row1: seq<nat>, joined: set<nat>, x: nat, maze2: Maze, row2: seq<nat>)
    requires AcrossSoFar(width, maze, row, y, always, maze1, row1, joined, x) && x + 1 < |row|
    requires row1[x] != row1[x + 1] && row2 == MergeInto(row1, x, x + 1)
    requires AddsPassage(maze1, maze2, CellIndex(width, x, y), CellIndex(width, x + 1, y))
    ensures AcrossSoFar(width, maze, row, y, always, maze2, row2, joined + {x}, x + 1)
  {
    AcrossStep(maze, maze1, maze2, joined, width, y, x);
    JoinIds(row1, row2, x, x + 1);
    MergeCoarsens(row, row1, x, row2, always);
  }

  /** One column further along the row. */
  method AcrossPass(ghost m0: Maze, ghost maze: Maze, ghost row: seq<nat>, y: nat, always: bool, draws: nat -> nat,
                    maze1: Maze, ghost owner1: seq<nat>, row1: seq<nat>, joined1: set<nat>, x: nat, t: nat)
    returns (maze2: Maze, ghost owner2: seq<nat>, row2: seq<nat>, joined2: set<nat>, t': nat)
    requires RowInv(m0, maze1, owner1, y, row1)
    requires AcrossSoFar(m0.width, maze, row, y, always, maze1, row1, joined1, x) && x + 1 < |row|
    ensures RowInv(m0, maze2, owner2, y, row2)
    ensures AcrossSoFar(m0.width, maze, row, y, always, maze2, row2, joined2, x + 1)
  {
    var step;
    maze2, owner2, row2, step, t' := JoinAcross(m0, maze1, owner1, y, row1, x, always, draws, t);
    if step {
      AcrossJoin(m0.width, maze, row, y, always, maze1, row1, joined1, x, maze2, row2);
      joined2 := joined1 + {x};
    } else {
      AcrossSkip(m0.width, maze, row, y, always, maze1, row1, joined1, x);
      joined2 := joined1;
    }
  }

  /** `randomlyConnectAcrossRow` on row `y`. Sets only merge, each passage
      carved joins two sets that were apart (so the number of sets drops by
      one per passage), and on the last row every cell ends in one set. */
  method AcrossRow(ghost m0: Maze, maze: Maze, ghost owner: seq<nat>, y: nat, row: seq<nat>,
                   always: bool, draws: nat -> nat, t: nat)
    returns (maze': Maze, ghost owner': seq<nat>, row': seq<nat>, joined: set<nat>, t': nat)
    requires RowInv(m0, maze, owner, y, row)
    ensures RowInv(m0, maze', owner', y, row')
    ensures forall a, b :: 0 <= a < |row| && 0 <= b < |row| && row[a] == row[b] ==> row'[a] == row'[b]
    ensures forall z :: 0 <= z < |row| ==> row'[z] in row
    ensures forall x :: x in joined ==> x + 1 < |row| && row'[x] == row'[x + 1]
    ensures |Ids(row')| + |joined| == |Ids(row)|
    ensures forall i: nat, j: nat :: Linked(maze', i, j) <==> Linked(maze, i, j) || Across(joined, m0.width, y, i, j)
    ensures always ==> forall z :: 0 <= z < |row| ==> row'[z] == row'[0]
  {
    maze', owner', row', joined, t' := maze, owner, row, {}, t;
    var x := 0;
    while x + 1 < |row|
      invariant RowInv(m0, maze', owner', y, row')
      invariant AcrossSoFar(m0.width, maze, row, y, always, maze', row', joined, x)
      decreases |row| - x
    {
      maze', owner', row', joined, t' := AcrossPass(m0, maze, row, y, always, draws, maze', owner', row', joined, x, t');
      x := x + 1;
    }
  }

  /** The passages after one more join across. */
  lemma AcrossStep(maze: Maze, before: Maze, after: Maze, joined: set<nat>, width: nat, y: nat, x: nat)
    requires x !in joined
    requires forall i: nat, j: nat :: Linked(before, i, j) <==> Linked(maze, i, j) || Across(joined, width, y, i, j)
    requires AddsPassage(before, after, CellIndex(width, x, y), CellIndex(width, x + 1, y))
    ensures forall i: nat, j: nat :: Linked(after, i, j) <==> Linked(maze, i, j) || Across(joined + {x}, width, y, i, j)
  {
    assert CellIndex(width, x + 1, y) == CellIndex(width, x, y) + 1;
    forall i: nat, j: nat
      ensures Across(joined + {x}, width, y, i, j) <==> Across(joined, width, y, i, j) || Beside(width, y, x, i, j)
    {
      if Across(joined + {x}, width, y, i, j) {
        var c :| c in joined + {x} && Beside(width, y, c, i, j);
      }
    }
  }

  /** A merge across keeps every earlier fact about the row. */
  lemma MergeCoarsens(row: seq<nat>, before: seq<nat>, x: nat, after: seq<nat>, always: bool)
    requires |before| == |row| && x + 1 < |row| && before[x] != before[x + 1]
    requires after == MergeInto(before, x, x + 1)
    requires forall a, b :: 0 <= a < |row| && 0 <= b < |row| && row[a] == row[b] ==> before[a] == before[b]
    requires forall z :: 0 <= z < |row| ==> before[z] in row
    requires always ==> forall z :: 0 <= z <= x ==> before[z] == before[0]
    ensures forall a, b :: 0 <= a < |row| && 0 <= b < |row| && row[a] == row[b] ==> after[a] == after[b]
    ensures forall z :: 0 <= z < |row| ==> after[z] in row
    ensures forall c :: 0 <= c && c + 1 < |row| && before[c] == before[c + 1] ==> after[c] == after[c + 1]
    ensures after[x] == after[x + 1]
    ensures always ==> forall z :: 0 <= z <= x + 1 ==> after[z] == after[0]
  {
  }

  // ---------------------------------------------------------------------
  // Down to the next row

  /** `nodes.splice(r, 1)`: the list without its entry at `r`. */
  function Splice(xs: seq<nat>, r: nat): (ys: seq<nat>)
    requires r < |xs|
    ensures |ys| + 1 == |xs|
    ensures NoDup(xs) ==> NoDup(ys) && forall v :: v in ys <==> v in xs && v != xs[r]
  {
    var ys := xs[..r] + xs[r + 1..];
    assert forall p :: 0 <= p < |ys| ==> ys[p] == if p < r then xs[p] else xs[p + 1];
    assert forall v :: v in xs <==> v in ys || v == xs[r] by {
      forall v | v in xs
        ensures v in ys || v == xs[r]
      {
        var p :| 0 <= p < |xs| && xs[p] == v;
        if p < r {
          assert ys[p] == v;
        } else if p > r {
          assert ys[p - 1] == v;
        }
      }
    }
    ys
  }

  /** A passage from row `y - 1` down to the cell `j` of row `y` whose slot
      holds a set carried down. */
  predicate Down(slots: seq<Option<nat>>, width: nat, y: nat, i: nat, j: nat)
  {
    y * width <= j < y * width + |slots| && i + width == j && slots[j - y * width].Some?
  }

  /** A carried-down passage, in either direction. */
  predicate Vertical(slots: seq<Option<nat>>, width: nat, y: nat, i: nat, j: nat)
  {
    Down(slots, width, y, i, j) || Down(slots, width, y, j, i)
  }

  /** The passages of `maze` are those of `start` and one down to each cell
      of row `y` whose slot is filled. */
  ghost predicate DownLinks(start: Maze, maze: Maze, slots: seq<Option<nat>>, width: nat, y: nat)
  {
    forall i: nat, j: nat :: Linked(maze, i, j) <==> Linked(start, i, j) || Vertical(slots, width, y, i, j)
  }

  /** Column `x` of row `y`: a filled slot holds the set of the cell above,
      which now also holds this cell; an empty one leaves the cell alone. */
  ghost predicate Hangs(owner: seq<nat>, width: nat, y: nat, prev: seq<nat>, slots: seq<Option<nat>>, x: nat)
    requires x < |slots| && x < |prev| && CellIndex(width, x, y) < |owner|
  {
    if slots[x].Some? then slots[x].value == prev[x] && owner[CellIndex(width, x, y)] == prev[x]
    else Single(owner, CellIndex(width, x, y))
  }

  /** The sets seen from rows `y - 1` and `y` inside `randomlyConnectDown`:
      the finished row `y - 1` with every earlier tree reaching it, the
      slots of row `y`, and the rows below untouched. */
  ghost predicate Hanging(owner: seq<nat>, width: nat, y: nat, prev: seq<nat>, slots: seq<Option<nat>>)
  {
    && 1 <= y && RowView(owner, width, y - 1, prev)
    && (y + 1) * width <= |owner|
    && Reach(owner, y * width, prev)
    && Untouched(owner, (y + 1) * width)
    && |slots| == width
    && forall x :: 0 <= x < width ==> Hangs(owner, width, y, prev, slots, x)
  }

  /** The state inside `randomlyConnectDown` into row `y`: the forest and
      the sets it shows from rows `y - 1` and `y`. */
  ghost predicate DownInv(m0: Maze, maze: Maze, owner: seq<nat>, y: nat, prev: seq<nat>, slots: seq<Option<nat>>)
  {
    && Forest(m0, maze, owner) && m0.width > 0 && y < m0.height
    && Hanging(owner, m0.width, y, prev, slots)
  }

  /** A finished row `y - 1` starts the way down with every slot empty. */
  lemma StartDown(m0: Maze, maze: Maze, owner: seq<nat>, y: nat, prev: seq<nat>)
    requires 1 <= y < m0.height && RowInv(m0, maze, owner, y - 1, prev)
    ensures DownInv(m0, maze, owner, y, prev, seq(m0.width, _ => None))
    ensures DownLinks(maze, maze, seq(m0.width, _ => None), m0.width, y)
  {
    var w := m0.width;
    RowsFit(w, m0.height, y);
    forall x | 0 <= x < w
      ensures Single(owner, CellIndex(w, x, y))
    {
      assert y * w <= CellIndex(w, x, y);
    }
  }

  /** The passages after one more cell is carried down. */
  lemma VerticalStep(start: Maze, maze: Maze, maze': Maze, slots: seq<Option<nat>>, width: nat, y: nat, x: nat, v: nat)
    requires 1 <= y && DownLinks(start, maze, slots, width, y) && x < |slots| && slots[x].None?
    requires AddsPassage(maze, maze', CellIndex(width, x, y - 1), CellIndex(width, x, y))
    ensures DownLinks(start, maze', slots[x := Some(v)], width, y)
  {
    var slots' := slots[x := Some(v)];
    var top, bottom := CellIndex(width, x, y - 1), CellIndex(width, x, y);
    assert top + width == bottom;
    forall i: nat, j: nat
      ensures Down(slots', width, y, i, j) <==> Down(slots, width, y, i, j) || (i == top && j == bottom)
    {
      if y * width <= j < y * width + |slots| {
        assert j - y * width == x <==> j == bottom;
      }
    }
  }

  /** Merging the lone cell `(x, y)` into the set of the cell above keeps
      the view of both rows. */
  lemma CarryHangs(owner: seq<nat>, width: nat, y: nat, prev: seq<nat>, slots: seq<Option<nat>>, x: nat, owner': seq<nat>)
    requires Hanging(owner, width, y, prev, slots) && x < width && slots[x].None?
    requires CellIndex(width, x, y - 1) + width == CellIndex(width, x, y)
    requires Merged(owner, owner', CellIndex(width, x, y - 1), CellIndex(width, x, y))
    ensures Hanging(owner', width, y, prev, slots[x := Some(prev[x])])
  {
    var w := width;
    var top, bottom := CellIndex(w, x, y - 1), CellIndex(w, x, y);
    var slots' := slots[x := Some(prev[x])];
    assert Hangs(owner, w, y, prev, slots, x);
    forall j | 0 <= j < |owner| && owner[j] != bottom
      ensures owner'[j] == owner[j]
    {
    }
    forall z | 0 <= z < w
      ensures prev[z] != bottom
    {
      assert prev[z] == owner[CellIndex(w, z, y - 1)];
    }
    forall i | (y + 1) * w <= i < |owner|
      ensures Single(owner', i)
    {
      assert Single(owner, i);
    }
    forall z | 0 <= z < w
      ensures Hangs(owner', w, y, prev, slots', z)
    {
      assert Hangs(owner, w, y, prev, slots, z);
      if z != x && slots[z].None? {
        assert Single(owner, CellIndex(w, z, y));
      }
    }
  }

  /** The cell above `(x, y)` and the cell itself, while it is still
      alone, are different neighbours without a passage between them. */
  lemma CarryApart(m0: Maze, maze: Maze, owner: seq<nat>, y: nat, prev: seq<nat>, slots: seq<Option<nat>>, x: nat)
    requires DownInv(m0, maze, owner, y, prev, slots) && x < |slots| && slots[x].None?
    ensures var top, bottom := CellIndex(m0.width, x, y - 1), CellIndex(m0.width, x, y);
      && ConnWf(maze) && maze.width == m0.width
      && top < |maze.nodes| && bottom < |maze.nodes| && top != bottom && !Linked(maze, top, bottom)
      && top + m0.width == bottom && bottom in m0.nodes[top].neighbors
      && owner[top] == prev[x] && owner[bottom] == bottom && owner[top] != owner[bottom]
  {
    BelowNeighbor(m0, maze, x, y);
    assert Hangs(owner, m0.width, y, prev, slots, x);
  }

  /** The cell `(x, y)` lies directly below `(x, y - 1)`, one row further
      on, and is one of its neighbours. */
  lemma BelowNeighbor(m0: Maze, maze: Maze, x: nat, y: nat)
    requires Carved(m0, maze) && x < m0.width && 1 <= y < m0.height
    ensures var top, bottom := CellIndex(m0.width, x, y - 1), CellIndex(m0.width, x, y);
      && top < |maze.nodes| && bottom < |maze.nodes|
      && top + m0.width == bottom && bottom in m0.nodes[top].neighbors
  {
    var w := m0.width;
    var top := CellIndex(w, x, y - 1);
    RightAndBelow(w, m0.height, x, y - 1);
    assert Skeleton(maze.nodes[top]) == Skeleton(m0.nodes[top]);
    ShapedNeighbors(maze, top);
  }

  /** Carrying the set of the cell above `(x, y)` down into it keeps the
      invariant. */
  lemma CarryKeeps(m0: Maze, maze: Maze, owner: seq<nat>, y: nat, prev: seq<nat>, slots: seq<Option<nat>>, x: nat,
                   maze': Maze, owner': seq<nat>)
    requires DownInv(m0, maze, owner, y, prev, slots) && x < |slots| && slots[x].None?
    requires AddsPassage(maze, maze', CellIndex(m0.width, x, y - 1), CellIndex(m0.width, x, y))
    requires owner' == MergeInto(owner, CellIndex(m0.width, x, y - 1), CellIndex(m0.width, x, y))
    ensures DownInv(m0, maze', owner', y, prev, slots[x := Some(prev[x])])
  {
    var w := m0.width;
    var top, bottom := CellIndex(w, x, y - 1), CellIndex(w, x, y);
    CarryApart(m0, maze, owner, y, prev, slots, x);
    JoinKeepsForest(m0, maze, owner, maze', owner', top, bottom);
    CarryHangs(owner, w, y, prev, slots, x, owner');
  }

  /** One cell carried down: `topNode.connect(bottomNode)` and the slot
      below takes the set of the cell above. */
  method CarryOne(ghost m0: Maze, ghost start: Maze, maze: Maze, ghost owner: seq<nat>, y: nat, prev: seq<nat>,
                  slots: seq<Option<nat>>, x: nat)
    returns (maze': Maze, ghost owner': seq<nat>, slots': seq<Option<nat>>)
    requires DownInv(m0, maze, owner, y, prev, slots) && DownLinks(start, maze, slots, m0.width, y)
    requires x < |slots| && slots[x].None?
    ensures DownInv(m0, maze', owner', y, prev, slots') && DownLinks(start, maze', slots', m0.width, y)
    ensures slots' == slots[x := Some(prev[x])]
  {
    var w := maze.width;
    CarryApart(m0, maze, owner, y, prev, slots, x);
    var top, bottom := CellIndex(w, x, y - 1), CellIndex(w, x, y);
    maze' := AddPassage(maze, top, bottom);
    owner' := MergeInto(owner, top, bottom);
    slots' := slots[x := Some(prev[x])];
    CarryKeeps(m0, maze, owner, y, prev, slots, x, maze', owner');
    VerticalStep(start, maze, maze', slots, w, y, x, prev[x]);
  }

  /** The loop over one set's cells in `randomlyConnectDown`: `nodes` lists
      the set's columns not yet picked, `picked` those carried down so far
      (each once), and only their slots changed. */
  ghost predicate SetSoFar(prev: seq<nat>, o: nat, slots0: seq<Option<nat>>, slots: seq<Option<nat>>,
                           nodes: seq<nat>, picked: seq<nat>)
  {
    && |slots0| == |prev| && |slots| == |prev|
    && NoDup(nodes) && NoDup(picked)
    && (forall v: nat :: v in nodes <==> v < |prev| && prev[v] == o && v !in picked)
    && (forall v :: v in picked ==> v < |prev| && prev[v] == o)
    && (forall z :: 0 <= z < |prev| && prev[z] != o ==> slots[z] == slots0[z])
    && (forall z :: 0 <= z < |prev| && prev[z] == o ==> (slots[z].Some? <==> z in picked))
  }

  /** Before the first pick: every column of the set is still to pick. */
  lemma StartSet(prev: seq<nat>, o: nat, slots: seq<Option<nat>>)
    requires |slots| == |prev| && forall z :: 0 <= z < |prev| && prev[z] == o ==> slots[z].None?
    ensures SetSoFar(prev, o, slots, slots, Columns(prev, o, |prev|), [])
  {
  }

  /** Picking the entry `r` of `nodes` keeps the loop's facts. */
  lemma SetStep(prev: seq<nat>, o: nat, slots0: seq<Option<nat>>, slots: seq<Option<nat>>,
                nodes: seq<nat>, picked: seq<nat>, r: nat)
    requires SetSoFar(prev, o, slots0, slots, nodes, picked) && r < |nodes|
    ensures nodes[r] < |prev| && slots[nodes[r]].None? && prev[nodes[r]] == o
    ensures SetSoFar(prev, o, slots0, slots[nodes[r] := Some(o)], Splice(nodes, r), picked + [nodes[r]])
  {
    var x := nodes[r];
    assert x in nodes;
    var picked' := picked + [x];
    forall v
      ensures v in picked' <==> v in picked || v == x
    {
      assert v in picked' ==> v in picked || v == picked'[|picked|];
    }
    assert NoDup(picked') by {
      forall p, q | 0 <= p < q < |picked'|
        ensures picked'[p] != picked'[q]
      {
        if q == |picked| {
          assert picked'[p] == picked[p] && picked[p] in picked;
        } else {
          assert picked'[p] == picked[p] && picked'[q] == picked[q];
        }
      }
    }
  }

  /** One pick of the inner loop: the entry `draws(t) % |nodes|` is
      carried down and spliced out of `nodes`. */
  method SetPass(ghost m0: Maze, ghost start: Maze, maze: Maze, ghost owner: seq<nat>, y: nat, prev: seq<nat>,
                 o: nat, ghost slots0: seq<Option<nat>>, slots: seq<Option<nat>>, nodes: seq<nat>, picked: seq<nat>,
                 draws: nat -> nat, t: nat)
    returns (maze': Maze, ghost owner': seq<nat>, slots': seq<Option<nat>>, nodes': seq<nat>, picked': seq<nat>)
    requires DownInv(m0, maze, owner, y, prev, slots) && DownLinks(start, maze, slots, m0.width, y)
    requires SetSoFar(prev, o, slots0, slots, nodes, picked) && |nodes| > 0
    ensures DownInv(m0, maze', owner', y, prev, slots') && DownLinks(start, maze', slots', m0.width, y)
    ensures SetSoFar(prev, o, slots0, slots', nodes', picked')
    ensures |nodes'| + 1 == |nodes| && |picked'| == |picked| + 1
  {
    var r := draws(t) % |nodes|;
    var x := nodes[r];
    SetStep(prev, o, slots0, slots, nodes, picked, r);
    maze', owner', slots' := CarryOne(m0, start, maze, owner, y, prev, slots, x);
    nodes' := Splice(nodes, r);
    picked' := picked + [x];
  }

  /** One set of row `y - 1` moved down: between one and all of its cells,
      picked at random without repeats, get a passage to the cell below,
      which joins the set. No other slot changes. */
  method CarrySet(ghost m0: Maze, ghost start: Maze, maze: Maze, ghost owner: seq<nat>, y: nat, prev: seq<nat>,
                  slots: seq<Option<nat>>, o: nat, draws: nat -> nat, t: nat)
    returns (maze': Maze, ghost owner': seq<nat>, slots': seq<Option<nat>>, picked: seq<nat>, t': nat)
    requires DownInv(m0, maze, owner, y, prev, slots) && DownLinks(start, maze, slots, m0.width, y)
    requires o in prev && forall z :: 0 <= z < |prev| && prev[z] == o ==> slots[z].None?
    ensures DownInv(m0, maze', owner', y, prev, slots') && DownLinks(start, maze', slots', m0.width, y)
    ensures |picked| == Pick(1, |Columns(prev, o, |prev|)|, draws(t)) && t' == t + 1 + |picked|
    ensures NoDup(picked) && forall x :: x in picked ==> x < |prev| && prev[x] == o
    ensures forall z :: 0 <= z < |prev| && prev[z] != o ==> slots'[z] == slots[z]
    ensures forall z :: 0 <= z < |prev| && prev[z] == o ==> (slots'[z] == Some(o) <==> z in picked)
    ensures forall z :: 0 <= z < |prev| && prev[z] == o ==> (slots'[z].None? <==> z !in picked)
  {
    var nodes := Columns(prev, o, |prev|);
    var x0 :| 0 <= x0 < |prev| && prev[x0] == o;
    assert x0 in nodes;
    var count := Pick(1, |nodes|, draws(t));
    StartSet(prev, o, slots);
    maze', owner', slots', picked, t' := maze, owner, slots, [], t + 1;
    var rest := nodes;
    while |picked| < count
      invariant DownInv(m0, maze', owner', y, prev, slots') && DownLinks(start, maze', slots', m0.width, y)
      invariant SetSoFar(prev, o, slots, slots', rest, picked)
      invariant |rest| + |picked| == |nodes| && |picked| <= count && t' == t + 1 + |picked|
      decreases count - |picked|
    {
      maze', owner', slots', rest, picked := SetPass(m0, start, maze', owner', y, prev, o, slots, slots', rest, picked, draws, t');
      t' := t' + 1;
    }
    forall z | 0 <= z < |prev| && prev[z] == o && slots'[z].Some?
      ensures slots'[z] == Some(o)
    {
      assert Hangs(owner', m0.width, y, prev, slots', z);
    }
  }

  /** Some cell of the new row holds the set `o`, carried down. */
  ghost predicate Carried(slots: seq<Option<nat>>, o: nat)
  {
    exists x :: 0 <= x < |slots| && slots[x] == Some(o)
  }

  /** The loop over the sets of row `y - 1` before `ids[k]`: the sets done
      are the first `k`, each carried down at least once, and only cells
      below them hold a set. */
  ghost predicate DoneSoFar(prev: seq<nat>, ids: seq<nat>, slots: seq<Option<nat>>, done: set<nat>, k: nat)
  {
    && k <= |ids| && |slots| == |prev|
    && (forall z :: 0 <= z < |prev| && slots[z].Some? ==> prev[z] in done)
    && (forall o :: o in done ==> Carried(slots, o))
    && (forall p :: 0 <= p < k ==> ids[p] in done)
    && (forall p :: k <= p < |ids| ==> ids[p] !in done)
  }

  /** Moving the set `ids[k]` down keeps the loop's facts. */
  lemma DoneStep(prev: seq<nat>, ids: seq<nat>, slots: seq<Option<nat>>, done: set<nat>, k: nat,
                 slots': seq<Option<nat>>, picked: seq<nat>)
    requires DoneSoFar(prev, ids, slots, done, k) && k < |ids| && NoDup(ids) && |slots'| == |prev|
    requires |picked| > 0 && forall x :: x in picked ==> x < |prev| && prev[x] == ids[k]
    requires forall z :: 0 <= z < |prev| && prev[z] != ids[k] ==> slots'[z] == slots[z]
    requires forall z :: 0 <= z < |prev| && prev[z] == ids[k] ==> (slots'[z] == Some(ids[k]) <==> z in picked)
    requires forall z :: 0 <= z < |prev| && prev[z] == ids[k] ==> (slots'[z].None? <==> z !in picked)
    ensures DoneSoFar(prev, ids, slots', done + {ids[k]}, k + 1)
  {
    var o := ids[k];
    assert o !in done;
    assert picked[0] in picked;
    assert Carried(slots', o) by {
      assert slots'[picked[0]] == Some(o);
    }
    forall o' | o' in done
      ensures Carried(slots', o')
    {
      var x :| 0 <= x < |slots| && slots[x] == Some(o');
      assert prev[x] in done;
      assert slots'[x] == Some(o');
    }
    forall p | k + 1 <= p < |ids|
      ensures ids[p] !in done + {o}
    {
      assert ids[k] != ids[p];
    }
  }

  /** `randomlyConnectDown` into row `y`: every set of row `y - 1`, taken
      once each, is moved down to at least one cell of row `y`; the only
      passages carved lead down into a filled slot. */
  method ConnectDown(ghost m0: Maze, maze: Maze, ghost owner: seq<nat>, y: nat, prev: seq<nat>,
                     draws: nat -> nat, t: nat)
    returns (maze': Maze, ghost owner': seq<nat>, slots: seq<Option<nat>>, t': nat)
    requires 1 <= y < m0.height && RowInv(m0, maze, owner, y - 1, prev)
    ensures DownInv(m0, maze', owner', y, prev, slots) && DownLinks(maze, maze', slots, m0.width, y)
    ensures forall o :: o in prev ==> Carried(slots, o)
  {
    var ids := Distinct(prev);
    StartDown(m0, maze, owner, y, prev);
    maze', owner', slots, t' := maze, owner, seq(|prev|, _ => None), t;
    ghost var done: set<nat> := {};
    var k := 0;
    while k < |ids|
      invariant DownInv(m0, maze', owner', y, prev, slots) && DownLinks(maze, maze', slots, m0.width, y)
      invariant DoneSoFar(prev, ids, slots, done, k)
      decreases |ids| - k
    {
      var o := ids[k];
      assert o in ids;
      var picked;
      ghost var before := slots;
      maze', owner', slots, picked, t' := CarrySet(m0, maze, maze', owner', y, prev, slots, o, draws, t');
      DoneStep(prev, ids, before, done, k, slots, picked);
      done := done + {o};
      k := k + 1;
    }
    forall o | o in prev
      ensures Carried(slots, o)
    {
      var p :| 0 <= p < |ids| && ids[p] == o;
    }
  }

  /** `fillRemainingSets` after the way down finishes row `y`: every tree
      now reaches row `y`, through a set carried down or a new singleton. */
  lemma FillRow(m0: Maze, maze: Maze, owner: seq<nat>, y: nat, prev: seq<nat>, slots: seq<Option<nat>>)
    requires DownInv(m0, maze, owner, y, prev, slots)
    requires forall o :: o in prev ==> Carried(slots, o)
    ensures RowInv(m0, maze, owner, y, Fill(slots, m0.width, y))
  {
    var w := m0.width;
    var row := Fill(slots, w, y);
    forall x | 0 <= x < w
      ensures row[x] == owner[CellIndex(w, x, y)]
    {
      assert Hangs(owner, w, y, prev, slots, x);
    }
    forall i | 0 <= i < (y + 1) * w && i < |owner|
      ensures owner[i] in row
    {
      if i < y * w {
        var z :| 0 <= z < |prev| && prev[z] == owner[i];
        assert Carried(slots, prev[z]);
        var x :| 0 <= x < |slots| && slots[x] == Some(prev[z]);
        assert row[x] == owner[i];
      } else {
        var x := i - y * w;
        assert CellIndex(w, x, y) == i;
        assert row[x] == owner[i];
      }
    }
  }

  /** One row below the first: carry sets down, fill the rest, then join
      across (with chance one half, or always on the last row). */
  method NextRow(ghost m0: Maze, maze: Maze, ghost owner: seq<nat>, y: nat, prev: seq<nat>, always: bool,
                 draws: nat -> nat, t: nat)
    returns (maze': Maze, ghost owner': seq<nat>, row: seq<nat>, t': nat)
    requires 1 <= y < m0.height && RowInv(m0, maze, owner, y - 1, prev)
    ensures RowInv(m0, maze', owner', y, row) && Carved(m0, maze')
    ensures always ==> forall z :: 0 <= z < |row| ==> row[z] == row[0]
    ensures always && y + 1 == m0.height ==> FullyConnected(maze') && EdgeCount(maze') == |m0.nodes| - 1
  {
    var slots;
    maze', owner', slots, t' := ConnectDown(m0, maze, owner, y, prev, draws, t);
    FillRow(m0, maze', owner', y, prev, slots);
    var filled := Fill(slots, maze.width, y);
    var joined;
    maze', owner', row, joined, t' := AcrossRow(m0, maze', owner', y, filled, always, draws, t');
    if always && y + 1 == m0.height {
      LastRow(m0, maze', owner', y, row);
    }
  }

  /** `generate`: row 0 as singletons joined across at random, then each
      further row in turn, the last one joined across completely. Started
      from a maze without passages, the result is a perfect maze: one tree
      spanning every cell. */
  method Generate(m: Maze, draws: nat -> nat) returns (r: Maze, t: nat)
    requires Valid(m) && NoLinks(m) && m.height >= 2
    ensures Carved(m, r)
    ensures FullyConnected(r) && EdgeCount(r) == |m.nodes| - 1
  {
    var h := m.height;
    ghost var owner := SingletonIds(|m.nodes|);
    StartRowInv(m);
    var row, joined;
    r, owner, row, joined, t := AcrossRow(m, m, owner, 0, FirstRow(m.width), false, draws, 0);
    var y := 1;
    while y < h - 1
      invariant 1 <= y <= h - 1 && RowInv(m, r, owner, y - 1, row)
      decreases h - y
    {
      r, owner, row, t := NextRow(m, r, owner, y, row, false, draws, t);
      y := y + 1;
    }
    r, owner, row, t := NextRow(m, r, owner, h - 1, row, true, draws, t);
  }

  /** Once the last row is one set, every tree reaches it and so there is
      a single tree. */
  lemma LastRow(m0: Maze, maze: Maze, owner: seq<nat>, y: nat, row: seq<nat>)
    requires y + 1 == m0.height && RowInv(m0, maze, owner, y, row)
    requires forall z :: 0 <= z < |row| ==> row[z] == row[0]
    ensures Carved(m0, maze) && FullyConnected(maze) && EdgeCount(maze) == |m0.nodes| - 1
  {
    var w, h := m0.width, y + 1;
    MulCommutes(w, h);
    forall i | 0 <= i < |owner|
      ensures owner[i] == owner[0]
    {
      assert owner[i] in row && owner[0] in row;
    }
    OneTree(m0, maze, owner);
  }
}
