# Maze generators, modelled in Dafny

This project models the maze-generation engine of the `mazes` web toy (TypeScript) and proves
properties of it. A maze is a `width × height` grid of cells. Cells are numbered row by row,
each has a fixed list of 4-neighbours, and the mutable *connection* lists record which walls
have been knocked through (the passages). Generators only ever change the connection lists.
The model covers:

- the grid and its passages (`Node.connect`, `Node.disconnect`, the `Maze` constructor, `isFullyConnected`);
- the `MazeGenerator` driver loop (`generate` runs `iterate` until `isDone`);
- ten generators: binary tree, random connector, growing tree (recursive backtracker),
  Aldous–Broder random walk, hunt-and-kill, Wilson's loop-erased walk, Kruskal set joining,
  recursive subdivision, Eller's row-by-row algorithm and tessellation by copying;
- the tree view: the breadth-first search that turns the passages into a rooted tree, and the
  contour-based layout of that tree (child positions, left/right edges, minimum gaps).

The model is functional:

- A `Maze` is an immutable value holding `Node`s.
- `Connect` and `Disconnect` are pure functions.
- Each generator is a state record with a step function, or a method whose loop follows the source's loop.
- Every random choice (`choose`, `rng`, `Math.random`, `lerp`) is an argument: a `nat` draw, or a
  stream `draws: nat -> nat`.
  - `Choose(xs, d)` picks `xs[d % |xs|]`, so every element can be picked.
  - `Pick(lo, hi, d)` is a draw in `[lo, hi]`.
- The generator functions' `yield`s become loop passes.

Modules (one file each):

| file | module | models |
|---|---|---|
| grid.dfy | Grid | cell numbering, coordinates, the 4-neighbour relation |
| maze.dfy | Mazes | `Node`, `Maze`, constructor, `connect`, `disconnect`, passage predicates |
| graph.dfy | Graphs | reachability along passages, spanning trees |
| connectivity.dfy | Connectivity | `Maze.isFullyConnected` |
| draws.dfy | Draws | random choices as arguments |
| wrappers.dfy | Wrappers | `Option` |
| maze_generator.dfy | Generators | `MazeGenerator.generate` |
| binary.dfy … tessellate.dfy | one per generator | the generators |
| forest.dfy | Forests | the set/forest invariant shared by set joining and row by row |
| tree_build.dfy | TreeBuild | the `TreeRenderer` constructor's search |
| tree_layout.dfy | TreeLayout | `TreeNode` layout arithmetic |

Central predicates:

- `Linked(m, i, j)`: `j` is in cell `i`'s connection list.
- `ConnWf(m)`: connection lists are symmetric, in range, irreflexive and free of duplicates.
- `Shaped(m)`: the cells are the constructor's: indices, coordinates and neighbours.
- `Valid(m)`: `Shaped(m) && ConnWf(m)`.
- `Carved(m, r)`: `r` is `m` with only passages added between neighbours.
- `ReachableIn(m, s, a, b)`: a path of passages inside the set `s`.
- `FullyConnected(m)`: every cell is reachable from cell 0.
- `EdgeCount(m)`: half the sum of the connection-list lengths.
- `TreeOn(m, s, root)`: the passages form a spanning tree of `s`.
  - Every passage stays inside `s`.
  - `s` is connected from `root`.
  - There are `|s| - 1` passages.

## Model

| member | source | states |
|---|---|---|
| Grid.NeighborsSpec | ts/maze/maze.ts:30-40 | the neighbour list of a cell holds exactly the in-bounds cells left, right, above and below it, without repeats |
| Grid.NeighborsSymmetric | ts/maze/maze.ts:30-40 | a neighbour is another in-grid cell, and the relation is symmetric |
| Grid.NeighborsBelow | ts/maze/maze.ts:32-37 | the lower-indexed neighbours of a cell are exactly its left and upper neighbours |
| Grid.ClosedSetIsEverything | ts/maze/maze.ts:30-40 | a set holding cell 0 and closed under the neighbour relation holds the whole grid (the grid is connected) |
| Mazes.Filter | ts/maze/generators/binary.ts:8 | `Array.filter`: the result holds exactly the kept elements, and is empty iff no element is kept |
| Mazes.NewGrid | ts/maze/maze.ts:17-27 | the constructor's `grid` has `height` rows, each built by the inner loop |
| Mazes.NewMazeNodes | ts/maze/maze.ts:17-27 | `width·height` nodes; node `i` is `grid[i / width][i % width]`, has index `i`, coordinates `(i % width, i / width)`, and no connections |
| Mazes.NewMazeGrid | ts/maze/maze.ts:23-24 | `nodes` is the row-major flattening of `grid`: `grid[y][x]` has index `y·width + x` and coordinates `(x, y)` |
| Mazes.NewMazeNeighbors | ts/maze/maze.ts:29-40 | a fresh maze's neighbour lists hold exactly the adjacent cells, symmetric, irreflexive and without repeats |
| Mazes.NewMazeValid | ts/maze/maze.ts:13-41 | a fresh maze is well formed and has no passage at all |
| Mazes.Connect | ts/maze/node.ts:14-20 | a no-op when already connected; otherwise each end is appended to the other's list; the passages afterwards are the old ones plus the pair; no other field or cell changes |
| Mazes.Remove | ts/maze/node.ts:23-24 | the filter removes every occurrence of the value and keeps the others with their multiplicity; no-op when absent |
| Mazes.Disconnect | ts/maze/node.ts:22-25 | both lists lose every occurrence of the other end; nothing else changes; a no-op on an unconnected pair; the passages afterwards are the old ones minus the pair |
| Mazes.ConnectWf | ts/maze/node.ts:14-20 | connecting two distinct cells keeps the connection lists symmetric and duplicate-free, and connecting twice is the same as once |
| Mazes.DisconnectWf | ts/maze/node.ts:22-25 | disconnecting keeps the connection lists well formed, and the pair is unlinked both ways afterwards |
| Mazes.ConnectDegree | ts/maze/node.ts:18-19 | connecting an unconnected pair adds exactly one passage (two list entries) |
| Mazes.DisconnectDegree | ts/maze/node.ts:23-24 | disconnecting a connected pair removes exactly one passage |
| Mazes.ConnectPair | ts/maze/node.ts:14-20 | connect as a call: the passages afterwards are exactly the old ones plus the pair |
| Mazes.DisconnectPair | ts/maze/node.ts:22-25 | disconnect as a call: the passages afterwards are exactly the old ones minus the pair |
| Mazes.CarveConnect | ts/maze/node.ts:14-20 | connecting two neighbours keeps a maze "carved": same grid, passages only between neighbours |
| Graphs.ReachSym | ts/maze/node.ts:18-19 | because connect records both directions, reachability is symmetric |
| Graphs.ClosedHoldsReachable | ts/maze/maze.ts:46-54 | a set closed under passages that holds the start holds every cell reachable from it |
| Graphs.GrowTree | ts/maze/generators/growing-tree.ts:27-34 | connecting a tree cell to a cell outside the tree gives a spanning tree of the tree plus that cell |
| Graphs.TreeSpansAll | ts/maze/maze.ts:43-56 | a spanning tree of all cells makes the maze fully connected with `cells − 1` passages |
| Connectivity.PushUnswept | ts/maze/maze.ts:49-53 | the inner loop pushes exactly the connections not yet in `inMaze`, in order, and keeps the stack below them |
| Connectivity.SweepStep | ts/maze/maze.ts:46-54 | one pass keeps the sweep's invariants (swept and stacked cells are reachable, passages from swept cells lead to swept or stacked cells) and makes progress |
| Connectivity.IsFullyConnected | ts/maze/maze.ts:43-56 | the result is true iff every cell is reachable from cell 0 along passages; the maze is not changed |
| Draws.Choose | ts/maze/generators/binary.ts:12 | `choose` returns an element of its (non-empty) list |
| Draws.ChooseCovers | ts/maze/generators/binary.ts:12 | every element of the list is the result of some draw |
| Draws.Pick | ts/maze/generators/random-walk.ts:14 | a draw in the closed range `[lo, hi]` |
| Generators.Generate | ts/maze/generators/maze-generator.ts:12-16 | the loop stops only in a state where `isDone` holds; if `isDone` holds on entry there is no pass and the state is unchanged; the passes are exactly a chain of `iterate` calls each made when `isDone` was false; the pass count is bounded by the rank |
| Generators.PassesCount | ts/maze/generators/maze-generator.ts:13-14 | when every pass raises a counter by one, the counter rises by exactly the number of passes |
| Binary.CandidatesLeftOrUp | ts/maze/generators/binary.ts:6-11 | the candidates are neighbours with a smaller index, i.e. the left and upper neighbours; the list is empty exactly for cell 0 |
| Binary.VisitNode | ts/maze/generators/binary.ts:8-12 | cell 0 adds nothing; every other cell is connected to one of its candidates |
| Binary.AddParent | ts/maze/generators/binary.ts:8-12 | after visiting cell `i` its parent is a lower-indexed neighbour it is linked to |
| Binary.GenerateBinaryMaze | ts/maze/generators/binary.ts:4-14 | the cells are visited once each in index order; every cell but 0 gains one passage to a left or upper neighbour; from a fresh maze the result is fully connected with `cells − 1` passages |
| RandomConnect.Chosen | ts/maze/generators/random-connect.ts:15-16 | the chosen cell is a neighbour of the current cell |
| RandomConnect.Iterate | ts/maze/generators/random-connect.ts:10-18 | a no-op once `index` reaches the node count; otherwise it connects `nodes[index]` to a chosen neighbour and advances `index` by exactly one |
| RandomConnect.IterateKeepsInv | ts/maze/generators/random-connect.ts:10-22 | a pass keeps the maze well formed and `index` within the node count |
| RandomConnect.ConnectStep | ts/maze/generators/random-connect.ts:16 | a pass never removes a passage, gives the current cell at least one passage and adds at most one passage |
| RandomConnect.Run | ts/maze/generators/random-connect.ts:5-22 | from index 0 the driver makes exactly `nodes.length` passes; every cell ends with a passage; there are at most `nodes.length` passages (connectivity is not promised) |
| GrowingTree.Step | ts/maze/generators/growing-tree.ts:19-34 | the top of the stack is marked visited; with no unvisited neighbour it is popped; otherwise one unvisited neighbour is connected to it and pushed |
| GrowingTree.StepKeepsInv | ts/maze/generators/growing-tree.ts:19-34 | a pass keeps the invariant and lowers the work measure: only neighbours are joined, the stack has no repeats and every entry below the top is visited, a visited cell off the stack has no unvisited neighbour, and from a fresh maze the passages are a tree on the visited cells and the stack top |
| GrowingTree.EmptyStackVisitedAll | ts/maze/generators/growing-tree.ts:19 | when the stack is empty every cell has been visited |
| GrowingTree.Generate | ts/maze/generators/growing-tree.ts:6-36 | the stack starts as `[nodes[0]]`, the loop ends when it is empty, only neighbours are connected, and from a fresh maze the result is a spanning tree: fully connected with `cells − 1` passages |
| RandomWalk.Step | ts/maze/generators/random-walk.ts:18-27 | the walker moves to a neighbour; a passage is carved and the neighbour added exactly when it was not in the maze |
| RandomWalk.StepKeepsInv | ts/maze/generators/random-walk.ts:20-27 | a pass keeps the walker inside `inMaze` and the passages a tree on `inMaze` |
| RandomWalk.Generate | ts/maze/generators/random-walk.ts:12-30 | the start is a drawn cell; the loop runs until `inMaze` holds every cell or the fuel runs out; passages are always a tree on `inMaze` rooted at the start, so a finished walk is a spanning tree |
| HuntAndKill.FindNewStart | ts/maze/generators/hunt-and-kill.ts:53-63 | a returned cell is outside the maze and has a neighbour in it |
| HuntAndKill.FindNewStartFirst | ts/maze/generators/hunt-and-kill.ts:53-63 | the returned cell is the first such cell in index order, and `undefined` is returned iff there is none |
| HuntAndKill.Step | ts/maze/generators/hunt-and-kill.ts:17-44 | kill: move to and connect an unvisited neighbour; hunt: the new start is `findNewStart`'s cell, connected to an in-maze neighbour and added; no start ends the loop with nothing changed |
| HuntAndKill.Joined | ts/maze/generators/hunt-and-kill.ts:33-36 | the hunt's candidate list is non-empty and the chosen cell is an in-maze neighbour |
| HuntAndKill.StepKeepsInv | ts/maze/generators/hunt-and-kill.ts:17-44 | a pass keeps the passages a tree on `inMaze` and adds exactly one cell, unless the loop ends |
| HuntAndKill.NoStartAllIn | ts/maze/generators/hunt-and-kill.ts:28-43 | when `findNewStart` finds nothing, every cell is in the maze (the grid is connected) |
| HuntAndKill.Generate | ts/maze/generators/hunt-and-kill.ts:12-46 | starts from cell 0; the loop ends after exactly `nodes.length` passes; from a fresh maze the result is a spanning tree |
| LoopErasedWalk.Pos | ts/maze/generators/loop-erased-walk.ts:48 | `indexOf`: the first position of the value |
| LoopErasedWalk.EraseFrom | ts/maze/generators/loop-erased-walk.ts:52-54 | the erase loop removes exactly the passages between path cells next to each other from position `lo` on, and one passage per removed pair |
| LoopErasedWalk.Recarve | ts/maze/generators/loop-erased-walk.ts:49-62 | erasing from `max(indexInPath − 1, 0)`, cutting the path and reconnecting the repeated cell leaves exactly the path's passages up to the repeated cell |
| LoopErasedWalk.Next | ts/maze/generators/loop-erased-walk.ts:37 | the walk steps to a neighbour |
| LoopErasedWalk.WalkStep | ts/maze/generators/loop-erased-walk.ts:36-64 | one pass of the inner walk: onto the maze or a fresh cell, append and connect; onto the path, erase the loop and cut the path at the earlier occurrence |
| LoopErasedWalk.StepKeeps | ts/maze/generators/loop-erased-walk.ts:36-64 | a pass keeps the walk invariant: the path has no repeated cell, only its last cell may be in the maze, and the passages are the tree's plus one per consecutive path pair |
| LoopErasedWalk.FinishKeeps | ts/maze/generators/loop-erased-walk.ts:67-76 | adding every path cell but the last to `inMaze` keeps the passages a spanning tree of `inMaze` |
| LoopErasedWalk.GetStartNode | ts/maze/generators/loop-erased-walk.ts:83-88 | the start node is memoised: once drawn, the same cell is returned |
| LoopErasedWalk.NotInMaze | ts/maze/generators/loop-erased-walk.ts:21 | the list holds exactly the cells not yet in the maze |
| LoopErasedWalk.WalkToMaze | ts/maze/generators/loop-erased-walk.ts:29-65 | the walk starts at a cell outside the maze, keeps the walk invariant, and ends on the maze unless the fuel runs out |
| LoopErasedWalk.Generate | ts/maze/generators/loop-erased-walk.ts:15-81 | the outer loop ends exactly when every cell is in the maze; then the maze is fully connected with `cells − 1` passages |
| Forests.SingletonIds | ts/maze/generators/set-joining.ts:15 | every node starts alone in its own set |
| Forests.StartForest | ts/maze/generators/set-joining.ts:15 | with no passages, singleton sets are trees |
| Forests.MergeInto | ts/maze/generators/set-joining.ts:32-38 | every member of `b`'s set is moved to `a`'s set; nobody else moves |
| Forests.SetsAreComponents | ts/maze/generators/set-joining.ts:25-28 | under the forest invariant, two nodes share a set iff passages join them |
| Forests.AddPassage | ts/maze/node.ts:14-20 | connecting an unconnected pair adds exactly that passage and one to the passage count |
| Forests.JoinIds | ts/maze/generators/set-joining.ts:32-38 | a merge of two different sets removes exactly `b`'s set, so there is one set fewer |
| Forests.JoinKeepsForest | ts/maze/generators/set-joining.ts:30-38 | joining two nodes of different sets by a passage and merging their sets keeps every set a tree of passages |
| Forests.OneTree | ts/maze/generators/set-joining.ts:22-41 | a single set covering every node is a spanning tree: fully connected with `nodes − 1` passages |
| SetJoining.CandidatesSpec | ts/maze/generators/set-joining.ts:16-18 | the candidate list holds exactly the neighbour pairs `(a, b)` with `a.index < b.index` |
| SetJoining.CandidatesDistinct | ts/maze/generators/set-joining.ts:16-18 | each candidate pair is listed once |
| SetJoining.Singletons | ts/maze/generators/set-joining.ts:15 | the map starts with every node alone in its own set |
| SetJoining.Merge | ts/maze/generators/set-joining.ts:32-38 | every member of the removed set joins the merged set and is remapped to it; the map stays a partition |
| SetJoining.Compare | ts/maze/generators/set-joining.ts:23-39 | a pair in one set is skipped with nothing changed; otherwise it is connected, adding one passage, and `b`'s set is merged into `a`'s |
| SetJoining.Pass | ts/maze/generators/set-joining.ts:22-40 | a pass keeps the forest invariant, and every candidate handled so far has both ends in one set |
| SetJoining.OneSet | ts/maze/generators/set-joining.ts:22-41 | one set left means a spanning tree, and that set holds every node |
| SetJoining.Generate | ts/maze/generators/set-joining.ts:13-42 | for any order of the candidates (any shuffle), the result is carved from the grid and is a spanning tree, and a single set holds every node |
| Subdivision.Extend | ts/maze/generators/subdivision.ts:96-109 | `extend` gives the smallest box covering the old box and the point; `min <= max` holds afterwards |
| Subdivision.SizeCounts | ts/maze/generators/subdivision.ts:120-130 | `width`/`height` are `max − min + 1` and at least 1, and `contains` is inclusive on all four sides |
| Subdivision.SplitAtXHalves | ts/maze/generators/subdivision.ts:132-138 | `splitAtX` gives two non-empty boxes that partition the original, each with a smaller area |
| Subdivision.SplitAtYHalves | ts/maze/generators/subdivision.ts:140-146 | `splitAtY` gives two non-empty boxes that partition the original, each with a smaller area |
| Subdivision.NoSplitIsOneCell | ts/maze/generators/subdivision.ts:37-41 | there are no possible splits iff the region is 1×1 |
| Subdivision.ChooseSplit | ts/maze/generators/subdivision.ts:43-64 | a split index below `width − 1` gives a wall at `splitX` in `[minX, maxX − 1]`; otherwise `splitY` is in `[minY, maxY − 1]` |
| Subdivision.ChooseSplitCovers | ts/maze/generators/subdivision.ts:43-64 | every possible wall position is the result of some split index |
| Subdivision.CrossingSpec | ts/maze/generators/subdivision.ts:47-70 | the wall loop visits exactly the neighbour pairs of the region that straddle the split line |
| Subdivision.DisconnectAll | ts/maze/generators/subdivision.ts:47-52 | disconnecting a list of pairs removes exactly those passages |
| Subdivision.DoorCrosses | ts/maze/generators/subdivision.ts:54-74 | the reconnected pair is one of the straddling pairs, and every straddling pair can be drawn |
| Subdivision.SplitSection | ts/maze/generators/subdivision.ts:36-80 | a 1×1 region changes nothing and yields no section; otherwise every straddling passage is removed, then exactly one straddling pair is connected, and the two halves are returned |
| Subdivision.Setup | ts/maze/generators/subdivision.ts:16-22 | every cell is connected to every neighbour, and the bounds become the whole grid (for at least two cells) |
| Subdivision.SplitWork | ts/maze/generators/subdivision.ts:27-33 | the sections a split returns lie inside the grid and have total work `2·area − 2` |
| Subdivision.Pass | ts/maze/generators/subdivision.ts:27-33 | each pop lowers the work measure (twice the area minus one, summed over the stack) by exactly one; a split adds one region and one door, a 1×1 pop removes a region; the region invariant is kept |
| Subdivision.InitialRegions | ts/maze/generators/subdivision.ts:16-24 | after the setup of an empty maze the whole grid is the one region, all its neighbour pairs are open, and every cell is reachable |
| Subdivision.PopRegions | ts/maze/generators/subdivision.ts:28-41 | popping a 1×1 region changes no passage and keeps the region invariant |
| Subdivision.SplitConnected | ts/maze/generators/subdivision.ts:43-76 | cutting every passage across the split line and reopening one keeps every cell reachable from cell 0 |
| Subdivision.SplitRegions | ts/maze/generators/subdivision.ts:28-79 | after a split the stacked regions stay disjoint, the passages are exactly the regions' inner neighbour pairs plus the doors, the doors are distinct and never inside one region, and the maze stays connected |
| Subdivision.FinishedRegions | ts/maze/generators/subdivision.ts:27-33 | once the stack is empty the passages are exactly the doors: the maze is connected with one passage per door |
| Subdivision.Generate | ts/maze/generators/subdivision.ts:13-34 | the stack empties after exactly `2·cells − 1` passes and the grid is unchanged apart from passages; from a maze without passages the result is fully connected with `cells − 1` passages |
| RowByRow.FirstRow | ts/maze/generators/row-by-row.ts:19-23 | in row 0 every cell is in its own set |
| RowByRow.MergeAcross | ts/maze/generators/row-by-row.ts:67-72 | after a merge, every cell of the right-hand set is in the left-hand set, and no other cell changes |
| RowByRow.JoinAcross | ts/maze/generators/row-by-row.ts:60-75 | cells already in one set are never connected and use no draw; otherwise a draw decides (the last row always connects), and a connection adds one passage and merges the sets |
| RowByRow.AcrossRow | ts/maze/generators/row-by-row.ts:59-76 | the row's sets only grow together; one set disappears per passage added; the passages added are exactly the chosen horizontal ones; with chance 1 the row ends as one set |
| RowByRow.Splice | ts/maze/generators/row-by-row.ts:96 | `splice(r, 1)` removes exactly the chosen cell |
| RowByRow.CarrySet | ts/maze/generators/row-by-row.ts:80-98 | one set of the previous row carries between 1 and `set.size` distinct cells down, each into the new row's set for it; other columns are untouched |
| RowByRow.ConnectDown | ts/maze/generators/row-by-row.ts:78-100 | every set of the previous row is carried down at least once, and the passages added are exactly the vertical ones to the filled slots |
| RowByRow.Fill | ts/maze/generators/row-by-row.ts:102-110 | every empty slot gets a fresh singleton set and filled slots keep theirs, so no slot is empty afterwards |
| RowByRow.FillFresh | ts/maze/generators/row-by-row.ts:104-108 | the fresh sets are different from each other and from every set carried down |
| RowByRow.NextRow | ts/maze/generators/row-by-row.ts:28-56 | down, fill, then across keeps the sets the trees of passages; the last row, joined with chance 1, leaves a spanning tree |
| RowByRow.Generate | ts/maze/generators/row-by-row.ts:15-57 | from a fresh maze of at least two rows, the result is carved from the grid and is a spanning tree |
| Tessellate.Initial | ts/maze/generators/tesselate.ts:8-9 | copying starts along x with no block filled |
| Tessellate.Start | ts/maze/generators/tesselate.ts:34-37 | the filled block starts at 1×1 |
| Tessellate.SizeAfterCopying | ts/maze/generators/tesselate.ts:14-30 | undefined before the run starts; otherwise exactly the chosen dimension doubles |
| Tessellate.EndRoundSpec | ts/maze/generators/tesselate.ts:55-74 | the chosen side doubles and is clamped to the maze; the loop exits iff both sides are filled; otherwise the next axis is an unfilled one, alternating while both are unfilled; one round fewer is left |
| Tessellate.DoublingsClamped | ts/maze/generators/tesselate.ts:55-58 | a clamped doubling uses up exactly one of the doublings a side needs |
| Tessellate.FirstInDirection | ts/maze/generators/tesselate.ts:105-114 | the inner search finds a neighbour in the connection's direction, or reports that none exists |
| Tessellate.Direction | ts/maze/generators/tesselate.ts:100-114 | the neighbour found in a connection's direction is the copy of the connected cell, or that copy lies outside the maze |
| Tessellate.JoinNeighbors | ts/maze/generators/tesselate.ts:111 | connecting two neighbours adds exactly that pair and keeps passages between neighbours |
| Tessellate.CopyCell | ts/maze/generators/tesselate.ts:99-115 | the copied cell gets exactly the copies of its source's passages that land inside the maze |
| Tessellate.Target | ts/maze/generators/tesselate.ts:80-92 | the source cell `(x, y)` maps to `(x + width, y)` or `(x, y + height)`, and the bound check skips exactly the targets outside the maze |
| Tessellate.CopySection | ts/maze/generators/tesselate.ts:78-119 | copying adds exactly the shifted copies of the block's passages whose ends are both in the maze, and nothing else |
| Tessellate.SeamSpec | ts/maze/generators/tesselate.ts:42-52 | the seam joins a block cell and a neighbouring copy cell straddling the boundary, at a drawn row below `filled.y` (x copy) or column below `filled.x` (y copy) |
| Tessellate.Seam | ts/maze/generators/tesselate.ts:42-52 | the seam adds exactly one passage |
| Tessellate.Round | ts/maze/generators/tesselate.ts:38-75 | a round adds the copied passages plus the seam and nothing else; the state moves on as the round's end decides; all passages stay inside the new block |
| Tessellate.Generate | ts/maze/generators/tesselate.ts:32-76 | the result is carved from the grid, and the loop runs exactly the number of doublings each side needs from 1 |
| TreeLayout.GapUpTo | ts/maze/renderers/tree-renderer.ts:214-218 | after `n` iterations the running maximum is at least 0, covers the first `n` layers, and is 0 or attained on one of them |
| TreeLayout.MinimumRequiredGap | ts/maze/renderers/tree-renderer.ts:208-220 | the gap is at least 0, gives `leftEdge[i] <= rightEdge[i] + gap` on every shared layer, and is 0 or tight on one layer |
| TreeLayout.GapIsLeast | ts/maze/renderers/tree-renderer.ts:199-220 | the gap is the least `g >= 0` that satisfies every shared layer |
| TreeLayout.ChildPositions | ts/maze/renderers/tree-renderer.ts:99-113 | one position per child; consecutive positions differ by `gap + padding`; the first is `−totalGaps/2` and the last `+totalGaps/2` |
| TreeLayout.ChildrenApart | ts/maze/renderers/tree-renderer.ts:96-113 | consecutive children's subtrees are at least one padding apart on every shared layer, and exactly that on some layer |
| TreeLayout.PositionsIncrease | ts/maze/renderers/tree-renderer.ts:97-113 | positions strictly increase, by at least the padding per child |
| TreeLayout.Merge | ts/maze/renderers/tree-renderer.ts:132-153 | a merged layer is outside (min or max of) both inputs and equal to one of them; a layer only one side has keeps that value |
| TreeLayout.EdgeUpTo | ts/maze/renderers/tree-renderer.ts:126-154 | after the first `n` children, each edge layer is the minimum (left) or maximum (right) over those children's outlines: outside all of them and attained by one; layer 0 holds the child positions, layer `i + 1` the children's layer `i` shifted by their positions |
| TreeLayout.Place | ts/maze/renderers/tree-renderer.ts:83-124 | a node's layout keeps its children, has one position per child, and edges with one entry per layer below it; a leaf's edges are empty |
| TreeLayout.LayoutOf | ts/maze/renderers/tree-renderer.ts:78-85 | the recursive layout gives every node edges as long as the number of layers below it |
| TreeBuild.AddChild | ts/maze/renderers/tree-renderer.ts:20-28 | an unvisited connection becomes a new child one layer deeper, appended to the parent's children and the queue, and is marked visited |
| TreeBuild.Expand | ts/maze/renderers/tree-renderer.ts:18-29 | taking a node off the queue adds a child for each connection not yet visited; afterwards every connection of its cell is visited |
| TreeBuild.SearchCovers | ts/maze/renderers/tree-renderer.ts:17-30 | once every node is expanded, the visited cells are exactly those reachable from the root |
| TreeBuild.Search | ts/maze/renderers/tree-renderer.ts:8-30 | each reachable cell gets exactly one tree node, and no other cell does; the root has depth 0; every other node is the child of one earlier node, one layer deeper, across a passage |
| TreeBuild.SubtreeLayered | ts/maze/renderers/tree-renderer.ts:13-24 | in the tree built from the search every child lies one layer below its parent |
| TreeBuild.NewTreeRenderer | ts/maze/renderers/tree-renderer.ts:8-33 | the tree's root stands for the root cell at depth 0, depths rise by one per layer, and the layout has one position per child and edges as long as the tree's height |

## Left out

- Drawing (`Renderer`, `TreeRenderer.render`, `TreeNode.render`), colours (`colors.ts`, every `getNodeColor`), the page glue (`main.ts`) and the build configuration: they never change a maze.
- Display-only state is not modelled: `lastCopiedExisting`/`lastCopiedNew`, `comparedNodes`, `currentBounds`, `allRowSets`, `setColorer`, and the loop-erased walk's `current`/`currentPath` once `generate` has finished. Lines 79-80 of loop-erased-walk.ts clear those two for the colouring only. The path during a walk is modelled, as each inner walk's `Walk.path`.
- Randomness: `rng`, `choose`, `lerp` and `Math.random` are not part of this model. Every draw is an argument.
  - `choose(xs)` is `xs[d % |xs|]`.
  - `Math.floor(rng() * n)` is `d % n`.
  - `rng() < 0.5` is a coin.
  - Uniformity, and the unbiasedness of Wilson's algorithm, are probabilistic claims and are not stated.
- Draw streams are indexed by a counter the model threads through. The source draws from one global generator.
- RowByRow.CarrySet: the count of cells carried down is any value in `[1, set.size]`, not `Math.floor(lerp(1, set.size, rng()))`. `lerp` is not part of this model; for linear interpolation its range is contained in this one.
- SetJoining.Generate: the shuffle `sort(() => rng() - 0.5)` is modelled as an arbitrary permutation of the candidate list, given as an argument.
- `yield` and generator-function mechanics are flattened. One loop pass of the model is the work between two `yield`s, or a whole inner loop. The intermediate display states are not observable.
- RandomWalk.Generate and LoopErasedWalk.Generate/WalkToMaze take a `fuel` bound on the number of steps. The random walks end only with probability 1.
  - With fuel left over, the result is exactly the source's.
  - When the fuel runs out, only the invariants are promised.
- Spanning-tree claims are made from a maze with no passages, which is how every generator is started.
  - GrowingTree, RandomWalk, HuntAndKill, Binary and Subdivision state them under `NoLinks(m) ==>`.
  - LoopErasedWalk, SetJoining, RowByRow and Tessellate require `NoLinks(m)`. For Wilson's algorithm, pre-existing passages could be cut by the loop erasure.
- Tessellate.Generate: no connectivity is claimed, because the algorithm does not promise it. For sizes that are not powers of two, a truncated copy can leave cells unjoined. For example, on a 3×2 maze: the first x-seam joins (0,0) and (1,0). If the y-seam then joins column 1, every copy of a passage of the 2×2 block has an end in column 3, so the copy into column 2 carries none. The last x-seam then joins only one of (2,0) and (2,1), and the other cell is left without a passage.
- Node identity is modelled as the node's index. Set objects in set joining and row by row are modelled as integer ids:
  - set joining names a set by the index of a member;
  - in row by row, a carried set keeps its id and a fresh set takes the cell's index.
- The order of `Set` iteration in `randomlyConnectDown` (`new Set(prevRowSets)`) is modelled as the order of first appearance in the row, which is JavaScript's insertion order.
- Floating point in the tree layout is modelled as `real`. The `Infinity` sentinels (`?? Infinity`) become "a layer only one side has keeps that side's value".
- Degenerate sizes the source mishandles are preconditions:
  - Connectivity.IsFullyConnected requires at least one cell (`nodes[0]` would be undefined).
  - Subdivision.Generate requires at least two cells (a 1×1 grid leaves the bounds undefined).
  - Tessellate.Generate requires width at least 2 (the first x-seam reads column 1).
  - RowByRow.Generate requires height at least 2 (with one row the "down" step would connect row 0 to itself).
  - RandomConnect.Run requires at least two cells, so that `choose` never gets an empty neighbour list.
- Where the design notes and the code differ, the model follows the code:
  - subdivision stops only at 1×1 regions;
  - set joining merges `b`'s set into `a`'s whatever their sizes;
  - tessellation doubles the block and clamps it, rather than splitting by prime factors.
