# path-finder search and maze engine, in Dafny

This project models the engine of the path-finder grid sandbox and proves
properties of the model. The engine has four parts:

- **The data model.** A cell has one of seven kinds, a position, and an
  optional hop depth and parent entry.
- **Three traversal engines.**
  - Breadth-first search is a FIFO queue of coordinates with a visited set.
    It returns a boolean.
  - Depth-first search is a LIFO stack of entries. Each entry records a
    depth and a parent. The search marks a working copy of the grid and
    returns `{found, endCell}`.
  - The engine called "Dijkstra" is a second LIFO depth-first search. It
    reads no weights, reads cell kinds from the caller's grid, and returns
    a boolean.
- **The randomised depth-first maze generator.** It carves a step-2
  lattice out of an all-wall grid and keeps a numbered log of carve,
  backtrack and finish steps.
- **The grid editor's logic.** This covers the initial grid,
  clearing a search, painting walls, dragging the start or end, and
  rebuilding and painting the path from an end entry's parent chain.

Modules follow the source files:

| module | file |
|---|---|
| `Types` | `types.dfy` |
| `Grid` | `grid.dfy` (bounds, directions, marking, walks) |
| `Lifo` | `lifo.dfy` (the stack machinery the depth-first engines share) |
| `Bfs` | `bfs.dfy` |
| `Dfs` | `dfs.dfy` |
| `Dijkstra` | `dijkstra.dfy` |
| `Maze` | `maze.dfy` |
| `PathFinder` | `pathfinder.dfy` |
| `Scenarios` | `scenarios.dfy` (the repository's test grids, replayed) |

How the model is built:

- Grids are values, `seq<seq<Cell>>`.
- Visited sets are sets of coordinates.
- The search loops, the maze loop, the parent walk and the path-painting
  loop are `while` and `for` loops with invariants.
- The Fisher–Yates shuffle works in place on an `array`.

Each engine is proved correct against one reference predicate,
`Grid.ReachesEnd(g, stops, s)`. It holds when some 4-connected walk from
`s` ends on an `End` cell and passes only through cells whose kind is not
in `stops`. The stop sets differ:

- breadth-first search stops at `{End, Wall, Start}`, because it refuses to
  expand a dequeued start cell;
- both depth-first engines stop at `{End, Wall}`.

## Model

| member | source | states |
|---|---|---|
| Types.Code | src/util/types.ts:1-9 | each kind's code is below 7 and decodes back to the same kind |
| Types.FromCode | src/util/types.ts:1-9 | a number decodes to a kind exactly when it is one of the seven codes 0..6 |
| Types.CodesDistinct | src/util/types.ts:1-9 | two kinds have the same code only if they are the same kind |
| Types.Lineage | src/util/types.ts:13-18 | following `parent` from a cell gives a finite chain that starts at the cell, links each entry to its parent, and ends at a parentless cell |
| Grid.SetKind | src/components/PathFinder.tsx:93-94 | assigning a cell's kind changes that one cell's kind and keeps the grid's shape and every other cell |
| Grid.DirIndex | src/algorithms/useBFS.tsx:12-17 | every 4-neighbour is one step in exactly one of the four engine directions |
| Grid.DiscoverOrdered | src/algorithms/useBFS.tsx:46-63 | the neighbours one expansion adds are adjacent, in bounds and unvisited; they come in left, right, down, up order; and every in-bounds unvisited neighbour is added |
| Grid.DiscoverDistinct | src/algorithms/useBFS.tsx:58-62 | one expansion adds no coordinate twice |
| Grid.DiscoverCovers | src/algorithms/useBFS.tsx:49-62 | after an expansion, every in-bounds neighbour is visited or was just added, whatever its kind (walls included) |
| Grid.InGridBound | src/algorithms/useBFS.tsx:33-34 | a visited set of in-bounds coordinates has at most rows×cols elements, which bounds the number of iterations |
| Grid.MarkAllCells | src/algorithms/useDFS.tsx:70-74 | marking a list of coordinates marks exactly those cells and leaves the others as they were |
| Grid.MarkedKinds | src/algorithms/useDFS.tsx:38-43 | a marked copy has `End` and `Wall` exactly where the original has them, so reading kinds from the copy decides as reading the original would |
| Grid.WalkSteps | src/algorithms/useBFS.tsx:46-62 | a walk stays in bounds, moves between 4-adjacent cells, and steps only out of cells the engine does not stop at |
| Grid.EndAtStart | src/algorithms/useBFS.tsx:42 | an `End` on the start coordinate is reached at once |
| Grid.ClosedExcludesEnd | src/algorithms/useBFS.tsx:66 | a set holding the start, closed under expansion and holding no `End`, shows that no end is reachable |
| Lifo.PushNeighbours | src/algorithms/useDFS.tsx:45-84 | one expansion pushes one entry per new neighbour in direction order, adds those neighbours to the visited set, and marks them on the working grid at depth + 1 |
| Lifo.LifoFound | src/algorithms/useDFS.tsx:38-41 | popping an `End` entry means an end is reachable |
| Lifo.LifoExhausted | src/algorithms/useDFS.tsx:87-88 | an empty stack means no end is reachable |
| Lifo.ExpandTop | src/algorithms/useDFS.tsx:43-84 | expanding a non-wall top keeps the search invariant; the visited set grows or the stack shrinks |
| Bfs.EnqueueNeighbours | src/algorithms/useBFS.tsx:46-63 | the queue gains the new neighbours in direction order, and they are marked visited as they are enqueued |
| Bfs.BfsSearch | src/algorithms/useBFS.tsx:28-66 | the search returns true exactly when an end is reachable through cells that are not end, wall or start; the dequeued cells are distinct, each with the length of a shortest walk to it, in non-decreasing order; on success the last dequeued cell is the first end dequeued, every cell nearer than it was dequeued before it, and no end is nearer; on failure every reachable cell was dequeued |
| Bfs.BfsStep | src/algorithms/useBFS.tsx:36-63 | one dequeue either finds an end or keeps the invariant; the visited set grows or the queue shrinks |
| Bfs.ExpandHead | src/algorithms/useBFS.tsx:46-63 | expanding a dequeued cell that is not a stop keeps the invariant; the visited set grows or the queue is unchanged |
| Bfs.BfsSkip | src/algorithms/useBFS.tsx:43-44 | a dequeued wall or start cell is dropped without expansion and the invariant still holds |
| Bfs.BfsExpand | src/algorithms/useBFS.tsx:58-62 | enqueuing appends exactly the new neighbours and keeps the invariant |
| Bfs.BfsFoundEnd | src/algorithms/useBFS.tsx:42 | dequeuing an `End` means an end is reachable; the cells dequeued up to it contain no earlier end and every cell nearer than it |
| Bfs.NearestEnd | src/algorithms/useBFS.tsx:36-42 | since the FIFO reaches every nearer cell first, the end it returns at is a nearest reachable end |
| Bfs.AdvanceComplete | src/algorithms/useBFS.tsx:36-37 | when the queue's head moves on, every cell no farther than the new head has been enqueued |
| Bfs.ExpandLevels | src/algorithms/useBFS.tsx:58-62 | a newly enqueued neighbour is farther than the head, so its walk through the head is a shortest one |
| Bfs.BfsExhausted | src/algorithms/useBFS.tsx:66 | a drained queue means no end is reachable and every reachable cell was dequeued |
| Bfs.LengthsSorted | src/algorithms/useBFS.tsx:37 | walk lengths that grow by at most one per entry are sorted across the queue, so the FIFO dequeues in non-decreasing hop order |
| Bfs.StartCellBlocksSearch | src/algorithms/useBFS.tsx:44 | when the start coordinate holds `Start`, no end is reachable under the engine's stops |
| Dfs.DfsSearch | src/algorithms/useDFS.tsx:19-88 | found exactly when an end is reachable through non-wall cells, and then the end entry lies on an `End` of the working grid; the end entry is linked by parent steps to the start; an end on the start yields the depth-0 start entry; the working grid is a marking of the input |
| Dfs.DfsStep | src/algorithms/useDFS.tsx:31-85 | one pop either answers or keeps the invariant; the visited set grows or the stack shrinks |
| Dfs.DfsExpand | src/algorithms/useDFS.tsx:45-84 | the stack gains one entry per new neighbour, each with depth + 1 and the popped entry as its parent |
| Dfs.DfsFound | src/algorithms/useDFS.tsx:38-41 | popping an `End` yields a linked end entry, and an end is reachable |
| Dfs.DfsSkip | src/algorithms/useDFS.tsx:43 | a popped wall entry is not expanded and the invariant still holds |
| Dfs.DfsExhausted | src/algorithms/useDFS.tsx:87-88 | an empty stack means no end is reachable |
| Dfs.PushLinked | src/algorithms/useDFS.tsx:57-68 | every entry stays linked to the start through adjacent, in-bounds, non-stop parents with depths growing by one |
| Dfs.LinkedLineage | src/algorithms/useDFS.tsx:57-68 | the parent chain of a linked entry ends at the start entry, has `depth` links, and runs through adjacent in-bounds cells |
| Dijkstra.DijkstraSearch | src/algorithms/useDijkstra.tsx:18-77 | returns true exactly when an end is reachable through non-wall cells of the input grid; the working grid is a marking of the input whose marked depths are hop counts from the start |
| Dijkstra.DijkstraStep | src/algorithms/useDijkstra.tsx:29-75 | one pop of a non-end entry keeps the invariant; the visited set grows or the stack shrinks |
| Dijkstra.DijkstraExpand | src/algorithms/useDijkstra.tsx:40-74 | the stack gains one parentless entry per new neighbour, with depth + 1 |
| Dijkstra.DijkstraFound | src/algorithms/useDijkstra.tsx:36-37 | popping a cell that is `End` in the input grid means an end is reachable |
| Dijkstra.DijkstraSkip | src/algorithms/useDijkstra.tsx:38 | a popped wall is not expanded and the invariant still holds |
| Dijkstra.DijkstraExhausted | src/algorithms/useDijkstra.tsx:77 | an empty stack means no end is reachable |
| Dijkstra.PushedHops | src/algorithms/useDijkstra.tsx:52-63 | each pushed entry's depth is a hop count from the start along non-wall cells |
| Dijkstra.HopStep | src/algorithms/useDijkstra.tsx:52 | one step from a non-stop cell at hop count n reaches its neighbour at n + 1 |
| Maze.InitializeGrid | src/algorithms/randomisedDfsMazeGeneration.ts:14-29 | builds rows×cols cells, all walls, and the cell at [r][c] carries row r and column c |
| Maze.NeighboursFit | src/algorithms/randomisedDfsMazeGeneration.ts:31-61 | at most four neighbours; each lies two steps away along one axis, inside 1..rows-2 × 1..cols-2, and is a wall |
| Maze.NeighboursOrdered | src/algorithms/randomisedDfsMazeGeneration.ts:38-58 | the neighbours come in up, down, left, right order |
| Maze.NeighboursComplete | src/algorithms/randomisedDfsMazeGeneration.ts:45-58 | every qualifying two-step wall neighbour is listed |
| Maze.GetNeighbors | src/algorithms/randomisedDfsMazeGeneration.ts:31-61 | the loop returns exactly the neighbour list the properties above describe |
| Maze.SwapPermutes | src/algorithms/randomisedDfsMazeGeneration.ts:67 | exchanging two elements is a permutation |
| Maze.ShuffledPermutes | src/algorithms/randomisedDfsMazeGeneration.ts:65-68 | the Fisher–Yates passes keep length and contents for any choices j reduced into 0..i |
| Maze.Shuffle | src/algorithms/randomisedDfsMazeGeneration.ts:63-70 | the shuffle is a permutation of its input |
| Maze.ShuffleArray | src/algorithms/randomisedDfsMazeGeneration.ts:63-70 | the in-place loop on a fresh copy computes the shuffle; it consumes one choice per pass and leaves the input array as it was |
| Maze.CopyArray | src/algorithms/randomisedDfsMazeGeneration.ts:64 | the copy is a fresh array with the same contents |
| Maze.SwapCells | src/algorithms/randomisedDfsMazeGeneration.ts:67 | the destructuring swap exchanges exactly two cells |
| Maze.CarvePassage | src/algorithms/randomisedDfsMazeGeneration.ts:73-99 | sets the destination and the midpoint to `Empty` and changes nothing else; appends two carve entries, copies of those cells numbered `stepCounter` and `stepCounter + 1`; returns `stepCounter + 2` |
| Maze.WallsShrink | src/algorithms/randomisedDfsMazeGeneration.ts:54 | carving a chosen wall neighbour strictly reduces the number of walls, so the loop terminates |
| Maze.NumberedGrow | src/algorithms/randomisedDfsMazeGeneration.ts:121-125 | appending an entry numbered by the log's length keeps the log numbered 0, 1, 2, … |
| Maze.MazeInit | src/algorithms/randomisedDfsMazeGeneration.ts:113-128 | after the start is carved and logged as step 0, the loop invariant holds with the stack [start] |
| Maze.CarveKeeps | src/algorithms/randomisedDfsMazeGeneration.ts:137-146 | after a carve every carved cell is either on the start's parity lattice or a gap whose two neighbours along its odd axis are open lattice cells; each is connected to the start through carved cells, and the border stays whole |
| Maze.GapStays | src/algorithms/randomisedDfsMazeGeneration.ts:137-146 | a later carve or the final marking of start and end keeps a lattice cell or gap one |
| Maze.InNeighbours | src/algorithms/randomisedDfsMazeGeneration.ts:49-55 | a listed neighbour is two steps away and an inner wall |
| Maze.ShuffledNeighbours | src/algorithms/randomisedDfsMazeGeneration.ts:132-135 | the list is the Fisher–Yates shuffle of the direction-ordered neighbour list under the given choices, so it holds the same neighbours with the same multiplicities; it accounts for the choices used |
| Maze.CarveStep | src/algorithms/randomisedDfsMazeGeneration.ts:137-146 | carving to a neighbour opens exactly it and the wall between it and the top of the stack, pushes it, appends the two carve entries numbered `stepCounter` and `stepCounter + 1`, advances the counter by two, and keeps the invariant |
| Maze.BacktrackStep | src/algorithms/randomisedDfsMazeGeneration.ts:147-156 | popping keeps the invariant; a backtrack entry is logged only when the stack is still non-empty |
| Maze.MazeStep | src/algorithms/randomisedDfsMazeGeneration.ts:130-157 | one iteration pushes exactly when a neighbour exists; it then carves to the first element of the shuffled neighbour list and logs the two carve entries; otherwise it leaves the grid alone, pops, and logs the backtrack unless the stack is then empty; either the wall count or the stack shrinks |
| Maze.MazeDone | src/algorithms/randomisedDfsMazeGeneration.ts:159-162 | after the start is set to `Start` and then the end to `End`, the end holds `End` (so it wins when start = end); every other cell is a wall or a connected carved cell; the border is wall except at the start and end |
| Maze.LogDone | src/algorithms/randomisedDfsMazeGeneration.ts:164-168 | the final log opens with the start's carve, is numbered in order, and closes with the single finish entry, a copy of the end cell |
| Maze.GenerateMaze | src/algorithms/randomisedDfsMazeGeneration.ts:102-174 | for any random choices the result is a finished maze: every cell carries its position; except at the start and end it is a wall or carved, and the border is wall; each carved cell is a lattice cell or a gap between two open ones and is connected to the start; the end holds `End`; the log is numbered from 0, opens with the start's carve and closes with the single finish entry |
| Maze.CreateMaze | src/algorithms/randomisedDfsMazeGeneration.ts:176-195 | a missing start or end defaults to (1, 1) and (rows-2, cols-2) |
| PathFinder.GenerateGrid | src/components/PathFinder.tsx:60-75 | builds a 30×71 grid whose cells carry their own positions, with `Start` at (15, 30), `End` at (15, 40) and `Empty` elsewhere |
| PathFinder.GeneratedPlaced | src/components/PathFinder.tsx:9-20 | the initial grid holds `Start` only at the default start position and `End` only at the default end position |
| PathFinder.ClearPath | src/components/PathFinder.tsx:81-97 | `Visited` and `Path` become `Empty`, other kinds stay, depth becomes 0 everywhere; then the start position holds `Start` and the end position `End`, the end winning if they coincide |
| PathFinder.ClearRemovesMarks | src/components/PathFinder.tsx:82-91 | no cleared cell is `Visited` or `Path`; each has depth 0, keeps its parent, and a wall away from the start and end stays a wall |
| PathFinder.ClearIdempotent | src/components/PathFinder.tsx:81-97 | clearing twice is the same as clearing once |
| PathFinder.ClearKeepsPlaced | src/components/PathFinder.tsx:93-94 | clearing keeps the start and end where they are, and nowhere else |
| PathFinder.PaintCell | src/components/PathFinder.tsx:127-137 | a `Start` or `End` cell is left alone; a wall becomes `Empty`; any other kind becomes a wall; only that one cell changes |
| PathFinder.PaintToggles | src/components/PathFinder.tsx:133 | painting a wall or empty cell twice restores the grid |
| PathFinder.PaintKeepsPlaced | src/components/PathFinder.tsx:130 | painting never moves or removes the start or the end |
| PathFinder.Lifted | src/components/PathFinder.tsx:152-156 | clearing the previous drag position keeps the grid's shape, makes that cell `Empty` and leaves every other cell as it was |
| PathFinder.MoveSpecialCell | src/components/PathFinder.tsx:140-170 | dragging a start onto the end, or an end onto the start, changes nothing; with nothing dragged only the previous position is cleared; otherwise the new cell takes the dragged kind, becomes the last dragged position, and the matching start or end position moves there |
| PathFinder.MoveKeepsPlaced | src/components/PathFinder.tsx:146-169 | dragging the start or the end keeps exactly one start and one end in the grid, at the recorded positions |
| PathFinder.ReverseReverse | src/components/PathFinder.tsx:110 | reversing the collected chain twice gives it back, so no entry is lost or reordered beyond the reversal |
| PathFinder.ReverseMultiset | src/components/PathFinder.tsx:110 | the reversed path holds exactly the cells of the chain, each as often |
| PathFinder.ChainStep | src/components/PathFinder.tsx:104-108 | the collected chain is the cell's position followed by its parent's chain |
| PathFinder.CollectChain | src/components/PathFinder.tsx:104-108 | the while loop collects the positions of the end entry and its parents, end first |
| PathFinder.PaintPath | src/components/PathFinder.tsx:113-118 | every coordinate on the path becomes `Path`, endpoints included, and nothing else changes |
| PathFinder.GeneratePath | src/components/PathFinder.tsx:100-125 | with no end entry nothing happens; otherwise the path is the reversed parent chain and exactly its cells are set to `Path` |
| PathFinder.TracedAt | src/components/PathFinder.tsx:104-110 | the traced path lists the chain from root to end |
| PathFinder.DfsPathIsWalk | src/components/PathFinder.tsx:104-110 | for a depth-first end entry, the traced path starts at the start, ends at the end entry, has `depth` + 1 cells, stays in bounds and moves between adjacent cells |
| Scenarios.TestGrid | src/tests/useBFS.test.ts:5-13 | the tests' grid of empty cells carrying their positions |
| Scenarios.RouteWalk | src/algorithms/useBFS.tsx:46-62 | a route of in-bounds cells whose steps are adjacent and leave only cells the engine does not stop at is a walk, the converse of `Grid.WalkSteps` |
| Scenarios.CornerReachable | src/tests/useDFS.test.ts:57-68 | on an empty n×n grid the corner end is reachable from (0, 0) |
| Scenarios.NoEndUnreachable | src/tests/useDFS.test.ts:70-89 | a grid without an end cell has no reachable end |
| Scenarios.BlockedUnreachable | src/tests/useBFS.test.ts:29-42 | walls at (0, 1) and (1, 0) cut (0, 0) off from the end at (2, 2) |
| Scenarios.EndFirstReachable | src/tests/useBFS.test.ts:44-55 | an end on the start cell is reachable |
| Scenarios.BfsOpen | src/tests/useBFS.test.ts:16-27 | breadth-first search finds the corner end of the 3×3 grid |
| Scenarios.BfsBlocked | src/tests/useBFS.test.ts:29-42 | breadth-first search fails on the blocked grid |
| Scenarios.BfsEndFirst | src/tests/useBFS.test.ts:44-55 | breadth-first search succeeds when the start is the end |
| Scenarios.DfsOpen | src/tests/useDFS.test.ts:16-27 | depth-first search finds the end and returns the entry at (2, 2) |
| Scenarios.DfsBlocked | src/tests/useDFS.test.ts:29-42 | depth-first search fails on the blocked grid and returns no end entry |
| Scenarios.DfsEndFirst | src/tests/useDFS.test.ts:44-55 | depth-first search returns the depth-0 start entry when the start is the end |
| Scenarios.DfsLarge | src/tests/useDFS.test.ts:57-68 | depth-first search finds the corner end of the 10×10 grid |
| Scenarios.DfsWalledOff | src/tests/useDFS.test.ts:70-89 | depth-first search fails on the 4×4 grid whose walls overwrite the end |
| Scenarios.DijkstraOpen | src/tests/useDijkstra.test.ts:16-27 | the "Dijkstra" engine finds the corner end of the 3×3 grid |
| Scenarios.DijkstraBlocked | src/tests/useDijkstra.test.ts:29-42 | the "Dijkstra" engine fails on the blocked grid |
| Scenarios.DijkstraEndFirst | src/tests/useDijkstra.test.ts:44-55 | the "Dijkstra" engine succeeds when the start is the end |
| Scenarios.MazeSolvable | src/tests/randomisedDfsMazeGeneration.test.ts:8-46 | for any random choices, a 21×21 maze with start and end at (5, 5) is solved by breadth-first and by depth-first search |

## Left out

- React rendering, mouse listeners, `useState` and `useRef` are not
  modelled. The editor state is an `Editor` value passed in and returned.
- Timing and asynchrony are left out: `wait`, the periodic
  `setGrid` snapshots, `finishUpdate`, and the fire-and-forget
  `forEach(async …)` of the "Dijkstra" engine. Each search is one
  synchronous loop. The part of each neighbour callback before its first
  `await` runs synchronously, so the model processes the four directions in
  order.
- src/util/util.ts is not part of this model. `deepCloneGrid` is treated
  as a plain copy.
- `console.log` calls are dropped.
- `getKey` strings are replaced by coordinate pairs.
- `Math.random` is floating point. The random source is a function
  `draw: nat -> nat`, and pass i of the shuffle uses `draw(k) % (i + 1)`,
  so every choice lies in 0..i as the source assumes.
- Maze.ShuffleArray: the source takes the random function as an
  argument; the model also threads the index of the next unused choice.
- Cells are values, not shared objects, so assignments through shared references are not modelled:
  - `handlePaintCell` and `handleMoveSpecialCell` copy only the rows and
    then assign `.type` on cell objects the old grid shares. Any aliasing
    with the previous React state is therefore not captured.
  - The maze stack holds coordinates rather than cell objects. The log
    entries are copies of the grid cells, taken as the source takes them.
- Dijkstra.DijkstraSearch: the returned grid is the working copy after the
  loop. The source publishes it only through `setGrid` snapshots.
- Maze.CarvePassage: JavaScript's `/` can give a fractional midpoint. The
  requires admits only pairs of equal parity on both axes, which is every
  pair `generateMaze` passes.
- Maze.CreateMaze: the options object becomes two `Option` coordinates
  and the random function. `options.start || defaultStart` picks the
  default only for a missing position; any given object counts as present.
- Inputs on which the source throws a `TypeError` (it reads `.type` of
  an `undefined` cell or indexes an `undefined` row) are excluded by
  requires rather than modelled as an error result:
  - Bfs.BfsSearch, Dfs.DfsSearch, Dijkstra.DijkstraSearch: the grid must
    be rectangular and the start inside it. A cell the bounds test admits
    past the end of a shorter row, or a start off the grid, is read as
    `undefined`.
  - Maze.GenerateMaze, Maze.CreateMaze: the start and the end must lie on
    the grid, since the source assigns `.type` on both cells.
  - PathFinder.ClearPath: the start and end positions must lie on the grid.
  - PathFinder.PaintCell: a cell that is neither start nor end must lie on
    the grid.
  - PathFinder.GeneratePath: every cell of the parent chain must lie on
    the grid.
- PathFinder.MoveSpecialCell: the source writes through an index it
  never checks. The requires asks that the previous and new positions
  exist in the grid.
- PathFinder.ClearPath and the handlers work on a grid passed in, not on
  React state.
- `runBFS` and `runDFS` are not modelled, because they only wire the
  engines to the editor.
- The tests' return shapes are not followed. The DFS tests compare the
  object the DFS returns with `true`. The "Dijkstra" tests destructure
  `{found}` from the boolean the engine returns. The maze test does the
  same with its BFS call (line 24), while its DFS call (line 44) does get
  an object. The scenarios state the results the implementations return.
- Weights, `costFromStart` and the A* fields of `Cell` are declared but
  never read by any engine. They are not modelled.
- `PathfindingResult` is declared as a datatype. No modelled operation
  returns it, because no engine does.
- src/util/constant.ts is not part of this model. Its direction list is
  unused, and each engine declares its own.
