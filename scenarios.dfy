/** The example grids of the repository's tests, replayed against the three
    engines and the maze generator: a 3 by 3 grid of empty cells with the
    end in the far corner, the same grid with the two neighbours of the
    start walled off, a grid whose start cell is itself the end, and a
    21 by 21 maze generated with its start and end on the same cell. */
module Scenarios {
  import opened Types
  import opened Grid
  import Lifo
  import Bfs
  import Dfs
  import Dijkstra
  import Maze

  /** A `rows` by `cols` grid of empty cells carrying their positions. */
  function TestGrid(rows: nat, cols: nat): (g: Grid)
    ensures |g| == rows && Rect(g) && (rows > 0 ==> Width(g) == cols)
    ensures forall r, c :: 0 <= r < rows && 0 <= c < cols ==> g[r][c] == Cell(Empty, r, c, None, None)
  {
    seq(rows, r requires 0 <= r < rows => seq(cols, c requires 0 <= c < cols => Cell(Empty, r, c, None, None)))
  }

  const Origin: Coord := Coord(0, 0)

  /** The start cell the tests pass to the engines. */
  const TestStart: Cell := Cell(Start, 0, 0, None, None)

  /** An `n` by `n` empty grid with the end in the bottom-right corner. */
  function CornerGrid(n: nat): Grid
    requires n >= 1
  {
    SetKind(TestGrid(n, n), Coord(n - 1, n - 1), End)
  }

  function OpenGrid(): Grid { CornerGrid(3) }

  function LargeGrid(): Grid { CornerGrid(10) }

  function BlockedGrid(): Grid
  {
    SetKind(SetKind(SetKind(TestGrid(3, 3), Coord(0, 1), Wall), Coord(1, 0), Wall), Coord(2, 2), End)
  }

  function EndFirstGrid(): Grid { SetKind(TestGrid(3, 3), Origin, End) }

  /** The 4 by 4 grid whose last row and last column are walled after the
      end was placed at (3, 3), so the walls overwrite the end; the start
      cell is then set back to a start. */
  function WalledGrid(): (g: Grid)
    ensures |g| == 4 && Rect(g) && Width(g) == 4
  {
    seq(4, r requires 0 <= r < 4 => seq(4, c requires 0 <= c < 4 =>
      Cell(if r == 0 && c == 0 then Start else if r == 3 || c == 3 then Wall else Empty, r, c, None, None)))
  }

  /** The route along the top row and down the right column of an `n` by
      `n` grid. */
  function CornerRoute(n: nat): (w: seq<Coord>)
    requires n >= 1
    ensures |w| == 2 * n - 1
  {
    seq(2 * n - 1, i requires 0 <= i < 2 * n - 1 => if i < n then Coord(0, i) else Coord(i - n + 1, n - 1))
  }

  lemma CornerStep(n: nat, i: nat)
    requires n >= 1 && i < 2 * n - 2
    ensures Adjacent(CornerRoute(n)[i], CornerRoute(n)[i + 1])
  {
  }

  /** Step i of `w` moves to an adjacent cell out of one the engine does not stop at. */
  predicate OpenStep(g: Grid, stops: set<CellType>, w: seq<Coord>, i: nat)
    requires i + 1 < |w|
  {
    Adjacent(w[i], w[i + 1]) && KindAt(g, w[i]) !in stops
  }

  /** A route of in-bounds cells whose every step is open is a walk (the
      converse of `Grid.WalkSteps`), prefix by prefix. */
  lemma {:induction false} RouteWalk(g: Grid, stops: set<CellType>, w: seq<Coord>, k: nat)
    requires |w| >= 1 && 1 <= k <= |w|
    requires forall i :: 0 <= i < |w| ==> InBounds(g, w[i])
    requires forall i: nat :: i + 1 < |w| ==> OpenStep(g, stops, w, i)
    ensures Walk(g, stops, w[0], w[..k])
    decreases k
  {
    if k > 1 {
      RouteWalk(g, stops, w, k - 1);
      var p := w[..k - 1];
      assert OpenStep(g, stops, w, k - 2);
      assert p[|p| - 1] == w[k - 2];
      WalkExtend(g, stops, w[0], p, w[k - 1]);
      assert w[..k] == p + [w[k - 1]];
    } else {
      assert w[..k] == [w[0]];
    }
  }

  /** On an empty square grid the corner end is reached from the origin by
      any engine that does not stop at empty cells. */
  lemma CornerReachable(n: nat, stops: set<CellType>)
    requires n >= 1 && Empty !in stops
    ensures Rect(CornerGrid(n)) && InBounds(CornerGrid(n), Origin) && ReachesEnd(CornerGrid(n), stops, Origin)
  {
    var g, w := CornerGrid(n), CornerRoute(n);
    forall i | 0 <= i < |w| ensures InBounds(g, w[i]) {
    }
    forall i: nat | i + 1 < |w| ensures OpenStep(g, stops, w, i) {
      assert w[i] != Coord(n - 1, n - 1);
      CornerStep(n, i);
    }
    RouteWalk(g, stops, w, |w|);
    assert w[..|w|] == w;
    EndReached(g, stops, Origin, w);
  }

  /** A grid without an end cell has no walk to an end. */
  lemma NoEndUnreachable(g: Grid, stops: set<CellType>, s: Coord)
    requires Rect(g) && InBounds(g, s)
    requires forall r, c :: 0 <= r < |g| && 0 <= c < |g[r]| ==> g[r][c].kind != End
    ensures !ReachesEnd(g, stops, s)
  {
    var V := AllCoords(g);
    forall q | q in V && KindAt(g, q) !in stops ensures Expanded(g, V, q) {
      forall x | InBounds(g, x) && Adjacent(q, x) ensures x in V {
        InAllCoords(g, x);
      }
    }
    InAllCoords(g, s);
    ClosedExcludesEnd(g, stops, s, V);
  }

  /** On the blocked grid the start and its two walled neighbours form a
      closed set without an end, for any engine that stops at walls. */
  lemma BlockedUnreachable(stops: set<CellType>)
    requires Wall in stops
    ensures Rect(BlockedGrid()) && InBounds(BlockedGrid(), Origin) && !ReachesEnd(BlockedGrid(), stops, Origin)
  {
    var g := BlockedGrid();
    var V := {Origin, Coord(0, 1), Coord(1, 0)};
    assert KindAt(g, Coord(0, 1)) == Wall && KindAt(g, Coord(1, 0)) == Wall && KindAt(g, Origin) == Empty;
    forall x | InBounds(g, x) && Adjacent(Origin, x) ensures x in V {
    }
    assert Expanded(g, V, Origin);
    assert Closed(g, stops, V);
    ClosedExcludesEnd(g, stops, Origin, V);
  }

  lemma EndFirstReachable(stops: set<CellType>)
    ensures Rect(EndFirstGrid()) && InBounds(EndFirstGrid(), Origin) && ReachesEnd(EndFirstGrid(), stops, Origin)
  {
    EndAtStart(EndFirstGrid(), stops, Origin);
  }

  method BfsOpen() returns (found: bool)
    ensures found
  {
    CornerReachable(3, Bfs.BfsStops);
    ghost var order, hops;
    found, order, hops := Bfs.BfsSearch(OpenGrid(), Origin);
  }

  method BfsBlocked() returns (found: bool)
    ensures !found
  {
    BlockedUnreachable(Bfs.BfsStops);
    ghost var order, hops;
    found, order, hops := Bfs.BfsSearch(BlockedGrid(), Origin);
  }

  method BfsEndFirst() returns (found: bool)
    ensures found
  {
    EndFirstReachable(Bfs.BfsStops);
    ghost var order, hops;
    found, order, hops := Bfs.BfsSearch(EndFirstGrid(), Origin);
  }

  method DfsOpen() returns (found: bool, endCell: Option<Cell>)
    ensures found && endCell.Some? && At(endCell.value) == Coord(2, 2)
  {
    CornerReachable(3, Lifo.LifoStops);
    var newGrid;
    found, endCell, newGrid := Dfs.DfsSearch(OpenGrid(), TestStart);
    MarkedKinds(OpenGrid(), newGrid, At(endCell.value));
  }

  method DfsLarge() returns (found: bool)
    ensures found
  {
    CornerReachable(10, Lifo.LifoStops);
    var endCell, newGrid;
    found, endCell, newGrid := Dfs.DfsSearch(LargeGrid(), TestStart);
  }

  method DfsWalledOff() returns (found: bool)
    ensures !found
  {
    NoEndUnreachable(WalledGrid(), Lifo.LifoStops, Origin);
    var endCell, newGrid;
    found, endCell, newGrid := Dfs.DfsSearch(WalledGrid(), TestStart);
  }

  method DfsBlocked() returns (found: bool, endCell: Option<Cell>)
    ensures !found && endCell.None?
  {
    BlockedUnreachable(Lifo.LifoStops);
    var newGrid;
    found, endCell, newGrid := Dfs.DfsSearch(BlockedGrid(), TestStart);
  }

  method DfsEndFirst() returns (found: bool, endCell: Option<Cell>)
    ensures found && endCell == Some(Lifo.Root(TestStart))
  {
    EndFirstReachable(Lifo.LifoStops);
    var newGrid;
    found, endCell, newGrid := Dfs.DfsSearch(EndFirstGrid(), TestStart);
  }

  method DijkstraOpen() returns (found: bool)
    ensures found
  {
    CornerReachable(3, Lifo.LifoStops);
    var newGrid;
    found, newGrid := Dijkstra.DijkstraSearch(OpenGrid(), TestStart);
  }

  method DijkstraBlocked() returns (found: bool)
    ensures !found
  {
    BlockedUnreachable(Lifo.LifoStops);
    var newGrid;
    found, newGrid := Dijkstra.DijkstraSearch(BlockedGrid(), TestStart);
  }

  method DijkstraEndFirst() returns (found: bool)
    ensures found
  {
    EndFirstReachable(Lifo.LifoStops);
    var newGrid;
    found, newGrid := Dijkstra.DijkstraSearch(EndFirstGrid(), TestStart);
  }

  /** A 21 by 21 maze whose start and end are both (5, 5) is solved by the
      breadth-first and the depth-first engine, whatever the random draws. */
  method MazeSolvable(draw: nat -> nat) returns (foundBfs: bool, foundDfs: bool)
    ensures foundBfs && foundDfs
  {
    var s := Coord(5, 5);
    var grid, steps := Maze.CreateMaze(21, 21, Some(s), Some(s), draw);
    assert KindAt(grid, s) == End && Rect(grid) && InBounds(grid, s);
    EndAtStart(grid, Bfs.BfsStops, s);
    EndAtStart(grid, Lifo.LifoStops, s);
    ghost var order, hops;
    foundBfs, order, hops := Bfs.BfsSearch(grid, s);
    var endCell, newGrid;
    foundDfs, endCell, newGrid := Dfs.DfsSearch(grid, Cell(Start, 5, 5, None, None));
  }
}
