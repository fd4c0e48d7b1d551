/** The randomised depth-first maze generator: a grid of walls is carved
    from a start cell by repeatedly knocking through to an unvisited cell two
    steps away, backtracking along a stack when a cell has no such
    neighbour, and every carve and backtrack is logged for the animation.
    The random source is a supplied function from the index of a draw to a
    natural number; a draw used to pick among `i + 1` positions is reduced
    modulo `i + 1`, which ranges over exactly the choices `0 .. i`. */
module Maze {
  import opened Types
  import opened Grid

  /** What a logged generation step did. */
  datatype Action = Carve | Backtrack | Finish

  /** One entry of the generation log: a copy of the cell at the time, the
      step number and the action. */
  datatype MazeGenerationStep = MazeGenerationStep(cell: Cell, step: int, action: Action)

  /** The number of iterations of a loop `for (i = 0; i < n; i++)`. */
  function Count(n: int): nat { if n > 0 then n else 0 }

  /** A fresh wall cell at row `r`, column `c`. */
  function WallCell(r: int, c: int): Cell { Cell(Wall, r, c, None, None) }

  /** `g` has `rows` rows of `cols` cells each, and every cell is a wall
      carrying its own position. */
  predicate WallGrid(g: Grid, rows: int, cols: int)
  {
    |g| == Count(rows) &&
    (forall r :: 0 <= r < |g| ==> |g[r]| == Count(cols)) &&
    (forall r, c :: 0 <= r < |g| && 0 <= c < |g[r]| ==> g[r][c] == WallCell(r, c))
  }

  /** Builds the grid row by row, cell by cell. */
  method InitializeGrid(rows: int, cols: int) returns (grid: Grid)
    ensures WallGrid(grid, rows, cols)
    ensures Rect(grid) && (rows > 0 ==> Width(grid) == Count(cols))
  {
    grid := [];
    var row := 0;
    while row < rows
      invariant 0 <= row <= Count(rows) && |grid| == row
      invariant forall r :: 0 <= r < |grid| ==> |grid[r]| == Count(cols)
      invariant forall r, c :: 0 <= r < |grid| && 0 <= c < |grid[r]| ==> grid[r][c] == WallCell(r, c)
    {
      var line: seq<Cell> := [];
      var col := 0;
      while col < cols
        invariant 0 <= col <= Count(cols) && |line| == col
        invariant forall c :: 0 <= c < |line| ==> line[c] == WallCell(row, c)
      {
        line := line + [WallCell(row, col)];
        col := col + 1;
      }
      grid := grid + [line];
      row := row + 1;
    }
  }

  /** The generator's neighbour order: up, down, left, right, two cells
      away so that a wall stays between neighbouring passages. */
  const MazeDirections: seq<Coord> := [Coord(-2, 0), Coord(2, 0), Coord(0, -2), Coord(0, 2)]

  /** `q` lies two cells from `p` along a row or a column. */
  predicate TwoStep(p: Coord, q: Coord)
  {
    (p.col == q.col && (q.row == p.row - 2 || q.row == p.row + 2)) ||
    (p.row == q.row && (q.col == p.col - 2 || q.col == p.col + 2))
  }

  /** The position of the step from `p` to `q` in the generator's order. */
  function TwoStepIndex(p: Coord, q: Coord): (i: nat)
    requires TwoStep(p, q)
    ensures i < |MazeDirections| && Move(p, MazeDirections[i]) == q
  {
    if q.row == p.row - 2 then 0
    else if q.row == p.row + 2 then 1
    else if q.col == p.col - 2 then 2
    else 3
  }

  lemma TwoStepAt(p: Coord, i: nat)
    requires i < |MazeDirections|
    ensures TwoStep(p, Move(p, MazeDirections[i])) && TwoStepIndex(p, Move(p, MazeDirections[i])) == i
  {
  }

  /** A candidate is taken when it lies strictly inside the border and is
      still a wall. */
  predicate Fits(g: Grid, q: Coord, rows: int, cols: int)
  {
    1 <= q.row < rows - 1 && 1 <= q.col < cols - 1 && KindAt(g, q) == Wall
  }

  /** The candidates among the first `k` directions that fit, in order. */
  function MazeNeighbours(g: Grid, p: Coord, rows: int, cols: int, k: nat): seq<Coord>
    requires k <= |MazeDirections|
  {
    if k == 0 then []
    else
      var q := Move(p, MazeDirections[k - 1]);
      MazeNeighbours(g, p, rows, cols, k - 1) + (if Fits(g, q, rows, cols) then [q] else [])
  }

  /** Every neighbour is two steps away in one of the first `k` directions,
      inside the border, and a wall. */
  lemma {:induction false} NeighboursFit(g: Grid, p: Coord, rows: int, cols: int, k: nat)
    requires k <= |MazeDirections|
    ensures |MazeNeighbours(g, p, rows, cols, k)| <= k
    ensures forall j :: 0 <= j < |MazeNeighbours(g, p, rows, cols, k)| ==>
      TwoStep(p, MazeNeighbours(g, p, rows, cols, k)[j]) &&
      TwoStepIndex(p, MazeNeighbours(g, p, rows, cols, k)[j]) < k &&
      Fits(g, MazeNeighbours(g, p, rows, cols, k)[j], rows, cols)
  {
    if k > 0 {
      NeighboursFit(g, p, rows, cols, k - 1);
    }
  }

  /** The neighbours come in the generator's direction order. */
  lemma {:induction false} NeighboursOrdered(g: Grid, p: Coord, rows: int, cols: int, k: nat)
    requires k <= |MazeDirections|
    ensures forall i, j :: 0 <= i < j < |MazeNeighbours(g, p, rows, cols, k)| ==>
      TwoStep(p, MazeNeighbours(g, p, rows, cols, k)[i]) &&
      TwoStep(p, MazeNeighbours(g, p, rows, cols, k)[j]) &&
      TwoStepIndex(p, MazeNeighbours(g, p, rows, cols, k)[i]) < TwoStepIndex(p, MazeNeighbours(g, p, rows, cols, k)[j])
  {
    if k > 0 {
      NeighboursOrdered(g, p, rows, cols, k - 1);
      NeighboursFit(g, p, rows, cols, k - 1);
      NeighboursFit(g, p, rows, cols, k);
      var prev := MazeNeighbours(g, p, rows, cols, k - 1);
      var r := MazeNeighbours(g, p, rows, cols, k);
      forall i, j | 0 <= i < j < |r|
        ensures TwoStep(p, r[i]) && TwoStep(p, r[j]) && TwoStepIndex(p, r[i]) < TwoStepIndex(p, r[j])
      {
        if j < |prev| {
          assert r[i] == prev[i] && r[j] == prev[j];
        } else {
          assert r[i] == prev[i];
          assert r[j] == Move(p, MazeDirections[k - 1]);
          TwoStepAt(p, k - 1);
        }
      }
    } else {
      assert MazeNeighbours(g, p, rows, cols, k) == [];
    }
  }

  /** Every direction among the first `k` whose candidate fits is taken. */
  lemma {:induction false} NeighboursComplete(g: Grid, p: Coord, rows: int, cols: int, k: nat)
    requires k <= |MazeDirections|
    ensures forall i :: 0 <= i < k && Fits(g, Move(p, MazeDirections[i]), rows, cols) ==>
      Move(p, MazeDirections[i]) in MazeNeighbours(g, p, rows, cols, k)
  {
    if k > 0 {
      NeighboursComplete(g, p, rows, cols, k - 1);
    }
  }

  /** Collects the four candidates that fit, in order. The grid must have
      at least `rows` rows and `cols` columns. */
  method GetNeighbors(grid: Grid, cell: Coord, rows: int, cols: int) returns (neighbors: seq<Coord>)
    requires Rect(grid) && rows <= |grid| && cols <= Width(grid)
    ensures neighbors == MazeNeighbours(grid, cell, rows, cols, |MazeDirections|)
  {
    neighbors := [];
    var i := 0;
    while i < |MazeDirections|
      invariant 0 <= i <= |MazeDirections|
      invariant neighbors == MazeNeighbours(grid, cell, rows, cols, i)
    {
      var newRow := cell.row + MazeDirections[i].row;
      var newCol := cell.col + MazeDirections[i].col;
      if newRow >= 1 && newRow < rows - 1 && newCol >= 1 && newCol < cols - 1 &&
         grid[newRow][newCol].kind == Wall {
        neighbors := neighbors + [Coord(newRow, newCol)];
      }
      i := i + 1;
    }
  }

  function Swap<T>(s: seq<T>, i: nat, j: nat): (r: seq<T>)
    requires i < |s| && j < |s|
    ensures |r| == |s|
  {
    s[i := s[j]][j := s[i]]
  }

  lemma SwapPermutes<T>(s: seq<T>, i: nat, j: nat)
    requires i < |s| && j < |s|
    ensures multiset(Swap(s, i, j)) == multiset(s)
  {
  }

  /** The Fisher-Yates passes from position `i` down to 1, the pass at `i`
      swapping it with the position drawn from `0 .. i` by draw `k`. */
  function Shuffled<T>(s: seq<T>, draw: nat -> nat, k: nat, i: nat): seq<T>
    requires i < |s|
    decreases i
  {
    if i == 0 then s
    else Shuffled(Swap(s, i, draw(k) % (i + 1)), draw, k + 1, i - 1)
  }

  /** One pass of the shuffle. */
  lemma ShuffledStep<T>(s: seq<T>, draw: nat -> nat, k: nat, i: nat)
    requires 0 < i < |s|
    ensures Shuffled(s, draw, k, i) == Shuffled(Swap(s, i, draw(k) % (i + 1)), draw, k + 1, i - 1)
  {
  }

  /** The shuffle is a permutation. */
  lemma {:induction false} ShuffledPermutes<T>(s: seq<T>, draw: nat -> nat, k: nat, i: nat)
    requires i < |s|
    ensures |Shuffled(s, draw, k, i)| == |s|
    ensures multiset(Shuffled(s, draw, k, i)) == multiset(s)
    decreases i
  {
    if i > 0 {
      SwapPermutes(s, i, draw(k) % (i + 1));
      ShuffledPermutes(Swap(s, i, draw(k) % (i + 1)), draw, k + 1, i - 1);
    }
  }

  /** The shuffle of the whole sequence: a permutation of it. */
  function Shuffle<T>(s: seq<T>, draw: nat -> nat, k: nat): (r: seq<T>)
    ensures |r| == |s| && multiset(r) == multiset(s)
  {
    if |s| == 0 then s
    else
      ShuffledPermutes(s, draw, k, |s| - 1);
      Shuffled(s, draw, k, |s| - 1)
  }

  /** The number of draws a shuffle of `n` elements consumes. */
  function Draws(n: nat): nat { if n > 0 then n - 1 else 0 }

  /** Shuffles a copy of `input` in place, leaving `input` itself as it
      was; draws `k, k + 1, ...` are consumed and the next unused index is
      returned. */
  method ShuffleArray<T>(input: array<T>, draw: nat -> nat, k: nat) returns (shuffled: array<T>, next: nat)
    ensures fresh(shuffled)
    ensures shuffled[..] == Shuffle(input[..], draw, k)
    ensures next == k + Draws(input.Length)
  {
    shuffled := CopyArray(input);
    ghost var target := Shuffle(input[..], draw, k);
    next := k;
    var i := shuffled.Length - 1;
    while i > 0
      invariant -1 <= i < shuffled.Length && (shuffled.Length > 0 ==> i >= 0)
      invariant shuffled.Length > 0 ==> Shuffled(shuffled[..], draw, next, i) == target
      invariant next == k + (shuffled.Length - 1 - i)
    {
      var j := draw(next) % (i + 1);
      ShuffledStep(shuffled[..], draw, next, i);
      SwapCells(shuffled, i, j);
      next := next + 1;
      i := i - 1;
    }
  }

  /** A fresh array with the contents of `a`, as spreading it into a new
      array literal gives. */
  method CopyArray<T>(a: array<T>) returns (b: array<T>)
    ensures fresh(b) && b[..] == a[..]
  {
    b := new T[a.Length](j requires 0 <= j < a.Length reads a => a[j]);
    assert b[..] == a[..];
  }

  /** Exchanges two cells of an array. */
  method SwapCells<T>(a: array<T>, i: nat, j: nat)
    requires i < a.Length && j < a.Length
    modifies a
    ensures a[..] == Swap(old(a[..]), i, j)
  {
    a[i], a[j] := a[j], a[i];
  }

  /** The wall between two cells two steps apart. */
  function Mid(a: Coord, b: Coord): Coord { Coord((a.row + b.row) / 2, (a.col + b.col) / 2) }

  /** A log entry holding a copy of the cell at `p`. */
  function Logged(g: Grid, p: Coord, step: int, action: Action): MazeGenerationStep
    requires Rect(g) && InBounds(g, p)
  {
    MazeGenerationStep(g[p.row][p.col], step, action)
  }

  /** Opens `to` and the wall between it and `from`, logging both with
      consecutive step numbers; nothing else changes. */
  method CarvePassage(grid: Grid, from: Coord, to: Coord, steps: seq<MazeGenerationStep>, stepCounter: int)
    returns (grid': Grid, steps': seq<MazeGenerationStep>, stepCounter': int)
    requires Rect(grid) && InBounds(grid, to)
    requires (from.row + to.row) % 2 == 0 && (from.col + to.col) % 2 == 0 && InBounds(grid, Mid(from, to))
    ensures Rect(grid') && SameShape(grid, grid')
    ensures grid'[to.row][to.col] == grid[to.row][to.col].(kind := Empty)
    ensures grid'[Mid(from, to).row][Mid(from, to).col] == grid[Mid(from, to).row][Mid(from, to).col].(kind := Empty)
    ensures forall r, c :: 0 <= r < |grid| && 0 <= c < |grid[r]| && Coord(r, c) != to && Coord(r, c) != Mid(from, to) ==>
      grid'[r][c] == grid[r][c]
    ensures steps' == steps + [Logged(SetKind(grid, to, Empty), to, stepCounter, Carve),
                               Logged(grid', Mid(from, to), stepCounter + 1, Carve)]
    ensures stepCounter' == stepCounter + 2
  {
    grid' := SetKind(grid, to, Empty);
    steps' := steps + [MazeGenerationStep(grid'[to.row][to.col], stepCounter, Carve)];
    var wall := Coord((from.row + to.row) / 2, (from.col + to.col) / 2);
    grid' := SetKind(grid', wall, Empty);
    steps' := steps' + [MazeGenerationStep(grid'[wall.row][wall.col], stepCounter + 1, Carve)];
    stepCounter' := stepCounter + 2;
  }

  /** A cell that is on the grid and not a wall. */
  predicate Open(g: Grid, q: Coord)
  {
    InBounds(g, q) && KindAt(g, q) != Wall
  }

  /** `w` is a walk from `s` through open cells, one orthogonal step at a
      time. */
  predicate Passage(g: Grid, s: Coord, w: seq<Coord>)
  {
    |w| >= 1 && w[0] == s &&
    (forall i :: 0 <= i < |w| ==> Open(g, w[i])) &&
    (forall i :: 0 <= i < |w| - 1 ==> Adjacent(w[i], w[i + 1]))
  }

  /** `q` can be reached from `s` through open cells. */
  ghost predicate Connected(g: Grid, s: Coord, q: Coord)
  {
    exists w :: Passage(g, s, w) && w[|w| - 1] == q
  }

  /** Every open cell of `g` is open in `h`. */
  ghost predicate StaysOpen(g: Grid, h: Grid)
  {
    forall q :: Open(g, q) ==> Open(h, q)
  }

  lemma PassageKeeps(g: Grid, h: Grid, s: Coord, w: seq<Coord>)
    requires Passage(g, s, w) && StaysOpen(g, h)
    ensures Passage(h, s, w)
  {
    forall i | 0 <= i < |w| ensures Open(h, w[i]) {
      assert Open(g, w[i]);
    }
  }

  lemma PassageExtend(g: Grid, s: Coord, w: seq<Coord>, q: Coord)
    requires Passage(g, s, w) && Open(g, q) && Adjacent(w[|w| - 1], q)
    ensures Passage(g, s, w + [q]) && (w + [q])[|w|] == q
  {
    var w' := w + [q];
    forall i | 0 <= i < |w'| ensures Open(g, w'[i]) {
      if i < |w| { assert w'[i] == w[i]; }
    }
    forall i | 0 <= i < |w'| - 1 ensures Adjacent(w'[i], w'[i + 1]) {
      if i + 1 < |w| { assert w'[i] == w[i] && w'[i + 1] == w[i + 1]; }
    }
  }

  /** The row and column of `q` differ from those of `s` by even amounts. */
  predicate OnLattice(s: Coord, q: Coord)
  {
    (q.row - s.row) % 2 == 0 && (q.col - s.col) % 2 == 0
  }

  /** `q` is on the start's lattice, or it is the gap knocked through
      between two lattice cells: one of its coordinates is on the lattice
      and both its neighbours along the other axis, which are then lattice
      cells, are open. */
  predicate LatticeOrGap(g: Grid, start: Coord, q: Coord)
  {
    OnLattice(start, q) ||
    ((q.row - start.row) % 2 == 0 && Open(g, Coord(q.row, q.col - 1)) && Open(g, Coord(q.row, q.col + 1))) ||
    ((q.col - start.col) % 2 == 0 && Open(g, Coord(q.row - 1, q.col)) && Open(g, Coord(q.row + 1, q.col)))
  }

  /** Opening cells keeps a lattice cell or a gap what it is. */
  lemma GapStays(g: Grid, h: Grid, start: Coord, q: Coord)
    requires LatticeOrGap(g, start, q) && StaysOpen(g, h)
    ensures LatticeOrGap(h, start, q)
  {
    assert Open(g, Coord(q.row, q.col - 1)) ==> Open(h, Coord(q.row, q.col - 1));
    assert Open(g, Coord(q.row, q.col + 1)) ==> Open(h, Coord(q.row, q.col + 1));
    assert Open(g, Coord(q.row - 1, q.col)) ==> Open(h, Coord(q.row - 1, q.col));
    assert Open(g, Coord(q.row + 1, q.col)) ==> Open(h, Coord(q.row + 1, q.col));
  }

  /** The wall knocked through between a lattice cell and an open cell two
      steps away is a gap. */
  lemma GapBetween(h: Grid, start: Coord, cur: Coord, next: Coord)
    requires OnLattice(start, cur) && TwoStep(cur, next) && Open(h, cur) && Open(h, next)
    ensures LatticeOrGap(h, start, Mid(cur, next))
  {
  }

  /** What holds of a carved cell while the generator runs: it is the start
      or lies inside the border, it is a lattice cell or a gap, and the
      recorded passage leads to it from the start. */
  predicate CarvedOk(g: Grid, start: Coord, rows: int, cols: int, paths: map<Coord, seq<Coord>>, q: Coord)
  {
    (q == start || (1 <= q.row < rows - 1 && 1 <= q.col < cols - 1)) &&
    LatticeOrGap(g, start, q) &&
    q in paths && Passage(g, start, paths[q]) && paths[q][|paths[q]| - 1] == q
  }

  /** The working grid at one cell: the cell carries its own position, is a
      wall or carved, and a carved cell is as `CarvedOk` says. */
  predicate CellCarved(g: Grid, start: Coord, rows: int, cols: int, paths: map<Coord, seq<Coord>>, r: int, c: int)
  {
    0 <= r < |g| && 0 <= c < |g[r]| ==>
      g[r][c] == Cell(g[r][c].kind, r, c, None, None) &&
      (g[r][c].kind == Wall || g[r][c].kind == Empty) &&
      (g[r][c].kind == Empty ==> CarvedOk(g, start, rows, cols, paths, Coord(r, c)))
  }

  /** A stack entry is a carved cell on the start's lattice. */
  predicate Stacked(g: Grid, start: Coord, stack: seq<Coord>, i: int)
  {
    0 <= i < |stack| && InBounds(g, stack[i]) && KindAt(g, stack[i]) == Empty && OnLattice(start, stack[i])
  }

  /** The log is numbered from 0 in order, opens with the carving of the
      start, and has no finish entry yet. */
  predicate Numbered(steps: seq<MazeGenerationStep>, start: Coord)
  {
    |steps| >= 1 && steps[0] == MazeGenerationStep(Cell(Empty, start.row, start.col, None, None), 0, Carve) &&
    forall i :: 0 <= i < |steps| ==> steps[i].step == i && steps[i].action != Finish
  }

  /** The working grid part of the generator's loop invariant. */
  ghost predicate GridInv(g: Grid, rows: int, cols: int, start: Coord, paths: map<Coord, seq<Coord>>)
  {
    |g| == rows && Rect(g) && Width(g) == cols && InBounds(g, start) && KindAt(g, start) == Empty &&
    forall r, c :: CellCarved(g, start, rows, cols, paths, r, c)
  }

  predicate StackInv(g: Grid, start: Coord, stack: seq<Coord>)
  {
    forall i :: 0 <= i < |stack| ==> Stacked(g, start, stack, i)
  }

  /** The loop invariant of the generator. */
  ghost predicate MazeInv(g: Grid, rows: int, cols: int, start: Coord, stack: seq<Coord>,
                          steps: seq<MazeGenerationStep>, stepCounter: int, paths: map<Coord, seq<Coord>>)
  {
    GridInv(g, rows, cols, start, paths) && StackInv(g, start, stack) &&
    Numbered(steps, start) && stepCounter == |steps|
  }

  /** The wall cells of a grid; carving shrinks this set, which bounds the
      number of iterations of the generator. */
  function WallCoords(g: Grid): set<Coord>
  {
    set r, c | 0 <= r < |g| && 0 <= c < Width(g) && KindAt(g, Coord(r, c)) == Wall :: Coord(r, c)
  }

  /** `h` is `g` with `b` and the wall between `a` and `b` opened. */
  predicate Carved(g: Grid, h: Grid, a: Coord, b: Coord)
  {
    Rect(g) && InBounds(g, b) && InBounds(g, Mid(a, b)) && Rect(h) && SameShape(g, h) &&
    h[b.row][b.col] == g[b.row][b.col].(kind := Empty) &&
    h[Mid(a, b).row][Mid(a, b).col] == g[Mid(a, b).row][Mid(a, b).col].(kind := Empty) &&
    forall r, c :: 0 <= r < |g| && 0 <= c < |g[r]| && Coord(r, c) != b && Coord(r, c) != Mid(a, b) ==> h[r][c] == g[r][c]
  }

  /** Carving only opens cells: open cells stay open and carved cells stay
      carved. */
  lemma CarvedStays(g: Grid, h: Grid, a: Coord, b: Coord)
    requires Carved(g, h, a, b)
    ensures StaysOpen(g, h)
    ensures forall q :: KindAt(g, q) == Empty ==> KindAt(h, q) == Empty
  {
  }

  /** The geometry of one carve from a lattice cell to a neighbour that
      fits: the wall between lies inside the border next to both, and the
      neighbour stays on the start's lattice. */
  lemma MidFacts(g: Grid, rows: int, cols: int, start: Coord, cur: Coord, next: Coord)
    requires |g| == rows && Rect(g) && Width(g) == cols && InBounds(g, cur) && OnLattice(start, cur)
    requires TwoStep(cur, next) && Fits(g, next, rows, cols)
    ensures (cur.row + next.row) % 2 == 0 && (cur.col + next.col) % 2 == 0
    ensures InBounds(g, next) && InBounds(g, Mid(cur, next)) && Mid(cur, next) != next
    ensures 1 <= Mid(cur, next).row < rows - 1 && 1 <= Mid(cur, next).col < cols - 1
    ensures Adjacent(cur, Mid(cur, next)) && Adjacent(Mid(cur, next), next)
    ensures OnLattice(start, next)
  {
  }

  /** Carving shrinks the set of walls. */
  lemma WallsShrink(g: Grid, h: Grid, a: Coord, b: Coord)
    requires Carved(g, h, a, b) && KindAt(g, b) == Wall
    ensures |WallCoords(h)| < |WallCoords(g)|
  {
    forall x | x in WallCoords(h) ensures x in WallCoords(g) && x != b {
      assert KindAt(h, x) == Wall;
    }
    assert b in WallCoords(g);
    SubsetCard(WallCoords(h), WallCoords(g));
  }

  lemma NumberedGrow(steps: seq<MazeGenerationStep>, start: Coord, e: MazeGenerationStep)
    requires Numbered(steps, start) && e.step == |steps| && e.action != Finish
    ensures Numbered(steps + [e], start)
  {
    var s := steps + [e];
    forall i | 0 <= i < |s| ensures s[i].step == i && s[i].action != Finish {
      if i < |steps| { assert s[i] == steps[i]; }
    }
  }

  /** The state after the start is carved satisfies the invariant. */
  lemma MazeInit(g0: Grid, g: Grid, rows: int, cols: int, start: Coord, steps: seq<MazeGenerationStep>)
    returns (paths: map<Coord, seq<Coord>>)
    requires WallGrid(g0, rows, cols) && Rect(g0) && (rows > 0 ==> Width(g0) == Count(cols))
    requires 0 <= start.row < rows && 0 <= start.col < cols
    requires g == SetKind(g0, start, Empty) && steps == [Logged(g, start, 0, Carve)]
    ensures MazeInv(g, rows, cols, start, [start], steps, 1, paths)
  {
    paths := map[start := [start]];
    assert g0[start.row][start.col] == WallCell(start.row, start.col);
    assert Passage(g, start, [start]);
    forall r, c ensures CellCarved(g, start, rows, cols, paths, r, c) {
      if 0 <= r < |g| && 0 <= c < |g[r]| {
        assert g0[r][c] == WallCell(r, c);
      }
    }
    assert Stacked(g, start, [start], 0);
  }

  /** One cell after a carve. */
  lemma CarveCell(g: Grid, h: Grid, rows: int, cols: int, start: Coord, paths: map<Coord, seq<Coord>>,
                  paths': map<Coord, seq<Coord>>, cur: Coord, next: Coord, r: int, c: int)
    requires CellCarved(g, start, rows, cols, paths, r, c) && Carved(g, h, cur, next) && StaysOpen(g, h)
    requires Fits(g, next, rows, cols) && OnLattice(start, next) && Mid(cur, next) != next
    requires 1 <= Mid(cur, next).row < rows - 1 && 1 <= Mid(cur, next).col < cols - 1
    requires LatticeOrGap(h, start, Mid(cur, next))
    requires Mid(cur, next) in paths' && Passage(h, start, paths'[Mid(cur, next)])
    requires paths'[Mid(cur, next)][|paths'[Mid(cur, next)]| - 1] == Mid(cur, next)
    requires next in paths' && Passage(h, start, paths'[next]) && paths'[next][|paths'[next]| - 1] == next
    requires forall q :: q in paths && q != next && q != Mid(cur, next) ==> q in paths' && paths'[q] == paths[q]
    ensures CellCarved(h, start, rows, cols, paths', r, c)
  {
    var q := Coord(r, c);
    if 0 <= r < |h| && 0 <= c < |h[r]| {
      if q != next && q != Mid(cur, next) {
        assert h[r][c] == g[r][c];
        if g[r][c].kind == Empty {
          PassageKeeps(g, h, start, paths[q]);
          GapStays(g, h, start, q);
        }
      }
    }
  }

  /** The grid part of the invariant survives a carve; the passages to the
      two opened cells extend the passage to the current cell. */
  lemma CarveKeeps(g: Grid, h: Grid, rows: int, cols: int, start: Coord, paths: map<Coord, seq<Coord>>,
                   cur: Coord, next: Coord)
    returns (paths': map<Coord, seq<Coord>>)
    requires GridInv(g, rows, cols, start, paths) && InBounds(g, cur) && KindAt(g, cur) == Empty && OnLattice(start, cur)
    requires TwoStep(cur, next) && Fits(g, next, rows, cols) && Carved(g, h, cur, next)
    ensures GridInv(h, rows, cols, start, paths')
  {
    MidFacts(g, rows, cols, start, cur, next);
    CarvedStays(g, h, cur, next);
    var m := Mid(cur, next);
    assert CellCarved(g, start, rows, cols, paths, cur.row, cur.col);
    var pm := paths[cur] + [m];
    PassageKeeps(g, h, start, paths[cur]);
    assert Open(h, m);
    PassageExtend(h, start, paths[cur], m);
    assert Open(h, next);
    PassageExtend(h, start, pm, next);
    assert Open(h, cur);
    GapBetween(h, start, cur, next);
    paths' := paths[m := pm][next := pm + [next]];
    forall r, c ensures CellCarved(h, start, rows, cols, paths', r, c) {
      assert CellCarved(g, start, rows, cols, paths, r, c);
      CarveCell(g, h, rows, cols, start, paths, paths', cur, next, r, c);
    }
    assert KindAt(h, start) == Empty;
  }

  /** The stack part of the invariant survives a carve and a push. */
  lemma StackGrow(g: Grid, h: Grid, start: Coord, stack: seq<Coord>, next: Coord)
    requires StackInv(g, start, stack) && SameShape(g, h)
    requires forall q :: KindAt(g, q) == Empty ==> KindAt(h, q) == Empty
    requires InBounds(h, next) && KindAt(h, next) == Empty && OnLattice(start, next)
    ensures StackInv(h, start, stack + [next])
  {
    var s := stack + [next];
    forall i | 0 <= i < |s| ensures Stacked(h, start, s, i) {
      if i < |stack| {
        assert Stacked(g, start, stack, i) && s[i] == stack[i];
      }
    }
  }

  lemma StackPop(g: Grid, start: Coord, stack: seq<Coord>)
    requires StackInv(g, start, stack) && |stack| > 0
    ensures StackInv(g, start, stack[..|stack| - 1])
  {
    var s := stack[..|stack| - 1];
    forall i | 0 <= i < |s| ensures Stacked(g, start, s, i) {
      assert Stacked(g, start, stack, i) && s[i] == stack[i];
    }
  }

  lemma InNeighbours(g: Grid, p: Coord, rows: int, cols: int, q: Coord)
    requires q in MazeNeighbours(g, p, rows, cols, |MazeDirections|)
    ensures TwoStep(p, q) && Fits(g, q, rows, cols)
  {
    NeighboursFit(g, p, rows, cols, |MazeDirections|);
    var r := MazeNeighbours(g, p, rows, cols, |MazeDirections|);
    var j :| 0 <= j < |r| && r[j] == q;
  }

  /** The neighbours of `cur` in shuffled order, as the generator draws
      them: a permutation of `MazeNeighbours`. */
  method ShuffledNeighbours(g: Grid, cur: Coord, rows: int, cols: int, draw: nat -> nat, k: nat)
    returns (neighbors: seq<Coord>, k': nat)
    requires Rect(g) && rows <= |g| && cols <= Width(g)
    ensures neighbors == Shuffle(MazeNeighbours(g, cur, rows, cols, |MazeDirections|), draw, k)
    ensures multiset(neighbors) == multiset(MazeNeighbours(g, cur, rows, cols, |MazeDirections|))
    ensures |neighbors| == |MazeNeighbours(g, cur, rows, cols, |MazeDirections|)|
    ensures forall i :: 0 <= i < |neighbors| ==> neighbors[i] in MazeNeighbours(g, cur, rows, cols, |MazeDirections|)
    ensures k' == k + Draws(|MazeNeighbours(g, cur, rows, cols, |MazeDirections|)|)
  {
    var found := GetNeighbors(g, cur, rows, cols);
    var candidates := new Coord[|found|](j requires 0 <= j < |found| => found[j]);
    assert candidates[..] == found;
    var shuffled;
    shuffled, k' := ShuffleArray(candidates, draw, k);
    neighbors := shuffled[..];
    forall i | 0 <= i < |neighbors| ensures neighbors[i] in found {
      assert neighbors[i] in multiset(neighbors);
    }
  }

  /** The carving branch of the loop: open the passage from the top of the
      stack to `next` and push `next`. */
  method CarveStep(g: Grid, rows: int, cols: int, ghost start: Coord, stack: seq<Coord>,
                   steps: seq<MazeGenerationStep>, stepCounter: int, ghost paths: map<Coord, seq<Coord>>, next: Coord)
    returns (g': Grid, stack': seq<Coord>, steps': seq<MazeGenerationStep>, stepCounter': int,
             ghost paths': map<Coord, seq<Coord>>)
    requires MazeInv(g, rows, cols, start, stack, steps, stepCounter, paths) && |stack| > 0
    requires next in MazeNeighbours(g, stack[|stack| - 1], rows, cols, |MazeDirections|)
    ensures MazeInv(g', rows, cols, start, stack', steps', stepCounter', paths')
    ensures Carved(g, g', stack[|stack| - 1], next) && |WallCoords(g')| < |WallCoords(g)|
    ensures stack' == stack + [next]
    ensures steps' == steps + [Logged(SetKind(g, next, Empty), next, stepCounter, Carve),
                               Logged(g', Mid(stack[|stack| - 1], next), stepCounter + 1, Carve)]
    ensures stepCounter' == stepCounter + 2
  {
    var cur := stack[|stack| - 1];
    assert Stacked(g, start, stack, |stack| - 1);
    InNeighbours(g, cur, rows, cols, next);
    MidFacts(g, rows, cols, start, cur, next);
    g', steps', stepCounter' := CarvePassage(g, cur, next, steps, stepCounter);
    assert Carved(g, g', cur, next);
    NumberedGrow(steps, start, steps'[|steps|]);
    assert steps' == (steps + [steps'[|steps|]]) + [steps'[|steps| + 1]];
    NumberedGrow(steps + [steps'[|steps|]], start, steps'[|steps| + 1]);
    paths' := CarveKeeps(g, g', rows, cols, start, paths, cur, next);
    CarvedStays(g, g', cur, next);
    StackGrow(g, g', start, stack, next);
    WallsShrink(g, g', cur, next);
    stack' := stack + [next];
  }

  /** The backtracking branch of the loop: pop the top of the stack and log
      it, unless the stack is then empty. */
  method BacktrackStep(g: Grid, rows: int, cols: int, ghost start: Coord, stack: seq<Coord>,
                       steps: seq<MazeGenerationStep>, stepCounter: int, ghost paths: map<Coord, seq<Coord>>)
    returns (stack': seq<Coord>, steps': seq<MazeGenerationStep>, stepCounter': int)
    requires MazeInv(g, rows, cols, start, stack, steps, stepCounter, paths) && |stack| > 0
    ensures MazeInv(g, rows, cols, start, stack', steps', stepCounter', paths)
    ensures stack' == stack[..|stack| - 1]
    ensures steps' == if stack' == [] then steps
      else steps + [MazeGenerationStep(Cell(Empty, stack[|stack| - 1].row, stack[|stack| - 1].col, None, None), stepCounter, Backtrack)]
  {
    var cur := stack[|stack| - 1];
    assert Stacked(g, start, stack, |stack| - 1);
    assert CellCarved(g, start, rows, cols, paths, cur.row, cur.col);
    var backtrackCell := g[cur.row][cur.col];
    stack' := stack[..|stack| - 1];
    StackPop(g, start, stack);
    if |stack'| > 0 {
      NumberedGrow(steps, start, MazeGenerationStep(backtrackCell, stepCounter, Backtrack));
      steps' := steps + [MazeGenerationStep(backtrackCell, stepCounter, Backtrack)];
      stepCounter' := stepCounter + 1;
    } else {
      steps', stepCounter' := steps, stepCounter;
    }
  }

  /** One iteration of the generator's loop: carve towards the first
      shuffled neighbour of the top of the stack and push it, or, when there
      is none, pop the top and log the backtrack unless the stack is then
      empty. */
  method MazeStep(g: Grid, rows: int, cols: int, ghost start: Coord, stack: seq<Coord>,
                  steps: seq<MazeGenerationStep>, stepCounter: int, draw: nat -> nat, k: nat,
                  ghost paths: map<Coord, seq<Coord>>)
    returns (g': Grid, stack': seq<Coord>, steps': seq<MazeGenerationStep>, stepCounter': int, k': nat,
             ghost paths': map<Coord, seq<Coord>>)
    requires MazeInv(g, rows, cols, start, stack, steps, stepCounter, paths) && |stack| > 0
    ensures MazeInv(g', rows, cols, start, stack', steps', stepCounter', paths')
    ensures |WallCoords(g')| < |WallCoords(g)| || (g' == g && |stack'| < |stack|)
    ensures |stack'| > |stack| <==> MazeNeighbours(g, stack[|stack| - 1], rows, cols, |MazeDirections|) != []
    ensures |stack'| > |stack| ==>
      var next := Shuffle(MazeNeighbours(g, stack[|stack| - 1], rows, cols, |MazeDirections|), draw, k)[0];
      && stack' == stack + [next]
      && next in MazeNeighbours(g, stack[|stack| - 1], rows, cols, |MazeDirections|)
      && Carved(g, g', stack[|stack| - 1], next)
      && steps' == steps + [Logged(SetKind(g, next, Empty), next, stepCounter, Carve),
                            Logged(g', Mid(stack[|stack| - 1], next), stepCounter + 1, Carve)]
    ensures |stack'| <= |stack| ==>
      g' == g && stack' == stack[..|stack| - 1] &&
      steps' == if stack' == [] then steps
                else steps + [MazeGenerationStep(Cell(Empty, stack[|stack| - 1].row, stack[|stack| - 1].col, None, None), stepCounter, Backtrack)]
    ensures k' == k + Draws(|MazeNeighbours(g, stack[|stack| - 1], rows, cols, |MazeDirections|)|)
  {
    var currentCell := stack[|stack| - 1];
    var neighbors;
    neighbors, k' := ShuffledNeighbours(g, currentCell, rows, cols, draw, k);
    if |neighbors| > 0 {
      g', stack', steps', stepCounter', paths' := CarveStep(g, rows, cols, start, stack, steps, stepCounter, paths, neighbors[0]);
    } else {
      g', paths' := g, paths;
      stack', steps', stepCounter' := BacktrackStep(g, rows, cols, start, stack, steps, stepCounter, paths);
    }
  }

  /** One cell of a finished maze: it carries its own position; apart from
      the start and the end it is a wall or carved, and a wall when it lies
      on the border; a carved cell is a lattice cell or a gap between two
      open lattice cells, and is reachable from the start through open
      cells. */
  ghost predicate FinalCell(h: Grid, rows: int, cols: int, start: Coord, end: Coord, r: int, c: int)
  {
    0 <= r < |h| && 0 <= c < |h[r]| ==>
      h[r][c] == Cell(h[r][c].kind, r, c, None, None) &&
      (Coord(r, c) != start && Coord(r, c) != end ==> h[r][c].kind == Wall || h[r][c].kind == Empty) &&
      (Coord(r, c) != start && Coord(r, c) != end && (r == 0 || r == rows - 1 || c == 0 || c == cols - 1) ==>
        h[r][c].kind == Wall) &&
      (h[r][c].kind == Empty ==> LatticeOrGap(h, start, Coord(r, c)) && Connected(h, start, Coord(r, c)))
  }

  /** A finished maze of `rows` by `cols` cells. */
  ghost predicate MazeGrid(h: Grid, rows: int, cols: int, start: Coord, end: Coord)
  {
    |h| == rows && Rect(h) && Width(h) == cols &&
    KindAt(h, end) == End && (start != end ==> KindAt(h, start) == Start) &&
    forall r, c :: FinalCell(h, rows, cols, start, end, r, c)
  }

  /** A finished generation log: numbered from 0 in order, opening with the
      carving of the start and closing with the single finish entry, a copy
      of the end cell. */
  predicate MazeLog(steps: seq<MazeGenerationStep>, start: Coord, end: Coord)
  {
    |steps| >= 2 &&
    steps[0] == MazeGenerationStep(Cell(Empty, start.row, start.col, None, None), 0, Carve) &&
    (forall i :: 0 <= i < |steps| ==> steps[i].step == i) &&
    (forall i :: 0 <= i < |steps| - 1 ==> steps[i].action != Finish) &&
    steps[|steps| - 1] == MazeGenerationStep(Cell(End, end.row, end.col, None, None), |steps| - 1, Finish)
  }

  /** Marking the start and then the end turns the carved grid into a
      finished maze. */
  lemma MazeDone(carved: Grid, h: Grid, rows: int, cols: int, start: Coord, end: Coord, paths: map<Coord, seq<Coord>>)
    requires GridInv(carved, rows, cols, start, paths) && InBounds(carved, end)
    requires h == SetKind(SetKind(carved, start, Start), end, End)
    ensures MazeGrid(h, rows, cols, start, end)
    ensures h[end.row][end.col] == Cell(End, end.row, end.col, None, None)
  {
    assert CellCarved(carved, start, rows, cols, paths, end.row, end.col);
    assert CellCarved(carved, start, rows, cols, paths, start.row, start.col);
    forall q | Open(carved, q) ensures Open(h, q) {
    }
    forall r, c ensures FinalCell(h, rows, cols, start, end, r, c) {
      assert CellCarved(carved, start, rows, cols, paths, r, c);
      var q := Coord(r, c);
      if 0 <= r < |h| && 0 <= c < |h[r]| && q != start && q != end {
        assert h[r][c] == carved[r][c];
        if h[r][c].kind == Empty {
          PassageKeeps(carved, h, start, paths[q]);
          GapStays(carved, h, start, q);
        }
      }
    }
  }

  lemma LogDone(steps: seq<MazeGenerationStep>, start: Coord, end: Coord, e: MazeGenerationStep)
    requires Numbered(steps, start)
    requires e == MazeGenerationStep(Cell(End, end.row, end.col, None, None), |steps|, Finish)
    ensures MazeLog(steps + [e], start, end)
  {
    var s := steps + [e];
    forall i | 0 <= i < |s| ensures s[i].step == i {
      if i < |steps| { assert s[i] == steps[i]; }
    }
    forall i | 0 <= i < |s| - 1 ensures s[i].action != Finish {
      assert s[i] == steps[i];
    }
  }

  /** Generates a maze of `rows` by `cols` cells carved from `start`, with
      `end` marked at the end; both must lie on the grid. */
  method GenerateMaze(rows: int, cols: int, start: Coord, end: Coord, draw: nat -> nat)
    returns (grid: Grid, generationSteps: seq<MazeGenerationStep>)
    requires 0 <= start.row < rows && 0 <= start.col < cols
    requires 0 <= end.row < rows && 0 <= end.col < cols
    ensures MazeGrid(grid, rows, cols, start, end)
    ensures MazeLog(generationSteps, start, end)
  {
    grid := InitializeGrid(rows, cols);
    ghost var initial := grid;
    generationSteps := [];
    var stepCounter := 0;
    grid := SetKind(grid, start, Empty);
    generationSteps := generationSteps + [MazeGenerationStep(grid[start.row][start.col], stepCounter, Carve)];
    stepCounter := stepCounter + 1;
    var stack := [start];
    var k: nat := 0;
    ghost var paths;
    paths := MazeInit(initial, grid, rows, cols, start, generationSteps);
    while |stack| > 0
      invariant MazeInv(grid, rows, cols, start, stack, generationSteps, stepCounter, paths)
      decreases |WallCoords(grid)|, |stack|
    {
      grid, stack, generationSteps, stepCounter, k, paths :=
        MazeStep(grid, rows, cols, start, stack, generationSteps, stepCounter, draw, k, paths);
    }
    ghost var carved := grid;
    grid := SetKind(grid, start, Start);
    grid := SetKind(grid, end, End);
    MazeDone(carved, grid, rows, cols, start, end, paths);
    LogDone(generationSteps, start, end, MazeGenerationStep(grid[end.row][end.col], stepCounter, Finish));
    generationSteps := generationSteps + [MazeGenerationStep(grid[end.row][end.col], stepCounter, Finish)];
  }

  /** The start used when none is given. */
  const DefaultStart: Coord := Coord(1, 1)

  /** The end used when none is given: the inner corner opposite the
      default start. */
  function DefaultEnd(rows: int, cols: int): Coord { Coord(rows - 2, cols - 2) }

  function OrElse(p: Option<Coord>, d: Coord): Coord { if p.Some? then p.value else d }

  /** Generates a maze, filling in the default start and end. */
  method CreateMaze(rows: int, cols: int, start: Option<Coord>, end: Option<Coord>, draw: nat -> nat)
    returns (grid: Grid, generationSteps: seq<MazeGenerationStep>)
    requires 0 <= OrElse(start, DefaultStart).row < rows && 0 <= OrElse(start, DefaultStart).col < cols
    requires 0 <= OrElse(end, DefaultEnd(rows, cols)).row < rows && 0 <= OrElse(end, DefaultEnd(rows, cols)).col < cols
    ensures MazeGrid(grid, rows, cols, OrElse(start, DefaultStart), OrElse(end, DefaultEnd(rows, cols)))
    ensures MazeLog(generationSteps, OrElse(start, DefaultStart), OrElse(end, DefaultEnd(rows, cols)))
  {
    grid, generationSteps := GenerateMaze(rows, cols, OrElse(start, DefaultStart), OrElse(end, DefaultEnd(rows, cols)), draw);
  }
}
