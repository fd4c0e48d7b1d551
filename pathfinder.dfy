/** The grid logic of the pathfinder page: the initial grid, clearing the
    marks of a previous search, painting walls, dragging the start and end
    cells, and tracing the path of a search result back through its parent
    links. The page's state is a value of `Editor`; each handler maps one
    state to the next. */
module PathFinder {
  import opened Types
  import opened Grid
  import Lifo
  import Dfs

  const GridRows: int := 30
  const GridCols: int := 71
  const DefaultStartPosition: Cell := Cell(Start, 15, 30, None, None)
  const DefaultEndPosition: Cell := Cell(End, 15, 40, None, None)

  /** The row `r`, column `c` cell exists. */
  predicate Has(g: Grid, r: int, c: int)
  {
    0 <= r < |g| && 0 <= c < |g[r]|
  }

  /** The page's state: the grid, the start and end positions, the kind
      being dragged and the position it was last dropped on. */
  datatype Editor = Editor(grid: Grid, startPosition: Cell, endPosition: Cell,
                           draggingType: Option<CellType>, lastDraggedPosition: Option<Coord>)

  // ---------------------------------------------------------------------
  // The initial grid

  /** The kind of a cell of the initial grid. */
  function InitialKind(r: int, c: int): CellType
  {
    if Coord(r, c) == At(DefaultEndPosition) then End
    else if Coord(r, c) == At(DefaultStartPosition) then Start
    else Empty
  }

  /** A 30 by 71 grid of empty cells, each carrying its own position, with
      the start at (15, 30) and the end at (15, 40). */
  function GenerateGrid(): (g: Grid)
    ensures |g| == GridRows && Rect(g) && Width(g) == GridCols
    ensures forall r, c :: Has(g, r, c) ==> g[r][c] == Cell(InitialKind(r, c), r, c, None, None)
  {
    var blank := seq(GridRows, r requires 0 <= r < GridRows =>
                   seq(GridCols, c requires 0 <= c < GridCols => Cell(Empty, r, c, None, None)));
    var withStart := SetKind(blank, At(DefaultStartPosition), Start);
    SetKind(withStart, At(DefaultEndPosition), End)
  }

  /** The start and end are where the state says, on distinct cells of the
      grid, and no other cell is a start or an end. */
  ghost predicate Placed(g: Grid, s: Cell, e: Cell)
  {
    Rect(g) && InBounds(g, At(s)) && InBounds(g, At(e)) && At(s) != At(e) &&
    forall r, c :: SpecialAt(g, s, e, r, c)
  }

  predicate SpecialAt(g: Grid, s: Cell, e: Cell, r: int, c: int)
  {
    Has(g, r, c) ==>
      (g[r][c].kind == Start <==> Coord(r, c) == At(s)) &&
      (g[r][c].kind == End <==> Coord(r, c) == At(e))
  }

  /** The initial grid places the default start and end. */
  lemma GeneratedPlaced()
    ensures Placed(GenerateGrid(), DefaultStartPosition, DefaultEndPosition)
  {
    var g := GenerateGrid();
    forall r, c ensures SpecialAt(g, DefaultStartPosition, DefaultEndPosition, r, c) {
      if Has(g, r, c) {
        assert g[r][c] == Cell(InitialKind(r, c), r, c, None, None);
      }
    }
  }

  // ---------------------------------------------------------------------
  // Clearing the marks of a search

  /** A cell with the marks of a search removed: visited and path cells
      become empty and the depth is reset to 0; the parent is kept. */
  function Cleared(c: Cell): Cell
  {
    c.(kind := if c.kind == Visited || c.kind == Path then Empty else c.kind, depth := Some(0))
  }

  /** The cell of a cleared grid: as `Cleared` says, except that the start
      position is a start and the end position an end, the end winning when
      the two coincide. */
  predicate ClearedAt(g: Grid, h: Grid, s: Cell, e: Cell, r: int, c: int)
  {
    Has(g, r, c) ==>
      Has(h, r, c) &&
      h[r][c] == Cleared(g[r][c]).(kind := if Coord(r, c) == At(e) then End
                                           else if Coord(r, c) == At(s) then Start
                                           else Cleared(g[r][c]).kind)
  }

  /** A fresh grid with every cell cleared, then the start and end cells
      reset to their kinds. Both positions must be cells of the grid. */
  function ClearPath(g: Grid, s: Cell, e: Cell): (h: Grid)
    requires Has(g, s.row, s.col) && Has(g, e.row, e.col)
    ensures SameShape(g, h) && (Rect(g) ==> Rect(h))
    ensures forall r, c :: ClearedAt(g, h, s, e, r, c)
  {
    var cleared := seq(|g|, r requires 0 <= r < |g| => seq(|g[r]|, c requires 0 <= c < |g[r]| => Cleared(g[r][c])));
    var withStart := SetKind(cleared, At(s), Start);
    SetKind(withStart, At(e), End)
  }

  /** After clearing there is no visited or path cell, every depth is 0,
      and walls and parents are untouched. */
  lemma ClearRemovesMarks(g: Grid, s: Cell, e: Cell, r: int, c: int)
    requires Has(g, s.row, s.col) && Has(g, e.row, e.col) && Has(g, r, c)
    ensures ClearPath(g, s, e)[r][c].kind != Visited && ClearPath(g, s, e)[r][c].kind != Path
    ensures ClearPath(g, s, e)[r][c].depth == Some(0)
    ensures ClearPath(g, s, e)[r][c].parent == g[r][c].parent
    ensures g[r][c].kind == Wall && Coord(r, c) != At(s) && Coord(r, c) != At(e) ==> ClearPath(g, s, e)[r][c].kind == Wall
  {
    assert ClearedAt(g, ClearPath(g, s, e), s, e, r, c);
  }

  /** Clearing twice is clearing once. */
  lemma ClearIdempotent(g: Grid, s: Cell, e: Cell)
    requires Has(g, s.row, s.col) && Has(g, e.row, e.col)
    ensures ClearPath(ClearPath(g, s, e), s, e) == ClearPath(g, s, e)
  {
    var h := ClearPath(g, s, e);
    var h2 := ClearPath(h, s, e);
    assert |h2| == |h|;
    forall r | 0 <= r < |h| ensures h2[r] == h[r] {
      assert |h2[r]| == |h[r]|;
      forall c | 0 <= c < |h[r]| ensures h2[r][c] == h[r][c] {
        assert ClearedAt(g, h, s, e, r, c);
        assert ClearedAt(h, h2, s, e, r, c);
      }
    }
  }

  /** Clearing keeps the start and end in place. */
  lemma ClearKeepsPlaced(g: Grid, s: Cell, e: Cell)
    requires Placed(g, s, e)
    ensures Placed(ClearPath(g, s, e), s, e)
  {
    var h := ClearPath(g, s, e);
    forall r, c ensures SpecialAt(h, s, e, r, c) {
      assert SpecialAt(g, s, e, r, c);
      assert ClearedAt(g, h, s, e, r, c);
    }
  }

  // ---------------------------------------------------------------------
  // Painting walls

  /** Painting a cell: a start or an end is left alone, a wall becomes
      empty and anything else becomes a wall. `cell` is the cell under the
      pointer; its position must be a cell of the grid unless it is a start
      or an end. */
  function PaintCell(g: Grid, cell: Cell): (h: Grid)
    requires cell.kind != Start && cell.kind != End ==> Has(g, cell.row, cell.col)
    ensures cell.kind == Start || cell.kind == End ==> h == g
    ensures cell.kind != Start && cell.kind != End ==>
      SameShape(g, h) &&
      h[cell.row][cell.col] == g[cell.row][cell.col].(kind := if cell.kind == Wall then Empty else Wall) &&
      forall r, c :: Has(g, r, c) && Coord(r, c) != At(cell) ==> h[r][c] == g[r][c]
  {
    if cell.kind == Start || cell.kind == End then g
    else SetKind(g, At(cell), if cell.kind == Wall then Empty else Wall)
  }

  /** Painting a wall or an empty cell twice restores the grid. */
  lemma PaintToggles(g: Grid, r: int, c: int)
    requires Has(g, r, c) && g[r][c].row == r && g[r][c].col == c && (g[r][c].kind == Wall || g[r][c].kind == Empty)
    ensures PaintCell(PaintCell(g, g[r][c]), PaintCell(g, g[r][c])[r][c]) == g
  {
    var h := PaintCell(g, g[r][c]);
    var h2 := PaintCell(h, h[r][c]);
    assert |h2| == |g|;
    forall i | 0 <= i < |g| ensures h2[i] == g[i] {
      assert |h2[i]| == |g[i]|;
      forall j | 0 <= j < |g[i]| ensures h2[i][j] == g[i][j] {
        if Coord(i, j) != Coord(r, c) {
          assert h2[i][j] == h[i][j] == g[i][j];
        }
      }
    }
  }

  /** Painting one of the grid's own cells keeps the start and the end in
      place. */
  lemma PaintKeepsPlaced(g: Grid, s: Cell, e: Cell, r: int, c: int)
    requires Placed(g, s, e) && Has(g, r, c) && g[r][c].row == r && g[r][c].col == c
    ensures Placed(PaintCell(g, g[r][c]), s, e)
  {
    var h := PaintCell(g, g[r][c]);
    forall i, j ensures SpecialAt(h, s, e, i, j) {
      assert SpecialAt(g, s, e, i, j);
      assert SpecialAt(g, s, e, r, c);
    }
  }

  // ---------------------------------------------------------------------
  // Dragging the start or the end

  /** A drag of a start onto the end, or of an end onto the start, is
      refused. */
  predicate MoveRefused(dragging: Option<CellType>, cell: Cell)
  {
    (dragging == Some(Start) && cell.kind == End) || (dragging == Some(End) && cell.kind == Start)
  }

  /** The kind being dragged counts as absent when it is missing or is the
      code 0 (empty), which the page's truthiness test reads as false. */
  predicate Dragging(dragging: Option<CellType>)
  {
    dragging.Some? && dragging.value != Empty
  }

  /** What the move handler needs to exist: the last drop position when it
      is cleared, and the target when anything is dropped on it. */
  predicate MoveDefined(st: Editor, cell: Cell)
  {
    !MoveRefused(st.draggingType, cell) ==>
      (st.lastDraggedPosition.Some? ==> Has(st.grid, st.lastDraggedPosition.value.row, st.lastDraggedPosition.value.col)) &&
      (Dragging(st.draggingType) ==> Has(st.grid, cell.row, cell.col))
  }

  /** The grid with the last drop position, if any, emptied. */
  function Lifted(st: Editor): (g: Grid)
    requires st.lastDraggedPosition.Some? ==> Has(st.grid, st.lastDraggedPosition.value.row, st.lastDraggedPosition.value.col)
    ensures SameShape(st.grid, g) && (Rect(st.grid) ==> Rect(g))
    ensures forall r, c :: Has(st.grid, r, c) ==>
      g[r][c] == if st.lastDraggedPosition == Some(Coord(r, c)) then st.grid[r][c].(kind := Empty) else st.grid[r][c]
  {
    if st.lastDraggedPosition.Some? then SetKind(st.grid, st.lastDraggedPosition.value, Empty) else st.grid
  }

  /** Moving the dragged kind onto `cell`: a refused drag changes nothing;
      otherwise the last drop position becomes empty and, when a kind is
      being dragged, `cell` takes it, becomes the last drop position and,
      for a start or an end, the new start or end position. */
  function MoveSpecialCell(st: Editor, cell: Cell): (st': Editor)
    requires MoveDefined(st, cell)
    ensures MoveRefused(st.draggingType, cell) ==> st' == st
    ensures !MoveRefused(st.draggingType, cell) && !Dragging(st.draggingType) ==>
      st' == st.(grid := Lifted(st))
    ensures !MoveRefused(st.draggingType, cell) && Dragging(st.draggingType) ==>
      st'.grid == SetKind(Lifted(st), At(cell), st.draggingType.value) &&
      st'.lastDraggedPosition == Some(At(cell)) &&
      st'.startPosition == (if st.draggingType == Some(Start) then st.startPosition.(row := cell.row, col := cell.col) else st.startPosition) &&
      st'.endPosition == (if st.draggingType == Some(End) then st.endPosition.(row := cell.row, col := cell.col) else st.endPosition) &&
      st'.draggingType == st.draggingType
  {
    if MoveRefused(st.draggingType, cell) then st
    else
      var lifted := Lifted(st);
      if !Dragging(st.draggingType) then st.(grid := lifted)
      else
        var k := st.draggingType.value;
        st.(grid := SetKind(lifted, At(cell), k),
            lastDraggedPosition := Some(At(cell)),
            startPosition := if k == Start then st.startPosition.(row := cell.row, col := cell.col) else st.startPosition,
            endPosition := if k == End then st.endPosition.(row := cell.row, col := cell.col) else st.endPosition)
  }

  /** While a start or an end is being dragged, the last drop position is
      where that cell now is. */
  predicate DragTracked(st: Editor)
  {
    (st.draggingType == Some(Start) ==> st.lastDraggedPosition == Some(At(st.startPosition))) &&
    (st.draggingType == Some(End) ==> st.lastDraggedPosition == Some(At(st.endPosition)))
  }

  /** Dragging the start or the end over one of the grid's own cells keeps
      exactly one start and one end, at the recorded positions. */
  lemma MoveKeepsPlaced(st: Editor, r: int, c: int)
    requires Placed(st.grid, st.startPosition, st.endPosition) && DragTracked(st)
    requires st.draggingType == Some(Start) || st.draggingType == Some(End)
    requires Has(st.grid, r, c) && st.grid[r][c].row == r && st.grid[r][c].col == c
    ensures MoveDefined(st, st.grid[r][c])
    ensures var st' := MoveSpecialCell(st, st.grid[r][c]);
      Placed(st'.grid, st'.startPosition, st'.endPosition) && DragTracked(st')
  {
    var cell := st.grid[r][c];
    var st' := MoveSpecialCell(st, cell);
    assert SpecialAt(st.grid, st.startPosition, st.endPosition, r, c);
    if !MoveRefused(st.draggingType, cell) {
      var lifted := Lifted(st);
      forall i, j ensures SpecialAt(st'.grid, st'.startPosition, st'.endPosition, i, j) {
        assert SpecialAt(st.grid, st.startPosition, st.endPosition, i, j);
      }
    }
  }

  // ---------------------------------------------------------------------
  // Tracing the path of a search result

  function Reverse<T>(s: seq<T>): (r: seq<T>)
    ensures |r| == |s| && forall i :: 0 <= i < |s| ==> r[i] == s[|s| - 1 - i]
  {
    seq(|s|, i requires 0 <= i < |s| => s[|s| - 1 - i])
  }

  /** Reversing twice gives the list back. */
  lemma ReverseReverse<T>(s: seq<T>)
    ensures Reverse(Reverse(s)) == s
  {
  }

  /** Reversing keeps every element with its multiplicity: the traced path
      visits the same cells as the chain it was read from. */
  lemma {:induction false} ReverseMultiset<T>(s: seq<T>)
    ensures multiset(Reverse(s)) == multiset(s)
    decreases |s|
  {
    if |s| > 0 {
      var t := s[..|s| - 1];
      ReverseMultiset(t);
      assert Reverse(s) == [s[|s| - 1]] + Reverse(t);
      assert s == t + [s[|s| - 1]];
    }
  }

  /** The chain of entries starting at `c`, if any. */
  function Chain(c: Option<Cell>): seq<Cell>
  {
    if c.Some? then Lineage(c.value) else []
  }

  /** The cell of the painted grid: path positions become path cells. */
  predicate PaintedAt(g: Grid, h: Grid, ps: seq<Coord>, r: int, c: int)
  {
    Has(g, r, c) ==> Has(h, r, c) && h[r][c] == if Coord(r, c) in ps then g[r][c].(kind := Path) else g[r][c]
  }

  /** The chain of a cell is the cell followed by the chain of its parent. */
  lemma ChainStep(c: Cell)
    ensures Coords(Chain(Some(c))) == [At(c)] + Coords(Chain(c.parent))
  {
    assert Chain(Some(c)) == [c] + Chain(c.parent);
  }

  /** The walk along parent links: the positions from `endCell` back to the
      entry without a parent. */
  method CollectChain(endCell: Option<Cell>) returns (collected: seq<Coord>)
    ensures collected == Coords(Chain(endCell))
  {
    collected := [];
    var currCell := endCell;
    while currCell.Some?
      invariant collected + Coords(Chain(currCell)) == Coords(Chain(endCell))
      decreases currCell
    {
      ChainStep(currCell.value);
      AppendAssoc(collected, [At(currCell.value)], Coords(Chain(currCell.value.parent)));
      collected := collected + [Coord(currCell.value.row, currCell.value.col)];
      currCell := currCell.value.parent;
    }
    assert Coords(Chain(currCell)) == [];
  }

  /** The loop of updates: each position of `path` in turn becomes a path
      cell. */
  method PaintPath(g: Grid, path: seq<Coord>) returns (g': Grid)
    requires forall i :: 0 <= i < |path| ==> Has(g, path[i].row, path[i].col)
    ensures SameShape(g, g') && forall r, c :: PaintedAt(g, g', path, r, c)
  {
    g' := g;
    for i := 0 to |path|
      invariant SameShape(g, g')
      invariant forall r, c :: PaintedAt(g, g', path[..i], r, c)
    {
      var cell := path[i];
      ghost var before := g';
      g' := SetKind(g', cell, Path);
      ghost var painted := path[..i + 1];
      assert painted == path[..i] + [cell];
      forall r, c ensures PaintedAt(g, g', painted, r, c) {
        assert PaintedAt(g, before, path[..i], r, c);
      }
    }
    assert path[..|path|] == path;
  }

  /** Collects the positions from `endCell` back to the entry without a
      parent, reverses them so that the path runs from the root to the end,
      and marks each of them as a path cell, both ends included. Nothing
      happens without an end cell. Every position on the chain must be a
      cell of the grid. */
  method GeneratePath(g: Grid, endCell: Option<Cell>) returns (path: seq<Coord>, g': Grid)
    requires forall i :: 0 <= i < |Chain(endCell)| ==> Has(g, Chain(endCell)[i].row, Chain(endCell)[i].col)
    ensures endCell.None? ==> path == [] && g' == g
    ensures path == Reverse(Coords(Chain(endCell)))
    ensures SameShape(g, g') && forall r, c :: PaintedAt(g, g', path, r, c)
  {
    if endCell.None? {
      return [], g;
    }
    var collected := CollectChain(endCell);
    path := Reverse(collected);
    forall i | 0 <= i < |path| ensures Has(g, path[i].row, path[i].col) {
      assert path[i] == At(Chain(endCell)[|path| - 1 - i]);
    }
    g' := PaintPath(g, path);
  }

  /** The path `GeneratePath` traces from an entry. */
  function Traced(e: Cell): seq<Coord>
  {
    Reverse(Coords(Chain(Some(e))))
  }

  lemma TracedAt(e: Cell, i: int)
    requires 0 <= i < |Lineage(e)|
    ensures |Traced(e)| == |Lineage(e)| && Traced(e)[i] == At(Lineage(e)[|Lineage(e)| - 1 - i])
  {
    var l := Lineage(e);
    var cs := Coords(l);
    assert Chain(Some(e)) == l;
    assert Traced(e) == Reverse(cs);
    assert Reverse(cs)[i] == cs[|cs| - 1 - i];
  }

  /** The path traced from the answer of the depth-first search runs from
      the start to the end through the grid, one step at a time, and has
      one position more than the end's depth. */
  lemma DfsPathIsWalk(g: Grid, start: Cell, e: Cell)
    requires Dfs.Linked(g, Lifo.Root(start), e) && start.parent.None? && InBounds(g, At(start))
    ensures |Traced(e)| >= 1 && Traced(e)[0] == At(start) && Traced(e)[|Traced(e)| - 1] == At(e)
    ensures e.depth == Some(|Traced(e)| - 1)
    ensures forall i :: 0 <= i < |Traced(e)| ==> InBounds(g, Traced(e)[i])
    ensures forall i :: 0 <= i < |Traced(e)| - 1 ==> Adjacent(Traced(e)[i], Traced(e)[i + 1])
  {
    var root := Lifo.Root(start);
    Dfs.LinkedLineage(g, root, e);
    var l := Lineage(e);
    TracedAt(e, 0);
    TracedAt(e, |l| - 1);
    forall i | 0 <= i < |l| ensures InBounds(g, Traced(e)[i]) {
      TracedAt(e, i);
    }
    forall i | 0 <= i < |l| - 1 ensures Adjacent(Traced(e)[i], Traced(e)[i + 1]) {
      TracedAt(e, i);
      TracedAt(e, i + 1);
      assert Adjacent(At(l[(|l| - 2 - i) + 1]), At(l[|l| - 2 - i]));
    }
  }
}
