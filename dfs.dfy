/** The depth-first engine: a stack of cell entries, each pushed with its
    depth and a copy of the entry it was discovered from, over a working copy
    of the grid whose discovered cells are marked. It answers whether an end
    was popped and, if so, with that end's entry. */
module Dfs {
  import opened Types
  import opened Grid
  import opened Lifo

  /** Following parent links from `e` leads back to `root`: every link goes
      to a 4-adjacent entry one shallower than the entry it comes from, whose
      cell the search expands, and every entry lies in the grid. */
  ghost predicate Linked(g: Grid, root: Cell, e: Cell)
    decreases e
  {
    || e == root
    || (&& e.parent.Some?
        && var p := e.parent.value;
        && Linked(g, root, p)
        && p.depth.Some? && e.depth == Some(p.depth.value + 1)
        && Adjacent(At(p), At(e)) && InBounds(g, At(e))
        && KindAt(g, At(p)) !in LifoStops)
  }

  /** The search loop. `newGrid` is the working copy as the search leaves it. */
  method DfsSearch(g: Grid, start: Cell) returns (found: bool, endCell: Option<Cell>, newGrid: Grid)
    requires Rect(g) && InBounds(g, At(start))
    ensures found <==> ReachesEnd(g, LifoStops, At(start))
    ensures found <==> endCell.Some?
    ensures found ==> KindAt(newGrid, At(endCell.value)) == End && Linked(g, Root(start), endCell.value)
    ensures KindAt(g, At(start)) == End ==> endCell == Some(Root(start))
    ensures Rect(newGrid) && MarkedFrom(g, newGrid)
    ensures newGrid[start.row][start.col] == g[start.row][start.col]
  {
    newGrid := g;
    var root := Root(start);
    var stack := [root];
    var visited := {At(start)};
    ghost var s := At(start);
    ghost var done: set<Coord> := {};
    ghost var walks := map[s := [s]];
    DfsInit(g, root);
    while |stack| > 0
      invariant DfsInv(g, s, root, stack, visited, done, newGrid, walks)
      invariant |visited| <= |AllCoords(g)|
      decreases |AllCoords(g)| - |visited|, |stack|
    {
      var popped, currCell;
      popped, currCell, visited, stack, newGrid, done, walks := DfsStep(g, s, root, newGrid, visited, stack, done, walks);
      if popped {
        return true, Some(currCell), newGrid;
      }
    }
    DfsExhausted(g, s, root, visited, done, newGrid, walks);
    return false, None, newGrid;
  }

  /** One pass of the loop: pop the top entry; an end answers the search, a
      wall is dropped and anything else is expanded. `atEnd` says the popped
      entry `cur` was an end, in which case nothing else changes. */
  method DfsStep(g: Grid, ghost s: Coord, ghost root: Cell, h: Grid, visited: set<Coord>, stack: seq<Cell>,
                 ghost done: set<Coord>, ghost walks: map<Coord, seq<Coord>>)
    returns (atEnd: bool, cur: Cell, visited': set<Coord>, stack': seq<Cell>, h': Grid,
             ghost done': set<Coord>, ghost walks': map<Coord, seq<Coord>>)
    requires DfsInv(g, s, root, stack, visited, done, h, walks) && |stack| > 0
    ensures cur == stack[|stack| - 1]
    ensures atEnd ==> DfsAnswer(g, s, root, cur, h')
    ensures !atEnd ==> DfsInv(g, s, root, stack', visited', done', h', walks')
    ensures |visited'| <= |AllCoords(g)|
    ensures !atEnd ==> |visited| < |visited'| || (visited' == visited && |stack'| < |stack|)
  {
    DfsTop(g, s, root, stack, visited, done, h, walks);
    cur := stack[|stack| - 1];
    var rest := stack[..|stack| - 1];
    var cellType := h[cur.row][cur.col].kind;
    if cellType == End {
      DfsFound(g, s, root, stack, visited, done, h, walks);
      return true, cur, visited, stack, h, done, walks;
    }
    if cellType == Wall {
      DfsSkip(g, s, root, stack, visited, done, h, walks);
      return false, cur, visited, rest, h, done + {At(cur)}, walks;
    }
    visited', stack', h', walks' := DfsExpand(g, s, root, h, cur, visited, rest, stack, done, walks);
    done' := done + {At(cur)};
    atEnd := false;
    DfsVisitedBound(g, s, root, stack', visited', done', h', walks');
  }

  /** The loop invariant of the search: the frontier invariant shared with
      the weighted engine, every stacked entry linked back to the root entry,
      and a start that is itself an end never expanded. */
  ghost predicate DfsInv(g: Grid, s: Coord, root: Cell, stack: seq<Cell>, visited: set<Coord>, done: set<Coord>,
                         h: Grid, walks: map<Coord, seq<Coord>>)
  {
    && LifoInv(g, s, stack, visited, done, h, walks)
    && At(root) == s && root.depth == Some(0)
    && AllLinked(g, root, stack)
    && (KindAt(g, s) == End ==> |stack| == 1 && stack[0] == root)
  }

  ghost predicate AllLinked(g: Grid, root: Cell, stack: seq<Cell>)
  {
    forall i :: 0 <= i < |stack| ==> Linked(g, root, stack[i])
  }

  lemma DfsInit(g: Grid, root: Cell)
    requires Rect(g) && InBounds(g, At(root)) && root.depth == Some(0)
    ensures DfsInv(g, At(root), root, [root], {At(root)}, {}, g, map[At(root) := [At(root)]])
  {
    LifoInit(g, root);
  }

  /** The top of the stack lies in both grids, with the same end and wall
      status in each. */
  lemma DfsTop(g: Grid, s: Coord, root: Cell, stack: seq<Cell>, visited: set<Coord>, done: set<Coord>,
               h: Grid, walks: map<Coord, seq<Coord>>)
    requires DfsInv(g, s, root, stack, visited, done, h, walks) && |stack| > 0
    ensures var q := At(stack[|stack| - 1]);
      && 0 <= q.row < |h| && 0 <= q.col < |h[q.row]|
      && (h[q.row][q.col].kind == End <==> KindAt(g, q) == End)
      && (h[q.row][q.col].kind == Wall <==> KindAt(g, q) == Wall)
    ensures |visited| <= |AllCoords(g)|
  {
    LifoTop(g, s, stack, visited, done, h, walks);
  }

  lemma DfsVisitedBound(g: Grid, s: Coord, root: Cell, stack: seq<Cell>, visited: set<Coord>, done: set<Coord>,
                        h: Grid, walks: map<Coord, seq<Coord>>)
    requires DfsInv(g, s, root, stack, visited, done, h, walks)
    ensures |visited| <= |AllCoords(g)|
  {
    InGridBound(g, visited);
  }

  /** What the search answers once it pops the end entry `e`: an end is
      reachable, `e` is an end of the working grid linked back to the root,
      it is the root itself when the start is an end, and the working grid is
      `g` with discovered cells marked and the start cell untouched. */
  ghost predicate DfsAnswer(g: Grid, s: Coord, root: Cell, e: Cell, h: Grid)
  {
    && ReachesEnd(g, LifoStops, s) && Rect(h) && InBounds(h, At(e)) && KindAt(h, At(e)) == End
    && Linked(g, root, e) && (KindAt(g, s) == End ==> e == root)
    && MarkedFrom(g, h) && InBounds(h, s) && h[s.row][s.col] == g[s.row][s.col]
  }

  /** A popped end: the answer and the working grid as the search returns. */
  lemma DfsFound(g: Grid, s: Coord, root: Cell, stack: seq<Cell>, visited: set<Coord>, done: set<Coord>,
                 h: Grid, walks: map<Coord, seq<Coord>>)
    requires DfsInv(g, s, root, stack, visited, done, h, walks) && |stack| > 0
    requires KindAt(g, At(stack[|stack| - 1])) == End
    ensures DfsAnswer(g, s, root, stack[|stack| - 1], h)
  {
    LifoTop(g, s, stack, visited, done, h, walks);
    LifoFound(g, s, stack, visited, done, h, walks);
    DfsLeaves(g, s, stack, visited, done, h, walks);
  }

  /** A popped wall is done with at once. */
  lemma DfsSkip(g: Grid, s: Coord, root: Cell, stack: seq<Cell>, visited: set<Coord>, done: set<Coord>,
                h: Grid, walks: map<Coord, seq<Coord>>)
    requires DfsInv(g, s, root, stack, visited, done, h, walks) && |stack| > 0
    requires KindAt(g, At(stack[|stack| - 1])) == Wall
    ensures DfsInv(g, s, root, stack[..|stack| - 1], visited, done + {At(stack[|stack| - 1])}, h, walks)
  {
    LifoSkip(g, s, stack, visited, done, h, walks);
    LinkedPop(g, root, stack);
  }

  /** An empty stack: no end is reachable, and the working grid is as the
      search returns it. */
  lemma DfsExhausted(g: Grid, s: Coord, root: Cell, visited: set<Coord>, done: set<Coord>,
                     h: Grid, walks: map<Coord, seq<Coord>>)
    requires DfsInv(g, s, root, [], visited, done, h, walks)
    ensures !ReachesEnd(g, LifoStops, s) && KindAt(g, s) != End
    ensures Rect(h) && MarkedFrom(g, h) && h[s.row][s.col] == g[s.row][s.col]
  {
    LifoExhausted(g, s, visited, done, h, walks);
    DfsLeaves(g, s, [], visited, done, h, walks);
  }

  /** Expanding a popped entry that is neither an end nor a wall pushes its
      undiscovered neighbours, each linked to it. */
  method DfsExpand(g: Grid, ghost s: Coord, ghost root: Cell, h: Grid, cur: Cell, visited: set<Coord>, rest: seq<Cell>,
                   ghost stack: seq<Cell>, ghost done: set<Coord>, ghost walks: map<Coord, seq<Coord>>)
    returns (visited': set<Coord>, stack': seq<Cell>, h': Grid, ghost walks': map<Coord, seq<Coord>>)
    requires DfsInv(g, s, root, stack, visited, done, h, walks)
    requires |stack| > 0 && cur == stack[|stack| - 1] && rest == stack[..|stack| - 1]
    requires KindAt(g, At(cur)) !in LifoStops
    ensures DfsInv(g, s, root, stack', visited', done + {At(cur)}, h', walks')
    ensures stack' == rest + Entries(Discover(g, At(cur), visited, 4), NextDepth(cur), Some(cur))
    ensures |visited| < |visited'| || (visited' == visited && stack' == rest)
  {
    LinkedPop(g, root, stack);
    visited', stack', h', walks' := ExpandTop(g, s, h, cur, Some(cur), visited, rest, stack, done, walks);
    PushLinked(g, root, cur, rest, visited);
  }

  /** What the working grid looks like whenever the loop leaves it. */
  lemma DfsLeaves(g: Grid, s: Coord, stack: seq<Cell>, visited: set<Coord>, done: set<Coord>, h: Grid, walks: map<Coord, seq<Coord>>)
    requires LifoInv(g, s, stack, visited, done, h, walks)
    ensures Rect(h) && MarkedFrom(g, h) && h[s.row][s.col] == g[s.row][s.col]
  {
    MarkedOnFrom(g, h, visited - {s}, s);
  }

  /** Popping keeps the rest of a stack of linked entries linked. */
  lemma LinkedPop(g: Grid, root: Cell, stack: seq<Cell>)
    requires |stack| > 0 && forall i :: 0 <= i < |stack| ==> Linked(g, root, stack[i])
    ensures Linked(g, root, stack[|stack| - 1])
    ensures var rest := stack[..|stack| - 1]; forall i :: 0 <= i < |rest| ==> Linked(g, root, rest[i])
  {
  }

  /** The entries pushed from a linked, expanded entry are linked. */
  lemma PushLinked(g: Grid, root: Cell, cur: Cell, rest: seq<Cell>, visited: set<Coord>)
    requires Linked(g, root, cur) && root.depth == Some(0) && KindAt(g, At(cur)) !in LifoStops
    requires forall i :: 0 <= i < |rest| ==> Linked(g, root, rest[i])
    ensures var st := rest + Entries(Discover(g, At(cur), visited, 4), NextDepth(cur), Some(cur));
      forall i :: 0 <= i < |st| ==> Linked(g, root, st[i])
  {
    var d := Discover(g, At(cur), visited, 4);
    var st := rest + Entries(d, NextDepth(cur), Some(cur));
    DiscoverAdjacent(g, At(cur), visited);
    assert cur.depth.Some?;
    forall i | 0 <= i < |st| ensures Linked(g, root, st[i]) {
      if i >= |rest| {
        assert st[i] == Entry(d[i - |rest|], NextDepth(cur), Some(cur));
      }
    }
  }

  /** The parent chain of a linked entry, from a parentless root, runs back
      to the root through the grid one step at a time, and its length is the
      entry's depth plus one. */
  lemma {:induction false} LinkedLineage(g: Grid, root: Cell, e: Cell)
    requires Linked(g, root, e) && root.parent.None? && root.depth == Some(0) && InBounds(g, At(root))
    ensures Lineage(e)[|Lineage(e)| - 1] == root
    ensures e.depth == Some(|Lineage(e)| - 1)
    ensures forall i :: 0 <= i < |Lineage(e)| ==> InBounds(g, At(Lineage(e)[i]))
    ensures forall i :: 0 <= i < |Lineage(e)| - 1 ==> Adjacent(At(Lineage(e)[i + 1]), At(Lineage(e)[i]))
    decreases e
  {
    if e != root {
      var p := e.parent.value;
      LinkedLineage(g, root, p);
      assert Lineage(e) == [e] + Lineage(p);
    }
  }
}
