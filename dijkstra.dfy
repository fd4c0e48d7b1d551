/** The engine the application calls Dijkstra: in fact a second stack-based
    depth-first search. It pushes entries with a depth but no parent, reads
    cell kinds from the caller's grid rather than its working copy, and
    answers only whether an end was popped. No weight or cost is read. */
module Dijkstra {
  import opened Types
  import opened Grid
  import opened Lifo

  /** `d` is a number of steps in which the search can reach `q` from `s`. */
  ghost predicate Hops(g: Grid, s: Coord, q: Coord, d: Option<int>)
  {
    d.Some? && d.value >= 0 && ReachableIn(g, LifoStops, s, q, d.value)
  }

  /** Every stacked entry carries such a depth. */
  ghost predicate AllHops(g: Grid, s: Coord, stack: seq<Cell>)
  {
    forall i :: 0 <= i < |stack| ==> EntryHops(g, s, stack, i)
  }

  ghost predicate EntryHops(g: Grid, s: Coord, stack: seq<Cell>, i: int)
  {
    0 <= i < |stack| && Hops(g, s, At(stack[i]), stack[i].depth)
  }

  /** Every cell of `h` at `M` carries such a depth. */
  ghost predicate MarkedHops(g: Grid, s: Coord, h: Grid, M: set<Coord>)
  {
    forall r, c :: CellHops(g, s, h, M, r, c)
  }

  ghost predicate CellHops(g: Grid, s: Coord, h: Grid, M: set<Coord>, r: int, c: int)
  {
    0 <= r < |h| && 0 <= c < |h[r]| && Coord(r, c) in M ==> Hops(g, s, Coord(r, c), h[r][c].depth)
  }

  /** Every cell of `h` that differs from the one of `g` carries such a depth. */
  ghost predicate ChangedHops(g: Grid, s: Coord, h: Grid)
  {
    forall r, c :: CellChangedHops(g, s, h, r, c)
  }

  ghost predicate CellChangedHops(g: Grid, s: Coord, h: Grid, r: int, c: int)
  {
    0 <= r < |h| && 0 <= c < |h[r]| && r < |g| && c < |g[r]| && h[r][c] != g[r][c] ==>
      Hops(g, s, Coord(r, c), h[r][c].depth)
  }

  /** The search loop. `newGrid` is the working copy as the loop leaves it,
      which is also the last snapshot the engine publishes. */
  method DijkstraSearch(g: Grid, start: Cell) returns (found: bool, newGrid: Grid)
    requires Rect(g) && InBounds(g, At(start))
    ensures found <==> ReachesEnd(g, LifoStops, At(start))
    ensures Rect(newGrid) && MarkedFrom(g, newGrid)
    ensures newGrid[start.row][start.col] == g[start.row][start.col]
    ensures ChangedHops(g, At(start), newGrid)
  {
    newGrid := g;
    var stack := [Root(start)];
    var visited := {At(start)};
    ghost var s := At(start);
    ghost var done: set<Coord> := {};
    ghost var walks := map[s := [s]];
    DijkstraInit(g, Root(start));
    while |stack| > 0
      invariant DijkstraInv(g, s, stack, visited, done, newGrid, walks)
      invariant |visited| <= |AllCoords(g)|
      decreases |AllCoords(g)| - |visited|, |stack|
    {
      DijkstraTop(g, s, stack, visited, done, newGrid, walks);
      var currCell := stack[|stack| - 1];
      if g[currCell.row][currCell.col].kind == End {
        DijkstraFound(g, s, stack, visited, done, newGrid, walks);
        return true, newGrid;
      }
      visited, stack, newGrid, done, walks := DijkstraStep(g, s, newGrid, visited, stack, done, walks);
    }
    DijkstraExhausted(g, s, visited, done, newGrid, walks);
    return false, newGrid;
  }

  /** The loop invariant: the frontier invariant shared with the other
      depth-first engine, with every stacked entry and every marked cell
      carrying a depth in which its coordinate is reached. */
  ghost predicate DijkstraInv(g: Grid, s: Coord, stack: seq<Cell>, visited: set<Coord>, done: set<Coord>,
                              h: Grid, walks: map<Coord, seq<Coord>>)
  {
    && LifoInv(g, s, stack, visited, done, h, walks)
    && AllHops(g, s, stack)
    && MarkedHops(g, s, h, visited - {s})
  }

  /** What the search answers, with the working grid it leaves. */
  ghost predicate DijkstraAnswer(g: Grid, s: Coord, found: bool, h: Grid)
  {
    && (found <==> ReachesEnd(g, LifoStops, s))
    && Rect(h) && MarkedFrom(g, h) && InBounds(h, s) && h[s.row][s.col] == g[s.row][s.col]
    && ChangedHops(g, s, h)
  }

  /** The rest of a pass of the loop once the popped entry, whose kind is
      read in `g`, is known not to be an end: a wall is dropped and anything
      else is expanded. */
  method DijkstraStep(g: Grid, ghost s: Coord, h: Grid, visited: set<Coord>, stack: seq<Cell>,
                      ghost done: set<Coord>, ghost walks: map<Coord, seq<Coord>>)
    returns (visited': set<Coord>, stack': seq<Cell>, h': Grid,
             ghost done': set<Coord>, ghost walks': map<Coord, seq<Coord>>)
    requires DijkstraInv(g, s, stack, visited, done, h, walks) && |stack| > 0
    requires KindAt(g, At(stack[|stack| - 1])) != End
    ensures DijkstraInv(g, s, stack', visited', done', h', walks')
    ensures |visited'| <= |AllCoords(g)|
    ensures |visited| < |visited'| || (visited' == visited && |stack'| < |stack|)
  {
    DijkstraTop(g, s, stack, visited, done, h, walks);
    var cur := stack[|stack| - 1];
    var rest := stack[..|stack| - 1];
    if g[cur.row][cur.col].kind == Wall {
      DijkstraSkip(g, s, stack, visited, done, h, walks);
      return visited, rest, h, done + {At(cur)}, walks;
    }
    visited', stack', h', walks' := DijkstraExpand(g, s, h, cur, visited, rest, stack, done, walks);
    done' := done + {At(cur)};
    DijkstraBound(g, s, stack', visited', done', h', walks');
  }

  lemma DijkstraInit(g: Grid, root: Cell)
    requires Rect(g) && InBounds(g, At(root)) && root.depth == Some(0)
    ensures DijkstraInv(g, At(root), [root], {At(root)}, {}, g, map[At(root) := [At(root)]])
  {
    LifoInit(g, root);
    assert Walk(g, LifoStops, At(root), [At(root)]);
  }

  /** The top of the stack is a coordinate of `g`. */
  lemma DijkstraTop(g: Grid, s: Coord, stack: seq<Cell>, visited: set<Coord>, done: set<Coord>,
                    h: Grid, walks: map<Coord, seq<Coord>>)
    requires DijkstraInv(g, s, stack, visited, done, h, walks) && |stack| > 0
    ensures var q := At(stack[|stack| - 1]);
      0 <= q.row < |g| && 0 <= q.col < |g[q.row]| && g[q.row][q.col].kind == KindAt(g, q)
    ensures |visited| <= |AllCoords(g)|
  {
    LifoTop(g, s, stack, visited, done, h, walks);
  }

  lemma DijkstraBound(g: Grid, s: Coord, stack: seq<Cell>, visited: set<Coord>, done: set<Coord>,
                      h: Grid, walks: map<Coord, seq<Coord>>)
    requires DijkstraInv(g, s, stack, visited, done, h, walks)
    ensures |visited| <= |AllCoords(g)|
  {
    InGridBound(g, visited);
  }

  /** A popped end: the answer is yes. */
  lemma DijkstraFound(g: Grid, s: Coord, stack: seq<Cell>, visited: set<Coord>, done: set<Coord>,
                      h: Grid, walks: map<Coord, seq<Coord>>)
    requires DijkstraInv(g, s, stack, visited, done, h, walks) && |stack| > 0
    requires KindAt(g, At(stack[|stack| - 1])) == End
    ensures DijkstraAnswer(g, s, true, h)
  {
    LifoFound(g, s, stack, visited, done, h, walks);
    DijkstraLeaves(g, s, stack, visited, done, h, walks);
  }

  /** A popped wall is done with at once. */
  lemma DijkstraSkip(g: Grid, s: Coord, stack: seq<Cell>, visited: set<Coord>, done: set<Coord>,
                     h: Grid, walks: map<Coord, seq<Coord>>)
    requires DijkstraInv(g, s, stack, visited, done, h, walks) && |stack| > 0
    requires KindAt(g, At(stack[|stack| - 1])) == Wall
    ensures DijkstraInv(g, s, stack[..|stack| - 1], visited, done + {At(stack[|stack| - 1])}, h, walks)
  {
    LifoSkip(g, s, stack, visited, done, h, walks);
    HopsPop(g, s, stack);
  }

  /** Popping keeps the rest of the stack carrying hop depths. */
  lemma HopsPop(g: Grid, s: Coord, stack: seq<Cell>)
    requires AllHops(g, s, stack) && |stack| > 0
    ensures Hops(g, s, At(stack[|stack| - 1]), stack[|stack| - 1].depth)
    ensures AllHops(g, s, stack[..|stack| - 1])
  {
    var rest := stack[..|stack| - 1];
    assert EntryHops(g, s, stack, |stack| - 1);
    forall i | 0 <= i < |rest| ensures EntryHops(g, s, rest, i) {
      assert EntryHops(g, s, stack, i);
    }
  }

  /** An empty stack: the answer is no. */
  lemma DijkstraExhausted(g: Grid, s: Coord, visited: set<Coord>, done: set<Coord>,
                          h: Grid, walks: map<Coord, seq<Coord>>)
    requires DijkstraInv(g, s, [], visited, done, h, walks)
    ensures DijkstraAnswer(g, s, false, h)
  {
    LifoExhausted(g, s, visited, done, h, walks);
    DijkstraLeaves(g, s, [], visited, done, h, walks);
  }

  /** What the working grid looks like whenever the loop leaves it. */
  lemma DijkstraLeaves(g: Grid, s: Coord, stack: seq<Cell>, visited: set<Coord>, done: set<Coord>,
                       h: Grid, walks: map<Coord, seq<Coord>>)
    requires DijkstraInv(g, s, stack, visited, done, h, walks)
    ensures Rect(h) && MarkedFrom(g, h) && InBounds(h, s) && h[s.row][s.col] == g[s.row][s.col]
    ensures ChangedHops(g, s, h)
  {
    MarkedOnFrom(g, h, visited - {s}, s);
    forall r, c ensures CellChangedHops(g, s, h, r, c) {
      if 0 <= r < |g| && 0 <= c < |g[r]| {
        assert CellMarkedOn(g, h, visited - {s}, r, c);
        assert CellHops(g, s, h, visited - {s}, r, c);
      }
    }
  }

  /** Expanding a popped entry that is neither an end nor a wall pushes its
      undiscovered neighbours one step deeper, without a parent. */
  method DijkstraExpand(g: Grid, ghost s: Coord, h: Grid, cur: Cell, visited: set<Coord>, rest: seq<Cell>,
                        ghost stack: seq<Cell>, ghost done: set<Coord>, ghost walks: map<Coord, seq<Coord>>)
    returns (visited': set<Coord>, stack': seq<Cell>, h': Grid, ghost walks': map<Coord, seq<Coord>>)
    requires DijkstraInv(g, s, stack, visited, done, h, walks)
    requires |stack| > 0 && cur == stack[|stack| - 1] && rest == stack[..|stack| - 1]
    requires KindAt(g, At(cur)) !in LifoStops
    ensures DijkstraInv(g, s, stack', visited', done + {At(cur)}, h', walks')
    ensures stack' == rest + Entries(Discover(g, At(cur), visited, 4), NextDepth(cur), None)
    ensures |visited| < |visited'| || (visited' == visited && stack' == rest)
  {
    ExpandHops(g, s, stack, visited, h);
    visited', stack', h', walks' := ExpandTop(g, s, h, cur, None, visited, rest, stack, done, walks);
  }

  /** Expanding the top of `stack` keeps every stacked entry and every marked
      cell carrying a depth in which it is reached. */
  lemma ExpandHops(g: Grid, s: Coord, stack: seq<Cell>, visited: set<Coord>, h: Grid)
    requires AllHops(g, s, stack) && MarkedHops(g, s, h, visited - {s}) && |stack| > 0
    requires KindAt(g, At(stack[|stack| - 1])) !in LifoStops
    ensures var cur := stack[|stack| - 1];
      var d := Discover(g, At(cur), visited, 4);
      && AllHops(g, s, stack[..|stack| - 1] + Entries(d, NextDepth(cur), None))
      && MarkedHops(g, s, MarkAll(h, d, NextDepth(cur)), visited + Elems(d) - {s})
  {
    var cur := stack[|stack| - 1];
    HopsPop(g, s, stack);
    PushHops(g, s, cur, stack[..|stack| - 1], visited);
    MarkHops(g, s, h, cur, visited);
  }

  /** One more step from a coordinate the search expands. */
  lemma HopStep(g: Grid, s: Coord, p: Coord, n: nat, x: Coord)
    requires ReachableIn(g, LifoStops, s, p, n)
    requires InBounds(g, x) && Adjacent(p, x) && KindAt(g, p) !in LifoStops
    ensures ReachableIn(g, LifoStops, s, x, n + 1)
  {
    var w :| Walk(g, LifoStops, s, w) && |w| == n + 1 && w[n] == p;
    WalkExtend(g, LifoStops, s, w, x);
    assert (w + [x])[n + 1] == x;
  }

  /** The entries pushed from an expanded entry carry depths in which they
      are reached. */
  lemma PushHops(g: Grid, s: Coord, cur: Cell, rest: seq<Cell>, visited: set<Coord>)
    requires Hops(g, s, At(cur), cur.depth) && KindAt(g, At(cur)) !in LifoStops && AllHops(g, s, rest)
    ensures AllHops(g, s, rest + Entries(Discover(g, At(cur), visited, 4), NextDepth(cur), None))
  {
    var st := rest + Entries(Discover(g, At(cur), visited, 4), NextDepth(cur), None);
    forall i | 0 <= i < |st| ensures EntryHops(g, s, st, i) {
      if i < |rest| {
        assert st[i] == rest[i] && EntryHops(g, s, rest, i);
      } else {
        PushedHops(g, s, cur, visited, i - |rest|);
        assert st[i] == Entries(Discover(g, At(cur), visited, 4), NextDepth(cur), None)[i - |rest|];
      }
    }
  }

  lemma PushedHops(g: Grid, s: Coord, cur: Cell, visited: set<Coord>, j: nat)
    requires Hops(g, s, At(cur), cur.depth) && KindAt(g, At(cur)) !in LifoStops
    requires j < |Discover(g, At(cur), visited, 4)|
    ensures var e := Entries(Discover(g, At(cur), visited, 4), NextDepth(cur), None)[j];
      Hops(g, s, At(e), e.depth)
  {
    var x := Discover(g, At(cur), visited, 4)[j];
    DiscoverAt(g, At(cur), visited, j);
    HopStep(g, s, At(cur), cur.depth.value, x);
  }

  /** The cells marked in an expansion carry the pushed depth. */
  lemma MarkHops(g: Grid, s: Coord, h: Grid, cur: Cell, visited: set<Coord>)
    requires Hops(g, s, At(cur), cur.depth) && KindAt(g, At(cur)) !in LifoStops
    requires MarkedHops(g, s, h, visited - {s})
    ensures var d := Discover(g, At(cur), visited, 4);
      MarkedHops(g, s, MarkAll(h, d, NextDepth(cur)), visited + Elems(d) - {s})
  {
    var d := Discover(g, At(cur), visited, 4);
    forall r: int, c: int ensures CellHops(g, s, MarkAll(h, d, NextDepth(cur)), visited + Elems(d) - {s}, r, c) {
      MarkCellHops(g, s, h, cur, visited, r, c);
    }
  }

  lemma MarkCellHops(g: Grid, s: Coord, h: Grid, cur: Cell, visited: set<Coord>, r: int, c: int)
    requires Hops(g, s, At(cur), cur.depth) && KindAt(g, At(cur)) !in LifoStops
    requires CellHops(g, s, h, visited - {s}, r, c)
    ensures var d := Discover(g, At(cur), visited, 4);
      CellHops(g, s, MarkAll(h, d, NextDepth(cur)), visited + Elems(d) - {s}, r, c)
  {
    var d := Discover(g, At(cur), visited, 4);
    var marked := MarkAll(h, d, NextDepth(cur));
    if 0 <= r < |marked| && 0 <= c < |marked[r]| && Coord(r, c) in visited + Elems(d) - {s} {
      MarkAllCell(h, d, NextDepth(cur), r, c);
      if Coord(r, c) in d {
        var j :| 0 <= j < |d| && d[j] == Coord(r, c);
        DiscoverAt(g, At(cur), visited, j);
        HopStep(g, s, At(cur), cur.depth.value, Coord(r, c));
      }
    }
  }
}
