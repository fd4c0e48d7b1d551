/** The stack frontier shared by the two depth-first engines: the entries
    they push, one expansion of a popped entry (enqueue and mark), and the
    loop invariant with the lemmas that carry it from one pop to the next. */
module Lifo {
  import opened Types
  import opened Grid

  /** Kinds at which a popped entry is not expanded (the end returns). */
  const LifoStops: set<CellType> := {End, Wall}

  /** The entry a search starts from: the start cell with depth 0. */
  function Root(start: Cell): (r: Cell)
    ensures At(r) == At(start) && r.depth == Some(0) && r.parent == start.parent
  {
    start.(depth := Some(0))
  }

  /** The depth given to entries pushed from `c`: its depth, 0 if it has
      none, plus one. */
  function NextDepth(c: Cell): int
  {
    (if c.depth.Some? then c.depth.value else 0) + 1
  }

  /** The entry pushed for the discovered coordinate `q`. */
  function Entry(q: Coord, depth: int, parent: Option<Cell>): (e: Cell)
    ensures At(e) == q && e.kind == Visited && e.depth == Some(depth) && e.parent == parent
  {
    Cell(Visited, q.row, q.col, Some(depth), parent)
  }

  /** The entries pushed for the discovered coordinates `d`, in order. */
  function Entries(d: seq<Coord>, depth: int, parent: Option<Cell>): (r: seq<Cell>)
    ensures |r| == |d| && forall i :: 0 <= i < |d| ==> r[i] == Entry(d[i], depth, parent)
    decreases |d|
  {
    if d == [] then [] else Entries(d[..|d| - 1], depth, parent) + [Entry(d[|d| - 1], depth, parent)]
  }

  /** One expansion of the popped entry `cur`: for each direction in order,
      an in-bounds coordinate not yet visited is pushed as a visited entry one
      deeper than `cur`, marked visited, and marked in the working grid. */
  method PushNeighbours(g: Grid, h: Grid, cur: Cell, parent: Option<Cell>, visited: set<Coord>, stack: seq<Cell>)
    returns (visited': set<Coord>, stack': seq<Cell>, h': Grid)
    ensures var d := Discover(g, At(cur), visited, 4);
      && stack' == stack + Entries(d, NextDepth(cur), parent)
      && visited' == visited + Elems(d)
      && h' == MarkAll(h, d, NextDepth(cur))
  {
    visited', stack', h' := visited, stack, h;
    var p := At(cur);
    var depth := NextDepth(cur);
    var i := 0;
    while i < |Directions|
      invariant 0 <= i <= |Directions|
      invariant stack' == stack + Entries(Discover(g, p, visited, i), depth, parent)
      invariant visited' == visited + Elems(Discover(g, p, visited, i))
      invariant h' == MarkAll(h, Discover(g, p, visited, i), depth)
    {
      var q := Move(p, Directions[i]);
      ghost var prev := Discover(g, p, visited, i);
      DiscoverNext(g, p, visited, i);
      if 0 <= q.row < |g| && 0 <= q.col < |g[0]| && q !in visited' {
        Snoc(h, prev, q, depth, parent);
        AppendAssoc(stack, Entries(prev, depth, parent), [Entry(q, depth, parent)]);
        UnionAssoc(visited, Elems(prev), {q});
        stack' := stack' + [Entry(q, depth, parent)];
        visited' := visited' + {q};
        h' := MarkAt(h', q, depth);
      }
      i := i + 1;
    }
  }

  /** Appending one coordinate appends one entry, adds one element and
      marks one more cell. */
  lemma Snoc(h: Grid, s: seq<Coord>, q: Coord, depth: int, parent: Option<Cell>)
    ensures Entries(s + [q], depth, parent) == Entries(s, depth, parent) + [Entry(q, depth, parent)]
    ensures Elems(s + [q]) == Elems(s) + {q}
    ensures MarkAll(h, s + [q], depth) == MarkAt(MarkAll(h, s, depth), q, depth)
  {
    assert (s + [q])[..|s|] == s;
    EntriesSnoc(s, q, depth, parent);
  }

  lemma EntriesSnoc(s: seq<Coord>, q: Coord, depth: int, parent: Option<Cell>)
    ensures Entries(s + [q], depth, parent) == Entries(s, depth, parent) + [Entry(q, depth, parent)]
  {
    assert (s + [q])[..|s|] == s;
  }

  /** The coordinates of the entries on a stack. */
  function StackCoords(stack: seq<Cell>): set<Coord>
    decreases |stack|
  {
    if stack == [] then {} else StackCoords(stack[..|stack| - 1]) + {At(stack[|stack| - 1])}
  }

  lemma {:induction false} StackCoordsPush(stack: seq<Cell>, d: seq<Coord>, depth: int, parent: Option<Cell>)
    ensures StackCoords(stack + Entries(d, depth, parent)) == StackCoords(stack) + Elems(d)
    decreases |d|
  {
    if d != [] {
      var u, x := d[..|d| - 1], d[|d| - 1];
      StackCoordsPush(stack, u, depth, parent);
      SplitLast(d);
      var t, e := stack + Entries(u, depth, parent), Entry(x, depth, parent);
      AppendAssoc(stack, Entries(u, depth, parent), [e]);
      SplitLast(t + [e]);
      assert (t + [e])[..|t|] == t;
    } else {
      assert stack + Entries(d, depth, parent) == stack;
    }
  }


  /** A popped coordinate the search is done with: it is not an end, and
      unless it is a wall all its neighbours are visited. */
  ghost predicate Finished(g: Grid, V: set<Coord>, q: Coord)
  {
    KindAt(g, q) != End && (KindAt(g, q) != Wall ==> Expanded(g, V, q))
  }

  /** The state of the search loop from start coordinate `s`: the visited
      coordinates are the popped ones (`done`) and those still on the stack,
      all inside the grid; the working grid `h` is `g` with exactly the
      visited cells other than the start marked; a walk from `s` is recorded
      for each visited coordinate; and the popped ones are finished. */
  ghost predicate LifoInv(g: Grid, s: Coord, stack: seq<Cell>, visited: set<Coord>, done: set<Coord>, h: Grid, walks: map<Coord, seq<Coord>>)
  {
    && LifoFrontier(g, s, stack, visited, done)
    && Rect(h) && MarkedOn(g, h, visited - {s})
    && LifoWalks(g, s, visited, walks)
    && LifoDone(g, visited, done)
  }

  ghost predicate LifoFrontier(g: Grid, s: Coord, stack: seq<Cell>, visited: set<Coord>, done: set<Coord>)
  {
    && Rect(g) && InBounds(g, s) && s in visited
    && visited == done + StackCoords(stack)
    && (forall q :: q in visited ==> InBounds(g, q))
  }

  ghost predicate LifoWalks(g: Grid, s: Coord, visited: set<Coord>, walks: map<Coord, seq<Coord>>)
  {
    && walks.Keys == visited
    && forall q :: q in walks ==> Walk(g, LifoStops, s, walks[q]) && walks[q][|walks[q]| - 1] == q
  }

  ghost predicate LifoDone(g: Grid, visited: set<Coord>, done: set<Coord>)
  {
    forall q :: q in done ==> Finished(g, visited, q)
  }

  lemma LifoInit(g: Grid, root: Cell)
    requires Rect(g) && InBounds(g, At(root))
    ensures LifoInv(g, At(root), [root], {At(root)}, {}, g, map[At(root) := [At(root)]])
  {
    assert [root][..0] == [];
    assert Walk(g, LifoStops, At(root), [At(root)]);
  }

  /** The top of the stack: a visited coordinate inside both grids, whose
      end and wall status is the same in the working grid as in `g`. */
  lemma LifoTop(g: Grid, s: Coord, stack: seq<Cell>, visited: set<Coord>, done: set<Coord>, h: Grid, walks: map<Coord, seq<Coord>>)
    requires LifoInv(g, s, stack, visited, done, h, walks) && |stack| > 0
    ensures var q := At(stack[|stack| - 1]);
      && q in visited && InBounds(g, q)
      && 0 <= q.row < |h| && 0 <= q.col < |h[q.row]|
      && g[q.row][q.col].kind == KindAt(g, q) && h[q.row][q.col].kind == KindAt(h, q)
      && (KindAt(h, q) == End <==> KindAt(g, q) == End)
      && (KindAt(h, q) == Wall <==> KindAt(g, q) == Wall)
    ensures |visited| <= |AllCoords(g)|
    ensures stack == stack[..|stack| - 1] + [stack[|stack| - 1]]
  {
    var q := At(stack[|stack| - 1]);
    assert q in StackCoords(stack);
    MarkedOnFrom(g, h, visited - {s}, s);
    MarkedKinds(g, h, q);
    InGridBound(g, visited);
  }

  /** A popped end is reached by the walk recorded for it. */
  lemma LifoFound(g: Grid, s: Coord, stack: seq<Cell>, visited: set<Coord>, done: set<Coord>, h: Grid, walks: map<Coord, seq<Coord>>)
    requires LifoInv(g, s, stack, visited, done, h, walks) && |stack| > 0
    requires KindAt(g, At(stack[|stack| - 1])) == End
    ensures ReachesEnd(g, LifoStops, s)
  {
    var q := At(stack[|stack| - 1]);
    assert q in StackCoords(stack);
    EndReached(g, LifoStops, s, walks[q]);
  }

  /** A popped wall is done with at once. */
  lemma LifoSkip(g: Grid, s: Coord, stack: seq<Cell>, visited: set<Coord>, done: set<Coord>, h: Grid, walks: map<Coord, seq<Coord>>)
    requires LifoInv(g, s, stack, visited, done, h, walks) && |stack| > 0
    requires KindAt(g, At(stack[|stack| - 1])) == Wall
    ensures LifoInv(g, s, stack[..|stack| - 1], visited, done + {At(stack[|stack| - 1])}, h, walks)
  {
  }

  /** Once the stack is empty every visited coordinate is finished, so the
      visited set is closed and holds no end: none is reachable. */
  lemma LifoExhausted(g: Grid, s: Coord, visited: set<Coord>, done: set<Coord>, h: Grid, walks: map<Coord, seq<Coord>>)
    requires LifoInv(g, s, [], visited, done, h, walks)
    ensures !ReachesEnd(g, LifoStops, s)
  {
    assert visited == done;
    assert Closed(g, LifoStops, visited) by {
      forall q | q in visited && KindAt(g, q) !in LifoStops ensures Expanded(g, visited, q) {
        assert Finished(g, visited, q);
      }
    }
    forall q | q in visited ensures KindAt(g, q) != End {
      assert Finished(g, visited, q);
    }
    ClosedExcludesEnd(g, LifoStops, s, visited);
  }

  /** Expanding the popped entry `cur`, with `rest` the stack below it: the
      invariant holds again with `cur` done, and the visited set grew unless
      nothing was pushed. */
  method ExpandTop(g: Grid, ghost s: Coord, h: Grid, cur: Cell, parent: Option<Cell>, visited: set<Coord>, rest: seq<Cell>,
                   ghost stack: seq<Cell>, ghost done: set<Coord>, ghost walks: map<Coord, seq<Coord>>)
    returns (visited': set<Coord>, stack': seq<Cell>, h': Grid, ghost walks': map<Coord, seq<Coord>>)
    requires LifoInv(g, s, stack, visited, done, h, walks)
    requires |stack| > 0 && cur == stack[|stack| - 1] && rest == stack[..|stack| - 1]
    requires KindAt(g, At(cur)) !in LifoStops
    ensures LifoInv(g, s, stack', visited', done + {At(cur)}, h', walks')
    ensures var d := Discover(g, At(cur), visited, 4);
      && stack' == rest + Entries(d, NextDepth(cur), parent)
      && visited' == visited + Elems(d)
      && h' == MarkAll(h, d, NextDepth(cur))
    ensures |visited| < |visited'| || (visited' == visited && stack' == rest)
  {
    visited', stack', h' := PushNeighbours(g, h, cur, parent, visited, rest);
    walks' := LifoExpand(g, s, stack, parent, visited, done, h, walks, visited', stack', h');
  }

  /** The invariant after the top of `stack` is expanded, with
      `visited'`, `stack'` and `h'` what pushing its neighbours yields. */
  lemma LifoExpand(g: Grid, s: Coord, stack: seq<Cell>, parent: Option<Cell>, visited: set<Coord>,
                   done: set<Coord>, h: Grid, walks: map<Coord, seq<Coord>>, visited': set<Coord>, stack': seq<Cell>, h': Grid)
    returns (walks': map<Coord, seq<Coord>>)
    requires LifoInv(g, s, stack, visited, done, h, walks) && |stack| > 0
    requires KindAt(g, At(stack[|stack| - 1])) !in LifoStops
    requires var cur, rest := stack[|stack| - 1], stack[..|stack| - 1];
      var d := Discover(g, At(cur), visited, 4);
      && stack' == rest + Entries(d, NextDepth(cur), parent)
      && visited' == visited + Elems(d)
      && h' == MarkAll(h, d, NextDepth(cur))
    ensures LifoInv(g, s, stack', visited', done + {At(stack[|stack| - 1])}, h', walks')
    ensures |visited| < |visited'| || (visited' == visited && stack' == stack[..|stack| - 1])
  {
    var cur, rest := stack[|stack| - 1], stack[..|stack| - 1];
    var d := Discover(g, At(cur), visited, 4);
    assert At(cur) in visited;
    ExpandFrontier(g, s, stack, parent, visited, done);
    ExpandMarks(g, s, h, At(cur), visited, NextDepth(cur));
    walks' := ExpandWalks(g, s, At(cur), visited, walks);
    ExpandDone(g, At(cur), visited, done);
    GrowOrSame(visited, d);
    if d == [] {
      assert stack' == rest;
    }
  }

  lemma ExpandFrontier(g: Grid, s: Coord, stack: seq<Cell>, parent: Option<Cell>, visited: set<Coord>, done: set<Coord>)
    requires LifoFrontier(g, s, stack, visited, done) && |stack| > 0
    ensures var cur, rest := stack[|stack| - 1], stack[..|stack| - 1];
      var d := Discover(g, At(cur), visited, 4);
      LifoFrontier(g, s, rest + Entries(d, NextDepth(cur), parent), visited + Elems(d), done + {At(cur)})
  {
    var cur, rest := stack[|stack| - 1], stack[..|stack| - 1];
    var d := Discover(g, At(cur), visited, 4);
    StackCoordsPush(rest, d, NextDepth(cur), parent);
  }

  lemma ExpandMarks(g: Grid, s: Coord, h: Grid, p: Coord, visited: set<Coord>, depth: int)
    requires Rect(g) && Rect(h) && s in visited && MarkedOn(g, h, visited - {s})
    ensures var d := Discover(g, p, visited, 4);
      Rect(MarkAll(h, d, depth)) && MarkedOn(g, MarkAll(h, d, depth), visited + Elems(d) - {s})
  {
    var d := Discover(g, p, visited, 4);
    var h' := MarkAll(h, d, depth);
    MarkAllRect(h, d, depth);
    MarkAllCells(h, d, depth);
    forall r, c | 0 <= r < |g| && 0 <= c < |g[r]| ensures CellMarkedOn(g, h', visited + Elems(d) - {s}, r, c) {
      assert CellMarkedOn(g, h, visited - {s}, r, c);
    }
  }

  lemma ExpandWalks(g: Grid, s: Coord, p: Coord, visited: set<Coord>, walks: map<Coord, seq<Coord>>)
    returns (walks': map<Coord, seq<Coord>>)
    requires LifoWalks(g, s, visited, walks) && p in visited && KindAt(g, p) !in LifoStops
    ensures LifoWalks(g, s, visited + Elems(Discover(g, p, visited, 4)), walks')
  {
    var d := Discover(g, p, visited, 4);
    DiscoverAdjacent(g, p, visited);
    var w := walks[p];
    assert Walk(g, LifoStops, s, w) && w[|w| - 1] == p;
    walks' := map q | q in visited + Elems(d) :: if q in walks then walks[q] else w + [q];
    forall q | q in walks' ensures Walk(g, LifoStops, s, walks'[q]) && walks'[q][|walks'[q]| - 1] == q {
      if q !in walks {
        var j :| 0 <= j < |d| && d[j] == q;
        WalkExtend(g, LifoStops, s, w, q);
      }
    }
  }

  lemma ExpandDone(g: Grid, p: Coord, visited: set<Coord>, done: set<Coord>)
    requires LifoDone(g, visited, done) && KindAt(g, p) !in LifoStops
    ensures LifoDone(g, visited + Elems(Discover(g, p, visited, 4)), done + {p})
  {
    var V := visited + Elems(Discover(g, p, visited, 4));
    DiscoverCovers(g, p, visited);
    forall q | q in done + {p} ensures Finished(g, V, q) {
      if q in done {
        assert Finished(g, visited, q);
      }
    }
  }
}
