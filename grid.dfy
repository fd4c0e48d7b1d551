/** Shared grid vocabulary of the three search engines: bounds, the fixed
    direction order, cell updates, the marking of a working copy, and walks
    through the grid with the closure argument that makes a search complete. */
module Grid {
  import opened Types

  type Grid = seq<seq<Cell>>

  function Width(g: Grid): nat { if |g| == 0 then 0 else |g[0]| }

  /** Every row has the length of the first one. */
  predicate Rect(g: Grid)
  {
    forall r :: 0 <= r < |g| ==> |g[r]| == Width(g)
  }

  /** The bounds test of the engines: rows against the number of rows,
      columns against the length of row 0. */
  predicate InBounds(g: Grid, p: Coord)
  {
    0 <= p.row < |g| && 0 <= p.col < Width(g)
  }

  /** The kind at a position; positions off the grid read as walls. */
  function KindAt(g: Grid, p: Coord): CellType
  {
    if 0 <= p.row < |g| && 0 <= p.col < |g[p.row]| then g[p.row][p.col].kind else Wall
  }

  predicate SameShape(g: Grid, h: Grid)
  {
    |g| == |h| && forall r :: 0 <= r < |g| ==> |g[r]| == |h[r]|
  }

  /** `g` with the cell at `p` given kind `k`; nothing else changes. */
  function SetKind(g: Grid, p: Coord, k: CellType): (h: Grid)
    requires 0 <= p.row < |g| && 0 <= p.col < |g[p.row]|
    ensures SameShape(g, h) && (Rect(g) ==> Rect(h))
    ensures h[p.row][p.col] == g[p.row][p.col].(kind := k)
    ensures forall r, c :: 0 <= r < |g| && 0 <= c < |g[r]| && Coord(r, c) != p ==> h[r][c] == g[r][c]
  {
    g[p.row := g[p.row][p.col := g[p.row][p.col].(kind := k)]]
  }

  function Move(p: Coord, d: Coord): Coord { Coord(p.row + d.row, p.col + d.col) }

  /** The neighbour order of all three engines: left, right, down, up. */
  const Directions: seq<Coord> := [Coord(0, -1), Coord(0, 1), Coord(1, 0), Coord(-1, 0)]

  predicate Adjacent(p: Coord, q: Coord)
  {
    (p.row == q.row && (q.col == p.col - 1 || q.col == p.col + 1)) ||
    (p.col == q.col && (q.row == p.row + 1 || q.row == p.row - 1))
  }

  /** The position of the step from `p` to `q` in the direction order. */
  function DirIndex(p: Coord, q: Coord): (i: nat)
    requires Adjacent(p, q)
    ensures i < |Directions| && Move(p, Directions[i]) == q
  {
    if q.col == p.col - 1 then 0
    else if q.col == p.col + 1 then 1
    else if q.row == p.row + 1 then 2
    else 3
  }

  lemma DirectionStep(p: Coord, i: nat)
    requires i < |Directions|
    ensures Adjacent(p, Move(p, Directions[i])) && DirIndex(p, Move(p, Directions[i])) == i
  {
  }

  /** The in-bounds neighbours of `p` outside `visited` among the first `k`
      directions, in direction order: what one expansion step adds. */
  function Discover(g: Grid, p: Coord, visited: set<Coord>, k: nat): (r: seq<Coord>)
    requires k <= |Directions|
    ensures forall j :: 0 <= j < |r| ==> InBounds(g, r[j]) && r[j] !in visited
  {
    if k == 0 then []
    else
      var q := Move(p, Directions[k - 1]);
      Discover(g, p, visited, k - 1) + (if InBounds(g, q) && q !in visited then [q] else [])
  }

  /** The discovered coordinates are neighbours taken in direction order, and
      every in-bounds unvisited neighbour among the first `k` directions is one. */
  lemma DiscoverOrdered(g: Grid, p: Coord, visited: set<Coord>, k: nat)
    requires k <= |Directions|
    ensures var r := Discover(g, p, visited, k);
      && (forall j :: 0 <= j < |r| ==> Adjacent(p, r[j]) && DirIndex(p, r[j]) < k)
      && (forall i, j :: 0 <= i < j < |r| ==> DirIndex(p, r[i]) < DirIndex(p, r[j]))
      && (forall i :: 0 <= i < k && InBounds(g, Move(p, Directions[i])) && Move(p, Directions[i]) !in visited ==>
            Move(p, Directions[i]) in r)
  {
    DiscoverDirections(g, p, visited, k);
    DiscoverSorted(g, p, visited, k);
    DiscoverComplete(g, p, visited, k);
  }

  lemma {:induction false} DiscoverDirections(g: Grid, p: Coord, visited: set<Coord>, k: nat)
    requires k <= |Directions|
    ensures forall j :: 0 <= j < |Discover(g, p, visited, k)| ==>
      Adjacent(p, Discover(g, p, visited, k)[j]) && DirIndex(p, Discover(g, p, visited, k)[j]) < k
  {
    if k > 0 {
      DiscoverDirections(g, p, visited, k - 1);
      DirectionStep(p, k - 1);
    }
  }

  lemma {:induction false} DiscoverSorted(g: Grid, p: Coord, visited: set<Coord>, k: nat)
    requires k <= |Directions|
    ensures forall i, j :: 0 <= i < j < |Discover(g, p, visited, k)| ==>
      Adjacent(p, Discover(g, p, visited, k)[i]) && Adjacent(p, Discover(g, p, visited, k)[j]) &&
      DirIndex(p, Discover(g, p, visited, k)[i]) < DirIndex(p, Discover(g, p, visited, k)[j])
  {
    if k > 0 {
      var prev, q, r := Discover(g, p, visited, k - 1), Move(p, Directions[k - 1]), Discover(g, p, visited, k);
      DiscoverSorted(g, p, visited, k - 1);
      DiscoverDirections(g, p, visited, k - 1);
      DirectionStep(p, k - 1);
      forall i, j | 0 <= i < j < |r| ensures Adjacent(p, r[i]) && Adjacent(p, r[j]) && DirIndex(p, r[i]) < DirIndex(p, r[j]) {
        assert r[i] == prev[i];
        if j < |prev| { assert r[j] == prev[j]; } else { assert r[j] == q; }
      }
    } else {
      assert Discover(g, p, visited, k) == [];
    }
  }

  lemma {:induction false} DiscoverComplete(g: Grid, p: Coord, visited: set<Coord>, k: nat)
    requires k <= |Directions|
    ensures var r := Discover(g, p, visited, k);
      forall i :: 0 <= i < k && InBounds(g, Move(p, Directions[i])) && Move(p, Directions[i]) !in visited ==>
        Move(p, Directions[i]) in r
  {
    if k > 0 {
      DiscoverComplete(g, p, visited, k - 1);
    }
  }


  /** The discovered coordinates are neighbours of `p`. */
  lemma DiscoverAdjacent(g: Grid, p: Coord, visited: set<Coord>)
    ensures var r := Discover(g, p, visited, 4); forall j :: 0 <= j < |r| ==> Adjacent(p, r[j])
  {
    DiscoverOrdered(g, p, visited, 4);
  }

  /** One discovered coordinate: in bounds, a neighbour of `p`, not visited. */
  lemma DiscoverAt(g: Grid, p: Coord, visited: set<Coord>, j: nat)
    requires j < |Discover(g, p, visited, 4)|
    ensures var q := Discover(g, p, visited, 4)[j]; InBounds(g, q) && Adjacent(p, q) && q !in visited
  {
    DiscoverDirections(g, p, visited, 4);
  }

  /** The neighbour in direction `i` is not among those discovered before it. */
  lemma DiscoverFresh(g: Grid, p: Coord, visited: set<Coord>, i: nat)
    requires i < |Directions|
    ensures Move(p, Directions[i]) !in Discover(g, p, visited, i)
  {
    DiscoverOrdered(g, p, visited, i);
    DirectionStep(p, i);
  }

  /** Direction `i` adds its neighbour to what has been discovered exactly
      when the test of the engines' neighbour loops, made against the
      growing visited set, passes. */
  lemma DiscoverNext(g: Grid, p: Coord, visited: set<Coord>, i: nat)
    requires i < |Directions|
    ensures var q, prev := Move(p, Directions[i]), Discover(g, p, visited, i);
      Discover(g, p, visited, i + 1) ==
        if 0 <= q.row < |g| && 0 <= q.col < |g[0]| && q !in visited + Elems(prev) then prev + [q] else prev
  {
    DiscoverFresh(g, p, visited, i);
  }

  /** The discovered neighbours are distinct. */
  lemma DiscoverDistinct(g: Grid, p: Coord, visited: set<Coord>)
    ensures NoDup(Discover(g, p, visited, 4))
  {
    DiscoverOrdered(g, p, visited, 4);
  }

  /** After expanding `p`, each in-bounds neighbour is either already
      visited or newly discovered. */
  lemma DiscoverCovers(g: Grid, p: Coord, visited: set<Coord>)
    ensures forall x {:trigger Adjacent(p, x)} :: InBounds(g, x) && Adjacent(p, x) ==> x in visited || x in Discover(g, p, visited, 4)
  {
    DiscoverOrdered(g, p, visited, 4);
    forall x | InBounds(g, x) && Adjacent(p, x) ensures x in visited || x in Discover(g, p, visited, 4) {
      var i := DirIndex(p, x);
    }
  }

  function AllCoords(g: Grid): set<Coord>
  {
    set r, c | 0 <= r < |g| && 0 <= c < Width(g) :: Coord(r, c)
  }

  /** A subset is no larger, and a proper subset is smaller. */
  lemma {:induction false} SubsetCard<T>(a: set<T>, b: set<T>)
    requires a <= b
    ensures |a| <= |b|
    ensures a < b ==> |a| < |b|
    decreases |a|
  {
    if a != {} {
      var x :| x in a;
      SubsetCard(a - {x}, b - {x});
      if a < b {
        var y :| y in b && y !in a;
        assert y in b - {x} && y !in a - {x};
      }
    } else if a < b {
      var y :| y in b;
    }
  }

  /** Adding fresh elements grows a set strictly, unless there are none. */
  lemma GrowOrSame(visited: set<Coord>, d: seq<Coord>)
    requires forall j :: 0 <= j < |d| ==> d[j] !in visited
    ensures |visited| < |visited + Elems(d)| || (d == [] && visited + Elems(d) == visited)
  {
    if d != [] {
      assert d[0] in visited + Elems(d) && d[0] !in visited;
      SubsetCard(visited, visited + Elems(d));
    } else {
      assert Elems(d) == {};
    }
  }

  lemma InAllCoords(g: Grid, x: Coord)
    requires InBounds(g, x)
    ensures x in AllCoords(g)
  {
    assert x == Coord(x.row, x.col);
  }

  /** A set of in-bounds coordinates has at most as many elements as the grid has cells. */
  lemma InGridBound(g: Grid, V: set<Coord>)
    requires forall q :: q in V ==> InBounds(g, q)
    ensures |V| <= |AllCoords(g)|
  {
    forall x | x in V ensures x in AllCoords(g) {
      InAllCoords(g, x);
    }
    SubsetCard(V, AllCoords(g));
  }

  /** The working-copy update of the depth-first engines: an empty cell
      becomes visited, every other kind stays, and the depth is set. */
  function Mark(c: Cell, d: int): (m: Cell)
    ensures m.kind == (if c.kind == Empty then Visited else c.kind)
    ensures m.depth == Some(d) && m.row == c.row && m.col == c.col && m.parent == c.parent
  {
    c.(kind := if c.kind == Empty then Visited else c.kind, depth := Some(d))
  }

  /** `h` with the cell at `p` marked with depth `d`. */
  function MarkAt(h: Grid, p: Coord, d: int): (h': Grid)
    ensures SameShape(h, h')
  {
    if 0 <= p.row < |h| && 0 <= p.col < |h[p.row]| then h[p.row := h[p.row][p.col := Mark(h[p.row][p.col], d)]]
    else h
  }

  /** `h` with the cell at each coordinate of `ps` marked with depth `d`. */
  function MarkAll(h: Grid, ps: seq<Coord>, d: int): (h': Grid)
    ensures SameShape(h, h')
    decreases |ps|
  {
    if ps == [] then h
    else MarkAt(MarkAll(h, ps[..|ps| - 1], d), ps[|ps| - 1], d)
  }

  /** Marking keeps a rectangular grid rectangular. */
  lemma MarkAllRect(h: Grid, ps: seq<Coord>, d: int)
    requires Rect(h)
    ensures Rect(MarkAll(h, ps, d))
  {
    assert Width(MarkAll(h, ps, d)) == Width(h);
  }

  /** The cells `MarkAll` marks are exactly those at the coordinates of `ps`. */
  lemma {:induction false} MarkAllCells(h: Grid, ps: seq<Coord>, d: int)
    ensures var h' := MarkAll(h, ps, d);
      forall r, c :: 0 <= r < |h| && 0 <= c < |h[r]| ==>
        h'[r][c] == if Coord(r, c) in ps then Mark(h[r][c], d) else h[r][c]
    decreases |ps|
  {
    if ps != [] {
      var p := ps[|ps| - 1];
      var u := ps[..|ps| - 1];
      MarkAllCells(h, u, d);
      assert forall q :: q in ps <==> q in u || q == p;
    }
  }

  /** One cell after `MarkAll`. */
  lemma MarkAllCell(h: Grid, ps: seq<Coord>, d: int, r: int, c: int)
    requires 0 <= r < |h| && 0 <= c < |h[r]|
    ensures MarkAll(h, ps, d)[r][c] == if Coord(r, c) in ps then Mark(h[r][c], d) else h[r][c]
  {
    MarkAllCells(h, ps, d);
  }

  /** `h` is `g` with exactly the cells at `M` marked, each with some depth. */
  ghost predicate MarkedOn(g: Grid, h: Grid, M: set<Coord>)
  {
    && SameShape(g, h)
    && forall r, c :: 0 <= r < |g| && 0 <= c < |g[r]| ==> CellMarkedOn(g, h, M, r, c)
  }

  /** Cell (r, c) of `h` is that of `g`, marked with some depth exactly when
      it is at `M`. */
  ghost predicate CellMarkedOn(g: Grid, h: Grid, M: set<Coord>, r: int, c: int)
  {
    && 0 <= r < |g| && 0 <= c < |g[r]| && r < |h| && c < |h[r]|
    && if Coord(r, c) in M then h[r][c].depth.Some? && h[r][c] == Mark(g[r][c], h[r][c].depth.value)
       else h[r][c] == g[r][c]
  }

  /** `h` is `g` with some cells marked. */
  ghost predicate MarkedFrom(g: Grid, h: Grid)
  {
    && SameShape(g, h)
    && forall r, c :: 0 <= r < |g| && 0 <= c < |g[r]| ==> CellMarkedFrom(g, h, r, c)
  }

  /** Cell (r, c) of `h` is that of `g`, possibly marked. */
  ghost predicate CellMarkedFrom(g: Grid, h: Grid, r: int, c: int)
  {
    && 0 <= r < |g| && 0 <= c < |g[r]| && r < |h| && c < |h[r]|
    && (h[r][c] == g[r][c] || (h[r][c].depth.Some? && h[r][c] == Mark(g[r][c], h[r][c].depth.value)))
  }

  /** Marking exactly the cells at `M` is marking some cells, and leaves those
      outside `M` as they were. */
  lemma MarkedOnFrom(g: Grid, h: Grid, M: set<Coord>, p: Coord)
    requires MarkedOn(g, h, M) && InBounds(g, p) && Rect(g) && p !in M
    ensures MarkedFrom(g, h) && h[p.row][p.col] == g[p.row][p.col]
  {
    forall r, c | 0 <= r < |g| && 0 <= c < |g[r]| ensures CellMarkedFrom(g, h, r, c) {
      assert CellMarkedOn(g, h, M, r, c);
    }
    assert CellMarkedOn(g, h, M, p.row, p.col);
  }

  /** Marking never creates or removes an end or a wall. */
  lemma MarkedKinds(g: Grid, h: Grid, p: Coord)
    requires MarkedFrom(g, h)
    ensures (KindAt(h, p) == End <==> KindAt(g, p) == End) && (KindAt(h, p) == Wall <==> KindAt(g, p) == Wall)
  {
    if 0 <= p.row < |g| && 0 <= p.col < |g[p.row]| {
      assert CellMarkedFrom(g, h, p.row, p.col);
    }
  }

  /** A walk from `s`: adjacent in-bounds steps, each taken from a cell whose
      kind is not one at which the engine stops. It is defined by its last
      step, so that extending a walk unfolds the definition once. */
  ghost predicate Walk(g: Grid, stops: set<CellType>, s: Coord, w: seq<Coord>)
    decreases |w|
  {
    && |w| >= 1 && w[0] == s && InBounds(g, w[|w| - 1])
    && (|w| > 1 ==>
          && Walk(g, stops, s, w[..|w| - 1])
          && Adjacent(w[|w| - 2], w[|w| - 1])
          && KindAt(g, w[|w| - 2]) !in stops)
  }

  /** The steps of a walk, position by position. */
  lemma {:induction false} WalkSteps(g: Grid, stops: set<CellType>, s: Coord, w: seq<Coord>)
    requires Walk(g, stops, s, w)
    ensures forall i :: 0 <= i < |w| ==> InBounds(g, w[i])
    ensures forall i :: 0 <= i < |w| - 1 ==> Adjacent(w[i], w[i + 1]) && KindAt(g, w[i]) !in stops
    decreases |w|
  {
    if |w| > 1 {
      var u := w[..|w| - 1];
      WalkSteps(g, stops, s, u);
      forall i | 0 <= i < |w| - 1 ensures InBounds(g, w[i]) && (i < |w| - 2 ==> Adjacent(w[i], w[i + 1]) && KindAt(g, w[i]) !in stops) {
        assert w[i] == u[i];
        if i < |w| - 2 { assert w[i + 1] == u[i + 1]; }
      }
    }
  }

  /** Some walk from `s` arrives at an end cell. */
  ghost predicate ReachesEnd(g: Grid, stops: set<CellType>, s: Coord)
  {
    exists w :: Walk(g, stops, s, w) && KindAt(g, w[|w| - 1]) == End
  }

  /** Some walk from `s` arrives at `q` in exactly `n` steps. */
  ghost predicate ReachableIn(g: Grid, stops: set<CellType>, s: Coord, q: Coord, n: nat)
  {
    exists w :: Walk(g, stops, s, w) && |w| == n + 1 && w[n] == q
  }

  /** The cell from which a walk of `n` > 0 steps makes its last step: one
      step fewer away, adjacent, and not a cell the engine stops at. */
  lemma Predecessor(g: Grid, stops: set<CellType>, s: Coord, q: Coord, n: nat) returns (p: Coord)
    requires ReachableIn(g, stops, s, q, n) && n >= 1
    ensures ReachableIn(g, stops, s, p, n - 1) && Adjacent(p, q) && KindAt(g, p) !in stops && InBounds(g, q)
  {
    var w :| Walk(g, stops, s, w) && |w| == n + 1 && w[n] == q;
    var u := w[..n];
    p := w[n - 1];
    assert u[n - 1] == p;
  }

  /** A start coordinate of any engine that holds an end is itself a success. */
  lemma EndAtStart(g: Grid, stops: set<CellType>, start: Coord)
    requires Rect(g) && InBounds(g, start) && KindAt(g, start) == End
    ensures ReachesEnd(g, stops, start)
  {
    assert Walk(g, stops, start, [start]);
  }

  lemma WalkExtend(g: Grid, stops: set<CellType>, s: Coord, w: seq<Coord>, x: Coord)
    requires Walk(g, stops, s, w)
    requires InBounds(g, x) && Adjacent(w[|w| - 1], x) && KindAt(g, w[|w| - 1]) !in stops
    ensures Walk(g, stops, s, w + [x])
  {
    assert (w + [x])[..|w|] == w;
  }

  /** A coordinate holding an end, found at the head of a walk, is reached. */
  lemma EndReached(g: Grid, stops: set<CellType>, s: Coord, w: seq<Coord>)
    requires Walk(g, stops, s, w) && KindAt(g, w[|w| - 1]) == End
    ensures ReachesEnd(g, stops, s)
  {
  }

  /** Every in-bounds neighbour of `q` is in `V`. */
  ghost predicate Expanded(g: Grid, V: set<Coord>, q: Coord)
  {
    forall x {:trigger Adjacent(q, x)} :: InBounds(g, x) && Adjacent(q, x) ==> x in V
  }

  /** `V` holds all neighbours of each of its cells the engine does not stop at. */
  ghost predicate Closed(g: Grid, stops: set<CellType>, V: set<Coord>)
  {
    forall q :: q in V && KindAt(g, q) !in stops ==> Expanded(g, V, q)
  }

  /** A closed set containing the origin contains every walk from it. */
  lemma {:induction false} ClosedContainsWalk(g: Grid, stops: set<CellType>, s: Coord, V: set<Coord>, w: seq<Coord>)
    requires s in V && Closed(g, stops, V) && Walk(g, stops, s, w)
    ensures forall i :: 0 <= i < |w| ==> w[i] in V
  {
    if |w| > 1 {
      var u := w[..|w| - 1];
      ClosedContainsWalk(g, stops, s, V, u);
      var k := |w| - 2;
      assert u[k] == w[k];
      assert Expanded(g, V, w[k]);
      forall i | 0 <= i < |w| ensures w[i] in V {
        if i < |w| - 1 { assert w[i] == u[i]; }
      }
    }
  }

  /** So a closed set with the origin and without an end rules out reaching one. */
  lemma ClosedExcludesEnd(g: Grid, stops: set<CellType>, s: Coord, V: set<Coord>)
    requires s in V && Closed(g, stops, V)
    requires forall q :: q in V ==> KindAt(g, q) != End
    ensures !ReachesEnd(g, stops, s)
  {
    forall w | Walk(g, stops, s, w) ensures KindAt(g, w[|w| - 1]) != End {
      ClosedContainsWalk(g, stops, s, V, w);
    }
  }
}
