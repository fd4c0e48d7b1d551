/** The breadth-first engine: a FIFO queue of coordinates and a set of
    coordinates marked when enqueued. It answers only whether an end was
    dequeued, and it does not expand start cells. */
module Bfs {
  import opened Types
  import opened Grid

  /** Kinds at which a dequeued cell is not expanded (the end returns). */
  const BfsStops: set<CellType> := {End, Wall, Start}

  /** One expansion: enqueue each in-bounds, not yet visited neighbour of
      `cur` in direction order and mark it visited. */
  method EnqueueNeighbours(g: Grid, cur: Coord, visited: set<Coord>, queue: seq<Coord>)
    returns (visited': set<Coord>, queue': seq<Coord>)
    ensures queue' == queue + Discover(g, cur, visited, 4)
    ensures visited' == visited + Elems(Discover(g, cur, visited, 4))
  {
    visited', queue' := visited, queue;
    var i := 0;
    while i < |Directions|
      invariant 0 <= i <= |Directions|
      invariant queue' == queue + Discover(g, cur, visited, i)
      invariant visited' == visited + Elems(Discover(g, cur, visited, i))
    {
      var q := Move(cur, Directions[i]);
      ghost var prev := Discover(g, cur, visited, i);
      DiscoverNext(g, cur, visited, i);
      if 0 <= q.row < |g| && 0 <= q.col < |g[0]| && q !in visited' {
        AppendAssoc(queue, prev, [q]);
        ElemsSnoc(prev, q);
        UnionAssoc(visited, Elems(prev), {q});
        queue' := queue' + [q];
        visited' := visited' + {q};
      }
      i := i + 1;
    }
  }

  /** The search loop. Besides the answer it yields, as ghost values, the
      dequeued coordinates in order and the distance of each, the number of
      steps of a shortest walk to it. An end found is a nearest one. */
  method BfsSearch(g: Grid, start: Coord) returns (found: bool, ghost order: seq<Coord>, ghost hops: seq<nat>)
    requires Rect(g) && InBounds(g, start)
    ensures found <==> ReachesEnd(g, BfsStops, start)
    ensures DequeueOrder(g, start, order, hops)
    ensures found ==> EndFirst(g, start, order, hops)
    ensures found ==> forall q: Coord, n: nat :: ReachableIn(g, BfsStops, start, q, n) && KindAt(g, q) == End ==> hops[|order| - 1] <= n
    ensures !found ==> AllDequeued(g, start, order)
  {
    var queue := [start];
    var visited := {start};
    ghost var enq := [start];
    ghost var walks := [[start]];
    ghost var head: nat := 0;
    var atEnd := false;
    BfsInit(g, start);
    VisitedBound(g, start, enq, visited);
    while |queue| > 0
      invariant Looping(g, start, enq, walks, head, visited, queue)
      decreases |AllCoords(g)| - |visited|, |queue|
    {
      atEnd, visited, queue, enq, walks, head, order, hops := BfsStep(g, start, visited, queue, enq, walks, head);
      if atEnd {
        break;
      }
    }
    if !atEnd {
      order, hops := BfsExhausted(g, start, enq, walks, head, visited);
    } else {
      NearestEnd(g, start, order, hops);
    }
    found := atEnd;
  }

  /** One pass of the loop: dequeue the front coordinate; an end answers the
      search, a wall or a start is skipped and anything else is expanded.
      `atEnd` says the dequeued coordinate was an end; then `order` and
      `hops` are the report. */
  method BfsStep(g: Grid, start: Coord, visited: set<Coord>, queue: seq<Coord>,
                 ghost enq: seq<Coord>, ghost walks: seq<seq<Coord>>, ghost head: nat)
    returns (atEnd: bool, visited': set<Coord>, queue': seq<Coord>,
             ghost enq': seq<Coord>, ghost walks': seq<seq<Coord>>, ghost head': nat,
             ghost order: seq<Coord>, ghost hops: seq<nat>)
    requires Looping(g, start, enq, walks, head, visited, queue) && |queue| > 0
    ensures atEnd ==> ReachesEnd(g, BfsStops, start) && DequeueOrder(g, start, order, hops) && EndFirst(g, start, order, hops)
    ensures !atEnd ==> Looping(g, start, enq', walks', head', visited', queue')
    ensures !atEnd ==> |visited| < |visited'| || (visited' == visited && |queue'| < |queue|)
  {
    BfsHead(g, start, enq, walks, head, visited, queue);
    var cur := queue[0];
    var kind := g[cur.row][cur.col].kind;
    queue' := queue[1..];
    if kind == End {
      order, hops := BfsFoundEnd(g, start, enq, walks, head, visited);
      return true, visited, queue', enq, walks, head, order, hops;
    }
    atEnd, head', order, hops := false, head + 1, [], [];
    if kind == Wall || kind == Start {
      BfsSkip(g, start, enq, walks, head, visited);
      visited', enq', walks' := visited, enq, walks;
    } else {
      visited', queue', enq', walks' := ExpandHead(g, start, cur, visited, queue', enq, walks, head);
    }
    VisitedBound(g, start, enq', visited');
  }

  /** The loop invariant: the ghost state, the queue as the part of the
      log not yet dequeued, and no more visited cells than the grid has. */
  ghost predicate Looping(g: Grid, start: Coord, enq: seq<Coord>, walks: seq<seq<Coord>>, head: nat, visited: set<Coord>, queue: seq<Coord>)
  {
    BfsInv(g, start, enq, walks, head, visited) && queue == enq[head..] && |visited| <= |AllCoords(g)|
  }

  /** The front of the queue is the next logged coordinate, inside the grid;
      and the visited set is no larger than the grid. */
  lemma BfsHead(g: Grid, start: Coord, enq: seq<Coord>, walks: seq<seq<Coord>>, head: nat, visited: set<Coord>, queue: seq<Coord>)
    requires BfsInv(g, start, enq, walks, head, visited) && queue == enq[head..] && |queue| > 0
    ensures head < |enq| && queue[0] == enq[head] && queue[1..] == enq[head + 1..]
    ensures InBounds(g, queue[0]) && g[queue[0].row][queue[0].col].kind == KindAt(g, queue[0])
    ensures |visited| <= |AllCoords(g)|
  {
    VisitedBound(g, start, enq, visited);
  }

  /** Expanding the dequeued coordinate `cur`, with the ghost log advanced
      past it: the invariant holds again and the visited set grows unless
      nothing is discovered. */
  method ExpandHead(g: Grid, start: Coord, cur: Coord, visited: set<Coord>, queue: seq<Coord>,
                    ghost enq: seq<Coord>, ghost walks: seq<seq<Coord>>, ghost head: nat)
    returns (visited': set<Coord>, queue': seq<Coord>, ghost enq': seq<Coord>, ghost walks': seq<seq<Coord>>)
    requires BfsInv(g, start, enq, walks, head, visited) && head < |enq| && cur == enq[head]
    requires KindAt(g, cur) !in BfsStops && queue == enq[head + 1..]
    ensures BfsInv(g, start, enq', walks', head + 1, visited') && queue' == enq'[head + 1..]
    ensures |visited| < |visited'| || (visited' == visited && queue' == queue)
  {
    enq', walks' := BfsExpand(g, start, enq, walks, head, visited);
    visited', queue' := EnqueueNeighbours(g, cur, visited, queue);
  }

  lemma DropAppend<T>(s: seq<T>, t: seq<T>, k: nat)
    requires k <= |s|
    ensures (s + t)[k..] == s[k..] + t
  {
  }

  /** The visited coordinates lie in the grid, so there are at most as
      many as the grid has cells. */
  lemma VisitedBound(g: Grid, start: Coord, enq: seq<Coord>, visited: set<Coord>)
    requires BfsLog(g, start, enq, visited)
    ensures |visited| <= |AllCoords(g)|
  {
    forall x | x in visited ensures InBounds(g, x) {
      var i :| 0 <= i < |enq| && enq[i] == x;
    }
    InGridBound(g, visited);
  }

  /** The ghost state of the loop: the coordinates ever enqueued, in order
      (the first `head` of them dequeued), with a walk to each. */
  ghost predicate BfsInv(g: Grid, start: Coord, enq: seq<Coord>, walks: seq<seq<Coord>>, head: nat, visited: set<Coord>)
  {
    && BfsLog(g, start, enq, visited) && BfsWalks(g, start, enq, walks, head) && BfsDone(g, enq, head, visited)
    && BfsLevels(g, start, enq, walks, head, visited)
  }

  /** The breadth-first property: every recorded walk is a shortest one, and
      everything some walk reaches no farther than the head of the queue
      has been enqueued. */
  ghost predicate BfsLevels(g: Grid, start: Coord, enq: seq<Coord>, walks: seq<seq<Coord>>, head: nat, visited: set<Coord>)
  {
    && (forall j: nat :: Shortest(g, start, enq, walks, j))
    && (head < |enq| && head < |walks| ==> Complete(g, start, visited, |walks[head]| - 1))
  }

  /** No walk reaches the entry at `j` in fewer steps than its recorded walk. */
  ghost predicate Shortest(g: Grid, start: Coord, enq: seq<Coord>, walks: seq<seq<Coord>>, j: nat)
  {
    j < |enq| && j < |walks| ==>
      forall n: nat :: ReachableIn(g, BfsStops, start, enq[j], n) ==> |walks[j]| <= n + 1
  }

  /** Every coordinate some walk reaches in at most `L` steps is in `visited`. */
  ghost predicate Complete(g: Grid, start: Coord, visited: set<Coord>, L: int)
  {
    forall q: Coord, n: nat :: ReachableIn(g, BfsStops, start, q, n) && n <= L ==> q in visited
  }

  /** The enqueued coordinates: distinct, in bounds, and exactly the visited set. */
  ghost predicate BfsLog(g: Grid, start: Coord, enq: seq<Coord>, visited: set<Coord>)
  {
    && Rect(g)
    && |enq| >= 1 && enq[0] == start
    && Unique(enq)
    && visited == Elems(enq)
    && (forall i :: 0 <= i < |enq| ==> InBounds(g, enq[i]))
  }

  /** A walk to each enqueued coordinate; walk lengths never decrease along
      the queue and differ by at most one within it. */
  ghost predicate BfsWalks(g: Grid, start: Coord, enq: seq<Coord>, walks: seq<seq<Coord>>, head: nat)
  {
    && |walks| == |enq| && |walks| >= 1 && walks[0] == [start] && head <= |enq|
    && (forall i :: 0 <= i < |enq| ==> Walk(g, BfsStops, start, walks[i]) && walks[i][|walks[i]| - 1] == enq[i])
    && (forall i: nat :: i < |enq| - 1 ==> StepLe(walks, i))
    && (head < |enq| ==> |walks[|enq| - 1]| <= |walks[head]| + 1)
  }

  /** No entry before position `j` equals the one at `j`. */
  ghost predicate FirstAt(s: seq<Coord>, j: nat)
  {
    j < |s| && forall i :: 0 <= i < j ==> s[i] != s[j]
  }

  /** Every entry is the first of its value. Unlike `NoDup` its quantifier
      fires only on `FirstAt` terms, which the search loop never mentions. */
  ghost predicate Unique(s: seq<Coord>)
  {
    forall j: nat :: j < |s| ==> FirstAt(s, j)
  }

  lemma UniqueNoDup(s: seq<Coord>, n: nat)
    requires Unique(s) && n <= |s|
    ensures NoDup(s[..n])
  {
    forall i, j | 0 <= i < j < n ensures s[..n][i] != s[..n][j] {
      assert FirstAt(s, j);
    }
  }

  /** The walk at `i` is no longer than the next one. */
  ghost predicate StepLe(walks: seq<seq<Coord>>, i: nat)
  {
    i + 1 < |walks| ==> |walks[i]| <= |walks[i + 1]|
  }

  /** The dequeued coordinates: none is an end, and those expanded have all
      their neighbours visited. */
  ghost predicate BfsDone(g: Grid, enq: seq<Coord>, head: nat, visited: set<Coord>)
  {
    && head <= |enq|
    && (forall i :: 0 <= i < head ==> KindAt(g, enq[i]) != End)
    && (forall i :: 0 <= i < head && KindAt(g, enq[i]) !in BfsStops ==> Expanded(g, visited, enq[i]))
  }

  function Extend(w: seq<Coord>, d: seq<Coord>): (r: seq<seq<Coord>>)
    ensures |r| == |d| && forall i :: 0 <= i < |d| ==> r[i] == w + [d[i]]
  {
    seq(|d|, i requires 0 <= i < |d| => w + [d[i]])
  }

  lemma BfsInit(g: Grid, start: Coord)
    requires Rect(g) && InBounds(g, start)
    ensures BfsInv(g, start, [start], [[start]], 0, {start})
  {
    assert Elems([start]) == {start};
    forall q: Coord, n: nat | ReachableIn(g, BfsStops, start, q, n) && n <= 0 ensures q in {start} {
      var w :| Walk(g, BfsStops, start, w) && |w| == n + 1 && w[n] == q;
    }
  }

  lemma BfsSkip(g: Grid, start: Coord, enq: seq<Coord>, walks: seq<seq<Coord>>, head: nat, visited: set<Coord>)
    requires BfsInv(g, start, enq, walks, head, visited) && head < |enq|
    requires KindAt(g, enq[head]) == Wall || KindAt(g, enq[head]) == Start
    ensures BfsInv(g, start, enq, walks, head + 1, visited)
  {
    assert StepLe(walks, head);
    LengthsSorted(walks, |walks|);
    AdvanceComplete(g, start, enq, walks, head, visited);
  }

  /** Moving the head one place on keeps enqueued everything no farther
      than the new head: what lies one step beyond the old head's distance
      is a neighbour of a cell already dequeued and expanded. */
  lemma AdvanceComplete(g: Grid, start: Coord, enq: seq<Coord>, walks: seq<seq<Coord>>, h: nat, visited: set<Coord>)
    requires BfsLog(g, start, enq, visited) && BfsWalks(g, start, enq, walks, h + 1) && BfsDone(g, enq, h + 1, visited)
    requires forall j: nat :: Shortest(g, start, enq, walks, j)
    requires Complete(g, start, visited, |walks[h]| - 1)
    requires h + 1 < |enq| ==> |walks[h + 1]| <= |walks[h]| + 1
    ensures h + 1 < |enq| ==> Complete(g, start, visited, |walks[h + 1]| - 1)
  {
    if h + 1 < |enq| {
      LengthsSorted(walks, |walks|);
      forall q: Coord, n: nat | ReachableIn(g, BfsStops, start, q, n) && n <= |walks[h + 1]| - 1 ensures q in visited {
        if n > |walks[h]| - 1 {
          var p := Predecessor(g, BfsStops, start, q, n);
          assert p in visited;
          var i :| 0 <= i < |enq| && enq[i] == p;
          assert Shortest(g, start, enq, walks, i);
          assert i < h + 1;
          assert Expanded(g, visited, p);
        }
      }
    }
  }

  /** Expanding the cell at the head of the queue: the new ghost state
      appends the discovered neighbours, each with a walk one step longer. */
  lemma BfsExpand(g: Grid, start: Coord, enq: seq<Coord>, walks: seq<seq<Coord>>, head: nat, visited: set<Coord>)
    returns (enq': seq<Coord>, walks': seq<seq<Coord>>)
    requires BfsInv(g, start, enq, walks, head, visited) && head < |enq|
    requires KindAt(g, enq[head]) !in BfsStops
    ensures var d := Discover(g, enq[head], visited, 4);
      && BfsInv(g, start, enq', walks', head + 1, visited + Elems(d))
      && enq'[head + 1..] == enq[head + 1..] + d
      && (|visited| < |visited + Elems(d)| || (d == [] && visited + Elems(d) == visited))
  {
    var d := Discover(g, enq[head], visited, 4);
    enq', walks' := enq + d, walks + Extend(walks[head], d);
    ExpandLog(g, start, enq, visited, enq[head]);
    DiscoverOrdered(g, enq[head], visited, 4);
    ExpandWalks(g, start, enq, walks, head, d);
    ExpandDone(g, enq, head, visited);
    ExpandLevels(g, start, enq, walks, head, visited);
    DropAppend(enq, d, head + 1);
  }

  /** The discovered neighbours lie beyond the head's distance, so walks one
      step longer than the head's are shortest; and the head moves on. */
  lemma ExpandLevels(g: Grid, start: Coord, enq: seq<Coord>, walks: seq<seq<Coord>>, head: nat, visited: set<Coord>)
    requires BfsInv(g, start, enq, walks, head, visited) && head < |enq|
    requires KindAt(g, enq[head]) !in BfsStops
    requires var d := Discover(g, enq[head], visited, 4);
      && BfsLog(g, start, enq + d, visited + Elems(d))
      && BfsWalks(g, start, enq + d, walks + Extend(walks[head], d), head + 1)
      && BfsDone(g, enq + d, head + 1, visited + Elems(d))
    ensures var d := Discover(g, enq[head], visited, 4);
      BfsLevels(g, start, enq + d, walks + Extend(walks[head], d), head + 1, visited + Elems(d))
  {
    var d := Discover(g, enq[head], visited, 4);
    var enq', walks', visited' := enq + d, walks + Extend(walks[head], d), visited + Elems(d);
    LengthsSorted(walks, |walks|);
    forall j: nat ensures Shortest(g, start, enq', walks', j) {
      if j < |enq| {
        assert Shortest(g, start, enq, walks, j);
        assert enq'[j] == enq[j] && walks'[j] == walks[j];
      } else if j < |enq'| {
        assert enq'[j] == d[j - |enq|] && walks'[j] == walks[head] + [d[j - |enq|]];
        assert d[j - |enq|] !in visited;
      }
    }
    assert walks'[head] == walks[head];
    if head + 1 < |enq'| {
      if head + 1 < |enq| {
        assert walks'[head + 1] == walks[head + 1];
      } else {
        assert walks'[head + 1] == walks[head] + [d[0]];
      }
    }
    AdvanceComplete(g, start, enq', walks', head, visited');
  }

  lemma ExpandLog(g: Grid, start: Coord, enq: seq<Coord>, visited: set<Coord>, cur: Coord)
    requires BfsLog(g, start, enq, visited)
    ensures var d := Discover(g, cur, visited, 4);
      && BfsLog(g, start, enq + d, visited + Elems(d))
      && (|visited| < |visited + Elems(d)| || (d == [] && visited + Elems(d) == visited))
  {
    var d := Discover(g, cur, visited, 4);
    DiscoverDistinct(g, cur, visited);
    AppendFresh(enq, visited, d);
    var e := enq + d;
    forall i | 0 <= i < |e| ensures InBounds(g, e[i]) {
      if i >= |enq| { assert e[i] == d[i - |enq|]; }
    }
    GrowOrSame(visited, d);
  }

  /** The walks of the appended neighbours extend the walk of the expanded head. */
  lemma ExpandWalks(g: Grid, start: Coord, enq: seq<Coord>, walks: seq<seq<Coord>>, head: nat, d: seq<Coord>)
    requires BfsWalks(g, start, enq, walks, head) && head < |enq|
    requires KindAt(g, enq[head]) !in BfsStops
    requires forall j :: 0 <= j < |d| ==> InBounds(g, d[j]) && Adjacent(enq[head], d[j])
    ensures BfsWalks(g, start, enq + d, walks + Extend(walks[head], d), head + 1)
  {
    ExtendReach(g, start, enq, walks, head, d);
    ExtendSorted(enq, walks, head, d);
  }

  lemma ExtendReach(g: Grid, start: Coord, enq: seq<Coord>, walks: seq<seq<Coord>>, head: nat, d: seq<Coord>)
    requires BfsWalks(g, start, enq, walks, head) && head < |enq|
    requires KindAt(g, enq[head]) !in BfsStops
    requires forall j :: 0 <= j < |d| ==> InBounds(g, d[j]) && Adjacent(enq[head], d[j])
    ensures var enq', walks' := enq + d, walks + Extend(walks[head], d);
      forall i :: 0 <= i < |enq'| ==> Walk(g, BfsStops, start, walks'[i]) && walks'[i][|walks'[i]| - 1] == enq'[i]
  {
    var enq', walks' := enq + d, walks + Extend(walks[head], d);
    forall i | 0 <= i < |enq'|
      ensures Walk(g, BfsStops, start, walks'[i]) && walks'[i][|walks'[i]| - 1] == enq'[i]
    {
      if i >= |enq| {
        assert walks'[i] == walks[head] + [d[i - |enq|]];
        WalkExtend(g, BfsStops, start, walks[head], d[i - |enq|]);
      } else {
        assert walks'[i] == walks[i] && enq'[i] == enq[i];
      }
    }
  }

  lemma ExtendSorted(enq: seq<Coord>, walks: seq<seq<Coord>>, head: nat, d: seq<Coord>)
    requires |walks| == |enq| && head < |enq|
    requires forall i: nat :: i < |enq| - 1 ==> StepLe(walks, i)
    requires |walks[|enq| - 1]| <= |walks[head]| + 1
    ensures var walks' := walks + Extend(walks[head], d);
      && (forall i: nat :: i < |walks'| - 1 ==> StepLe(walks', i))
      && (head + 1 < |walks'| ==> |walks'[|walks'| - 1]| <= |walks'[head + 1]| + 1)
  {
    var walks' := walks + Extend(walks[head], d);
    forall i: nat | i < |walks'| - 1 ensures StepLe(walks', i) {
      if i + 1 >= |enq| {
        assert |walks'[i + 1]| == |walks[head]| + 1;
        if i < |enq| { assert walks'[i] == walks[|enq| - 1]; }
      } else {
        assert StepLe(walks, i);
        assert walks'[i] == walks[i] && walks'[i + 1] == walks[i + 1];
      }
    }
    if head + 1 < |walks'| {
      if head + 1 < |enq| { assert StepLe(walks, head); }
      else { assert walks'[head + 1] == walks[head] + [d[0]]; }
    }
  }

  lemma ExpandDone(g: Grid, enq: seq<Coord>, head: nat, visited: set<Coord>)
    requires BfsDone(g, enq, head, visited) && head < |enq|
    requires KindAt(g, enq[head]) !in BfsStops
    ensures var d := Discover(g, enq[head], visited, 4);
      BfsDone(g, enq + d, head + 1, visited + Elems(d))
  {
    var cur := enq[head];
    var d := Discover(g, cur, visited, 4);
    var enq', visited' := enq + d, visited + Elems(d);
    DiscoverCovers(g, cur, visited);
    forall i | 0 <= i < head + 1 && KindAt(g, enq'[i]) !in BfsStops ensures Expanded(g, visited', enq'[i]) {
      assert enq'[i] == enq[i];
      if i < head {
        assert Expanded(g, visited, enq[i]);
      } else {
        forall x | InBounds(g, x) && Adjacent(cur, x) ensures x in visited' {
          if x !in visited { assert x in d; }
        }
      }
    }
  }

  /** Appending distinct fresh coordinates keeps the log duplicate-free and
      in step with the visited set. */
  lemma AppendFresh(enq: seq<Coord>, visited: set<Coord>, d: seq<Coord>)
    requires Unique(enq) && visited == Elems(enq)
    requires NoDup(d) && forall j :: 0 <= j < |d| ==> d[j] !in visited
    ensures Unique(enq + d) && visited + Elems(d) == Elems(enq + d)
  {
    var e := enq + d;
    forall j: nat | j < |e| ensures FirstAt(e, j) {
      forall i | 0 <= i < j ensures e[i] != e[j] {
        if j >= |enq| {
          assert e[j] == d[j - |enq|];
          if i < |enq| { assert e[i] in visited; } else { assert e[i] == d[i - |enq|]; }
        } else {
          assert FirstAt(enq, j);
        }
      }
    }
    forall x | x in e ensures x in visited + Elems(d) {
      var i :| 0 <= i < |e| && e[i] == x;
      if i >= |enq| { assert x == d[i - |enq|]; }
    }
  }

  ghost function HopsOf(walks: seq<seq<Coord>>): (h: seq<nat>)
    requires forall i :: 0 <= i < |walks| ==> |walks[i]| >= 1
    ensures |h| == |walks| && forall i :: 0 <= i < |walks| ==> h[i] == |walks[i]| - 1
  {
    seq(|walks|, i requires 0 <= i < |walks| => |walks[i]| - 1)
  }

  /** A dequeue order: distinct coordinates from the start on, each reached
      in its hop count of steps and in no fewer, with hop counts never
      decreasing. */
  ghost predicate DequeueOrder(g: Grid, start: Coord, order: seq<Coord>, hops: seq<nat>)
  {
    && |order| >= 1 && order[0] == start && NoDup(order)
    && |hops| == |order| && hops[0] == 0
    && (forall i :: 0 <= i < |order| ==> ReachableIn(g, BfsStops, start, order[i], hops[i]))
    && (forall i, n: nat :: 0 <= i < |order| && ReachableIn(g, BfsStops, start, order[i], n) ==> hops[i] <= n)
    && (forall i, j :: 0 <= i <= j < |hops| ==> hops[i] <= hops[j])
  }

  /** A search stopped at the first end dequeued: the last coordinate is an
      end, none before it is, and every coordinate nearer than it was
      dequeued before it. */
  ghost predicate EndFirst(g: Grid, start: Coord, order: seq<Coord>, hops: seq<nat>)
  {
    && |order| >= 1 && |hops| == |order|
    && KindAt(g, order[|order| - 1]) == End
    && (forall i :: 0 <= i < |order| - 1 ==> KindAt(g, order[i]) != End)
    && (forall q: Coord, n: nat :: ReachableIn(g, BfsStops, start, q, n) && n < hops[|order| - 1] ==> q in order[..|order| - 1])
  }

  /** A search that ran dry dequeued every coordinate some walk reaches. */
  ghost predicate AllDequeued(g: Grid, start: Coord, order: seq<Coord>)
  {
    forall q: Coord, n: nat :: ReachableIn(g, BfsStops, start, q, n) ==> q in order
  }

  /** So the end found is a nearest one: no walk reaches an end in fewer
      steps. */
  lemma NearestEnd(g: Grid, start: Coord, order: seq<Coord>, hops: seq<nat>)
    requires EndFirst(g, start, order, hops)
    ensures forall q: Coord, n: nat :: ReachableIn(g, BfsStops, start, q, n) && KindAt(g, q) == End ==> hops[|order| - 1] <= n
  {
    forall q: Coord, n: nat | ReachableIn(g, BfsStops, start, q, n) && KindAt(g, q) == End ensures hops[|order| - 1] <= n {
      var before := order[..|order| - 1];
      forall i | 0 <= i < |before| ensures before[i] != q {
        assert before[i] == order[i];
      }
    }
  }

  /** What the ghost outputs promise, for the first `n` dequeued coordinates. */
  lemma BfsReport(g: Grid, start: Coord, enq: seq<Coord>, walks: seq<seq<Coord>>, head: nat, visited: set<Coord>, n: nat)
    returns (order: seq<Coord>, hops: seq<nat>)
    requires BfsInv(g, start, enq, walks, head, visited) && 1 <= n <= |enq|
    ensures order == enq[..n]
    ensures |hops| == n && forall i :: 0 <= i < n ==> hops[i] == |walks[i]| - 1
    ensures DequeueOrder(g, start, order, hops)
  {
    order := enq[..n];
    hops := HopsOf(walks[..n]);
    forall i | 0 <= i < n ensures ReachableIn(g, BfsStops, start, order[i], hops[i]) {
      assert order[i] == enq[i];
      assert Walk(g, BfsStops, start, walks[i]) && |walks[i]| == hops[i] + 1;
    }
    forall i, m: nat | 0 <= i < n && ReachableIn(g, BfsStops, start, order[i], m) ensures hops[i] <= m {
      assert order[i] == enq[i];
      assert Shortest(g, start, enq, walks, i);
    }
    LengthsSorted(walks, n);
    UniqueNoDup(enq, n);
  }

  /** A dequeued end is reached by the walk recorded for it. */
  lemma BfsFoundEnd(g: Grid, start: Coord, enq: seq<Coord>, walks: seq<seq<Coord>>, head: nat, visited: set<Coord>)
    returns (order: seq<Coord>, hops: seq<nat>)
    requires BfsInv(g, start, enq, walks, head, visited) && head < |enq| && KindAt(g, enq[head]) == End
    ensures ReachesEnd(g, BfsStops, start)
    ensures DequeueOrder(g, start, order, hops) && EndFirst(g, start, order, hops)
  {
    EndReached(g, BfsStops, start, walks[head]);
    order, hops := BfsReport(g, start, enq, walks, head, visited, head + 1);
    LengthsSorted(walks, |walks|);
    forall i | 0 <= i < |order| - 1 ensures KindAt(g, order[i]) != End {
      assert order[i] == enq[i];
    }
    var before := order[..head];
    forall q: Coord, n: nat | ReachableIn(g, BfsStops, start, q, n) && n < |walks[head]| - 1 ensures q in before {
      assert q in visited;
      var i :| 0 <= i < |enq| && enq[i] == q;
      assert Shortest(g, start, enq, walks, i);
      assert i < head;
      assert before[i] == q;
    }
  }

  /** Lengths that never decrease from one entry to the next are sorted. */
  lemma {:induction false} LengthsSorted(walks: seq<seq<Coord>>, n: nat)
    requires n <= |walks|
    requires forall i: nat :: i < n - 1 ==> StepLe(walks, i)
    ensures forall i, j :: 0 <= i <= j < n ==> |walks[i]| <= |walks[j]|
  {
    if n > 1 {
      LengthsSorted(walks, n - 1);
      assert StepLe(walks, n - 2);
      forall i | 0 <= i < n - 1 ensures |walks[i]| <= |walks[n - 1]| {
        assert |walks[i]| <= |walks[n - 2]|;
      }
    }
  }

  lemma BfsExhausted(g: Grid, start: Coord, enq: seq<Coord>, walks: seq<seq<Coord>>, head: nat, visited: set<Coord>)
    returns (order: seq<Coord>, hops: seq<nat>)
    requires BfsInv(g, start, enq, walks, head, visited) && head == |enq|
    ensures !ReachesEnd(g, BfsStops, start)
    ensures DequeueOrder(g, start, order, hops) && AllDequeued(g, start, order)
  {
    order, hops := BfsReport(g, start, enq, walks, head, visited, head);
    assert Closed(g, BfsStops, visited) by {
      forall q | q in visited && KindAt(g, q) !in BfsStops ensures Expanded(g, visited, q) {
        var i :| 0 <= i < |enq| && enq[i] == q;
      }
    }
    forall q | q in visited ensures KindAt(g, q) != End {
      var i :| 0 <= i < |enq| && enq[i] == q;
    }
    ClosedExcludesEnd(g, BfsStops, start, visited);
    forall q: Coord, n: nat | ReachableIn(g, BfsStops, start, q, n) ensures q in order {
      var w :| Walk(g, BfsStops, start, w) && |w| == n + 1 && w[n] == q;
      ClosedContainsWalk(g, BfsStops, start, visited, w);
    }
  }

  /** A start cell marked as the start is never expanded, so from it no end
      other than the start itself can be reached. */
  lemma StartCellBlocksSearch(g: Grid, start: Coord)
    requires Rect(g) && InBounds(g, start) && KindAt(g, start) == Start
    ensures !ReachesEnd(g, BfsStops, start)
  {
    forall w | Walk(g, BfsStops, start, w) ensures KindAt(g, w[|w| - 1]) != End {
      WalkSteps(g, BfsStops, start, w);
      assert KindAt(g, w[0]) in BfsStops;
      if |w| > 1 { assert false; }
    }
  }
}
