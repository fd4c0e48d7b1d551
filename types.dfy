/** The grid data model: cell kinds with their numeric codes, cells with
    optional depth and parent links, coordinates and search results. */
module Types {

  datatype Option<+T> = None | Some(value: T)

  /** The seven kinds a cell can have. */
  datatype CellType = Empty | Wall | Start | End | Visited | Path | Weighted

  /** The numeric code the user interface stores for each kind. */
  function Code(k: CellType): (n: nat)
    ensures n < 7
    ensures FromCode(n) == Some(k)
  {
    match k
    case Empty => 0
    case Wall => 1
    case Start => 2
    case End => 3
    case Visited => 4
    case Path => 5
    case Weighted => 6
  }

  /** The kind a numeric code stands for, if any. */
  function FromCode(n: int): (k: Option<CellType>)
    ensures k.Some? <==> 0 <= n < 7
  {
    if n == 0 then Some(Empty)
    else if n == 1 then Some(Wall)
    else if n == 2 then Some(Start)
    else if n == 3 then Some(End)
    else if n == 4 then Some(Visited)
    else if n == 5 then Some(Path)
    else if n == 6 then Some(Weighted)
    else None
  }

  /** Distinct kinds have distinct codes. */
  lemma CodesDistinct(a: CellType, b: CellType)
    ensures Code(a) == Code(b) <==> a == b
  {
    if Code(a) == Code(b) {
      assert Some(a) == FromCode(Code(a)) == FromCode(Code(b)) == Some(b);
    }
  }

  /** A grid position. */
  datatype Coord = Coord(row: int, col: int)

  /** A cell: its kind, its position, and the optional search metadata
      (hop depth and the entry it was discovered from). */
  datatype Cell = Cell(kind: CellType, row: int, col: int, depth: Option<int>, parent: Option<Cell>)

  function At(c: Cell): Coord { Coord(c.row, c.col) }

  /** A result record of a search: whether an end was found, the end entry
      with its parent chain, and the cells in the order they were visited. */
  datatype PathfindingResult = PathfindingResult(found: bool, endCell: Option<Cell>, visited: seq<Cell>)

  /** The chain of entries from `c` back along `parent` links to the first
      entry without a parent. */
  function Lineage(c: Cell): (r: seq<Cell>)
    decreases c
    ensures |r| >= 1 && r[0] == c
    ensures r[|r| - 1].parent.None?
    ensures forall i :: 0 <= i < |r| - 1 ==> r[i].parent == Some(r[i + 1])
  {
    match c.parent
    case None => [c]
    case Some(p) => [c] + Lineage(p)
  }

  /** The positions of a sequence of cells. */
  function Coords(cs: seq<Cell>): (r: seq<Coord>)
    ensures |r| == |cs|
    ensures forall i :: 0 <= i < |cs| ==> r[i] == At(cs[i])
  {
    seq(|cs|, i requires 0 <= i < |cs| => At(cs[i]))
  }

  /** The set of elements of a sequence. */
  function Elems<T>(s: seq<T>): set<T>
  {
    set x | x in s
  }

  /** Concatenation is associative; stated over any element type so that
      callers need not prove it in their own larger contexts. */
  lemma AppendAssoc<T>(a: seq<T>, b: seq<T>, c: seq<T>)
    ensures (a + b) + c == a + (b + c)
  {
    assert forall k :: 0 <= k < |a| + |b| + |c| ==> ((a + b) + c)[k] == (a + (b + c))[k];
  }

  /** A non-empty sequence is its prefix followed by its last element. */
  lemma SplitLast<T>(d: seq<T>)
    requires |d| > 0
    ensures d == d[..|d| - 1] + [d[|d| - 1]]
    ensures (d[..|d| - 1] + [d[|d| - 1]])[..|d| - 1] == d[..|d| - 1]
    ensures Elems(d) == Elems(d[..|d| - 1]) + {d[|d| - 1]}
  {
  }

  /** Appending an element adds it to the elements. */
  lemma ElemsSnoc<T>(s: seq<T>, x: T)
    ensures Elems(s + [x]) == Elems(s) + {x}
  {
  }

  /** Union is associative. */
  lemma UnionAssoc<T>(a: set<T>, b: set<T>, c: set<T>)
    ensures (a + b) + c == a + (b + c)
  {
  }

  predicate NoDup<T(==)>(s: seq<T>)
  {
    forall i, j :: 0 <= i < j < |s| ==> s[i] != s[j]
  }
}
