/** An optional value, standing for Ruby's `nil`. */
module Wrappers {
  datatype Option<T> = None | Some(value: T)
}

/**
 * Squares, cells, reading order and neighbourhoods of the battle map
 * (day15.rb: the `Map` accessors, `adjacents`, `empty_adjacents` and the
 * units' `<=>`).
 */
module Grid {
  import opened Ordering

  /** A square of the map: `x` is the column, `y` the row (Ruby's `[x, y]`). */
  datatype Coord = Coord(x: int, y: int)

  datatype Faction = Goblin | Elf

  /**
   * Ruby tells units apart by object identity; here a unit is named by the
   * square it started on, which no other unit shares.
   */
  type UnitId = Coord

  /**
   * What a square of `@map` holds: the wall marker, the empty marker, a
   * unit, or any other character of the input, which Ruby keeps as it is.
   */
  datatype Cell = Wall | Empty | Occupied(id: UnitId) | Terrain(symbol: char)

  /** `@map`: a list of rows, indexed `[y][x]`. */
  type Board = seq<seq<Cell>>

  predicate Rectangular(g: Board) {
    |g| > 0 && |g[0]| > 0 && forall y :: 0 <= y < |g| ==> |g[y]| == |g[0]|
  }

  predicate InBounds(g: Board, c: Coord) {
    0 <= c.y < |g| && 0 <= c.x < |g[c.y]|
  }

  /** `Map#[]`. */
  function At(g: Board, c: Coord): Cell
    requires InBounds(g, c)
  {
    g[c.y][c.x]
  }

  /** `Map#[]=`, as a value: the board with one square replaced. */
  function SetAt(g: Board, c: Coord, cell: Cell): (r: Board)
    requires InBounds(g, c)
    ensures |r| == |g| && forall y :: 0 <= y < |g| ==> |r[y]| == |g[y]|
    ensures At(r, c) == cell
    ensures forall d :: InBounds(g, d) && d != c ==> At(r, d) == At(g, d)
  {
    g[c.y := g[c.y][c.x := cell]]
  }

  /**
   * The map is a rectangle whose outermost rows and columns are walls.
   * Every map the simulation is run on has this shape; it is what keeps
   * `adjacents` inside the map (the Ruby bounds test looks at the origin
   * square, not at the neighbour).
   */
  predicate Bordered(g: Board) {
    && Rectangular(g)
    && forall y, x :: 0 <= y < |g| && 0 <= x < |g[y]| &&
                      (y == 0 || y == |g| - 1 || x == 0 || x == |g[y]| - 1)
                      ==> g[y][x] == Wall
  }

  /** Squares whose four neighbours are all on the map. */
  predicate Interior(g: Board, c: Coord) {
    1 <= c.y < |g| - 1 && 1 <= c.x < |g[c.y]| - 1
  }

  /** Squares a unit may step onto. */
  predicate Open(g: Board, c: Coord) {
    InBounds(g, c) && At(g, c) == Empty
  }

  lemma NonWallIsInterior(g: Board, c: Coord)
    requires Bordered(g) && InBounds(g, c) && At(g, c) != Wall
    ensures Interior(g, c)
  {
  }

  predicate Adjacent(a: Coord, b: Coord) {
    || (a.x == b.x && (a.y - b.y == 1 || b.y - a.y == 1))
    || (a.y == b.y && (a.x - b.x == 1 || b.x - a.x == 1))
  }

  /** The four squares `ADJACENTS` offsets lead to: up, down, right, left. */
  function Neighbours(c: Coord): (r: seq<Coord>)
    ensures |r| == 4
    ensures forall n {:trigger n in r} :: n in r <==> Adjacent(c, n)
  {
    [Coord(c.x, c.y - 1), Coord(c.x, c.y + 1), Coord(c.x + 1, c.y), Coord(c.x - 1, c.y)]
  }

  predicate Distinct<T(==)>(s: seq<T>) {
    forall i, j :: 0 <= i < j < |s| ==> s[i] != s[j]
  }

  /** The squares of `cs` that are not walls, in the order of `cs`. */
  function NonWalls(g: Board, cs: seq<Coord>): (r: seq<Coord>)
    requires forall c :: c in cs ==> InBounds(g, c)
    ensures forall c {:trigger c in r} :: c in r <==> c in cs && At(g, c) != Wall
    ensures |r| <= |cs|
  {
    if cs == [] then []
    else (if At(g, cs[0]) != Wall then [cs[0]] else []) + NonWalls(g, cs[1..])
  }

  /** The squares of `cs` that are empty, in the order of `cs`. */
  function Empties(g: Board, cs: seq<Coord>): (r: seq<Coord>)
    requires forall c :: c in cs ==> InBounds(g, c)
    ensures forall c {:trigger c in r} :: c in r <==> c in cs && At(g, c) == Empty
    ensures |r| <= |cs|
  {
    if cs == [] then []
    else (if At(g, cs[0]) == Empty then [cs[0]] else []) + Empties(g, cs[1..])
  }

  /**
   * `Map#adjacents`: the orthogonal neighbours of `c` that are on the map
   * and are not walls, each once, in `ADJACENTS` order.
   */
  function Adjacents(g: Board, c: Coord): (r: seq<Coord>)
    requires Bordered(g) && Interior(g, c)
    ensures forall n {:trigger n in r} :: n in r <==> Adjacent(c, n) && InBounds(g, n) && At(g, n) != Wall
    ensures |r| <= 4
  {
    NonWalls(g, Neighbours(c))
  }

  /**
   * `Map#empty_adjacents`: the orthogonal neighbours of `c` a unit can step
   * onto, each once, in `ADJACENTS` order.
   */
  function EmptyAdjacents(g: Board, c: Coord): (r: seq<Coord>)
    requires Bordered(g) && Interior(g, c)
    ensures forall n {:trigger n in r} :: n in r <==> Adjacent(c, n) && Open(g, n)
    ensures |r| <= 4
  {
    Empties(g, Adjacents(g, c))
  }

  lemma DistinctCons(x: Coord, s: seq<Coord>)
    requires Distinct(s) && x !in s
    ensures Distinct([x] + s)
  {
    forall i, j | 0 <= i < j < |[x] + s| ensures ([x] + s)[i] != ([x] + s)[j] {
      if i == 0 {
        assert ([x] + s)[j] == s[j - 1];
      } else {
        assert ([x] + s)[i] == s[i - 1] && ([x] + s)[j] == s[j - 1];
      }
    }
  }

  lemma DistinctTail(cs: seq<Coord>)
    requires cs != [] && Distinct(cs)
    ensures Distinct(cs[1..]) && cs[0] !in cs[1..]
  {
    forall c | c in cs[1..] ensures c != cs[0] {
      var i :| 0 <= i < |cs[1..]| && cs[1..][i] == c;
      assert cs[i + 1] == c;
    }
  }

  /** A filtered list keeps the distinctness of the list it filters. */
  lemma {:induction false} FilterKeepsDistinct(g: Board, cs: seq<Coord>)
    requires forall c :: c in cs ==> InBounds(g, c)
    requires Distinct(cs)
    ensures Distinct(NonWalls(g, cs)) && Distinct(Empties(g, cs))
    decreases |cs|
  {
    if cs != [] {
      DistinctTail(cs);
      FilterKeepsDistinct(g, cs[1..]);
      var x, w, e := cs[0], NonWalls(g, cs[1..]), Empties(g, cs[1..]);
      assert x !in w && x !in e;
      if At(g, x) != Wall {
        DistinctCons(x, w);
      } else {
        assert NonWalls(g, cs) == w;
      }
      if At(g, x) == Empty {
        DistinctCons(x, e);
      } else {
        assert Empties(g, cs) == e;
      }
    }
  }

  /** `adjacents` and `empty_adjacents` list each square once. */
  lemma AdjacentsAreDistinct(g: Board, c: Coord)
    requires Bordered(g) && Interior(g, c)
    ensures Distinct(Adjacents(g, c)) && Distinct(EmptyAdjacents(g, c))
  {
    FilterKeepsDistinct(g, Neighbours(c));
    FilterKeepsDistinct(g, Adjacents(g, c));
  }

  /** Reading order: top to bottom, then left to right. */
  predicate ReadingBefore(a: Coord, b: Coord) {
    a.y < b.y || (a.y == b.y && a.x < b.x)
  }

  /**
   * `Goblin#<=>` and `Elf#<=>`: units compare by their coordinates
   * reversed, `[y, x]`, as arrays.
   */
  function Compare(a: Coord, b: Coord): (c: int)
    ensures c == -1 || c == 0 || c == 1
    ensures c < 0 <==> ReadingBefore(a, b)
    ensures c == 0 <==> a == b
    ensures c > 0 <==> ReadingBefore(b, a)
  {
    if a.y != b.y then (if a.y < b.y then -1 else 1)
    else if a.x != b.x then (if a.x < b.x then -1 else 1)
    else 0
  }

  /** The key units are sorted by: the coordinate reversed, `[y, x]`. */
  function PosKey(c: Coord): (k: seq<int>)
    ensures |k| == 2
  {
    [c.y, c.x]
  }

  /** Sorting by `PosKey` is sorting in reading order, and no two squares share a key. */
  lemma ReadingOrderIsKeyOrder(a: Coord, b: Coord)
    ensures ReadingBefore(a, b) <==> LexLess(PosKey(a), PosKey(b))
    ensures PosKey(a) == PosKey(b) ==> a == b
  {
    assert PosKey(a)[1..] == [a.x] && PosKey(b)[1..] == [b.x];
    assert LexLess([a.x], [b.x]) <==> a.x < b.x;
  }

  /** A non-empty set of squares has a first one in reading order. */
  lemma ReadingFirstExists(cs: set<Coord>)
    requires cs != {}
    ensures exists m :: m in cs && forall c {:trigger c in cs} | c in cs :: !ReadingBefore(c, m)
  {
    var key := map c | c in cs :: PosKey(c);
    forall a, b | a in cs && b in cs && a != b ensures key[a] != key[b] {
      ReadingOrderIsKeyOrder(a, b);
    }
    LeastExists(key, cs, 2);
    var m :| Least(key, cs, m);
    forall c | c in cs ensures !ReadingBefore(c, m) {
      if c != m {
        ReadingOrderIsKeyOrder(m, c);
        ReadingOrderIsStrictTotal(m, c, c);
      }
    }
    assert m in cs && forall c {:trigger c in cs} | c in cs :: !ReadingBefore(c, m);
  }

  /** Reading order is a strict total order on squares. */
  lemma ReadingOrderIsStrictTotal(a: Coord, b: Coord, c: Coord)
    ensures !ReadingBefore(a, a)
    ensures ReadingBefore(a, b) ==> !ReadingBefore(b, a)
    ensures ReadingBefore(a, b) && ReadingBefore(b, c) ==> ReadingBefore(a, c)
    ensures a != b ==> ReadingBefore(a, b) || ReadingBefore(b, a)
  {
  }
}
