/**
 * NumberOfIslands/DSUNonSparse.java: the dynamic island counter on a fixed
 * row x col grid. The cells live in an int matrix (1 is land); the
 * disjoint-set forest is a pair of int arrays with an element for every cell,
 * land or not, at the row-major index x * col + y. A cell outside the land
 * stays a class of its own, so the count is the number of classes among the
 * land cells.
 */
module DsuNonSparse {
  import opened Wrappers
  import opened Connectivity
  import opened UnionFind
  import opened Islands

  /** getIndex: the row-major index of cell (x, y). */
  function Index(col: int, x: int, y: int): int
  {
    x * col + y
  }

  /** The cell with row-major index i: the inverse of Index. */
  function Cell(col: int, i: int): Point
    requires col > 0
  {
    Point(i / col, i % col)
  }

  predicate InGrid(row: int, col: int, x: int, y: int)
  {
    0 <= x < row && 0 <= y < col
  }

  /** Every member of S is one of the indices 0 .. n - 1. */
  ghost predicate InRange(S: set<int>, n: int)
  {
    forall i :: i in S ==> 0 <= i < n
  }

  lemma MulSign(m: int, k: int)
    requires m >= 1
    ensures k >= 1 ==> m * k >= m
    ensures k <= -1 ==> m * k <= -m
  {
  }

  /** Multiplying by a non-negative number keeps the order. */
  lemma MulMono(m: int, a: int, b: int)
    requires m >= 1 && a <= b
    ensures a * m <= b * m
  {
    if a < b {
      MulSign(m, b - a);
      assert m * (b - a) == b * m - a * m;
    }
  }

  /** Euclidean division by a positive divisor has one quotient and one
    * remainder. */
  lemma DivUnique(a: int, m: int, q: int, r: int)
    requires m >= 1 && 0 <= r < m && a == q * m + r
    ensures a / m == q && a % m == r
  {
    var q' := a / m;
    assert a == q' * m + a % m;
    MulSign(m, q - q');
    assert m * (q - q') == q * m - q' * m;
  }

  /** Cell undoes Index on the grid's columns. */
  lemma CellIndex(col: int, x: int, y: int)
    requires col > 0 && 0 <= y < col
    ensures Cell(col, Index(col, x, y)) == Point(x, y)
  {
    DivUnique(x * col + y, col, x, y);
  }

  /** Index undoes Cell. */
  lemma IndexCell(col: int, i: int)
    requires col > 0
    ensures Index(col, Cell(col, i).x, Cell(col, i).y) == i
  {
  }

  /** A cell of the grid has an index of the forest. */
  lemma IndexInRange(row: int, col: int, x: int, y: int)
    requires InGrid(row, col, x, y)
    ensures 0 <= Index(col, x, y) < row * col
  {
    MulMono(col, 0, x);
    MulMono(col, x + 1, row);
  }

  /** An index of the forest is the index of a cell of the grid. */
  lemma CellInRange(row: int, col: int, i: int)
    requires col > 0 && 0 <= i < row * col
    ensures InGrid(row, col, Cell(col, i).x, Cell(col, i).y)
  {
    var q := i / col;
    assert i == q * col + i % col;
    if q < 0 {
      MulMono(col, q, -1);
    }
    if q >= row {
      MulMono(col, row, q);
    }
  }

  /** Two cells of the grid share an index only if they are the same cell. */
  lemma IndexInjective(col: int, x: int, y: int, a: int, b: int)
    requires col > 0 && 0 <= y < col && 0 <= b < col
    requires Index(col, x, y) == Index(col, a, b)
    ensures x == a && y == b
  {
    CellIndex(col, x, y);
    CellIndex(col, a, b);
  }

  /** Two indices are adjacent when their cells are one of the four
    * directions apart. */
  ghost function IdxAdj(col: int): (int, int) -> bool
  {
    (i: int, j: int) => col > 0 && Diff(Cell(col, i), Cell(col, j)) in Dirs4
  }

  lemma IdxSymmetric(col: int)
    ensures Symmetric(IdxAdj(col))
  {
    Dirs4Symmetric();
    forall i: int, j: int ensures IdxAdj(col)(i, j) == IdxAdj(col)(j, i) {
      if col > 0 {
        assert OffsetAdj(Dirs4)(Cell(col, i), Cell(col, j)) == OffsetAdj(Dirs4)(Cell(col, j), Cell(col, i));
      }
    }
  }

  /** The land as cells: the cells of the land indices. */
  ghost function LandOf(col: int, cells: set<int>): set<Point>
  {
    if col > 0 then set i | i in cells :: Cell(col, i) else {}
  }

  /** A cell of the grid is land exactly when its index is. */
  lemma LandMember(row: int, col: int, cells: set<int>, x: int, y: int)
    requires InGrid(row, col, x, y) && InRange(cells, row * col)
    ensures Point(x, y) in LandOf(col, cells) <==> Index(col, x, y) in cells
  {
    CellIndex(col, x, y);
    if Point(x, y) in LandOf(col, cells) {
      var i :| i in cells && Cell(col, i) == Point(x, y);
      IndexCell(col, i);
    }
  }

  /** Adding the index of cell (x, y) adds the cell to the land. */
  lemma LandAdd(col: int, cells: set<int>, x: int, y: int)
    requires col > 0 && 0 <= y < col
    ensures LandOf(col, cells + {Index(col, x, y)}) == LandOf(col, cells) + {Point(x, y)}
  {
    CellIndex(col, x, y);
  }

  /** The neighbour offsets of addLand, in its loop order. */
  const DX: seq<int> := [0, 0, 1, -1]
  const DY: seq<int> := [1, -1, 0, 0]

  /** The index of addLand's i-th neighbour of (x, y), or -1 when that
    * neighbour lies off the grid. */
  ghost function GridNeighbours(row: int, col: int, x: int, y: int): (ns: seq<int>)
    ensures |ns| == 4
  {
    seq(4, i requires 0 <= i < 4 =>
      if InGrid(row, col, x + DX[i], y + DY[i]) then Index(col, x + DX[i], y + DY[i]) else -1)
  }

  /** Among the cells of the grid, addLand's neighbour list holds exactly the
    * ones adjacent to (x, y). */
  lemma GridNeighbourList(row: int, col: int, x: int, y: int, L: set<int>)
    requires InGrid(row, col, x, y) && InRange(L, row * col)
    ensures NeighbourList(IdxAdj(col), L, Index(col, x, y), GridNeighbours(row, col, x, y))
  {
    var p, ns := Index(col, x, y), GridNeighbours(row, col, x, y);
    CellIndex(col, x, y);
    forall q {:trigger IdxAdj(col)(p, q)} | q in L ensures IdxAdj(col)(p, q) <==> q in ns {
      NeighbourOf(row, col, x, y, q);
    }
  }

  lemma NeighbourOf(row: int, col: int, x: int, y: int, q: int)
    requires InGrid(row, col, x, y) && 0 <= q < row * col
    ensures IdxAdj(col)(Index(col, x, y), q) <==> q in GridNeighbours(row, col, x, y)
  {
    CellIndex(col, x, y);
    if IdxAdj(col)(Index(col, x, y), q) {
      AdjacentListed(row, col, x, y, q);
    }
    if q in GridNeighbours(row, col, x, y) {
      ListedAdjacent(row, col, x, y, q);
    }
  }

  lemma AdjacentListed(row: int, col: int, x: int, y: int, q: int)
    requires InGrid(row, col, x, y) && 0 <= q < row * col
    requires Diff(Point(x, y), Cell(col, q)) in Dirs4
    ensures q in GridNeighbours(row, col, x, y)
  {
    var c := Cell(col, q);
    CellInRange(row, col, q);
    IndexCell(col, q);
    var d := Diff(Point(x, y), c);
    var i := if d == (0, 1) then 0 else if d == (0, -1) then 1 else if d == (1, 0) then 2 else 3;
    assert c == Point(x + DX[i], y + DY[i]);
    assert GridNeighbours(row, col, x, y)[i] == q;
  }

  lemma ListedAdjacent(row: int, col: int, x: int, y: int, q: int)
    requires InGrid(row, col, x, y) && 0 <= q && q in GridNeighbours(row, col, x, y)
    ensures col > 0 && Diff(Cell(col, Index(col, x, y)), Cell(col, q)) in Dirs4
  {
    var ns := GridNeighbours(row, col, x, y);
    var i :| 0 <= i < 4 && ns[i] == q;
    assert InGrid(row, col, x + DX[i], y + DY[i]);
    CellIndex(col, x + DX[i], y + DY[i]);
    CellIndex(col, x, y);
  }

  /** The forest's count of land classes is the number of four-connected
    * islands of the land. */
  lemma GridCount(col: int, cells: set<int>, n: int)
    requires col > 0 || cells == {}
    requires ComponentCount(IdxAdj(col), cells, n)
    ensures ComponentCount(OffsetAdj(Dirs4), LandOf(col, cells), n)
  {
    if col > 0 {
      CellsToLand(col, cells);
      LandToCells(col, cells);
      ComponentCountImage(IdxAdj(col), OffsetAdj(Dirs4), cells, LandOf(col, cells),
                          i => Cell(col, i), (q: Point) => Index(col, q.x, q.y), n);
    } else {
      var R :| Representatives(IdxAdj(col), cells, R) && |R| == n;
      assert R == {};
      assert Representatives(OffsetAdj(Dirs4), {}, {});
    }
  }

  lemma CellsToLand(col: int, cells: set<int>)
    requires col > 0
    ensures forall a :: a in cells ==> Cell(col, a) in LandOf(col, cells) && Index(col, Cell(col, a).x, Cell(col, a).y) == a
  {
    forall a | a in cells ensures Cell(col, a) in LandOf(col, cells) && Index(col, Cell(col, a).x, Cell(col, a).y) == a {
      IndexCell(col, a);
    }
  }

  lemma LandToCells(col: int, cells: set<int>)
    requires col > 0
    ensures forall b :: b in LandOf(col, cells) ==> Index(col, b.x, b.y) in cells && Cell(col, Index(col, b.x, b.y)) == b
  {
    forall b | b in LandOf(col, cells) ensures Index(col, b.x, b.y) in cells && Cell(col, Index(col, b.x, b.y)) == b {
      var i :| i in cells && Cell(col, i) == b;
      IndexCell(col, i);
    }
  }

  /** After the two finds of union(x, y), linking x's representative under
    * y's higher-ranked one completes the union. */
  lemma LinkXUnderY(p0: map<int, int>, p: map<int, int>, rank: map<int, int>, x: int, y: int)
    requires Forest(p0, rank) && Forest(p, rank) && x in p0 && y in p0 && p.Keys == p0.Keys
    requires SameRoots(p0, rank, p, rank) && Roots(p) == Roots(p0)
    requires rank[Root(p0, rank, x)] < rank[Root(p0, rank, y)]
    ensures var l, w := Root(p0, rank, x), Root(p0, rank, y);
      Forest(p[l := w], rank) && Unioned(p0, rank, p[l := w], rank, x, y, true)
  {
    var l, w := Root(p0, rank, x), Root(p0, rank, y);
    LinkAll(p, rank, l, w);
    FindsThenLink(p0, rank, p, p[l := w], rank, x, y, l, w);
  }

  /** The same with y's representative under x's higher-ranked one. */
  lemma LinkYUnderX(p0: map<int, int>, p: map<int, int>, rank: map<int, int>, x: int, y: int)
    requires Forest(p0, rank) && Forest(p, rank) && x in p0 && y in p0 && p.Keys == p0.Keys
    requires SameRoots(p0, rank, p, rank) && Roots(p) == Roots(p0)
    requires rank[Root(p0, rank, y)] < rank[Root(p0, rank, x)]
    ensures var l, w := Root(p0, rank, y), Root(p0, rank, x);
      Forest(p[l := w], rank) && Unioned(p0, rank, p[l := w], rank, x, y, true)
  {
    var l, w := Root(p0, rank, y), Root(p0, rank, x);
    LinkAll(p, rank, l, w);
    FindsThenLink(p0, rank, p, p[l := w], rank, x, y, l, w);
  }

  /** On a tie, linking y's representative under x's and raising the latter's
    * rank completes the union. */
  lemma TieUnioned(p0: map<int, int>, p: map<int, int>, rank: map<int, int>, x: int, y: int)
    requires Forest(p0, rank) && Forest(p, rank) && x in p0 && y in p0 && p.Keys == p0.Keys
    requires SameRoots(p0, rank, p, rank) && Roots(p) == Roots(p0)
    requires Root(p0, rank, x) != Root(p0, rank, y) && rank[Root(p0, rank, x)] == rank[Root(p0, rank, y)]
    ensures var l, w := Root(p0, rank, y), Root(p0, rank, x);
      Forest(p[l := w], rank[w := rank[w] + 1]) && Unioned(p0, rank, p[l := w], rank[w := rank[w] + 1], x, y, true)
  {
    var l, w := Root(p0, rank, y), Root(p0, rank, x);
    TieAll(p, rank, l, w);
    FindsThenLink(p0, rank, p, p[l := w], rank[w := rank[w] + 1], x, y, l, w);
  }

  /** The disjoint-set forest of DSUNonSparse.java over the indices 0 .. n - 1,
    * in two int arrays; pm and rm are the maps the arrays hold, on which the
    * forest is specified. */
  class DSU {
    const parent: array<int>
    const rank: array<int>
    ghost var pm: map<int, int>
    ghost var rm: map<int, int>

    ghost predicate Valid()
      reads this, parent, rank
    {
      parent != rank && parent.Length == rank.Length &&
      (forall i :: i in pm <==> 0 <= i < parent.Length) && Forest(pm, rm) &&
      forall i :: 0 <= i < parent.Length ==> parent[i] == pm[i] && rank[i] == rm[i]
    }

    /** DSU(n): every index its own class, with rank 0. */
    constructor(n: nat)
      ensures Valid() && parent.Length == n && fresh(parent) && fresh(rank)
      ensures forall i :: 0 <= i < n ==> pm[i] == i && rm[i] == 0
    {
      parent := new int[n];
      rank := new int[n](_ => 0);
      new;
      pm, rm := map[], map[];
      for i := 0 to n
        invariant forall j :: j in pm <==> 0 <= j < i
        invariant rm.Keys == pm.Keys
        invariant forall j :: 0 <= j < n ==> rank[j] == 0
        invariant forall j :: 0 <= j < i ==> parent[j] == j && pm[j] == j && rm[j] == 0
      {
        parent[i] := i;
        pm, rm := pm[i := i], rm[i := 0];
      }
    }

    /** find: returns x's representative and points x straight at it, after
      * compressing the rest of its path; no index changes representative. */
    method Find(x: int) returns (root: int)
      requires Valid() && 0 <= x < parent.Length
      modifies this, parent
      ensures Valid() && rm == old(rm) && pm.Keys == old(pm).Keys
      ensures root == Root(old(pm), rm, x)
      ensures SameRoots(old(pm), rm, pm, rm) && Roots(pm) == Roots(old(pm))
      decreases |Above(rm, x)|
    {
      if parent[x] != x {
        AboveShrinks(rm, x, Up(pm, x));
        var r := Find(parent[x]);
        assert x !in Roots(pm);
        CompressAll(pm, rm, x);
        parent[x] := r;
        pm := pm[x := r];
      }
      root := parent[x];
    }

    /** union by rank; true exactly when two classes were joined. */
    method Union(x: int, y: int) returns (merged: bool)
      requires Valid() && 0 <= x < parent.Length && 0 <= y < parent.Length
      modifies this, parent, rank
      ensures Valid() && Unioned(old(pm), old(rm), pm, rm, x, y, merged)
    {
      ghost var p0 := pm;
      var px := Find(x);
      var py := Find(y);
      assert SameRoots(p0, rm, pm, rm);
      if px == py {
        return false;
      }
      LinkByRank(px, py, p0, x, y);
      return true;
    }

    /** The rest of union once the representatives px of x and py of y
      * differ: the lower-ranked one goes under the other; on a tie py goes
      * under px, whose rank rises by one. */
    method LinkByRank(px: int, py: int, ghost p0: map<int, int>, ghost x: int, ghost y: int)
      requires Valid() && Forest(p0, rm) && x in p0 && y in p0 && pm.Keys == p0.Keys
      requires px == Root(p0, rm, x) && py == Root(p0, rm, y) && px != py
      requires SameRoots(p0, rm, pm, rm) && Roots(pm) == Roots(p0)
      modifies this, parent, rank
      ensures Valid() && Unioned(p0, old(rm), pm, rm, x, y, true)
    {
      if rank[px] < rank[py] {
        LinkXUnderY(p0, pm, rm, x, y);
        LinkRoot(px, py);
      } else if rank[px] > rank[py] {
        LinkYUnderX(p0, pm, rm, x, y);
        LinkRoot(py, px);
      } else {
        TieUnioned(p0, pm, rm, x, y);
        TieRoot(py, px);
      }
    }

    /** parent[l] = w. */
    method LinkRoot(l: int, w: int)
      requires Valid() && 0 <= l < parent.Length && 0 <= w < parent.Length
      requires Forest(pm[l := w], rm)
      modifies this, parent
      ensures Valid() && pm == old(pm)[l := w] && rm == old(rm)
    {
      parent[l] := w;
      pm := pm[l := w];
    }

    /** parent[l] = w; rank[w]++. */
    method TieRoot(l: int, w: int)
      requires Valid() && 0 <= l < parent.Length && 0 <= w < parent.Length
      requires Forest(pm[l := w], rm[w := rm[w] + 1])
      modifies this, parent, rank
      ensures Valid() && pm == old(pm)[l := w] && rm == old(rm)[w := old(rm)[w] + 1]
    {
      parent[l] := w;
      rank[w] := rank[w] + 1;
      pm, rm := pm[l := w], rm[w := rm[w] + 1];
    }
  }

  /** The matrix holds a row x col grid whose cells are 1 exactly at the
    * indices in cells. */
  ghost predicate Marked(terrain: array2<int>, row: int, col: int, cells: set<int>)
    reads terrain
  {
    terrain.Length0 == row && terrain.Length1 == col &&
    forall a, b :: InGrid(row, col, a, b) ==> (terrain[a, b] == 1 <==> Index(col, a, b) in cells)
  }

  /** A terrain's count of land classes is the number of islands of its land. */
  lemma TerrainCount(parent: map<int, int>, rank: map<int, int>, row: int, col: int, cells: set<int>, count: int)
    requires 0 <= row && 0 <= col && InRange(cells, row * col)
    requires CountedAmong(parent, rank, IdxAdj(col), cells, count)
    ensures ComponentCount(OffsetAdj(Dirs4), LandOf(col, cells), count)
  {
    CountedAmongCount(parent, rank, IdxAdj(col), cells, count);
    NoColumns(row, col, cells);
    GridCount(col, cells, count);
  }

  /** A grid without columns has no cells. */
  lemma NoColumns(row: int, col: int, cells: set<int>)
    requires 0 <= row && 0 <= col && InRange(cells, row * col)
    ensures col > 0 || cells == {}
  {
    if col == 0 {
      assert row * col == 0;
      assert forall i :: i !in cells;
    }
  }

  /** The forest of a new DSU: every element its own class, so no land is
    * counted yet. */
  lemma CountedAmongStart<T(!new)>(parent: map<T, T>, rank: map<T, int>, adj: (T, T) -> bool)
    requires Forest(parent, rank) && forall k :: k in parent ==> parent[k] == k
    ensures CountedAmong(parent, rank, adj, {}, 0)
  {
    assert RootsIn(parent, {}) == {};
  }

  class Terrain {
    const row: int
    const col: int
    const terrain: array2<int>
    const dsu: DSU
    var countIslands: int
    /** The indices of the land cells. */
    ghost var cells: set<int>

    /** The matrix marks exactly the land, the forest has an element for
      * every cell, and countIslands is the number of land classes, which
      * are the land's four-connected islands. */
    ghost predicate Valid()
      reads this, terrain, dsu, dsu.parent, dsu.rank
    {
      0 <= row && 0 <= col && Marked(terrain, row, col, cells) && InRange(cells, row * col) &&
      dsu.Valid() && dsu.parent.Length == row * col &&
      CountedAmong(dsu.pm, dsu.rm, IdxAdj(col), cells, countIslands)
    }

    /** The land, as cells. */
    ghost function Land(): set<Point>
      reads this
    {
      LandOf(col, cells)
    }

    /** Terrain(row, col): an all-water grid and a forest of row * col
      * singletons. */
    constructor(row: int, col: int)
      requires row >= 0 && col >= 0
      ensures Valid() && this.row == row && this.col == col && Land() == {} && countIslands == 0
    {
      this.row, this.col := row, col;
      terrain := new int[row, col]((i, j) => 0);
      MulMono(col + 1, 0, row);
      dsu := new DSU(row * col);
      countIslands := 0;
      cells := {};
      new;
      assert forall k :: k in dsu.pm ==> dsu.pm[k] == k;
      CountedAmongStart(dsu.pm, dsu.rm, IdxAdj(col));
    }

    /** isLand; a cell off the grid raises ArrayIndexOutOfBoundsException. */
    function IsLand(x: int, y: int): (r: Result<bool>)
      reads this, terrain, dsu, dsu.parent, dsu.rank
      requires Valid()
      ensures r == if InGrid(row, col, x, y) then Ok(Point(x, y) in Land()) else Err(ArrayIndexOutOfBoundsException)
    {
      if InGrid(row, col, x, y) then
        LandMember(row, col, cells, x, y);
        Ok(terrain[x, y] == 1)
      else
        Err(ArrayIndexOutOfBoundsException)
    }

    /** getIslands: the number of four-connected islands of the land. */
    function GetIslands(): (n: int)
      reads this, terrain, dsu, dsu.parent, dsu.rank
      requires Valid()
      ensures ComponentCount(OffsetAdj(Dirs4), Land(), n)
    {
      TerrainCount(dsu.pm, dsu.rm, row, col, cells, countIslands);
      countIslands
    }

    /** addLand: a cell off the grid raises ArrayIndexOutOfBoundsException;
      * otherwise the cell becomes land (if it was not already) and the new
      * number of islands is returned. */
    method AddLand(x: int, y: int) returns (r: Result<int>)
      requires Valid()
      modifies this, terrain, dsu, dsu.parent, dsu.rank
      ensures Valid()
      ensures !InGrid(row, col, x, y) ==> r == Err(ArrayIndexOutOfBoundsException) && Land() == old(Land())
      ensures InGrid(row, col, x, y) ==> r == Ok(countIslands) && Land() == old(Land()) + {Point(x, y)}
      ensures r.Ok? ==> ComponentCount(OffsetAdj(Dirs4), Land(), r.value)
    {
      if !(0 <= x < row && 0 <= y < col) {
        return Err(ArrayIndexOutOfBoundsException);
      }
      ghost var L := cells;
      if terrain[x, y] == 1 {
        LandAdd(col, L, x, y);
        assert L + {Index(col, x, y)} == L;
      } else {
        NewLand(x, y);
        LandAdd(col, L, x, y);
      }
      r := Ok(countIslands);
      assert ComponentCount(OffsetAdj(Dirs4), Land(), GetIslands());
    }

    /** addLand on a water cell: it is marked, counted as a new island, and
      * unioned with each land neighbour on the grid. */
    method NewLand(x: int, y: int)
      requires Valid() && InGrid(row, col, x, y) && terrain[x, y] != 1
      modifies this, terrain, dsu, dsu.parent, dsu.rank
      ensures Valid() && cells == old(cells) + {Index(col, x, y)}
    {
      ghost var L := cells;
      MarkLand(x, y);
      var idx1 := Index(col, x, y);
      ghost var ns := GridNeighbours(row, col, x, y);
      IndexInRange(row, col, x, y);
      IdxSymmetric(col);
      GridNeighbourList(row, col, x, y, L + {idx1});
      LinkStartAmong(dsu.pm, dsu.rm, IdxAdj(col), L, idx1, ns, countIslands - 1);
      countIslands := LinkCells(dsu, terrain, row, col, x, y, countIslands, L);
      LinkDoneAmong(dsu.pm, dsu.rm, IdxAdj(col), L, idx1, ns, countIslands);
    }

    /** terrain[x][y] = 1; countIslands++. */
    method MarkLand(x: int, y: int)
      requires Valid() && InGrid(row, col, x, y) && terrain[x, y] != 1
      modifies this, terrain
      ensures Marked(terrain, row, col, cells) && cells == old(cells) + {Index(col, x, y)}
      ensures countIslands == old(countIslands) + 1 && Index(col, x, y) !in old(cells)
      ensures CountedAmong(dsu.pm, dsu.rm, IdxAdj(col), old(cells), old(countIslands))
    {
      var idx := Index(col, x, y);
      terrain[x, y] := 1;
      countIslands := countIslands + 1;
      cells := cells + {idx};
      forall a, b | InGrid(row, col, a, b) ensures terrain[a, b] == 1 <==> Index(col, a, b) in cells {
        if Index(col, a, b) == idx {
          IndexInjective(col, a, b, x, y);
        }
      }
    }
  }

  /** addLand's loop over the four neighbours of (x, y). */
  method LinkCells(dsu: DSU, terrain: array2<int>, row: int, col: int, x: int, y: int, count: int, ghost L: set<int>)
      returns (count': int)
    requires dsu.Valid() && InGrid(row, col, x, y) && Marked(terrain, row, col, L + {Index(col, x, y)})
    requires Symmetric(IdxAdj(col)) && NeighbourList(IdxAdj(col), L + {Index(col, x, y)}, Index(col, x, y), GridNeighbours(row, col, x, y))
    requires dsu.parent.Length == row * col
    requires LinkingAmong(dsu.pm, dsu.rm, IdxAdj(col), L, Index(col, x, y), GridNeighbours(row, col, x, y), 0, count)
    modifies dsu, dsu.parent, dsu.rank
    ensures dsu.Valid() && LinkingAmong(dsu.pm, dsu.rm, IdxAdj(col), L, Index(col, x, y), GridNeighbours(row, col, x, y), 4, count')
  {
    count' := count;
    for i := 0 to 4
      invariant dsu.Valid() && dsu.parent.Length == row * col
      invariant LinkingAmong(dsu.pm, dsu.rm, IdxAdj(col), L, Index(col, x, y), GridNeighbours(row, col, x, y), i, count')
    {
      count' := LinkCell(dsu, terrain, row, col, x, y, i, count', L);
    }
  }

  /** One turn of addLand's loop: a neighbour on the grid that is land is
    * unioned with (x, y), and the count drops if that joined two islands. */
  method LinkCell(dsu: DSU, terrain: array2<int>, row: int, col: int, x: int, y: int, i: int, count: int, ghost L: set<int>)
      returns (count': int)
    requires dsu.Valid() && InGrid(row, col, x, y) && Marked(terrain, row, col, L + {Index(col, x, y)})
    requires Symmetric(IdxAdj(col)) && NeighbourList(IdxAdj(col), L + {Index(col, x, y)}, Index(col, x, y), GridNeighbours(row, col, x, y))
    requires dsu.parent.Length == row * col && 0 <= i < 4
    requires LinkingAmong(dsu.pm, dsu.rm, IdxAdj(col), L, Index(col, x, y), GridNeighbours(row, col, x, y), i, count)
    modifies dsu, dsu.parent, dsu.rank
    ensures dsu.Valid() && dsu.parent.Length == row * col
    ensures LinkingAmong(dsu.pm, dsu.rm, IdxAdj(col), L, Index(col, x, y), GridNeighbours(row, col, x, y), i + 1, count')
  {
    ghost var ns := GridNeighbours(row, col, x, y);
    var idx1 := Index(col, x, y);
    var nx, ny := x + DX[i], y + DY[i];
    IndexInRange(row, col, x, y);
    if nx >= 0 && ny >= 0 && nx < row && ny < col && terrain[nx, ny] == 1 {
      var idx2 := Index(col, nx, ny);
      IndexInRange(row, col, nx, ny);
      ghost var p0, r0 := dsu.pm, dsu.rm;
      assert ns[i] == idx2 && idx2 in L + {idx1} by {
        assert InGrid(row, col, nx, ny);
      }
      var merged := dsu.Union(idx1, idx2);
      count' := if merged then count - 1 else count;
      LinkUnionAmong(p0, r0, dsu.pm, dsu.rm, IdxAdj(col), L, idx1, ns, i, count, merged);
    } else {
      count' := count;
      LinkSkipAmong(dsu.pm, dsu.rm, IdxAdj(col), L, idx1, ns, i, count);
    }
  }
}
