/** Region quadtrees of an integer image: a uniform region becomes a leaf
  * holding its value; any other region becomes a node with four quadrant
  * children. The square builder halves a side; the rectangular builder and
  * the image reconstruction split each side at its midpoint. */
module QuadTree {
  import opened Wrappers
  import opened PowersOfTwo

  /** A tree node: a leaf holds its region's value; an internal node's value
    * means nothing. */
  datatype QuadNode =
    | Leaf(val: int)
    | Node(val: int, topLeft: QuadNode, topRight: QuadNode, bottomLeft: QuadNode, bottomRight: QuadNode)

  /** The number of columns of a grid, read from its first row. */
  function Width(g: seq<seq<int>>): nat {
    if |g| == 0 then 0 else |g[0]|
  }

  /** Every row has the same length (an `int[][]` that is a rectangle). */
  predicate Rectangular(g: seq<seq<int>>) {
    forall i :: 0 <= i < |g| ==> |g[i]| == Width(g)
  }

  /** [r1, r2) x [c1, c2) lies in the grid, and its corner (r1, c1) is a cell
    * even when the region is empty. */
  predicate Region(g: seq<seq<int>>, r1: int, c1: int, r2: int, c2: int) {
    Rectangular(g) && 0 <= r1 <= r2 <= |g| && 0 <= c1 <= c2 <= Width(g) && r1 < |g| && c1 < Width(g)
  }

  /** Cell (i, j) lies in [r1, r2) x [c1, c2). */
  predicate InRegion(i: int, j: int, r1: int, c1: int, r2: int, c2: int) {
    r1 <= i < r2 && c1 <= j < c2
  }

  /** Every cell of [r1, r2) x [c1, c2) holds the corner's value. Only a
    * cell stated to be InRegion instantiates the quantifier, which keeps the
    * many regions of a tree from instantiating each other. */
  predicate Uniform(g: seq<seq<int>>, r1: int, c1: int, r2: int, c2: int)
    requires Region(g, r1, c1, r2, c2)
  {
    forall i, j {:trigger InRegion(i, j, r1, c1, r2, c2)} :: r1 <= i < r2 && c1 <= j < c2 && InRegion(i, j, r1, c1, r2, c2) ==> g[i][j] == g[r1][c1]
  }

  /** An empty region, or a single cell, is uniform. */
  lemma SmallIsUniform(g: seq<seq<int>>, r1: int, c1: int, r2: int, c2: int)
    requires Region(g, r1, c1, r2, c2)
    ensures r2 - r1 <= 1 && c2 - c1 <= 1 ==> Uniform(g, r1, c1, r2, c2)
  {
    if r2 - r1 == 1 && c2 - c1 == 1 {
      forall i, j | r1 <= i < r2 && c1 <= j < c2 ensures g[i][j] == g[r1][c1] {
        assert i == r1 && j == c1;
      }
    }
  }

  /** `isUniform` of the rectangular builder: scans the region row by row and
    * stops at the first cell that differs from the corner. */
  method IsUniformRect(grid: seq<seq<int>>, r1: int, c1: int, r2: int, c2: int) returns (b: bool)
    requires Region(grid, r1, c1, r2, c2)
    ensures b <==> Uniform(grid, r1, c1, r2, c2)
  {
    var val := grid[r1][c1];
    var r := r1;
    while r < r2
      invariant r1 <= r <= r2
      invariant forall i, j :: r1 <= i < r && c1 <= j < c2 ==> grid[i][j] == val
    {
      var c := c1;
      while c < c2
        invariant c1 <= c <= c2
        invariant forall j :: c1 <= j < c ==> grid[r][j] == val
      {
        if grid[r][c] != val {
          assert InRegion(r, c, r1, c1, r2, c2);
          return false;
        }
        c := c + 1;
      }
      r := r + 1;
    }
    return true;
  }

  /** The rectangular `build`: a leaf with the corner's value when the region
    * is uniform, otherwise a node (value 0) over the four rectangles cut at
    * the row and column midpoints. */
  function BuildRect(grid: seq<seq<int>>, r1: int, c1: int, r2: int, c2: int): (t: QuadNode)
    requires Region(grid, r1, c1, r2, c2)
    ensures t.Leaf? <==> Uniform(grid, r1, c1, r2, c2)
    ensures t.Leaf? ==> t.val == grid[r1][c1]
    ensures t.Node? ==> t.val == 0
    decreases (r2 - r1) + (c2 - c1)
  {
    if Uniform(grid, r1, c1, r2, c2) then Leaf(grid[r1][c1])
    else
      SmallIsUniform(grid, r1, c1, r2, c2);
      var rm := (r1 + r2) / 2;
      var cm := (c1 + c2) / 2;
      Node(0,
        BuildRect(grid, r1, c1, rm, cm),
        BuildRect(grid, r1, cm, rm, c2),
        BuildRect(grid, rm, c1, r2, cm),
        BuildRect(grid, rm, cm, r2, c2))
  }

  /** The value a tree gives cell (i, j) of the region [r1, r2) x [c1, c2)
    * it describes, splitting at the midpoints as `fill` does. */
  function Cell(t: QuadNode, r1: int, c1: int, r2: int, c2: int, i: int, j: int): int
    decreases t
  {
    match t
    case Leaf(v) => v
    case Node(_, tl, tr, bl, br) =>
      var rm := (r1 + r2) / 2;
      var cm := (c1 + c2) / 2;
      if i < rm then
        if j < cm then Cell(tl, r1, c1, rm, cm, i, j) else Cell(tr, r1, cm, rm, c2, i, j)
      else
        if j < cm then Cell(bl, rm, c1, r2, cm, i, j) else Cell(br, rm, cm, r2, c2, i, j)
  }

  /** The built tree gives every cell of its region the grid's value there. */
  lemma {:induction false} BuildRectCells(grid: seq<seq<int>>, r1: int, c1: int, r2: int, c2: int, i: int, j: int)
    requires Region(grid, r1, c1, r2, c2) && r1 <= i < r2 && c1 <= j < c2
    ensures Cell(BuildRect(grid, r1, c1, r2, c2), r1, c1, r2, c2, i, j) == grid[i][j]
    decreases (r2 - r1) + (c2 - c1)
  {
    if !Uniform(grid, r1, c1, r2, c2) {
      SmallIsUniform(grid, r1, c1, r2, c2);
      var rm := (r1 + r2) / 2;
      var cm := (c1 + c2) / 2;
      if i < rm {
        if j < cm {
          BuildRectCells(grid, r1, c1, rm, cm, i, j);
        } else {
          BuildRectCells(grid, r1, cm, rm, c2, i, j);
        }
      } else {
        if j < cm {
          BuildRectCells(grid, rm, c1, r2, cm, i, j);
        } else {
          BuildRectCells(grid, rm, cm, r2, c2, i, j);
        }
      }
    } else {
      assert InRegion(i, j, r1, c1, r2, c2);
    }
  }

  /** A square grid: n rows of n cells. */
  predicate Square(g: seq<seq<int>>) {
    Rectangular(g) && Width(g) == |g|
  }

  /** The square region of side size at (r, c) lies in the square grid. */
  predicate SquareRegion(g: seq<seq<int>>, r: int, c: int, size: int) {
    Square(g) && 1 <= size && 0 <= r && 0 <= c && r + size <= |g| && c + size <= |g|
  }

  /** `isUniform` of the square builder. */
  method IsUniformSquare(grid: seq<seq<int>>, r: int, c: int, size: int) returns (b: bool)
    requires SquareRegion(grid, r, c, size)
    ensures b <==> Uniform(grid, r, c, r + size, c + size)
  {
    var v := grid[r][c];
    var i := r;
    while i < r + size
      invariant r <= i <= r + size
      invariant forall a, b :: r <= a < i && c <= b < c + size ==> grid[a][b] == v
    {
      var j := c;
      while j < c + size
        invariant c <= j <= c + size
        invariant forall b :: c <= b < j ==> grid[i][b] == v
      {
        if grid[i][j] != v {
          assert InRegion(i, j, r, c, r + size, c + size);
          return false;
        }
        j := j + 1;
      }
      i := i + 1;
    }
    return true;
  }

  /** The recursive square `build`: a leaf when the square is uniform,
    * otherwise a node (value -1) over the four squares of half the side. */
  function BuildSquare(grid: seq<seq<int>>, r: int, c: int, size: int): (t: QuadNode)
    requires SquareRegion(grid, r, c, size)
    ensures t.Leaf? <==> Uniform(grid, r, c, r + size, c + size)
    ensures t.Leaf? ==> t.val == grid[r][c]
    ensures t.Node? ==> t.val == -1
    decreases size
  {
    if Uniform(grid, r, c, r + size, c + size) then Leaf(grid[r][c])
    else
      SmallIsUniform(grid, r, c, r + size, c + size);
      var half := size / 2;
      Node(-1,
        BuildSquare(grid, r, c, half),
        BuildSquare(grid, r, c + half, half),
        BuildSquare(grid, r + half, c, half),
        BuildSquare(grid, r + half, c + half, half))
  }

  /** The entry `build(grid)`: the whole grid; an empty grid fails reading its
    * corner. */
  function Build(grid: seq<seq<int>>): (r: Result<QuadNode>)
    requires Square(grid)
    ensures r.Err? <==> |grid| == 0
    ensures r.Err? ==> r.error == ArrayIndexOutOfBoundsException
    ensures r.Ok? ==> (r.value.Leaf? <==> Uniform(grid, 0, 0, |grid|, |grid|))
  {
    if |grid| == 0 then Err(ArrayIndexOutOfBoundsException) else Ok(BuildSquare(grid, 0, 0, |grid|))
  }

  /** A square that is not uniform becomes a node over its four half-side
    * squares. */
  lemma SquareSplit(grid: seq<seq<int>>, r: int, c: int, size: int)
    requires SquareRegion(grid, r, c, size) && !Uniform(grid, r, c, r + size, c + size)
    ensures size >= 2
    ensures BuildSquare(grid, r, c, size) == Node(-1,
      BuildSquare(grid, r, c, size / 2), BuildSquare(grid, r, c + size / 2, size / 2),
      BuildSquare(grid, r + size / 2, c, size / 2), BuildSquare(grid, r + size / 2, c + size / 2, size / 2))
  {
    SmallIsUniform(grid, r, c, r + size, c + size);
  }

  /** The value a tree gives cell (i, j) of the square of side size at
    * (r, c), halving the side as the square builder does. */
  function SquareCell(t: QuadNode, r: int, c: int, size: int, i: int, j: int): int
    decreases t
  {
    match t
    case Leaf(v) => v
    case Node(_, tl, tr, bl, br) =>
      var half := size / 2;
      if i < r + half then
        if j < c + half then SquareCell(tl, r, c, half, i, j) else SquareCell(tr, r, c + half, half, i, j)
      else
        if j < c + half then SquareCell(bl, r + half, c, half, i, j) else SquareCell(br, r + half, c + half, half, i, j)
  }

  /** On a side that is a power of two the square tree gives every cell of
    * its square the grid's value there. */
  lemma {:induction false} BuildSquareCells(grid: seq<seq<int>>, r: int, c: int, size: int, i: int, j: int)
    requires SquareRegion(grid, r, c, size) && PowerOfTwo(size)
    requires r <= i < r + size && c <= j < c + size
    ensures SquareCell(BuildSquare(grid, r, c, size), r, c, size, i, j) == grid[i][j]
    decreases size
  {
    if Uniform(grid, r, c, r + size, c + size) {
      UniformCell(grid, r, c, size, i, j);
    } else {
      var r', c' := SplitCell(grid, r, c, size, i, j);
      BuildSquareCells(grid, r', c', size / 2, i, j);
    }
  }

  /** A uniform square is a leaf that gives each cell its corner's value. */
  lemma UniformCell(grid: seq<seq<int>>, r: int, c: int, size: int, i: int, j: int)
    requires SquareRegion(grid, r, c, size) && Uniform(grid, r, c, r + size, c + size)
    requires r <= i < r + size && c <= j < c + size
    ensures SquareCell(BuildSquare(grid, r, c, size), r, c, size, i, j) == grid[i][j]
  {
    assert InRegion(i, j, r, c, r + size, c + size);
  }

  /** A cell of a square that is not uniform reads the child for its
    * quadrant: the square of half the side at (r', c') that holds it. */
  lemma SplitCell(grid: seq<seq<int>>, r: int, c: int, size: int, i: int, j: int) returns (r': int, c': int)
    requires SquareRegion(grid, r, c, size) && PowerOfTwo(size) && !Uniform(grid, r, c, r + size, c + size)
    requires r <= i < r + size && c <= j < c + size
    ensures size >= 2 && PowerOfTwo(size / 2) && SquareRegion(grid, r', c', size / 2)
    ensures r' == (if i < r + size / 2 then r else r + size / 2)
    ensures c' == (if j < c + size / 2 then c else c + size / 2)
    ensures r' <= i < r' + size / 2 && c' <= j < c' + size / 2
    ensures SquareCell(BuildSquare(grid, r, c, size), r, c, size, i, j) ==
      SquareCell(BuildSquare(grid, r', c', size / 2), r', c', size / 2, i, j)
  {
    SquareSplit(grid, r, c, size);
    HalfPowerOfTwo(size);
    var half := size / 2;
    r' := if i < r + half then r else r + half;
    c' := if j < c + half then c else c + half;
    QuadrantCell(BuildSquare(grid, r, c, size), r, c, size, i, j);
  }

  /** A node reads a cell from the child for the cell's quadrant. */
  lemma QuadrantCell(t: QuadNode, r: int, c: int, size: int, i: int, j: int)
    requires t.Node?
    ensures var half := size / 2;
      var r', c' := (if i < r + half then r else r + half), (if j < c + half then c else c + half);
      var child := if i < r + half then (if j < c + half then t.topLeft else t.topRight)
                   else (if j < c + half then t.bottomLeft else t.bottomRight);
      SquareCell(t, r, c, size, i, j) == SquareCell(child, r', c', half, i, j)
  {
  }

  /** On a single cell, halving a side of zero descends as the midpoint
    * split of a one-cell region does: to the bottom-right child. */
  lemma {:induction false} UnitSquareCell(t: QuadNode, r: int, c: int)
    ensures SquareCell(t, r, c, 0, r, c) == Cell(t, r, c, r + 1, c + 1, r, c)
    decreases t
  {
    match t
    case Leaf(_) =>
    case Node(_, _, _, _, br) =>
      UnitSquareCell(br, r, c);
  }

  /** On a side that is a power of two, halving the side of the square at
    * (r, c) and splitting its region [r1, r2) x [c1, c2) at the midpoints
    * pick the same quadrants, so both readings of any tree agree on every
    * cell of the square. */
  lemma {:induction false} SquareCellIsCell(t: QuadNode, r: int, c: int, size: int,
                                            r1: int, c1: int, r2: int, c2: int, i: int, j: int)
    requires PowerOfTwo(size) && r <= i < r + size && c <= j < c + size
    requires r1 == r && c1 == c && r2 == r + size && c2 == c + size
    ensures Cell(t, r1, c1, r2, c2, i, j) == SquareCell(t, r, c, size, i, j)
    decreases t
  {
    match t
    case Leaf(_) =>
    case Node(_, tl, tr, bl, br) =>
      var rm, cm := (r1 + r2) / 2, (c1 + c2) / 2;
      if size == 1 {
        UnitSquareCell(br, r, c);
      } else {
        HalfPowerOfTwo(size);
        if i < rm {
          if j < cm {
            SquareCellIsCell(tl, r, c, size / 2, r1, c1, rm, cm, i, j);
          } else {
            SquareCellIsCell(tr, r, c + size / 2, size / 2, r1, cm, rm, c2, i, j);
          }
        } else {
          if j < cm {
            SquareCellIsCell(bl, r + size / 2, c, size / 2, rm, c1, r2, cm, i, j);
          } else {
            SquareCellIsCell(br, r + size / 2, c + size / 2, size / 2, rm, cm, r2, c2, i, j);
          }
        }
      }
  }

  /** The loops of `fill` at a leaf: write v into every cell of the region. */
  method FillRegion(grid: array2<int>, r1: int, c1: int, r2: int, c2: int, v: int)
    requires 0 <= r1 <= r2 <= grid.Length0 && 0 <= c1 <= c2 <= grid.Length1
    modifies grid
    ensures forall i, j :: r1 <= i < r2 && c1 <= j < c2 ==> grid[i, j] == v
    ensures forall i, j :: 0 <= i < grid.Length0 && 0 <= j < grid.Length1 && !(r1 <= i < r2 && c1 <= j < c2) ==>
      grid[i, j] == old(grid[i, j])
  {
    for i := r1 to r2
      invariant forall a, b :: r1 <= a < i && c1 <= b < c2 ==> grid[a, b] == v
      invariant forall a, b :: 0 <= a < grid.Length0 && 0 <= b < grid.Length1 && !(r1 <= a < i && c1 <= b < c2) ==>
        grid[a, b] == old(grid[a, b])
    {
      for j := c1 to c2
        invariant forall a, b :: r1 <= a < i && c1 <= b < c2 ==> grid[a, b] == v
        invariant forall b :: c1 <= b < j ==> grid[i, b] == v
        invariant forall a, b ::
          (0 <= a < grid.Length0 && 0 <= b < grid.Length1 && !(r1 <= a < i && c1 <= b < c2) && !(a == i && c1 <= b < j)) ==>
          grid[a, b] == old(grid[a, b])
      {
        grid[i, j] := v;
      }
    }
  }

  /** `fill`: writes the tree's image into [r1, r2) x [c1, c2) and nothing
    * outside it. */
  method Fill(node: QuadNode, grid: array2<int>, r1: int, c1: int, r2: int, c2: int)
    requires 0 <= r1 <= r2 <= grid.Length0 && 0 <= c1 <= c2 <= grid.Length1
    modifies grid
    ensures forall i, j :: r1 <= i < r2 && c1 <= j < c2 ==> grid[i, j] == Cell(node, r1, c1, r2, c2, i, j)
    ensures forall i, j :: 0 <= i < grid.Length0 && 0 <= j < grid.Length1 && !(r1 <= i < r2 && c1 <= j < c2) ==>
      grid[i, j] == old(grid[i, j])
    decreases node
  {
    match node
    case Leaf(v) =>
      FillRegion(grid, r1, c1, r2, c2, v);
    case Node(_, tl, tr, bl, br) =>
      var rm := (r1 + r2) / 2;
      var cm := (c1 + c2) / 2;
      Fill(tl, grid, r1, c1, rm, cm);
      Fill(tr, grid, r1, cm, rm, c2);
      Fill(bl, grid, rm, c1, r2, cm);
      Fill(br, grid, rm, cm, r2, c2);
  }

  /** `new int[h][w]` followed by `fill(root, output, 0, 0, h, w)`. */
  method Reconstruct(root: QuadNode, h: nat, w: nat) returns (output: array2<int>)
    ensures fresh(output) && output.Length0 == h && output.Length1 == w
    ensures forall i, j :: 0 <= i < h && 0 <= j < w ==> output[i, j] == Cell(root, 0, 0, h, w, i, j)
  {
    output := new int[h, w];
    Fill(root, output, 0, 0, h, w);
  }

  /** Building the rectangular tree of a non-empty image and filling a new
    * image of its size from it reproduces the image. */
  method RebuildRect(grid: seq<seq<int>>) returns (output: array2<int>)
    requires Rectangular(grid) && |grid| >= 1 && Width(grid) >= 1
    ensures output.Length0 == |grid| && output.Length1 == Width(grid)
    ensures forall i, j :: 0 <= i < |grid| && 0 <= j < Width(grid) ==> output[i, j] == grid[i][j]
  {
    var root := BuildRect(grid, 0, 0, |grid|, Width(grid));
    output := Reconstruct(root, |grid|, Width(grid));
    forall i, j | 0 <= i < |grid| && 0 <= j < Width(grid) ensures output[i, j] == grid[i][j] {
      BuildRectCells(grid, 0, 0, |grid|, Width(grid), i, j);
    }
  }

  /** Building the square tree of a grid whose side is a power of two and
    * filling a new image from it reproduces the grid. */
  method RebuildSquare(grid: seq<seq<int>>) returns (output: array2<int>)
    requires Square(grid) && PowerOfTwo(|grid|)
    ensures output.Length0 == |grid| && output.Length1 == |grid|
    ensures forall i, j :: 0 <= i < |grid| && 0 <= j < |grid| ==> output[i, j] == grid[i][j]
  {
    var root := Build(grid);
    output := Reconstruct(root.value, |grid|, |grid|);
    forall i, j | 0 <= i < |grid| && 0 <= j < |grid| ensures output[i, j] == grid[i][j] {
      BuildSquareCells(grid, 0, 0, |grid|, i, j);
      SquareCellIsCell(root.value, 0, 0, |grid|, 0, 0, |grid|, |grid|, i, j);
    }
  }
}
