/**
 * NumberOfIslandsBfs.java: the terrain as a row x col matrix of 0 (water)
 * and 1 (land).  getIslands scans it row by row and starts a breadth-first
 * search, which marks a matrix of visited cells, from each land cell not yet
 * visited; the number of searches is the number of islands.
 */
module NumberOfIslandsBfs {
  import opened Wrappers
  import opened Connectivity
  import opened Islands
  import opened GridBfs

  /** countIslands' four directions, dx = {0, 0, 1, -1} and dy = {1, -1, 0, 0}. */
  const Steps: seq<(int, int)> := [(0, 1), (0, -1), (1, 0), (-1, 0)]

  lemma StepsFour()
    ensures FourDirs(Steps)
  {
    assert Dirs4 == [(1, 0), (-1, 0), (0, 1), (0, -1)];
  }

  /** vis is row x col and marks exactly the cells of visited. */
  ghost predicate Marks(vis: array2<bool>, row: int, col: int, visited: set<Point>)
    reads vis
  {
    vis.Length0 == row && vis.Length1 == col && AllInBounds(row, col, visited) &&
    forall a, b {:trigger vis[a, b]} :: 0 <= a < row && 0 <= b < col ==> (vis[a, b] <==> Point(a, b) in visited)
  }

  class Terrain {
    const row: int
    const col: int
    const terrain: array2<int>
    /** The cells holding 1. */
    ghost var land: set<Point>

    /** terrain is row x col, holding 1 on the land and 0 elsewhere. */
    ghost predicate Valid()
      reads this, terrain
    {
      terrain.Length0 == row && terrain.Length1 == col && AllInBounds(row, col, land) &&
      forall a, b {:trigger terrain[a, b]} :: 0 <= a < row && 0 <= b < col ==> terrain[a, b] == if Point(a, b) in land then 1 else 0
    }

    constructor(row: int, col: int)
      requires 0 <= row && 0 <= col
      ensures Valid() && this.row == row && this.col == col && land == {}
      ensures fresh(terrain)
    {
      this.row, this.col := row, col;
      terrain := new int[row, col]((_, _) => 0);
      land := {};
    }

    /** isLand: whether the cell holds 1; a cell off the grid throws. */
    function IsLand(x: int, y: int): (r: Result<bool>)
      reads this, terrain
      requires Valid()
      ensures r == if InBounds(row, col, Point(x, y)) then Ok(Point(x, y) in land) else Err(ArrayIndexOutOfBoundsException)
    {
      if 0 <= x < row && 0 <= y < col then Ok(terrain[x, y] == 1) else Err(ArrayIndexOutOfBoundsException)
    }

    /** addLand: the cell is set to 1, so adding it again changes nothing; a
      * cell off the grid throws and the terrain stays as it was. */
    method AddLand(x: int, y: int) returns (thrown: Option<Exception>)
      requires Valid()
      modifies this, terrain
      ensures Valid()
      ensures InBounds(row, col, Point(x, y)) ==> thrown == None && land == old(land) + {Point(x, y)}
      ensures !InBounds(row, col, Point(x, y)) ==> thrown == Some(ArrayIndexOutOfBoundsException) && land == old(land)
    {
      if !(0 <= x < row && 0 <= y < col) {
        return Some(ArrayIndexOutOfBoundsException);
      }
      terrain[x, y] := 1;
      land := land + {Point(x, y)};
      thrown := None;
    }

    /** getIslands: the number of four-connected components of the land; the
      * terrain is left as it is. */
    method GetIslands() returns (ct: int)
      requires Valid()
      ensures ComponentCount(OffsetAdj(Dirs4), land, ct)
    {
      ct := 0;
      var vis := new bool[row, col]((_, _) => false);
      ghost var visited: set<Point> := {};
      ghost var R: set<Point> := {};
      CountingStart(land);
      for r := 0 to row
        invariant Marks(vis, row, col, visited)
        invariant forall p :: p in land && p.x < r ==> p in visited
        invariant Counting(land, visited, R, ct)
      {
        ct, visited, R := ScanRow(r, vis, visited, R, ct);
      }
      assert visited == land;
      CountDone(land, R, ct);
    }

    /** One row of getIslands' scan: afterwards every land cell of the row
      * has been visited. */
    method ScanRow(r: int, vis: array2<bool>, ghost visited: set<Point>, ghost R: set<Point>, ct: int)
      returns (ct': int, ghost visited': set<Point>, ghost R': set<Point>)
      requires Valid() && Marks(vis, row, col, visited) && Counting(land, visited, R, ct)
      requires 0 <= r < row
      requires forall p :: p in land && p.x < r ==> p in visited
      modifies vis
      ensures Marks(vis, row, col, visited') && Counting(land, visited', R', ct')
      ensures forall p :: p in land && p.x < r + 1 ==> p in visited'
    {
      ct', visited', R' := ct, visited, R;
      for c := 0 to col
        invariant Marks(vis, row, col, visited')
        invariant forall p :: p in land && (p.x < r || (p.x == r && p.y < c)) ==> p in visited'
        invariant Counting(land, visited', R', ct')
      {
        ghost var before := visited';
        ct', visited', R' := ScanCell(r, c, vis, visited', R', ct');
        forall p | p in land && (p.x < r || (p.x == r && p.y < c + 1)) ensures p in visited' {
          if p.x < r || p.y < c {
            assert p in before;
          } else {
            assert p == Point(r, c);
          }
        }
      }
    }

    /** One cell of getIslands' scan: an unvisited land cell starts a search
      * and counts one island more. */
    method ScanCell(r: int, c: int, vis: array2<bool>, ghost visited: set<Point>, ghost R: set<Point>, ct: int)
      returns (ct': int, ghost visited': set<Point>, ghost R': set<Point>)
      requires Valid() && Marks(vis, row, col, visited) && Counting(land, visited, R, ct)
      requires 0 <= r < row && 0 <= c < col
      modifies vis
      ensures Marks(vis, row, col, visited') && Counting(land, visited', R', ct')
      ensures visited <= visited' && (Point(r, c) in land ==> Point(r, c) in visited')
    {
      ct', visited', R' := ct, visited, R;
      if terrain[r, c] == 1 && !vis[r, c] {
        visited' := CountIslands(r, c, vis, visited);
        CountStep(row, col, land, visited, R, ct, Point(r, c));
        R' := R + {Point(r, c)};
        ct' := ct + 1;
        ConnectedRefl(BfsAdj(row, col), land - visited, Point(r, c));
      }
    }

    /** countIslands from an unvisited land cell: marks in vis exactly the
      * land the search reaches through unvisited land. */
    method CountIslands(r: int, c: int, vis: array2<bool>, ghost visited: set<Point>) returns (ghost visited': set<Point>)
      requires Valid() && Marks(vis, row, col, visited)
      requires 0 <= r < row && 0 <= c < col && terrain[r, c] == 1 && !vis[r, c]
      modifies vis
      ensures Marks(vis, row, col, visited')
      ensures visited' == visited + Reached(row, col, land, visited, Point(r, c))
    {
      var start := Point(r, c);
      var bfs := [start];
      visited' := Mark(vis, row, col, visited, r, c);
      ghost var done: set<Point> := {};
      SearchStart(row, col, land, visited, start);
      while bfs != []
        invariant Marks(vis, row, col, visited')
        invariant Searching(row, col, land, visited, start, visited', bfs, done)
        decreases |land - visited'|, |bfs|
      {
        var front := bfs[0];
        ghost var before, bfs0 := visited', bfs;
        bfs, visited' := VisitNeighbours(front, vis, visited', bfs[1..]);
        SearchStep(row, col, land, visited, start, before, bfs0, done, visited', bfs);
        VisitsShrink(land, before, visited');
        done := done + {front};
      }
      SearchDone(row, col, land, visited, start, visited', done);
    }

    /** One turn of countIslands' queue loop: mark and queue each neighbour
      * of cur that is on the grid, land and not yet marked. */
    method VisitNeighbours(cur: Point, vis: array2<bool>, ghost visited: set<Point>, bfs: seq<Point>)
      returns (bfs': seq<Point>, ghost visited': set<Point>)
      requires Valid() && Marks(vis, row, col, visited)
      modifies vis
      ensures Marks(vis, row, col, visited')
      ensures Visits(row, col, land, cur, visited, bfs, visited', bfs')
    {
      bfs', visited' := bfs, visited;
      StepsFour();
      VisitingStart(row, col, land, cur, Steps, visited, bfs);
      for i := 0 to 4
        invariant Marks(vis, row, col, visited')
        invariant Visiting(row, col, land, cur, Steps, i, visited, bfs, visited', bfs')
      {
        bfs', visited' := VisitStep(cur, i, vis, visited, bfs, visited', bfs');
      }
      VisitingDone(row, col, land, cur, Steps, visited, bfs, visited', bfs');
    }

    /** The i-th turn of the loop over cur's neighbours. */
    method VisitStep(cur: Point, i: int, vis: array2<bool>, ghost visited: set<Point>, bfs: seq<Point>,
                     ghost visited': set<Point>, bfs': seq<Point>)
      returns (bfs'': seq<Point>, ghost visited'': set<Point>)
      requires Valid() && Marks(vis, row, col, visited') && 0 <= i < 4
      requires Visiting(row, col, land, cur, Steps, i, visited, bfs, visited', bfs')
      modifies vis
      ensures Marks(vis, row, col, visited'')
      ensures Visiting(row, col, land, cur, Steps, i + 1, visited, bfs, visited'', bfs'')
    {
      var newX, newY := cur.x + Steps[i].0, cur.y + Steps[i].1;
      ghost var next := Point(newX, newY);
      if newX >= 0 && newY >= 0 && newX < row && newY < col && terrain[newX, newY] == 1 {
        assert next in land;
        bfs'', visited'' := VisitLand(row, col, land, cur, i, vis, visited, bfs, visited', bfs', newX, newY);
      } else {
        assert !(InBounds(row, col, next) && next in land);
        VisitingSkip(row, col, land, cur, Steps, i, visited, bfs, visited', bfs');
        bfs'', visited'' := bfs', visited';
      }
    }
  }

  /** The i-th neighbour of cur is land on the grid: mark and queue it
    * unless it is marked already. */
  method VisitLand(row: int, col: int, ghost land: set<Point>, cur: Point, i: int, vis: array2<bool>,
                   ghost visited: set<Point>, bfs: seq<Point>, ghost visited': set<Point>, bfs': seq<Point>, newX: int, newY: int)
    returns (bfs'': seq<Point>, ghost visited'': set<Point>)
    requires Marks(vis, row, col, visited') && 0 <= i < 4
    requires Visiting(row, col, land, cur, Steps, i, visited, bfs, visited', bfs')
    requires newX == cur.x + Steps[i].0 && newY == cur.y + Steps[i].1
    requires 0 <= newX < row && 0 <= newY < col && Point(newX, newY) in land
    modifies vis
    ensures Marks(vis, row, col, visited'')
    ensures Visiting(row, col, land, cur, Steps, i + 1, visited, bfs, visited'', bfs'')
  {
    if !vis[newX, newY] {
      VisitingAdd(row, col, land, cur, Steps, i, visited, bfs, visited', bfs', Point(newX, newY));
      bfs'' := bfs' + [Point(newX, newY)];
      visited'' := Mark(vis, row, col, visited', newX, newY);
    } else {
      VisitingSkip(row, col, land, cur, Steps, i, visited, bfs, visited', bfs');
      bfs'', visited'' := bfs', visited';
    }
  }

  /** vis[x, y] := true marks one cell more. */
  method Mark(vis: array2<bool>, row: int, col: int, ghost visited: set<Point>, x: int, y: int)
    returns (ghost visited': set<Point>)
    requires Marks(vis, row, col, visited) && 0 <= x < row && 0 <= y < col
    modifies vis
    ensures Marks(vis, row, col, visited') && visited' == visited + {Point(x, y)}
  {
    vis[x, y] := true;
    visited' := visited + {Point(x, y)};
  }
}
