/**
 * NumberOfIslands/SparseBfs.java: the land kept as a set of points, islands
 * counted on demand by a breadth-first search from each land point not yet
 * visited.  A search steps only to neighbours inside the rows x cols grid;
 * addLand itself accepts any point.
 */
module SparseBfs {
  import opened Connectivity
  import opened Islands
  import opened GridBfs

  class Terrain {
    const rows: int
    const cols: int
    var land: set<Point>

    constructor(rows: int, cols: int)
      ensures this.rows == rows && this.cols == cols && land == {}
    {
      this.rows, this.cols := rows, cols;
      land := {};
    }

    /** isLand: whether the point was added. */
    function IsLand(x: int, y: int): (b: bool)
      reads this
      ensures b <==> Point(x, y) in land
    {
      Point(x, y) in land
    }

    /** addLand: the point joins the land; adding it again changes nothing. */
    method AddLand(x: int, y: int)
      modifies this
      ensures land == old(land) + {Point(x, y)}
      ensures Point(x, y) in old(land) ==> land == old(land)
    {
      land := land + {Point(x, y)};
    }

    /** getIslandsSparse: with all land on the grid, the number of
      * four-connected components of the land.  The land is left as it is. */
    method GetIslandsSparse() returns (count: int)
      ensures AllInBounds(rows, cols, land) ==> ComponentCount(OffsetAdj(Dirs4), land, count)
    {
      var visited: set<Point> := {};
      count := 0;
      var rest := land;
      ghost var R: set<Point> := {};
      CountingStart(land);
      while rest != {}
        invariant rest <= land && land - rest <= visited <= land
        invariant AllInBounds(rows, cols, land) ==> Counting(land, visited, R, count)
        decreases |rest|
      {
        var p :| p in rest;
        if p !in visited {
          ghost var before := visited;
          visited := Bfs(p, visited);
          if AllInBounds(rows, cols, land) {
            CountStep(rows, cols, land, before, R, count, p);
          }
          R := R + {p};
          count := count + 1;
        }
        rest := rest - {p};
      }
      assert visited == land;
      if AllInBounds(rows, cols, land) {
        CountDone(land, R, count);
      }
    }

    /** bfs: adds to visited exactly the land the search from start reaches
      * through unvisited land on the grid. */
    method Bfs(start: Point, visited: set<Point>) returns (visited': set<Point>)
      requires start in land && start !in visited
      ensures visited' == visited + Reached(rows, cols, land, visited, start)
      ensures start in visited'
    {
      visited' := visited + {start};
      var q := [start];
      ghost var done: set<Point> := {};
      SearchStart(rows, cols, land, visited, start);
      while q != []
        invariant Searching(rows, cols, land, visited, start, visited', q, done)
        decreases |land - visited'|, |q|
      {
        var cur := q[0];
        ghost var before, q0 := visited', q;
        visited', q := VisitNeighbours(cur, visited', q[1..]);
        SearchStep(rows, cols, land, visited, start, before, q0, done, visited', q);
        VisitsShrink(land, before, visited');
        done := done + {cur};
      }
      SearchDone(rows, cols, land, visited, start, visited', done);
    }

    /** One turn of bfs's queue loop: visit and queue each neighbour of cur
      * that is on the grid, land and not yet visited. */
    method VisitNeighbours(cur: Point, visited: set<Point>, q: seq<Point>) returns (visited': set<Point>, q': seq<Point>)
      ensures Visits(rows, cols, land, cur, visited, q, visited', q')
    {
      visited', q' := visited, q;
      VisitingStart(rows, cols, land, cur, Dirs4, visited, q);
      for i := 0 to 4
        invariant Visiting(rows, cols, land, cur, Dirs4, i, visited, q, visited', q')
      {
        var nx, ny := cur.x + Dirs4[i].0, cur.y + Dirs4[i].1;
        var next := Point(nx, ny);
        if nx >= 0 && ny >= 0 && nx < rows && ny < cols && next in land && next !in visited' {
          VisitingAdd(rows, cols, land, cur, Dirs4, i, visited, q, visited', q', next);
          visited' := visited' + {next};
          q' := q' + [next];
        } else {
          VisitingSkip(rows, cols, land, cur, Dirs4, i, visited, q, visited', q');
        }
      }
      VisitingDone(rows, cols, land, cur, Dirs4, visited, q, visited', q');
    }
  }
}
