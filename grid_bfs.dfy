/**
 * What the two breadth-first island counters share (NumberOfIslands/SparseBfs.java
 * over a set of land points, NumberOfIslandsBfs.java over a 0/1 matrix): a
 * search from a start cell steps to the four neighbours that lie on the grid
 * and are land, skipping cells visited before; the count of searches started
 * from unvisited land is the number of islands.
 */
module GridBfs {
  import opened Connectivity
  import opened UnionFind
  import opened Islands

  predicate InBounds(rows: int, cols: int, p: Point)
  {
    0 <= p.x < rows && 0 <= p.y < cols
  }

  ghost predicate AllInBounds(rows: int, cols: int, L: set<Point>)
  {
    forall p :: p in L ==> InBounds(rows, cols, p)
  }

  /** One step of the search: to one of the four neighbours, if it lies on
    * the grid. */
  ghost function BfsAdj(rows: int, cols: int): (Point, Point) -> bool
  {
    (a: Point, b: Point) => Diff(a, b) in Dirs4 && InBounds(rows, cols, b)
  }

  /** The cells a search from s reaches through the land outside V. */
  ghost function Reached(rows: int, cols: int, land: set<Point>, V: set<Point>, s: Point): set<Point>
  {
    set v | v in land - V && Connected(BfsAdj(rows, cols), land - V, s, v)
  }

  /** The search from start before each dequeue: V0 was visited before it
    * began; each cell it has visited since is land it can reach; those cells
    * are the dequeued ones (done) and the queued ones; and every land step
    * from a dequeued cell ends at a visited cell. */
  ghost predicate Searching(rows: int, cols: int, land: set<Point>, V0: set<Point>, start: Point,
                            visited: set<Point>, queue: seq<Point>, done: set<Point>)
  {
    V0 <= visited && start in visited && start !in V0 &&
    (forall v :: v in visited && v !in V0 ==> v in land && Connected(BfsAdj(rows, cols), land - V0, start, v)) &&
    (forall v :: v in visited && v !in V0 <==> v in done || v in queue) &&
    (forall v, w {:trigger BfsAdj(rows, cols)(v, w)} :: v in done && w in land && BfsAdj(rows, cols)(v, w) ==> w in visited)
  }

  /** What one pass over the neighbours of cur does: it visits exactly the
    * land cells one search step from cur that were not visited yet, and
    * queues exactly those. */
  ghost predicate Visits(rows: int, cols: int, land: set<Point>, cur: Point,
                         visited: set<Point>, queue: seq<Point>, visited': set<Point>, queue': seq<Point>)
  {
    visited <= visited' &&
    (forall w :: w in visited' && w !in visited ==> w in land && BfsAdj(rows, cols)(cur, w)) &&
    (forall w {:trigger BfsAdj(rows, cols)(cur, w)} :: w in land && BfsAdj(rows, cols)(cur, w) ==> w in visited') &&
    (forall w :: w in queue' <==> w in queue || (w in visited' && w !in visited)) &&
    |queue'| == |queue| + |visited' - visited|
  }

  /** dirs lists the four directions, in some order. */
  ghost predicate FourDirs(dirs: seq<(int, int)>)
  {
    forall d :: d in Dirs4 <==> d in dirs
  }

  /** The pass over the neighbours of cur after the first i directions of
    * dirs: what it visited and queued are the unvisited land cells among
    * those i neighbours on the grid. */
  ghost predicate Visiting(rows: int, cols: int, land: set<Point>, cur: Point, dirs: seq<(int, int)>, i: int,
                           visited: set<Point>, queue: seq<Point>, visited': set<Point>, queue': seq<Point>)
  {
    0 <= i <= |dirs| && FourDirs(dirs) && visited <= visited' &&
    (forall w :: w in visited' && w !in visited ==> w in land && BfsAdj(rows, cols)(cur, w)) &&
    (forall j :: 0 <= j < i ==>
       var w := Point(cur.x + dirs[j].0, cur.y + dirs[j].1);
       InBounds(rows, cols, w) && w in land ==> w in visited') &&
    (forall w :: w in queue' <==> w in queue || (w in visited' && w !in visited)) &&
    |queue'| == |queue| + |visited' - visited|
  }

  lemma VisitingStart(rows: int, cols: int, land: set<Point>, cur: Point, dirs: seq<(int, int)>,
                      visited: set<Point>, queue: seq<Point>)
    requires FourDirs(dirs)
    ensures Visiting(rows, cols, land, cur, dirs, 0, visited, queue, visited, queue)
  {
    assert visited - visited == {};
  }

  /** The i-th neighbour is on the grid, land and unvisited: it is visited
    * and queued. */
  lemma VisitingAdd(rows: int, cols: int, land: set<Point>, cur: Point, dirs: seq<(int, int)>, i: int,
                    visited: set<Point>, queue: seq<Point>, visited': set<Point>, queue': seq<Point>, next: Point)
    requires Visiting(rows, cols, land, cur, dirs, i, visited, queue, visited', queue') && i < |dirs|
    requires next == Point(cur.x + dirs[i].0, cur.y + dirs[i].1)
    requires InBounds(rows, cols, next) && next in land && next !in visited'
    ensures Visiting(rows, cols, land, cur, dirs, i + 1, visited, queue, visited' + {next}, queue' + [next])
  {
    assert Diff(cur, next) == dirs[i];
    assert visited' + {next} - visited == (visited' - visited) + {next};
  }

  /** The i-th neighbour is off the grid, water or visited: nothing changes. */
  lemma VisitingSkip(rows: int, cols: int, land: set<Point>, cur: Point, dirs: seq<(int, int)>, i: int,
                     visited: set<Point>, queue: seq<Point>, visited': set<Point>, queue': seq<Point>)
    requires Visiting(rows, cols, land, cur, dirs, i, visited, queue, visited', queue') && i < |dirs|
    requires var next := Point(cur.x + dirs[i].0, cur.y + dirs[i].1);
      !(InBounds(rows, cols, next) && next in land && next !in visited')
    ensures Visiting(rows, cols, land, cur, dirs, i + 1, visited, queue, visited', queue')
  {
  }

  lemma VisitingDone(rows: int, cols: int, land: set<Point>, cur: Point, dirs: seq<(int, int)>,
                     visited: set<Point>, queue: seq<Point>, visited': set<Point>, queue': seq<Point>)
    requires Visiting(rows, cols, land, cur, dirs, |dirs|, visited, queue, visited', queue')
    ensures Visits(rows, cols, land, cur, visited, queue, visited', queue')
  {
    AllDirections(dirs, rows, cols, land, cur, visited');
  }

  /** A search step lands on cur plus one of dirs, when dirs lists the four
    * directions. */
  lemma StepDirection(dirs: seq<(int, int)>, rows: int, cols: int, cur: Point, w: Point)
    requires FourDirs(dirs)
    requires BfsAdj(rows, cols)(cur, w)
    ensures exists j :: 0 <= j < |dirs| && w == Point(cur.x + dirs[j].0, cur.y + dirs[j].1)
  {
    var j :| 0 <= j < |dirs| && dirs[j] == Diff(cur, w);
    assert w == Point(cur.x + dirs[j].0, cur.y + dirs[j].1);
  }

  /** The neighbours of cur in dirs, each visited if on the grid and land,
    * cover every search step from cur into the land. */
  lemma AllDirections(dirs: seq<(int, int)>, rows: int, cols: int, land: set<Point>, cur: Point, visited: set<Point>)
    requires FourDirs(dirs)
    requires forall j :: 0 <= j < |dirs| ==>
      var w := Point(cur.x + dirs[j].0, cur.y + dirs[j].1);
      InBounds(rows, cols, w) && w in land ==> w in visited
    ensures forall w {:trigger BfsAdj(rows, cols)(cur, w)} :: w in land && BfsAdj(rows, cols)(cur, w) ==> w in visited
  {
    forall w | w in land && BfsAdj(rows, cols)(cur, w) ensures w in visited {
      StepDirection(dirs, rows, cols, cur, w);
    }
  }

  /** A pass over the neighbours either leaves the visited cells as they
    * were or leaves less unvisited land. */
  lemma VisitsShrink(land: set<Point>, visited: set<Point>, visited': set<Point>)
    requires visited <= visited' && forall w :: w in visited' && w !in visited ==> w in land
    ensures visited' == visited || |land - visited'| < |land - visited|
  {
    if visited' != visited {
      var w :| w in visited' && w !in visited;
      assert w in land - visited && w !in land - visited';
      StrictSubsetSmaller(land - visited', land - visited);
    }
  }

  /** The search starts with start visited and queued. */
  lemma SearchStart(rows: int, cols: int, land: set<Point>, V0: set<Point>, start: Point)
    requires start in land && start !in V0
    ensures Searching(rows, cols, land, V0, start, V0 + {start}, [start], {})
  {
    ConnectedRefl(BfsAdj(rows, cols), land - V0, start);
  }

  /** Dequeuing cur and visiting its neighbours keeps the search state. */
  lemma SearchStep(rows: int, cols: int, land: set<Point>, V0: set<Point>, start: Point,
                   visited: set<Point>, queue: seq<Point>, done: set<Point>, visited': set<Point>, queue': seq<Point>)
    requires Searching(rows, cols, land, V0, start, visited, queue, done) && queue != []
    requires Visits(rows, cols, land, queue[0], visited, queue[1..], visited', queue')
    ensures Searching(rows, cols, land, V0, start, visited', queue', done + {queue[0]})
  {
    var adj, cur := BfsAdj(rows, cols), queue[0];
    forall v | v in visited' && v !in V0 ensures v in land && Connected(adj, land - V0, start, v) {
      if v !in visited {
        assert cur in visited && cur !in V0;
        ConnectedStep(adj, land - V0, start, cur, v);
      }
    }
    forall v ensures v in visited' && v !in V0 <==> v in done + {cur} || v in queue' {
      if v in queue {
        assert v == cur || v in queue[1..];
      }
    }
  }

  /** When the queue runs dry the search has visited exactly what it reaches. */
  lemma SearchDone(rows: int, cols: int, land: set<Point>, V0: set<Point>, start: Point,
                   visited: set<Point>, done: set<Point>)
    requires Searching(rows, cols, land, V0, start, visited, [], done)
    ensures visited == V0 + Reached(rows, cols, land, V0, start)
  {
    var adj, N := BfsAdj(rows, cols), visited - V0;
    assert ClosedIn(adj, land - V0, N) by {
      forall a, b | a in N && b in land - V0 && adj(a, b) ensures b in N {
        assert a in done;
      }
    }
    forall v | v in Reached(rows, cols, land, V0, start) ensures v in visited {
      ClosedContains(adj, land - V0, N, start, v);
    }
  }

  /** Two relations that agree on L have the same paths in L. */
  lemma ConnectedSwap<T(!new)>(adj: (T, T) -> bool, adj': (T, T) -> bool, L: set<T>, x: T, y: T)
    requires forall a, b :: a in L && b in L && adj(a, b) ==> adj'(a, b)
    requires Connected(adj, L, x, y)
    ensures Connected(adj', L, x, y)
  {
    var p :| IsPath(adj, L, p) && p[0] == x && p[|p| - 1] == y;
    assert IsPath(adj', L, p);
  }

  /** With the land on the grid and V a union of whole islands, a search
    * from an unvisited land cell reaches exactly its island. */
  lemma ReachedIsland(rows: int, cols: int, land: set<Point>, V: set<Point>, s: Point, v: Point)
    requires AllInBounds(rows, cols, land) && ClosedIn(OffsetAdj(Dirs4), land, V)
    requires s in land && s !in V
    ensures v in Reached(rows, cols, land, V, s) <==> v in land && Connected(OffsetAdj(Dirs4), land, s, v)
  {
    var adj, E := OffsetAdj(Dirs4), BfsAdj(rows, cols);
    if v in Reached(rows, cols, land, V, s) {
      ConnectedSwap(E, adj, land - V, s, v);
      ConnectedMono(adj, land - V, land, s, v);
    }
    if v in land && Connected(adj, land, s, v) {
      Dirs4Symmetric();
      AvoidsClosed(adj, land, V, s, v);
      ConnectedSwap(adj, E, land - V, s, v);
      ConnectedEnds(E, land - V, s, v);
    }
  }

  /** The counting loop's state: the visited cells are land and whole
    * islands (no step leaves them inside the land), R holds one start per
    * island among them, and count is their number. */
  ghost predicate Counting(land: set<Point>, visited: set<Point>, R: set<Point>, count: int)
  {
    visited <= land && ClosedIn(OffsetAdj(Dirs4), land, visited) && R <= visited &&
    (forall x :: x in visited ==> exists r :: r in R && Connected(OffsetAdj(Dirs4), land, x, r)) &&
    (forall r1, r2 :: r1 in R && r2 in R && Connected(OffsetAdj(Dirs4), land, r1, r2) ==> r1 == r2) &&
    count == |R|
  }

  lemma CountingStart(land: set<Point>)
    ensures Counting(land, {}, {}, 0)
  {
  }

  /** A search from an unvisited land cell adds one whole island and one to
    * the count. */
  lemma CountStep(rows: int, cols: int, land: set<Point>, V: set<Point>, R: set<Point>, count: int, p: Point)
    requires AllInBounds(rows, cols, land) && Counting(land, V, R, count) && p in land && p !in V
    ensures Counting(land, V + Reached(rows, cols, land, V, p), R + {p}, count + 1)
  {
    ReachedIslandAll(rows, cols, land, V, p);
    CountAdd(land, V, R, count, Reached(rows, cols, land, V, p), p);
  }

  /** Adding the island C of p to the visited cells adds one start. */
  lemma CountAdd(land: set<Point>, V: set<Point>, R: set<Point>, count: int, C: set<Point>, p: Point)
    requires Counting(land, V, R, count) && p in land && p !in V
    requires forall v :: v in C <==> v in land && Connected(OffsetAdj(Dirs4), land, p, v)
    ensures Counting(land, V + C, R + {p}, count + 1)
  {
    assert |R + {p}| == |R| + 1 by {
      assert p !in R;
    }
    Dirs4Symmetric();
    CountCloses(land, V, C, p);
    CountCovers(land, V, R, C, p);
    CountApart(land, V, R, p);
    ConnectedRefl(OffsetAdj(Dirs4), land, p);
    assert p in C;
    assert p !in R;
  }

  lemma ReachedIslandAll(rows: int, cols: int, land: set<Point>, V: set<Point>, s: Point)
    requires AllInBounds(rows, cols, land) && ClosedIn(OffsetAdj(Dirs4), land, V)
    requires s in land && s !in V
    ensures forall v :: v in Reached(rows, cols, land, V, s) <==> v in land && Connected(OffsetAdj(Dirs4), land, s, v)
  {
    forall v ensures v in Reached(rows, cols, land, V, s) <==> v in land && Connected(OffsetAdj(Dirs4), land, s, v) {
      ReachedIsland(rows, cols, land, V, s, v);
    }
  }

  lemma CountCloses(land: set<Point>, V: set<Point>, C: set<Point>, p: Point)
    requires ClosedIn(OffsetAdj(Dirs4), land, V)
    requires forall v :: v in C <==> v in land && Connected(OffsetAdj(Dirs4), land, p, v)
    ensures ClosedIn(OffsetAdj(Dirs4), land, V + C)
  {
    var adj := OffsetAdj(Dirs4);
    forall a, b | a in V + C && b in land && adj(a, b) ensures b in V + C {
      if a !in V {
        ConnectedStep(adj, land, p, a, b);
      }
    }
  }

  lemma CountCovers(land: set<Point>, V: set<Point>, R: set<Point>, C: set<Point>, p: Point)
    requires Symmetric(OffsetAdj(Dirs4)) && p in land
    requires forall x :: x in V ==> exists r :: r in R && Connected(OffsetAdj(Dirs4), land, x, r)
    requires forall v :: v in C <==> v in land && Connected(OffsetAdj(Dirs4), land, p, v)
    ensures forall x :: x in V + C ==> exists r :: r in R + {p} && Connected(OffsetAdj(Dirs4), land, x, r)
  {
    var adj := OffsetAdj(Dirs4);
    forall x | x in V + C ensures exists r :: r in R + {p} && Connected(adj, land, x, r) {
      if x in V {
        var r :| r in R && Connected(adj, land, x, r);
        assert r in R + {p};
      } else {
        ConnectedSym(adj, land, p, x);
        assert p in R + {p};
      }
    }
  }

  lemma CountApart(land: set<Point>, V: set<Point>, R: set<Point>, p: Point)
    requires Symmetric(OffsetAdj(Dirs4)) && ClosedIn(OffsetAdj(Dirs4), land, V) && R <= V && p !in V
    requires forall r1, r2 :: r1 in R && r2 in R && Connected(OffsetAdj(Dirs4), land, r1, r2) ==> r1 == r2
    ensures forall r1, r2 :: r1 in R + {p} && r2 in R + {p} && Connected(OffsetAdj(Dirs4), land, r1, r2) ==> r1 == r2
  {
    var adj := OffsetAdj(Dirs4);
    forall r1, r2 | r1 in R + {p} && r2 in R + {p} && Connected(adj, land, r1, r2) ensures r1 == r2 {
      if r1 == p && r2 != p {
        ConnectedSym(adj, land, r1, r2);
        ClosedContains(adj, land, V, r2, p);
      } else if r2 == p && r1 != p {
        ClosedContains(adj, land, V, r1, p);
      }
    }
  }

  /** Once every land cell is visited, count is the number of islands. */
  lemma CountDone(land: set<Point>, R: set<Point>, count: int)
    requires Counting(land, land, R, count)
    ensures ComponentCount(OffsetAdj(Dirs4), land, count)
  {
    assert Representatives(OffsetAdj(Dirs4), land, R);
  }
}
