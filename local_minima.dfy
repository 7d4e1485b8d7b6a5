/** Local minima of an array, by a linear scan and by a binary search, a
  * local minimum of a grid found by a best-first search from a start cell,
  * and the k smallest local-minimum values kept in a bounded max-heap. */
module LocalMinima {
  import opened Wrappers

  // ----- one dimension -----

  /** Index `i` of the first `n` entries of `s` is a local minimum: no
    * neighbour inside [0, n) is strictly smaller. */
  predicate IsLocalMin(s: seq<int>, n: int, i: int) {
    0 <= i < n <= |s| &&
    (i == 0 || s[i - 1] >= s[i]) &&
    (i == n - 1 || s[i] <= s[i + 1])
  }

  /** Index of a least entry of s[lo..hi]. */
  function ArgMin(s: seq<int>, lo: nat, hi: nat): (m: nat)
    requires lo < hi <= |s|
    ensures lo <= m < hi
    ensures forall j :: lo <= j < hi ==> s[m] <= s[j]
    decreases hi - lo
  {
    if lo + 1 == hi then lo
    else
      var m := ArgMin(s, lo + 1, hi);
      if s[lo] <= s[m] then lo else m
  }

  /** Every non-empty prefix has a local minimum: a least entry is one. */
  lemma LocalMinExists(s: seq<int>, n: int)
    requires 1 <= n <= |s|
    ensures IsLocalMin(s, n, ArgMin(s, 0, n))
  {
  }

  /** The O(n) scan: every index whose neighbours are not smaller, in
    * ascending order. */
  method AllLocalMinima(n: int, a: array<int>) returns (ans: seq<int>)
    requires n <= a.Length
    ensures forall p, q :: 0 <= p < q < |ans| ==> ans[p] < ans[q]
    ensures forall i :: i in ans <==> IsLocalMin(a[..], n, i)
  {
    ans := [];
    var i := 0;
    while i < n
      invariant 0 <= i <= if n < 0 then 0 else n
      invariant forall p, q :: 0 <= p < q < |ans| ==> ans[p] < ans[q]
      invariant forall p :: 0 <= p < |ans| ==> ans[p] < i
      invariant forall j :: j in ans <==> j < i && IsLocalMin(a[..], n, j)
    {
      var isLeftOk := i == 0 || a[i - 1] >= a[i];
      var isRightOk := i == n - 1 || a[i] <= a[i + 1];
      if isLeftOk && isRightOk {
        ans := ans + [i];
      }
      i := i + 1;
    }
  }

  /** The O(log n) search: a local minimum when n >= 1, and -1 only for an
    * empty range. */
  method ALocalMinima(n: int, a: array<int>) returns (r: int)
    requires n <= a.Length
    ensures n >= 1 ==> IsLocalMin(a[..], n, r)
    ensures n <= 0 ==> r == -1
  {
    var lo, hi := 0, n - 1;
    while lo <= hi
      invariant 0 <= lo && hi <= n - 1 && (n >= 0 ==> lo <= hi + 1)
      invariant lo == 0 || (lo < n && a[lo - 1] > a[lo])
      invariant hi == n - 1 || (0 <= hi && a[hi] < a[hi + 1])
      decreases hi - lo
    {
      var mid := (lo + hi) / 2;
      var isLeftOk := mid == 0 || a[mid - 1] >= a[mid];
      var isRightOk := mid == n - 1 || a[mid] <= a[mid + 1];
      if isLeftOk && isRightOk {
        return mid;
      }
      if mid > 0 && a[mid - 1] < a[mid] {
        hi := mid - 1;
      } else {
        lo := mid + 1;
      }
    }
    return -1;
  }

  /** The two examples of `main`. */
  lemma Examples()
    ensures forall i :: IsLocalMin([4, 8, 2, 10], 4, i) <==> i == 0 || i == 2
    ensures forall i :: IsLocalMin([7, 3, 5, 7, 9, 0, 2], 7, i) <==> i == 1 || i == 5
  {
  }

  // ----- two dimensions -----

  /** A queued cell: its value, row, column and Manhattan distance from the
    * start cell. */
  datatype Point = Point(val: int, r: int, c: int, dist: int)

  /** The queue's order: nearer first, then smaller value. */
  predicate Before(p: Point, q: Point) {
    p.dist < q.dist || (p.dist == q.dist && p.val <= q.val)
  }

  /** The index `poll` takes: the first entry that is `Before` every other. */
  function FirstMin(pq: seq<Point>): (m: nat)
    requires |pq| > 0
    ensures m < |pq|
    ensures forall j :: 0 <= j < |pq| ==> Before(pq[m], pq[j])
  {
    if |pq| == 1 then 0
    else
      var m := FirstMin(pq[1..]) + 1;
      if Before(pq[0], pq[m]) then 0 else m
  }

  /** Row and column steps of the four neighbours. */
  const DX: seq<int> := [0, 0, -1, 1]
  const DY: seq<int> := [1, -1, 0, 0]

  /** A grid is a non-empty list of rows, all as long as the first. */
  predicate Rectangular(g: seq<seq<int>>) {
    |g| > 0 && forall i :: 0 <= i < |g| ==> |g[i]| == |g[0]|
  }

  predicate InGrid(g: seq<seq<int>>, r: int, c: int)
    requires Rectangular(g)
  {
    0 <= r < |g| && 0 <= c < |g[0]|
  }

  /** No in-grid 4-neighbour of (r, c) holds a value below `v`. */
  predicate NoSmallerNeighbour(g: seq<seq<int>>, r: int, c: int, v: int)
    requires Rectangular(g)
  {
    forall d :: 0 <= d < 4 && InGrid(g, r + DX[d], c + DY[d]) ==> g[r + DX[d]][c + DY[d]] >= v
  }

  /** A queued point describes its own cell. */
  predicate Describes(g: seq<seq<int>>, p: Point)
    requires Rectangular(g)
  {
    InGrid(g, p.r, p.c) && p.val == g[p.r][p.c]
  }

  function Abs(x: int): nat {
    if x < 0 then -x else x
  }

  /** The first loop over the four directions: false as soon as an in-grid
    * neighbour is below `v`. */
  method CheckNeighbours(g: seq<seq<int>>, r: int, c: int, v: int) returns (isLocal: bool)
    requires Rectangular(g)
    ensures isLocal == NoSmallerNeighbour(g, r, c, v)
  {
    isLocal := true;
    var i := 0;
    while i < 4
      invariant 0 <= i <= 4
      invariant forall d :: 0 <= d < i && InGrid(g, r + DX[d], c + DY[d]) ==> g[r + DX[d]][c + DY[d]] >= v
    {
      var nr, nc := r + DX[i], c + DY[i];
      if 0 <= nr && 0 <= nc && nr < |g| && nc < |g[0]| {
        if g[nr][nc] < v {
          return false;
        }
      }
      i := i + 1;
    }
  }

  /** (r, c) is an in-grid cell not yet visited. */
  predicate Open(g: seq<seq<int>>, vis: array2<bool>, r: int, c: int)
    requires Rectangular(g) && vis.Length0 == |g| && vis.Length1 == |g[0]|
    reads vis
  {
    InGrid(g, r, c) && !vis[r, c]
  }

  /** The points queued for the first n of the four directions around
    * (r, c): each open neighbour, with its value and its Manhattan distance
    * from (x, y). */
  function Neighbours(g: seq<seq<int>>, vis: array2<bool>, r: int, c: int, x: int, y: int, n: nat): seq<Point>
    requires Rectangular(g) && vis.Length0 == |g| && vis.Length1 == |g[0]| && n <= 4
    reads vis
  {
    if n == 0 then []
    else
      var nr, nc := r + DX[n - 1], c + DY[n - 1];
      Neighbours(g, vis, r, c, x, y, n - 1) +
        if Open(g, vis, nr, nc) then [Point(g[nr][nc], nr, nc, Abs(nr - x) + Abs(nc - y))] else []
  }

  /** The queued points are exactly the open 4-neighbours of (r, c), each
    * describing its cell and carrying its distance from (x, y). */
  lemma {:induction false} NeighboursAre(g: seq<seq<int>>, vis: array2<bool>, r: int, c: int, x: int, y: int, n: nat)
    requires Rectangular(g) && vis.Length0 == |g| && vis.Length1 == |g[0]| && n <= 4
    ensures forall p :: p in Neighbours(g, vis, r, c, x, y, n) ==>
      Describes(g, p) && !vis[p.r, p.c] && Abs(p.r - r) + Abs(p.c - c) == 1 &&
      p.dist == Abs(p.r - x) + Abs(p.c - y)
    ensures forall d :: 0 <= d < n && Open(g, vis, r + DX[d], c + DY[d]) ==>
      Point(g[r + DX[d]][c + DY[d]], r + DX[d], c + DY[d], Abs(r + DX[d] - x) + Abs(c + DY[d] - y))
        in Neighbours(g, vis, r, c, x, y, n)
  {
    if n > 0 {
      NeighboursAre(g, vis, r, c, x, y, n - 1);
    }
  }

  /** The second loop over the four directions: queue every in-grid unseen
    * neighbour, in direction order, with its distance from (x, y). */
  method QueueNeighbours(g: seq<seq<int>>, vis: array2<bool>, pq: seq<Point>, r: int, c: int, x: int, y: int)
    returns (pq': seq<Point>)
    requires Rectangular(g)
    requires vis.Length0 == |g| && vis.Length1 == |g[0]|
    ensures pq' == pq + Neighbours(g, vis, r, c, x, y, |DX|)
  {
    pq' := pq;
    var i := 0;
    while i < 4
      invariant 0 <= i <= 4
      invariant pq' == pq + Neighbours(g, vis, r, c, x, y, i)
    {
      var nr, nc := r + DX[i], c + DY[i];
      if 0 <= nr && 0 <= nc && nr < |g| && nc < |g[0]| && !vis[nr, nc] {
        var newDist := Abs(nr - x) + Abs(nc - y);
        pq' := pq' + [Point(g[nr][nc], nr, nc, newDist)];
      }
      i := i + 1;
    }
  }

  /** Best-first search from (x, y): poll the nearest, then smallest, cell;
    * skip it when seen; return it when no neighbour is smaller; otherwise
    * queue every unseen neighbour. `processed` lists the cells checked. A
    * start outside the grid fails on `arr[x][y]`. */
  method TwoDLocalMinima(x: int, y: int, g: seq<seq<int>>) returns (res: Result<Option<Point>>, ghost processed: seq<(int, int)>)
    requires forall i :: 0 <= i < |g| ==> |g[i]| == |g[0]|
    ensures res.Err? <==> !(0 <= x < |g| && 0 <= y < |g[x]|)
    ensures res.Err? ==> res.error == ArrayIndexOutOfBoundsException
    ensures res.Ok? ==> (res.value.Some? &&
      Rectangular(g) && Describes(g, res.value.value) &&
      NoSmallerNeighbour(g, res.value.value.r, res.value.value.c, res.value.value.val))
    ensures forall p, q :: 0 <= p < q < |processed| ==> processed[p] != processed[q]
    ensures forall p :: 0 <= p < |processed| ==> 0 <= processed[p].0 < |g| && 0 <= processed[p].1 < |g[0]|
  {
    if !(0 <= x < |g| && 0 <= y < |g[x]|) {
      return Err(ArrayIndexOutOfBoundsException), [];
    }
    var found;
    found, processed := Search(x, y, g);
    res := Ok(found);
  }

  /** `QueueNeighbours`, seen from the search loop: the queue keeps its
    * points, gains exactly the open neighbours, and gains only points of
    * open cells. */
  method QueueOpen(g: seq<seq<int>>, vis: array2<bool>, pq: seq<Point>, r: int, c: int, x: int, y: int)
    returns (pq': seq<Point>)
    requires Rectangular(g) && vis.Length0 == |g| && vis.Length1 == |g[0]|
    ensures pq' == pq + Neighbours(g, vis, r, c, x, y, |DX|)
    ensures forall p :: p in pq' ==> p in pq || (Describes(g, p) && !vis[p.r, p.c])
  {
    pq' := QueueNeighbours(g, vis, pq, r, c, x, y);
    NeighboursAre(g, vis, r, c, x, y, |DX|);
  }

  /** The search loop's invariant: queued points describe their cells,
    * every unseen cell is still counted in `unvisited`, and the processed
    * cells are distinct, in the grid and marked seen. */
  ghost predicate SearchInv(g: seq<seq<int>>, vis: array2<bool>, pq: seq<Point>,
    unvisited: set<(int, int)>, processed: seq<(int, int)>)
    requires Rectangular(g) && vis.Length0 == |g| && vis.Length1 == |g[0]|
    reads vis
  {
    (forall p :: p in pq ==> Describes(g, p)) &&
    (forall i, j :: InGrid(g, i, j) && !vis[i, j] ==> (i, j) in unvisited) &&
    (forall p :: 0 <= p < |processed| ==>
      InGrid(g, processed[p].0, processed[p].1) && vis[processed[p].0, processed[p].1]) &&
    (forall p, q :: 0 <= p < q < |processed| ==> processed[p] != processed[q])
  }

  /** Polling removes one entry and keeps the others. */
  lemma DropAt(pq: seq<Point>, m: nat)
    requires m < |pq|
    ensures forall p :: p in pq[..m] + pq[m + 1..] ==> p in pq
    ensures |pq[..m] + pq[m + 1..]| < |pq|
  {
  }

  /** Some queued point is for the cell (i, j). */
  ghost predicate Queued(pq: seq<Point>, i: int, j: int) {
    exists p :: p in pq && p.r == i && p.c == j
  }

  lemma QueuedAppend(pq: seq<Point>, more: seq<Point>, i: int, j: int)
    requires Queued(pq, i, j)
    ensures Queued(pq + more, i, j)
  {
    var p :| p in pq && p.r == i && p.c == j;
    assert p in pq + more;
  }

  /** Every in-grid 4-neighbour of a checked cell is checked or queued. */
  ghost predicate Closed(g: seq<seq<int>>, seen: set<(int, int)>, pq: seq<Point>)
    requires Rectangular(g)
  {
    forall i, j, d :: (i, j) in seen && 0 <= d < 4 && InGrid(g, i + DX[d], j + DY[d]) ==>
      (i + DX[d], j + DY[d]) in seen || Queued(pq, i + DX[d], j + DY[d])
  }

  /** Polling entry m keeps every other cell queued. */
  lemma {:induction false} DropQueued(pq: seq<Point>, m: nat)
    requires m < |pq|
    ensures forall i, j :: Queued(pq, i, j) && (i, j) != (pq[m].r, pq[m].c) ==> Queued(pq[..m] + pq[m + 1..], i, j)
  {
    forall i, j | Queued(pq, i, j) && (i, j) != (pq[m].r, pq[m].c)
      ensures Queued(pq[..m] + pq[m + 1..], i, j)
    {
      var p :| p in pq && p.r == i && p.c == j;
      var k :| 0 <= k < |pq| && pq[k] == p;
      assert k != m;
      if k < m {
        assert (pq[..m] + pq[m + 1..])[k] == p;
      } else {
        assert (pq[..m] + pq[m + 1..])[k - 1] == p;
      }
    }
  }

  /** Every open neighbour of (r, c) has a point among those queued for it. */
  lemma OpenQueued(g: seq<seq<int>>, vis: array2<bool>, r: int, c: int, x: int, y: int)
    requires Rectangular(g) && vis.Length0 == |g| && vis.Length1 == |g[0]|
    ensures forall d :: 0 <= d < 4 && Open(g, vis, r + DX[d], c + DY[d]) ==>
      Queued(Neighbours(g, vis, r, c, x, y, |DX|), r + DX[d], c + DY[d])
  {
    NeighboursAre(g, vis, r, c, x, y, |DX|);
    forall d | 0 <= d < 4 && Open(g, vis, r + DX[d], c + DY[d])
      ensures Queued(Neighbours(g, vis, r, c, x, y, |DX|), r + DX[d], c + DY[d])
    {
      var p := Point(g[r + DX[d]][c + DY[d]], r + DX[d], c + DY[d], Abs(r + DX[d] - x) + Abs(c + DY[d] - y));
      assert p in Neighbours(g, vis, r, c, x, y, |DX|);
    }
  }

  /** Checking the polled cell (r, c), now marked in `vis`, and queueing its
    * open neighbours keeps the checked cells closed. */
  lemma CheckedClosed(g: seq<seq<int>>, vis: array2<bool>, seen: set<(int, int)>, pq: seq<Point>,
    popped: seq<Point>, added: seq<Point>, r: int, c: int)
    requires Rectangular(g) && vis.Length0 == |g| && vis.Length1 == |g[0]| && Closed(g, seen, pq)
    requires forall i, j :: InGrid(g, i, j) ==> (vis[i, j] <==> (i, j) in seen + {(r, c)})
    requires forall i, j :: Queued(pq, i, j) && (i, j) != (r, c) ==> Queued(popped, i, j)
    requires forall d :: 0 <= d < 4 && Open(g, vis, r + DX[d], c + DY[d]) ==> Queued(added, r + DX[d], c + DY[d])
    ensures Closed(g, seen + {(r, c)}, popped + added)
  {
    forall i, j, d | (i, j) in seen + {(r, c)} && 0 <= d < 4 && InGrid(g, i + DX[d], j + DY[d]) &&
      (i + DX[d], j + DY[d]) !in seen + {(r, c)}
      ensures Queued(popped + added, i + DX[d], j + DY[d])
    {
      var ni, nj := i + DX[d], j + DY[d];
      if (i, j) in seen {
        assert Queued(popped, ni, nj);
        var p :| p in popped && p.r == ni && p.c == nj;
        assert p in popped + added;
      } else {
        assert Open(g, vis, ni, nj);
        var p :| p in added && p.r == ni && p.c == nj;
        assert p in popped + added;
      }
    }
  }

  /** A skipped poll of an already checked cell keeps the checked cells
    * closed. */
  lemma SkippedClosed(g: seq<seq<int>>, seen: set<(int, int)>, pq: seq<Point>, popped: seq<Point>, r: int, c: int)
    requires Rectangular(g) && Closed(g, seen, pq) && (r, c) in seen
    requires forall i, j :: Queued(pq, i, j) && (i, j) != (r, c) ==> Queued(popped, i, j)
    ensures Closed(g, seen, popped)
  {
  }

  /** Among checked cells closed under in-grid neighbours, one of least
    * value has no smaller neighbour. */
  lemma {:induction false} ClosedHasLocalMin(g: seq<seq<int>>, seen: set<(int, int)>, x: int, y: int)
    requires Rectangular(g) && (x, y) in seen && Closed(g, seen, [])
    requires forall i, j :: (i, j) in seen ==> InGrid(g, i, j)
    ensures exists i, j :: (i, j) in seen && InGrid(g, i, j) && NoSmallerNeighbour(g, i, j, g[i][j])
  {
    var bi, bj := x, y;
    var i := 0;
    while i < |g|
      invariant 0 <= i <= |g|
      invariant (bi, bj) in seen && InGrid(g, bi, bj)
      invariant forall a, b :: 0 <= a < i && 0 <= b < |g[0]| && (a, b) in seen ==> g[bi][bj] <= g[a][b]
    {
      var j := 0;
      while j < |g[0]|
        invariant 0 <= j <= |g[0]|
        invariant (bi, bj) in seen && InGrid(g, bi, bj)
        invariant forall a, b :: 0 <= a < i && 0 <= b < |g[0]| && (a, b) in seen ==> g[bi][bj] <= g[a][b]
        invariant forall b :: 0 <= b < j && (i, b) in seen ==> g[bi][bj] <= g[i][b]
      {
        if (i, j) in seen && g[i][j] < g[bi][bj] {
          bi, bj := i, j;
        }
        j := j + 1;
      }
      i := i + 1;
    }
    forall d | 0 <= d < 4 && InGrid(g, bi + DX[d], bj + DY[d])
      ensures g[bi + DX[d]][bj + DY[d]] >= g[bi][bj]
    {
      assert (bi + DX[d], bj + DY[d]) in seen || Queued([], bi + DX[d], bj + DY[d]);
    }
  }

  /** Marks the polled unseen cell (r, c) and checks it; when it is not a
    * local minimum its open neighbours are queued. */
  method Visit(g: seq<seq<int>>, vis: array2<bool>, pq: seq<Point>, front: Point, x: int, y: int,
    ghost unvisited: set<(int, int)>, ghost processed: seq<(int, int)>)
    returns (isLocal: bool, pq': seq<Point>, ghost unvisited': set<(int, int)>, ghost processed': seq<(int, int)>)
    requires Rectangular(g) && vis.Length0 == |g| && vis.Length1 == |g[0]|
    requires Describes(g, front) && !vis[front.r, front.c]
    requires SearchInv(g, vis, pq, unvisited, processed)
    modifies vis
    ensures forall i, j :: 0 <= i < |g| && 0 <= j < |g[0]| ==>
      vis[i, j] == (old(vis[i, j]) || (i, j) == (front.r, front.c))
    ensures SearchInv(g, vis, pq', unvisited', processed')
    ensures |unvisited'| < |unvisited|
    ensures processed' == processed + [(front.r, front.c)]
    ensures isLocal == NoSmallerNeighbour(g, front.r, front.c, front.val)
    ensures pq' == if isLocal then pq else pq + Neighbours(g, vis, front.r, front.c, x, y, |DX|)
  {
    var r, c := front.r, front.c;
    assert (r, c) in unvisited;
    vis[r, c] := true;
    unvisited' := unvisited - {(r, c)};
    processed' := processed + [(r, c)];
    assert forall p :: 0 <= p < |processed| ==> processed[p] != (r, c);
    isLocal := CheckNeighbours(g, r, c, front.val);
    pq' := pq;
    if !isLocal {
      pq' := QueueOpen(g, vis, pq, r, c, x, y);
    }
  }

  /** The checked cells are exactly the cells marked in `vis`. */
  ghost predicate Marked(g: seq<seq<int>>, vis: array2<bool>, seen: set<(int, int)>)
    requires Rectangular(g) && vis.Length0 == |g| && vis.Length1 == |g[0]|
    reads vis
  {
    forall i, j :: InGrid(g, i, j) ==> (vis[i, j] <==> (i, j) in seen)
  }

  /** No checked cell is a local minimum. */
  ghost predicate NoneLocal(g: seq<seq<int>>, seen: set<(int, int)>)
    requires Rectangular(g)
  {
    forall i, j :: (i, j) in seen ==> InGrid(g, i, j) && !NoSmallerNeighbour(g, i, j, g[i][j])
  }

  /** The search loop's full invariant: `SearchInv`, the checked cells are
    * the marked ones, none of them is a local minimum, they are closed under
    * neighbours up to the queue, and the start is checked or queued. */
  ghost predicate Searching(g: seq<seq<int>>, vis: array2<bool>, pq: seq<Point>, x: int, y: int,
    unvisited: set<(int, int)>, processed: seq<(int, int)>, seen: set<(int, int)>)
    requires Rectangular(g) && vis.Length0 == |g| && vis.Length1 == |g[0]|
    reads vis
  {
    SearchInv(g, vis, pq, unvisited, processed) && Marked(g, vis, seen) && NoneLocal(g, seen) &&
    Closed(g, seen, pq) && ((x, y) in seen || Queued(pq, x, y))
  }

  /** `poll`: takes the entry `FirstMin` picks out of the queue. Every other
    * queued cell stays queued. */
  method Poll(g: seq<seq<int>>, pq: seq<Point>) returns (front: Point, popped: seq<Point>)
    requires Rectangular(g) && |pq| > 0 && forall p :: p in pq ==> Describes(g, p)
    ensures front == pq[FirstMin(pq)] && popped == pq[..FirstMin(pq)] + pq[FirstMin(pq) + 1..]
    ensures Describes(g, front) && |popped| < |pq|
    ensures forall p :: p in popped ==> p in pq
    ensures forall i, j :: Queued(pq, i, j) && (i, j) != (front.r, front.c) ==> Queued(popped, i, j)
  {
    var m := FirstMin(pq);
    front := pq[m];
    assert front in pq;
    DropAt(pq, m);
    DropQueued(pq, m);
    popped := pq[..m] + pq[m + 1..];
  }

  /** The rest of a turn for an unseen polled cell: check it, and either
    * return it or queue its neighbours. */
  method CheckFront(g: seq<seq<int>>, vis: array2<bool>, pq: seq<Point>, popped: seq<Point>, front: Point,
    x: int, y: int, ghost unvisited: set<(int, int)>, ghost processed: seq<(int, int)>, ghost seen: set<(int, int)>)
    returns (found: Option<Point>, pq': seq<Point>,
      ghost unvisited': set<(int, int)>, ghost processed': seq<(int, int)>, ghost seen': set<(int, int)>)
    requires Rectangular(g) && vis.Length0 == |g| && vis.Length1 == |g[0]|
    requires Searching(g, vis, pq, x, y, unvisited, processed, seen)
    requires Describes(g, front) && !vis[front.r, front.c]
    requires forall p :: p in popped ==> p in pq
    requires forall i, j :: Queued(pq, i, j) && (i, j) != (front.r, front.c) ==> Queued(popped, i, j)
    modifies vis
    ensures SearchInv(g, vis, pq', unvisited', processed')
    ensures found.Some? ==> Describes(g, found.value) && NoSmallerNeighbour(g, found.value.r, found.value.c, found.value.val)
    ensures found.None? ==> Searching(g, vis, pq', x, y, unvisited', processed', seen')
    ensures |unvisited'| < |unvisited|
  {
    var isLocal;
    isLocal, pq', unvisited', processed' := Visit(g, vis, popped, front, x, y, unvisited, processed);
    seen' := seen + {(front.r, front.c)};
    if isLocal {
      return Some(front), pq', unvisited', processed', seen';
    }
    assert Marked(g, vis, seen') by {
      forall i, j | InGrid(g, i, j)
        ensures vis[i, j] <==> (i, j) in seen'
      {
      }
    }
    Resume(g, vis, pq, popped, pq', front.r, front.c, x, y, unvisited', processed', seen);
    found := None;
  }

  /** After a checked cell (r, c) that is not a local minimum has queued
    * its open neighbours, the search invariant holds again with (r, c)
    * among the checked cells. */
  lemma Resume(g: seq<seq<int>>, vis: array2<bool>, pq: seq<Point>, popped: seq<Point>, pq': seq<Point>,
    r: int, c: int, x: int, y: int, unvisited: set<(int, int)>, processed: seq<(int, int)>, seen: set<(int, int)>)
    requires Rectangular(g) && vis.Length0 == |g| && vis.Length1 == |g[0]| && InGrid(g, r, c)
    requires SearchInv(g, vis, pq', unvisited, processed) && Marked(g, vis, seen + {(r, c)})
    requires NoneLocal(g, seen) && !NoSmallerNeighbour(g, r, c, g[r][c])
    requires Closed(g, seen, pq) && ((x, y) in seen || Queued(pq, x, y))
    requires forall i, j :: Queued(pq, i, j) && (i, j) != (r, c) ==> Queued(popped, i, j)
    requires pq' == popped + Neighbours(g, vis, r, c, x, y, |DX|)
    ensures Searching(g, vis, pq', x, y, unvisited, processed, seen + {(r, c)})
  {
    OpenQueued(g, vis, r, c, x, y);
    CheckedClosed(g, vis, seen, pq, popped, Neighbours(g, vis, r, c, x, y, |DX|), r, c);
    if (x, y) !in seen + {(r, c)} {
      QueuedAppend(popped, Neighbours(g, vis, r, c, x, y, |DX|), x, y);
    }
  }

  /** One turn of the search loop: poll the front, skip it when seen,
    * otherwise check it and either return it or queue its neighbours. */
  method SearchStep(g: seq<seq<int>>, vis: array2<bool>, pq: seq<Point>, x: int, y: int,
    ghost unvisited: set<(int, int)>, ghost processed: seq<(int, int)>, ghost seen: set<(int, int)>)
    returns (found: Option<Point>, pq': seq<Point>,
      ghost unvisited': set<(int, int)>, ghost processed': seq<(int, int)>, ghost seen': set<(int, int)>)
    requires Rectangular(g) && vis.Length0 == |g| && vis.Length1 == |g[0]| && |pq| > 0
    requires Searching(g, vis, pq, x, y, unvisited, processed, seen)
    modifies vis
    ensures SearchInv(g, vis, pq', unvisited', processed')
    ensures found.Some? ==> Describes(g, found.value) && NoSmallerNeighbour(g, found.value.r, found.value.c, found.value.val)
    ensures found.None? ==> Searching(g, vis, pq', x, y, unvisited', processed', seen')
    ensures |unvisited'| < |unvisited| || (|unvisited'| == |unvisited| && |pq'| < |pq|)
  {
    var front, popped := Poll(g, pq);
    if vis[front.r, front.c] {
      SkippedClosed(g, seen, pq, popped, front.r, front.c);
      return None, popped, unvisited, processed, seen;
    }
    found, pq', unvisited', processed', seen' := CheckFront(g, vis, pq, popped, front, x, y, unvisited, processed, seen);
  }

  /** The search loop, from an in-grid start. Every checked cell that is not
    * a local minimum queues its unchecked neighbours, so the checked cells
    * stay closed under neighbours while the queue lasts; a least of them
    * would be a local minimum, so the loop always returns a cell. */
  method Search(x: int, y: int, g: seq<seq<int>>) returns (res: Option<Point>, ghost processed: seq<(int, int)>)
    requires Rectangular(g) && InGrid(g, x, y)
    ensures res.Some?
    ensures Describes(g, res.value) && NoSmallerNeighbour(g, res.value.r, res.value.c, res.value.val)
    ensures forall p, q :: 0 <= p < q < |processed| ==> processed[p] != processed[q]
    ensures forall p :: 0 <= p < |processed| ==> InGrid(g, processed[p].0, processed[p].1)
  {
    var pq := [Point(g[x][y], x, y, 0)];
    var vis := new bool[|g|, |g[0]|]((i, j) => false);
    ghost var unvisited := set i, j | 0 <= i < |g| && 0 <= j < |g[0]| :: (i, j);
    ghost var seen: set<(int, int)> := {};
    processed := [];
    assert pq[0] in pq;
    while |pq| > 0
      invariant Searching(g, vis, pq, x, y, unvisited, processed, seen)
      decreases |unvisited|, |pq|
    {
      var found;
      found, pq, unvisited, processed, seen := SearchStep(g, vis, pq, x, y, unvisited, processed, seen);
      if found.Some? {
        return found, processed;
      }
    }
    ClosedHasLocalMin(g, seen, x, y);
    assert false;
    return None, processed;
  }

  // ----- the k smallest local minima -----

  /** The values at the local minima among the first `m` indices of `s`,
    * taking the whole of `s` as the range. */
  function MinimaValues(s: seq<int>, m: nat): multiset<int>
    requires m <= |s|
  {
    if m == 0 then multiset{}
    else MinimaValues(s, m - 1) + (if IsLocalMin(s, |s|, m - 1) then multiset{s[m - 1]} else multiset{})
  }

  /** Index of a largest entry of a non-empty sequence. */
  function MaxIndex(h: seq<int>): (m: nat)
    requires |h| > 0
    ensures m < |h|
    ensures forall j :: 0 <= j < |h| ==> h[j] <= h[m]
  {
    if |h| == 1 then 0
    else
      var m := MaxIndex(h[1..]) + 1;
      if h[0] >= h[m] then 0 else m
  }

  /** The heap `h` holds the `k` smallest values of `all`, or all of them
    * when there are fewer than `k`. */
  predicate KeepsSmallest(h: multiset<int>, all: multiset<int>, k: int) {
    h <= all &&
    |h| == (if k < 0 then 0 else if k < |all| then k else |all|) &&
    forall u, w :: u in h && w in all - h ==> u <= w
  }

  lemma SameSize(small: multiset<int>, big: multiset<int>)
    requires small <= big && |small| == |big|
    ensures small == big
  {
    var rest := big - small;
    assert big == small + rest;
  }

  /** While the heap holds fewer than `k`, it holds every value, and adding
    * one more keeps it so. */
  lemma KeepAll(h: multiset<int>, all: multiset<int>, k: int, v: int)
    requires KeepsSmallest(h, all, k) && |h| < k
    ensures KeepsSmallest(h + multiset{v}, all + multiset{v}, k)
  {
    SameSize(h, all);
    assert (all + multiset{v}) - (h + multiset{v}) == multiset{};
  }

  /** Once the heap holds `k`, adding a value and dropping the largest of
    * the k + 1 keeps the k smallest. */
  lemma DropLargest(h: multiset<int>, all: multiset<int>, k: int, v: int, big: int)
    requires KeepsSmallest(h, all, k) && |h| + 1 > k
    requires big in h + multiset{v}
    requires forall u :: u in h + multiset{v} ==> u <= big
    ensures KeepsSmallest(h + multiset{v} - multiset{big}, all + multiset{v}, k)
  {
    var kept := h + multiset{v} - multiset{big};
    var all' := all + multiset{v};
    assert all' - kept == (all - h) + multiset{big};
    forall u, w | u in kept && w in all' - kept
      ensures u <= w
    {
      if w != big {
        assert w in all - h;
        if u !in h {
          assert u == v;
          assert big in h;
        }
      }
    }
  }

  /** Removing one entry removes one copy of it from the multiset. */
  lemma RemoveAt(h: seq<int>, m: nat)
    requires m < |h|
    ensures multiset(h[..m] + h[m + 1..]) == multiset(h) - multiset{h[m]}
  {
    assert h == h[..m] + [h[m]] + h[m + 1..];
  }

  /** The heap step of the loop: push `v`, and pop the largest when the
    * heap holds more than `k`. */
  function Push(heap: seq<int>, v: int, k: int): seq<int>
  {
    var h := heap + [v];
    if |h| > k then
      var m := MaxIndex(h);
      h[..m] + h[m + 1..]
    else h
  }

  lemma PushKeeps(heap: seq<int>, all: multiset<int>, k: int, v: int)
    requires KeepsSmallest(multiset(heap), all, k)
    ensures KeepsSmallest(multiset(Push(heap, v, k)), all + multiset{v}, k)
  {
    var h := heap + [v];
    assert multiset(h) == multiset(heap) + multiset{v};
    if |h| > k {
      var m := MaxIndex(h);
      RemoveAt(h, m);
      assert h[m] in multiset(h);
      forall u | u in multiset(h)
        ensures u <= h[m]
      {
        var j :| 0 <= j < |h| && h[j] == u;
      }
      DropLargest(multiset(heap), all, k, v, h[m]);
    } else {
      KeepAll(multiset(heap), all, k, v);
    }
  }

  /** `maxHeap.add(v)` followed, when the heap holds more than `k`, by
    * `maxHeap.poll()`, which removes a largest value. */
  method Offer(heap: seq<int>, v: int, k: int) returns (heap': seq<int>)
    ensures heap' == Push(heap, v, k)
  {
    heap' := heap + [v];
    if |heap'| > k {
      var m := MaxIndex(heap');
      heap' := heap'[..m] + heap'[m + 1..];
    }
  }

  /** One step of the loop at a local minimum keeps the heap invariant. */
  lemma MinimaStep(s: seq<int>, i: nat, before: seq<int>, after: seq<int>, k: int)
    requires i < |s| && IsLocalMin(s, |s|, i)
    requires KeepsSmallest(multiset(before), MinimaValues(s, i), k)
    requires after == Push(before, s[i], k)
    ensures KeepsSmallest(multiset(after), MinimaValues(s, i + 1), k)
  {
    PushKeeps(before, MinimaValues(s, i), k, s[i]);
  }

  /** A step of the loop away from a local minimum leaves the values alone. */
  lemma MinimaSkip(s: seq<int>, i: nat)
    requires i < |s| && !IsLocalMin(s, |s|, i)
    ensures MinimaValues(s, i + 1) == MinimaValues(s, i)
  {
  }

  /** The bounded max-heap: push the value at each local minimum and pop the
    * largest whenever the heap holds more than `k`. The result is the heap's
    * contents. */
  method KLocalMinima(a: array<int>, k: int) returns (res: seq<int>)
    ensures KeepsSmallest(multiset(res), MinimaValues(a[..], a.Length), k)
  {
    ghost var s := a[..];
    var heap: seq<int> := [];
    var n := a.Length;
    var i := 0;
    while i < n
      invariant 0 <= i <= n
      invariant KeepsSmallest(multiset(heap), MinimaValues(s, i), k)
    {
      var leftOk := i == 0 || a[i - 1] >= a[i];
      var rightOk := i == n - 1 || a[i] <= a[i + 1];
      ghost var before := heap;
      if leftOk && rightOk {
        heap := Offer(heap, a[i], k);
        MinimaStep(s, i, before, heap, k);
      } else {
        MinimaSkip(s, i);
      }
      i := i + 1;
    }
    res := heap;
  }
}
