/**
 * What the dynamic island counters share: grid points, the adjacency a list
 * of direction offsets induces, and the proof steps of the addLand loop
 * (make the new cell a class of its own, then union it with each land
 * neighbour), stated once over the value-level disjoint-set forest.
 */
module Islands {
  import opened Connectivity
  import opened UnionFind

  /** NumberOfIslands/DSUProd.java's Point (value equality). */
  datatype Point = Point(x: int, y: int)

  /** NumberOfIslands/DSU3D.java's Point3D (value equality). */
  datatype Point3 = Point3(x: int, y: int, z: int)

  /** The four-direction neighbourhood {1,0},{-1,0},{0,1},{0,-1}. */
  const Dirs4: seq<(int, int)> := [(1, 0), (-1, 0), (0, 1), (0, -1)]

  /** The offset from a to b. */
  function Diff(a: Point, b: Point): (int, int)
  {
    (b.x - a.x, b.y - a.y)
  }

  function Diff3(a: Point3, b: Point3): (int, int, int)
  {
    (b.x - a.x, b.y - a.y, b.z - a.z)
  }

  function Neg(d: (int, int)): (int, int)
  {
    (-d.0, -d.1)
  }

  function Neg3(d: (int, int, int)): (int, int, int)
  {
    (-d.0, -d.1, -d.2)
  }

  /** b lies one of dirs away from a. */
  ghost function OffsetAdj(dirs: seq<(int, int)>): (Point, Point) -> bool
  {
    (a: Point, b: Point) => Diff(a, b) in dirs
  }

  ghost function OffsetAdj3(dirs: seq<(int, int, int)>): (Point3, Point3) -> bool
  {
    (a: Point3, b: Point3) => Diff3(a, b) in dirs
  }

  /** Every direction's opposite is a direction too. */
  predicate ClosedUnderNegation(dirs: seq<(int, int)>)
  {
    forall i :: 0 <= i < |dirs| ==> Neg(dirs[i]) in dirs
  }

  predicate ClosedUnderNegation3(dirs: seq<(int, int, int)>)
  {
    forall i :: 0 <= i < |dirs| ==> Neg3(dirs[i]) in dirs
  }

  /** The four axis directions come in opposite pairs. */
  lemma Dirs4Closed()
    ensures ClosedUnderNegation(Dirs4)
  {
    assert Neg(Dirs4[0]) == Dirs4[1] && Neg(Dirs4[1]) == Dirs4[0];
    assert Neg(Dirs4[2]) == Dirs4[3] && Neg(Dirs4[3]) == Dirs4[2];
  }

  /** With directions closed under negation, adjacency is symmetric. */
  lemma SymmetricOffsets(dirs: seq<(int, int)>)
    requires ClosedUnderNegation(dirs)
    ensures Symmetric(OffsetAdj(dirs))
  {
    forall a: Point, b: Point | Diff(a, b) in dirs ensures Diff(b, a) in dirs {
      OppositeOffset(dirs, a, b);
    }
  }

  lemma OppositeOffset(dirs: seq<(int, int)>, a: Point, b: Point)
    requires ClosedUnderNegation(dirs) && Diff(a, b) in dirs
    ensures Diff(b, a) in dirs
  {
    NegIn(dirs, Diff(a, b));
    assert Neg(Diff(a, b)) == Diff(b, a);
  }

  lemma NegIn(dirs: seq<(int, int)>, d: (int, int))
    requires ClosedUnderNegation(dirs) && d in dirs
    ensures Neg(d) in dirs
  {
    var i :| 0 <= i < |dirs| && dirs[i] == d;
  }

  lemma SymmetricOffsets3(dirs: seq<(int, int, int)>)
    requires ClosedUnderNegation3(dirs)
    ensures Symmetric(OffsetAdj3(dirs))
  {
    forall a: Point3, b: Point3 | Diff3(a, b) in dirs ensures Diff3(b, a) in dirs {
      OppositeOffset3(dirs, a, b);
    }
  }

  lemma OppositeOffset3(dirs: seq<(int, int, int)>, a: Point3, b: Point3)
    requires ClosedUnderNegation3(dirs) && Diff3(a, b) in dirs
    ensures Diff3(b, a) in dirs
  {
    NegIn3(dirs, Diff3(a, b));
    assert Neg3(Diff3(a, b)) == Diff3(b, a);
  }

  lemma NegIn3(dirs: seq<(int, int, int)>, d: (int, int, int))
    requires ClosedUnderNegation3(dirs) && d in dirs
    ensures Neg3(d) in dirs
  {
    var i :| 0 <= i < |dirs| && dirs[i] == d;
  }

  /** The four directions give an undirected grid. */
  lemma Dirs4Symmetric()
    ensures Symmetric(OffsetAdj(Dirs4))
  {
    Dirs4Closed();
    SymmetricOffsets(Dirs4);
  }

  /** The neighbours of p the loop visits, one per direction, in order. */
  function Neighbours(p: Point, dirs: seq<(int, int)>): (ns: seq<Point>)
    ensures |ns| == |dirs|
    ensures forall i :: 0 <= i < |dirs| ==> ns[i] == Point(p.x + dirs[i].0, p.y + dirs[i].1)
  {
    seq(|dirs|, i requires 0 <= i < |dirs| => Point(p.x + dirs[i].0, p.y + dirs[i].1))
  }

  /** The neighbours are exactly the points adjacent to p (here stated for
    * the members of any set L). */
  lemma NeighboursAdjacent(p: Point, dirs: seq<(int, int)>, L: set<Point>)
    ensures NeighbourList(OffsetAdj(dirs), L, p, Neighbours(p, dirs))
  {
    var ns := Neighbours(p, dirs);
    assert forall i :: 0 <= i < |dirs| ==> Diff(p, ns[i]) == dirs[i];
    assert forall q :: Diff(p, q) in dirs ==> q in ns by {
      forall q | Diff(p, q) in dirs ensures q in ns {
        var i :| 0 <= i < |dirs| && dirs[i] == Diff(p, q);
        assert ns[i] == q;
      }
    }
  }

  function Neighbours3(p: Point3, dirs: seq<(int, int, int)>): (ns: seq<Point3>)
    ensures |ns| == |dirs|
    ensures forall i :: 0 <= i < |dirs| ==> ns[i] == Point3(p.x + dirs[i].0, p.y + dirs[i].1, p.z + dirs[i].2)
  {
    seq(|dirs|, i requires 0 <= i < |dirs| => Point3(p.x + dirs[i].0, p.y + dirs[i].1, p.z + dirs[i].2))
  }

  lemma NeighboursAdjacent3(p: Point3, dirs: seq<(int, int, int)>, L: set<Point3>)
    ensures NeighbourList(OffsetAdj3(dirs), L, p, Neighbours3(p, dirs))
  {
    var ns := Neighbours3(p, dirs);
    assert forall i :: 0 <= i < |dirs| ==> Diff3(p, ns[i]) == dirs[i];
    assert forall q :: Diff3(p, q) in dirs ==> q in ns by {
      forall q | Diff3(p, q) in dirs ensures q in ns {
        var i :| 0 <= i < |dirs| && dirs[i] == Diff3(p, q);
        assert ns[i] == q;
      }
    }
  }

  /** Among the members of L, ns lists exactly the ones adjacent to p (it
    * may list other points too). */
  ghost predicate NeighbourList<T(!new)>(adj: (T, T) -> bool, L: set<T>, p: T, ns: seq<T>)
  {
    forall q {:trigger adj(p, q)} :: q in L ==> (adj(p, q) <==> q in ns)
  }

  /** The pairs between p and the members of L among ns that are still to be
    * unioned. */
  ghost function Pend<T>(L: set<T>, p: T, ns: seq<T>): set<(T, T)>
  {
    (set n | n in ns && n in L :: (p, n)) + (set n | n in ns && n in L :: (n, p))
  }

  /** The state of addLand's loop before the i-th neighbour: the forest holds
    * exactly the land L + {p}, partitions it apart from p's pairs with the
    * neighbours not yet visited, and count is its number of classes. */
  ghost predicate Linking<T(!new)>(parent: map<T, T>, rank: map<T, int>, adj: (T, T) -> bool,
                                   L: set<T>, p: T, ns: seq<T>, i: int, count: int)
  {
    0 <= i <= |ns| && parent.Keys == L + {p} &&
    PartitionsBut(parent, rank, adj, L + {p}, Pend(L, p, ns[i..])) &&
    count == |Roots(parent)|
  }

  /** The class invariant of every dynamic terrain: the forest holds exactly
    * the land, its classes are the land's components and count is their
    * number. */
  ghost predicate Counted<T(!new)>(parent: map<T, T>, rank: map<T, int>, adj: (T, T) -> bool,
                                   L: set<T>, count: int)
  {
    parent.Keys == L && Partitions(parent, rank, adj, L) && count == |Roots(parent)|
  }

  /** Such a count is the number of components. */
  lemma CountedCount<T(!new)>(parent: map<T, T>, rank: map<T, int>, adj: (T, T) -> bool, L: set<T>, count: int)
    requires Counted(parent, rank, adj, L, count)
    ensures ComponentCount(adj, L, count)
  {
    PartitionCount(parent, rank, adj, L);
    RootsInKeys(parent);
  }

  lemma RootsInKeys<T>(parent: map<T, T>)
    ensures RootsIn(parent, parent.Keys) == Roots(parent)
  {
  }

  /** The empty terrain. */
  lemma CountedEmpty<T(!new)>(adj: (T, T) -> bool)
    ensures Counted(map[], map[], adj, {}, 0)
  {
    var none: map<T, T> := map[];
    assert Roots(none) == {};
  }

  /** Roots of the old elements carry over to a forest that agrees on them. */
  lemma PartitionsTransfer<T(!new)>(parent: map<T, T>, rank: map<T, int>, parent': map<T, T>, rank': map<T, int>,
                                    adj: (T, T) -> bool, L: set<T>)
    requires Partitions(parent, rank, adj, L)
    requires Forest(parent', rank') && parent.Keys <= parent'.Keys
    requires forall y {:trigger Root(parent', rank', y)} :: y in parent ==> Root(parent', rank', y) == Root(parent, rank, y)
    ensures Partitions(parent', rank', adj, L)
  {
    TransferJoined(parent, rank, parent', rank', adj, L);
    forall x | x in L ensures Root(parent', rank', x) in L && Connected(adj, L, x, Root(parent', rank', x)) {
      assert Root(parent, rank, x) in L && Connected(adj, L, x, Root(parent, rank, x));
    }
  }

  lemma TransferJoined<T(!new)>(parent: map<T, T>, rank: map<T, int>, parent': map<T, T>, rank': map<T, int>,
                                adj: (T, T) -> bool, L: set<T>)
    requires Partitions(parent, rank, adj, L)
    requires Forest(parent', rank') && parent.Keys <= parent'.Keys
    requires forall y {:trigger Root(parent', rank', y)} :: y in parent ==> Root(parent', rank', y) == Root(parent, rank, y)
    ensures forall x, y {:trigger adj(x, y)} :: x in L && y in L && adj(x, y) && (x, y) !in {} ==>
       Root(parent', rank', x) == Root(parent', rank', y)
  {
    forall x, y | x in L && y in L && adj(x, y) && (x, y) !in {}
      ensures Root(parent', rank', x) == Root(parent', rank', y)
    {
      assert Root(parent, rank, x) == Root(parent, rank, y);
    }
  }

  /** After makeSet(p) for a new cell p, the loop invariant holds at the
    * first neighbour with one more class. */
  lemma LinkStart<T(!new)>(parent: map<T, T>, rank: map<T, int>, adj: (T, T) -> bool,
                           L: set<T>, p: T, ns: seq<T>, count: int)
    requires Symmetric(adj) && NeighbourList(adj, L + {p}, p, ns)
    requires Counted(parent, rank, adj, L, count) && p !in L
    ensures Forest(parent[p := p], rank[p := 0])
    ensures Linking(parent[p := p], rank[p := 0], adj, L, p, ns, 0, count + 1)
  {
    var parent', rank' := parent[p := p], rank[p := 0];
    MakeSetAll(parent, rank, p);
    PartitionsTransfer(parent, rank, parent', rank', adj, L);
    AddVertex(parent', rank', adj, L, p);
    AroundPend(adj, L, p, ns);
  }

  /** In an undirected graph, p's pairs with its neighbours in L are the
    * pending pairs of the full neighbour list. */
  lemma AroundPend<T(!new)>(adj: (T, T) -> bool, L: set<T>, p: T, ns: seq<T>)
    requires Symmetric(adj) && NeighbourList(adj, L + {p}, p, ns)
    ensures Around(adj, L, p) == Pend(L, p, ns[0..])
  {
    assert ns[0..] == ns;
  }

  /** The loop skips a neighbour that is not land. */
  lemma LinkSkip<T(!new)>(parent: map<T, T>, rank: map<T, int>, adj: (T, T) -> bool,
                          L: set<T>, p: T, ns: seq<T>, i: int, count: int)
    requires Linking(parent, rank, adj, L, p, ns, i, count) && i < |ns| && ns[i] !in L
    ensures Linking(parent, rank, adj, L, p, ns, i + 1, count)
  {
    PendNext(L, p, ns, i);
    Widen(parent, rank, adj, L + {p}, Pend(L, p, ns[i..]), Pend(L, p, ns[i + 1..]));
  }

  /** A union of p with its land neighbour ns[i] settles that pair; the count
    * drops by one exactly when two classes were joined. */
  lemma LinkUnion<T(!new)>(parent: map<T, T>, rank: map<T, int>, parent': map<T, T>, rank': map<T, int>,
                           adj: (T, T) -> bool, L: set<T>, p: T, ns: seq<T>, i: int, count: int,
                           merged: bool)
    requires Symmetric(adj) && NeighbourList(adj, L + {p}, p, ns)
    requires Linking(parent, rank, adj, L, p, ns, i, count) && i < |ns| && ns[i] in L + {p}
    requires Unioned(parent, rank, parent', rank', p, ns[i], merged)
    ensures Linking(parent', rank', adj, L, p, ns, i + 1, if merged then count - 1 else count)
  {
    var n := ns[i];
    var w := if rank[Root(parent, rank, p)] < rank[Root(parent, rank, n)] then Root(parent, rank, n) else Root(parent, rank, p);
    var L' := L + {p};
    assert adj(p, n);
    UnionStep(parent, rank, parent', rank', adj, L', Pend(L, p, ns[i..]), p, n, w);
    PendNext(L, p, ns, i);
    Widen(parent', rank', adj, L', Pend(L, p, ns[i..]) - {(p, n), (n, p)}, Pend(L, p, ns[i + 1..]));
    var rp, rn := Root(parent, rank, p), Root(parent, rank, n);
    if merged {
      var other := if w == rp then rn else rp;
      assert Roots(parent') == Roots(parent) - {other};
    } else {
      assert Roots(parent') == Roots(parent);
    }
  }

  /** A partition apart from fewer pairs is one apart from more. */
  lemma Widen<T(!new)>(parent: map<T, T>, rank: map<T, int>, adj: (T, T) -> bool,
                       L: set<T>, small: set<(T, T)>, big: set<(T, T)>)
    requires PartitionsBut(parent, rank, adj, L, small) && small <= big
    ensures PartitionsBut(parent, rank, adj, L, big)
  {
  }

  /** Past ns[i], only the pairs of ns[i] leave the pending set. */
  lemma PendNext<T>(L: set<T>, p: T, ns: seq<T>, i: int)
    requires 0 <= i < |ns|
    ensures Pend(L, p, ns[i..]) - {(p, ns[i]), (ns[i], p)} <= Pend(L, p, ns[i + 1..])
    ensures ns[i] !in L ==> Pend(L, p, ns[i..]) <= Pend(L, p, ns[i + 1..])
  {
    assert forall n :: n in ns[i..] ==> n == ns[i] || n in ns[i + 1..] by {
      assert ns[i..] == [ns[i]] + ns[i + 1..];
    }
  }

  /** After the last neighbour the forest partitions the land. */
  lemma LinkDone<T(!new)>(parent: map<T, T>, rank: map<T, int>, adj: (T, T) -> bool,
                          L: set<T>, p: T, ns: seq<T>, count: int)
    requires Linking(parent, rank, adj, L, p, ns, |ns|, count)
    ensures Counted(parent, rank, adj, L + {p}, count)
  {
    assert ns[|ns|..] == [];
    assert Pend(L, p, []) == {};
  }

  /** The invariant of a terrain whose forest has an element for every cell,
    * land or not (NumberOfIslands/DSUNonSparse.java): the elements outside
    * the land are classes of their own, the forest partitions the land into
    * its components, and count is the number of land classes. */
  ghost predicate CountedAmong<T(!new)>(parent: map<T, T>, rank: map<T, int>, adj: (T, T) -> bool,
                                        L: set<T>, count: int)
  {
    parent.Keys - L <= Roots(parent) && Partitions(parent, rank, adj, L) && count == |RootsIn(parent, L)|
  }

  /** The loop state of that terrain's addLand before the i-th neighbour. */
  ghost predicate LinkingAmong<T(!new)>(parent: map<T, T>, rank: map<T, int>, adj: (T, T) -> bool,
                                        L: set<T>, p: T, ns: seq<T>, i: int, count: int)
  {
    0 <= i <= |ns| && parent.Keys - (L + {p}) <= Roots(parent) &&
    PartitionsBut(parent, rank, adj, L + {p}, Pend(L, p, ns[i..])) &&
    count == |RootsIn(parent, L + {p})|
  }

  lemma CountedAmongCount<T(!new)>(parent: map<T, T>, rank: map<T, int>, adj: (T, T) -> bool, L: set<T>, count: int)
    requires CountedAmong(parent, rank, adj, L, count)
    ensures ComponentCount(adj, L, count)
  {
    PartitionCount(parent, rank, adj, L);
  }

  /** Marking the cell p as land: p is already a class of its own, so the
    * loop starts with one more land class. */
  lemma LinkStartAmong<T(!new)>(parent: map<T, T>, rank: map<T, int>, adj: (T, T) -> bool,
                                L: set<T>, p: T, ns: seq<T>, count: int)
    requires Symmetric(adj) && NeighbourList(adj, L + {p}, p, ns)
    requires CountedAmong(parent, rank, adj, L, count) && p in parent && p !in L
    ensures LinkingAmong(parent, rank, adj, L, p, ns, 0, count + 1)
  {
    assert p in Roots(parent);
    AddVertex(parent, rank, adj, L, p);
    AroundPend(adj, L, p, ns);
  }

  lemma LinkSkipAmong<T(!new)>(parent: map<T, T>, rank: map<T, int>, adj: (T, T) -> bool,
                               L: set<T>, p: T, ns: seq<T>, i: int, count: int)
    requires LinkingAmong(parent, rank, adj, L, p, ns, i, count) && i < |ns| && ns[i] !in L + {p}
    ensures LinkingAmong(parent, rank, adj, L, p, ns, i + 1, count)
  {
    PendNext(L, p, ns, i);
    Widen(parent, rank, adj, L + {p}, Pend(L, p, ns[i..]), Pend(L, p, ns[i + 1..]));
  }

  /** A union of p with its land neighbour ns[i]; the count of land classes
    * drops by one exactly when two were joined. */
  lemma LinkUnionAmong<T(!new)>(parent: map<T, T>, rank: map<T, int>, parent': map<T, T>, rank': map<T, int>,
                                adj: (T, T) -> bool, L: set<T>, p: T, ns: seq<T>, i: int, count: int,
                                merged: bool)
    requires Symmetric(adj) && NeighbourList(adj, L + {p}, p, ns)
    requires LinkingAmong(parent, rank, adj, L, p, ns, i, count) && i < |ns| && ns[i] in L + {p}
    requires Unioned(parent, rank, parent', rank', p, ns[i], merged)
    ensures LinkingAmong(parent', rank', adj, L, p, ns, i + 1, if merged then count - 1 else count)
  {
    var n := ns[i];
    var L' := L + {p};
    var rp, rn := Root(parent, rank, p), Root(parent, rank, n);
    var w := if rank[rp] < rank[rn] then rn else rp;
    assert adj(p, n);
    UnionStep(parent, rank, parent', rank', adj, L', Pend(L, p, ns[i..]), p, n, w);
    PendNext(L, p, ns, i);
    Widen(parent', rank', adj, L', Pend(L, p, ns[i..]) - {(p, n), (n, p)}, Pend(L, p, ns[i + 1..]));
    assert rp in L' && rn in L' && rp in Roots(parent) && rn in Roots(parent);
    if merged {
      var other := if w == rp then rn else rp;
      assert Roots(parent') == Roots(parent) - {other};
      RootsInDrop(parent, parent', L', other);
    } else {
      assert Roots(parent') == Roots(parent);
      RootsInSame(parent, parent', L');
    }
  }

  /** Losing the representative other, a member of L, loses one class of L. */
  lemma RootsInDrop<T>(parent: map<T, T>, parent': map<T, T>, L: set<T>, other: T)
    requires Roots(parent') == Roots(parent) - {other} && other in Roots(parent) && other in L
    ensures |RootsIn(parent', L)| == |RootsIn(parent, L)| - 1
  {
    assert RootsIn(parent, L) == Roots(parent) * L;
    assert RootsIn(parent', L) == Roots(parent') * L;
    assert RootsIn(parent', L) == RootsIn(parent, L) - {other};
  }

  lemma RootsInSame<T>(parent: map<T, T>, parent': map<T, T>, L: set<T>)
    requires Roots(parent') == Roots(parent)
    ensures RootsIn(parent', L) == RootsIn(parent, L)
  {
    assert RootsIn(parent, L) == Roots(parent) * L;
    assert RootsIn(parent', L) == Roots(parent') * L;
  }

  lemma LinkDoneAmong<T(!new)>(parent: map<T, T>, rank: map<T, int>, adj: (T, T) -> bool,
                               L: set<T>, p: T, ns: seq<T>, count: int)
    requires LinkingAmong(parent, rank, adj, L, p, ns, |ns|, count)
    ensures CountedAmong(parent, rank, adj, L + {p}, count)
  {
    assert ns[|ns|..] == [];
    assert Pend(L, p, []) == {};
  }

  /** addLand's loop: union p with each neighbour that is land, one class
    * less for each union that joined two. */
  method LinkNeighbours<T(!new)>(dsu: Dsu<T>, land: set<T>, p: T, ns: seq<T>, ghost adj: (T, T) -> bool,
                                 count: int, ghost L: set<T>) returns (count': int)
    requires Symmetric(adj) && NeighbourList(adj, L + {p}, p, ns) && land == L + {p}
    requires dsu.Valid() && Linking(dsu.parent, dsu.rank, adj, L, p, ns, 0, count)
    modifies dsu
    ensures dsu.Valid() && Linking(dsu.parent, dsu.rank, adj, L, p, ns, |ns|, count')
  {
    count' := count;
    for i := 0 to |ns|
      invariant dsu.Valid() && Linking(dsu.parent, dsu.rank, adj, L, p, ns, i, count')
    {
      count' := LinkNeighbour(dsu, land, p, ns, adj, count', L, i);
    }
  }

  /** One turn of addLand's loop. */
  method LinkNeighbour<T(!new)>(dsu: Dsu<T>, land: set<T>, p: T, ns: seq<T>, ghost adj: (T, T) -> bool,
                                count: int, ghost L: set<T>, i: int) returns (count': int)
    requires Symmetric(adj) && NeighbourList(adj, L + {p}, p, ns) && land == L + {p}
    requires dsu.Valid() && Linking(dsu.parent, dsu.rank, adj, L, p, ns, i, count) && i < |ns|
    modifies dsu
    ensures dsu.Valid() && Linking(dsu.parent, dsu.rank, adj, L, p, ns, i + 1, count')
  {
    count' := count;
    if ns[i] in land {
      ghost var parent0, rank0 := dsu.parent, dsu.rank;
      var merged := dsu.Union(p, ns[i]);
      if merged {
        count' := count - 1;
      }
      LinkUnion(parent0, rank0, dsu.parent, dsu.rank, adj, L, p, ns, i, count, merged);
    } else {
      LinkSkip(dsu.parent, dsu.rank, adj, L, p, ns, i, count);
    }
  }
}
