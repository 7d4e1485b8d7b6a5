/**
 * NumberOfIslands/DSU3D.java: the dynamic island counter in three
 * dimensions. The terrain is built with its own list of direction offsets;
 * addLand makes the new point a class of its own and unions it with each
 * land point one offset away. The class invariant is the one of the
 * two-dimensional counter, over Point3 and the adjacency the offsets induce.
 */
module Dsu3D {
  import opened Connectivity
  import opened UnionFind
  import opened Islands

  /** Main3D's six axis directions. */
  const Dirs6: seq<(int, int, int)> := [(1, 0, 0), (-1, 0, 0), (0, 1, 0), (0, -1, 0), (0, 0, 1), (0, 0, -1)]

  class Terrain3D {
    const dsu: Dsu<Point3>
    var land: set<Point3>
    var islandCount: int
    const dirs: seq<(int, int, int)>

    /** The forest holds exactly the land, partitions it into its
      * components under the dirs adjacency and islandCount is their number. */
    ghost predicate Valid()
      reads this, dsu
    {
      ClosedUnderNegation3(dirs) &&
      dsu.Valid() && Counted(dsu.parent, dsu.rank, OffsetAdj3(dirs), land, islandCount)
    }

    constructor(dirs: seq<(int, int, int)>)
      requires ClosedUnderNegation3(dirs)
      ensures Valid() && fresh(dsu) && land == {} && islandCount == 0 && this.dirs == dirs
    {
      dsu := new Dsu();
      land, islandCount := {}, 0;
      this.dirs := dirs;
      CountedEmpty(OffsetAdj3(dirs));
    }

    /** addLand: existing land is left as it is; a new point joins the land. */
    method AddLand(x: int, y: int, z: int)
      requires Valid()
      modifies this, dsu
      ensures Valid()
      ensures land == old(land) + {Point3(x, y, z)}
      ensures Point3(x, y, z) in old(land) ==> unchanged(this, dsu)
    {
      var p := Point3(x, y, z);
      if p in land {
        return;
      }
      NewLand(p);
    }

    /** addLand on a new point: it joins the land and is unioned with each of
      * its land neighbours in turn. */
    method NewLand(p: Point3)
      requires Valid() && p !in land
      modifies this, dsu
      ensures Valid() && land == old(land) + {p}
    {
      ghost var L := land;
      var ns := Neighbours3(p, dirs);
      NewCell(p, L);
      SymmetricOffsets3(dirs);
      NeighboursAdjacent3(p, dirs, L + {p});
      islandCount := LinkNeighbours(dsu, land, p, ns, OffsetAdj3(dirs), islandCount, L);
      LinkDone(dsu.parent, dsu.rank, OffsetAdj3(dirs), L, p, ns, islandCount);
    }

    /** The start of addLand for a new point: it joins the land as a class of
      * its own and the count rises by one. */
    method NewCell(p: Point3, ghost L: set<Point3>)
      requires Valid() && land == L && p !in L
      modifies this, dsu
      ensures dsu.Valid() && land == L + {p}
      ensures Linking(dsu.parent, dsu.rank, OffsetAdj3(dirs), L, p, Neighbours3(p, dirs), 0, islandCount)
    {
      ghost var parent0, rank0, count0 := dsu.parent, dsu.rank, islandCount;
      SymmetricOffsets3(dirs);
      NeighboursAdjacent3(p, dirs, L + {p});
      LinkStart(parent0, rank0, OffsetAdj3(dirs), L, p, Neighbours3(p, dirs), count0);
      land := land + {p};
      assert dsu.parent == parent0 && dsu.rank == rank0;
      dsu.MakeSet(p);
      islandCount := islandCount + 1;
    }

    /** getIslands: the number of components of the land. */
    function GetIslands(): (n: int)
      reads this, dsu
      requires Valid()
      ensures ComponentCount(OffsetAdj3(dirs), land, n)
    {
      CountedCount(dsu.parent, dsu.rank, OffsetAdj3(dirs), land, islandCount);
      islandCount
    }
  }

  /** The driver in DSU3D.java: with the six axis directions, land at
    * (0,0,0), (1,0,0) and (0,1,0) is one island. */
  method Demo() returns (n: int)
    ensures n == 1
  {
    var a, b, c := Point3(0, 0, 0), Point3(1, 0, 0), Point3(0, 1, 0);
    Dirs6Closed();
    var t := new Terrain3D(Dirs6);
    AddStep(t, 0, 0, 0, {}, {a});
    AddStep(t, 1, 0, 0, {a}, {a, b});
    AddStep(t, 0, 1, 0, {a, b}, {a, b, c});
    n := DemoIslands(t);
  }

  /** The six axis directions come in opposite pairs. */
  lemma Dirs6Closed()
    ensures ClosedUnderNegation3(Dirs6)
  {
    assert Neg3(Dirs6[0]) == Dirs6[1] && Neg3(Dirs6[1]) == Dirs6[0];
    assert Neg3(Dirs6[2]) == Dirs6[3] && Neg3(Dirs6[3]) == Dirs6[2];
    assert Neg3(Dirs6[4]) == Dirs6[5] && Neg3(Dirs6[5]) == Dirs6[4];
  }

  /** One addLand of the driver, with the land before and after named. */
  method AddStep(t: Terrain3D, x: int, y: int, z: int, ghost L: set<Point3>, ghost L': set<Point3>)
    requires t.Valid() && t.land == L && L + {Point3(x, y, z)} == L'
    modifies t, t.dsu
    ensures t.Valid() && t.land == L'
  {
    t.AddLand(x, y, z);
  }

  /** getIslands at the end of the driver. */
  method DemoIslands(t: Terrain3D) returns (n: int)
    requires t.Valid() && t.dirs == Dirs6
    requires t.land == {Point3(0, 0, 0), Point3(1, 0, 0), Point3(0, 1, 0)}
    ensures n == 1
  {
    n := t.GetIslands();
    DemoCount();
    SymmetricOffsets3(Dirs6);
    ComponentCountUnique(OffsetAdj3(Dirs6), t.land, n, 1);
  }

  /** The three points are one component: both others touch the origin. */
  lemma DemoCount()
    ensures ComponentCount(OffsetAdj3(Dirs6), {Point3(0, 0, 0), Point3(1, 0, 0), Point3(0, 1, 0)}, 1)
  {
    var adj, a, b, c := OffsetAdj3(Dirs6), Point3(0, 0, 0), Point3(1, 0, 0), Point3(0, 1, 0);
    var L := {a, b, c};
    ConnectedRefl(adj, L, a);
    assert adj(b, a) && adj(c, a);
    assert IsPath(adj, L, [b, a]);
    assert IsPath(adj, L, [c, a]);
    OneComponent(adj, L, a);
  }
}
