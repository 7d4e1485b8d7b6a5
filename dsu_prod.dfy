/**
 * NumberOfIslands/DSUProd.java: dynamic island counting on an unbounded grid.
 * Cells are added one at a time; each new cell becomes a class of its own in
 * a disjoint-set forest and is unioned with its land neighbours in the four
 * directions. The count rises by one per new cell and falls by one per
 * successful union, so it stays the number of four-connected islands.
 */
module DsuProd {
  import opened Connectivity
  import opened UnionFind
  import opened Islands

  class Terrain {
    const dsu: Dsu<Point>
    var land: set<Point>
    var islandCount: int
    /** The default four-direction neighbourhood. */
    const dirs: seq<(int, int)>

    /** The forest holds exactly the land, partitions it into its
      * components under the dirs adjacency and islandCount is their number. */
    ghost predicate Valid()
      reads this, dsu
    {
      ClosedUnderNegation(dirs) &&
      dsu.Valid() && Counted(dsu.parent, dsu.rank, OffsetAdj(dirs), land, islandCount)
    }

    constructor()
      ensures Valid() && fresh(dsu) && land == {} && islandCount == 0 && dirs == Dirs4
    {
      dsu := new Dsu();
      land, islandCount := {}, 0;
      dirs := Dirs4;
      Dirs4Closed();
      CountedEmpty(OffsetAdj(Dirs4));
    }

    /** addLand: existing land is left as it is; a new cell joins the land. */
    method AddLand(x: int, y: int)
      requires Valid()
      modifies this, dsu
      ensures Valid()
      ensures land == old(land) + {Point(x, y)}
      ensures Point(x, y) in old(land) ==> unchanged(this, dsu)
    {
      var p := Point(x, y);
      if p in land {
        return;
      }
      NewLand(p);
    }

    /** addLand on a new cell: it joins the land and is unioned with each of
      * its land neighbours in turn. */
    method NewLand(p: Point)
      requires Valid() && p !in land
      modifies this, dsu
      ensures Valid() && land == old(land) + {p}
    {
      ghost var L := land;
      var ns := Neighbours(p, dirs);
      NewCell(p, L);
      SymmetricOffsets(dirs);
      NeighboursAdjacent(p, dirs, L + {p});
      islandCount := LinkNeighbours(dsu, land, p, ns, OffsetAdj(dirs), islandCount, L);
      LinkDone(dsu.parent, dsu.rank, OffsetAdj(dirs), L, p, ns, islandCount);
    }

    /** The start of addLand for a new cell: it joins the land as a class of
      * its own and the count rises by one. */
    method NewCell(p: Point, ghost L: set<Point>)
      requires Valid() && land == L && p !in L
      modifies this, dsu
      ensures dsu.Valid() && land == L + {p}
      ensures Linking(dsu.parent, dsu.rank, OffsetAdj(dirs), L, p, Neighbours(p, dirs), 0, islandCount)
    {
      ghost var parent0, rank0, count0 := dsu.parent, dsu.rank, islandCount;
      SymmetricOffsets(dirs);
      NeighboursAdjacent(p, dirs, L + {p});
      LinkStart(parent0, rank0, OffsetAdj(dirs), L, p, Neighbours(p, dirs), count0);
      land := land + {p};
      assert dsu.parent == parent0 && dsu.rank == rank0;
      dsu.MakeSet(p);
      islandCount := islandCount + 1;
    }

    /** getIslands: the number of components of the land. */
    function GetIslands(): (n: int)
      reads this, dsu
      requires Valid()
      ensures ComponentCount(OffsetAdj(dirs), land, n)
    {
      CountedCount(dsu.parent, dsu.rank, OffsetAdj(dirs), land, islandCount);
      islandCount
    }
  }

  /** The island counts of the driver in DSUProd.java: land at (0,0), (0,1),
    * (2,2), (2,1) gives 1, 1, 2, 2 islands. */
  method Scenario() returns (counts: seq<int>)
    ensures counts == [1, 1, 2, 2]
  {
    var t := new Terrain();
    var c1 := StepOne(t);
    var c2 := StepTwo(t);
    var c3 := StepThree(t);
    var c4 := StepFour(t);
    counts := [c1, c2, c3, c4];
  }

  /** getIslands on a four-direction terrain whose land is known to have n
    * islands returns n. */
  method IslandsOf(t: Terrain, ghost n: int) returns (c: int)
    requires t.Valid() && t.dirs == Dirs4 && ComponentCount(OffsetAdj(Dirs4), t.land, n)
    ensures c == n
  {
    c := t.GetIslands();
    Dirs4Symmetric();
    ComponentCountUnique(OffsetAdj(Dirs4), t.land, c, n);
  }

  method StepOne(t: Terrain) returns (c: int)
    requires t.Valid() && t.dirs == Dirs4 && t.land == {}
    modifies t, t.dsu
    ensures t.Valid() && t.land == {Point(0, 0)} && c == 1
  {
    ghost var L := t.land;
    assert L + {Point(0, 0)} == {Point(0, 0)};
    t.AddLand(0, 0);
    CountOne();
    c := IslandsOf(t, 1);
  }

  method StepTwo(t: Terrain) returns (c: int)
    requires t.Valid() && t.dirs == Dirs4 && t.land == {Point(0, 0)}
    modifies t, t.dsu
    ensures t.Valid() && t.land == {Point(0, 0), Point(0, 1)} && c == 1
  {
    ghost var L := t.land;
    assert L + {Point(0, 1)} == {Point(0, 0), Point(0, 1)};
    t.AddLand(0, 1);
    CountTwo();
    c := IslandsOf(t, 1);
  }

  method StepThree(t: Terrain) returns (c: int)
    requires t.Valid() && t.dirs == Dirs4 && t.land == {Point(0, 0), Point(0, 1)}
    modifies t, t.dsu
    ensures t.Valid() && t.land == {Point(0, 0), Point(0, 1), Point(2, 2)} && c == 2
  {
    ghost var L := t.land;
    assert L + {Point(2, 2)} == {Point(0, 0), Point(0, 1), Point(2, 2)};
    t.AddLand(2, 2);
    CountThree();
    c := IslandsOf(t, 2);
  }

  method StepFour(t: Terrain) returns (c: int)
    requires t.Valid() && t.dirs == Dirs4 && t.land == {Point(0, 0), Point(0, 1), Point(2, 2)}
    modifies t, t.dsu
    ensures t.Valid() && t.land == {Point(0, 0), Point(0, 1), Point(2, 2), Point(2, 1)} && c == 2
  {
    ghost var L := t.land;
    assert L + {Point(2, 1)} == {Point(0, 0), Point(0, 1), Point(2, 2), Point(2, 1)};
    t.AddLand(2, 1);
    CountFour();
    c := IslandsOf(t, 2);
  }

  lemma CountOne()
    ensures ComponentCount(OffsetAdj(Dirs4), {Point(0, 0)}, 1)
  {
    ConnectedRefl(OffsetAdj(Dirs4), {Point(0, 0)}, Point(0, 0));
    OneComponent(OffsetAdj(Dirs4), {Point(0, 0)}, Point(0, 0));
  }

  lemma CountTwo()
    ensures ComponentCount(OffsetAdj(Dirs4), {Point(0, 0), Point(0, 1)}, 1)
  {
    var adj, a, b := OffsetAdj(Dirs4), Point(0, 0), Point(0, 1);
    var L := {a, b};
    ConnectedRefl(adj, L, a);
    assert adj(b, a);
    assert IsPath(adj, L, [b, a]);
    OneComponent(adj, L, a);
  }

  lemma CountThree()
    ensures ComponentCount(OffsetAdj(Dirs4), {Point(0, 0), Point(0, 1), Point(2, 2)}, 2)
  {
    var adj, a, b, c := OffsetAdj(Dirs4), Point(0, 0), Point(0, 1), Point(2, 2);
    var L := {a, b, c};
    ConnectedRefl(adj, L, a);
    ConnectedRefl(adj, L, c);
    assert adj(b, a);
    assert IsPath(adj, L, [b, a]);
    assert !adj(a, c) && !adj(b, c) && !adj(c, a) && !adj(c, b);
    TwoComponents(adj, L, {a, b}, {c}, a, c);
  }

  lemma CountFour()
    ensures ComponentCount(OffsetAdj(Dirs4), {Point(0, 0), Point(0, 1), Point(2, 2), Point(2, 1)}, 2)
  {
    var adj, a, b, c, d := OffsetAdj(Dirs4), Point(0, 0), Point(0, 1), Point(2, 2), Point(2, 1);
    var L := {a, b, c, d};
    ConnectedRefl(adj, L, a);
    ConnectedRefl(adj, L, c);
    assert adj(b, a) && adj(d, c);
    assert IsPath(adj, L, [b, a]);
    assert IsPath(adj, L, [d, c]);
    assert !adj(a, c) && !adj(b, c) && !adj(c, a) && !adj(c, b);
    assert !adj(a, d) && !adj(b, d) && !adj(d, a) && !adj(d, b);
    TwoComponents(adj, L, {a, b}, {c, d}, a, c);
  }
}
