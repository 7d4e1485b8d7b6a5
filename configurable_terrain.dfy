/**
 * NumberOfIslands/ConfigurableTerrain.java: the dynamic island counter of
 * DSUProd.java with the neighbourhood passed to the constructor instead of
 * fixed to the four directions. It uses DSUProd.java's DSU and Point.
 */
module ConfigurableTerrain {
  import opened Connectivity
  import opened UnionFind
  import opened Islands

  class TerrainConfigurable {
    const dsu: Dsu<Point>
    var land: set<Point>
    var islandCount: int
    /** The offsets given at construction. */
    const dirs: seq<(int, int)>

    /** The forest holds exactly the land, partitions it into its
      * components under the dirs adjacency and islandCount is their number. */
    ghost predicate Valid()
      reads this, dsu
    {
      ClosedUnderNegation(dirs) &&
      dsu.Valid() && Counted(dsu.parent, dsu.rank, OffsetAdj(dirs), land, islandCount)
    }

    constructor(directions: seq<(int, int)>)
      requires ClosedUnderNegation(directions)
      ensures Valid() && fresh(dsu) && land == {} && islandCount == 0 && dirs == directions
    {
      dsu := new Dsu();
      land, islandCount := {}, 0;
      dirs := directions;
      CountedEmpty(OffsetAdj(directions));
    }

    /** addLand: existing land is left as it is; a new cell joins the land. */
    method AddLand(x: int, y: int)
      requires Valid()
      modifies this, dsu
      ensures Valid()
      ensures land == old(land) + {Point(x, y)}
      ensures Point(x, y) in old(land) ==> unchanged(this, dsu)
    {
      var p := Point(x, y);
      if p in land {
        return;
      }
      NewLand(p);
    }

    /** addLand on a new cell: it joins the land and is unioned with each of
      * its land neighbours in turn. */
    method NewLand(p: Point)
      requires Valid() && p !in land
      modifies this, dsu
      ensures Valid() && land == old(land) + {p}
    {
      ghost var L := land;
      var ns := Neighbours(p, dirs);
      NewCell(p, L);
      SymmetricOffsets(dirs);
      NeighboursAdjacent(p, dirs, L + {p});
      islandCount := LinkNeighbours(dsu, land, p, ns, OffsetAdj(dirs), islandCount, L);
      LinkDone(dsu.parent, dsu.rank, OffsetAdj(dirs), L, p, ns, islandCount);
    }

    /** The start of addLand for a new cell: it joins the land as a class of
      * its own and the count rises by one. */
    method NewCell(p: Point, ghost L: set<Point>)
      requires Valid() && land == L && p !in L
      modifies this, dsu
      ensures dsu.Valid() && land == L + {p}
      ensures Linking(dsu.parent, dsu.rank, OffsetAdj(dirs), L, p, Neighbours(p, dirs), 0, islandCount)
    {
      ghost var parent0, rank0, count0 := dsu.parent, dsu.rank, islandCount;
      SymmetricOffsets(dirs);
      NeighboursAdjacent(p, dirs, L + {p});
      LinkStart(parent0, rank0, OffsetAdj(dirs), L, p, Neighbours(p, dirs), count0);
      land := land + {p};
      assert dsu.parent == parent0 && dsu.rank == rank0;
      dsu.MakeSet(p);
      islandCount := islandCount + 1;
    }

    /** getIslands: the number of components of the land. */
    function GetIslands(): (n: int)
      reads this, dsu
      requires Valid()
      ensures ComponentCount(OffsetAdj(dirs), land, n)
    {
      CountedCount(dsu.parent, dsu.rank, OffsetAdj(dirs), land, islandCount);
      islandCount
    }
  }
}
