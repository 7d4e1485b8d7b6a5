/**
 * NumberOfIslands/DSUSparse.java: the dynamic island counter with the
 * disjoint-set forest kept inline, as the terrain's own parent and rank maps,
 * and the four directions fixed inside addLand.
 */
module DsuSparse {
  import opened Connectivity
  import opened UnionFind
  import opened Islands

  class Terrain {
    var parent: map<Point, Point>
    var rank: map<Point, int>
    var land: set<Point>
    var islandCount: int

    /** The forest holds exactly the land, partitions it into its
      * four-connected components and islandCount is their number. */
    ghost predicate Valid()
      reads this
    {
      Counted(parent, rank, OffsetAdj(Dirs4), land, islandCount)
    }

    constructor()
      ensures Valid() && parent == map[] && rank == map[] && land == {} && islandCount == 0
    {
      parent, rank := map[], map[];
      land, islandCount := {}, 0;
      CountedEmpty(OffsetAdj(Dirs4));
    }

    /** addLand: existing land is left as it is; a new cell joins the land. */
    method AddLand(x: int, y: int)
      requires Valid()
      modifies this
      ensures Valid()
      ensures land == old(land) + {Point(x, y)}
      ensures Point(x, y) in old(land) ==> unchanged(this)
    {
      var p := Point(x, y);
      if p in land {
        return;
      }
      NewLand(p);
    }

    /** addLand on a new cell: it joins the land and is unioned with each of
      * its land neighbours in turn. */
    method NewLand(p: Point)
      requires Valid() && p !in land
      modifies this
      ensures Valid() && land == old(land) + {p}
    {
      ghost var L := land;
      NewCell(p, L);
      var dirs := Dirs4;
      ghost var ns := Neighbours(p, dirs);
      for i := 0 to |dirs|
        invariant land == L + {p}
        invariant Linking(parent, rank, OffsetAdj(Dirs4), L, p, ns, i, islandCount)
      {
        var d := dirs[i];
        LinkNeighbour(p, Point(p.x + d.0, p.y + d.1), L, i);
      }
      LinkDone(parent, rank, OffsetAdj(Dirs4), L, p, ns, islandCount);
    }

    /** The start of addLand for a new cell: it joins the land as a class of
      * its own and the count rises by one. */
    method NewCell(p: Point, ghost L: set<Point>)
      requires Valid() && land == L && p !in L
      modifies this
      ensures land == L + {p}
      ensures Linking(parent, rank, OffsetAdj(Dirs4), L, p, Neighbours(p, Dirs4), 0, islandCount)
    {
      Dirs4Symmetric();
      NeighboursAdjacent(p, Dirs4, L + {p});
      LinkStart(parent, rank, OffsetAdj(Dirs4), L, p, Neighbours(p, Dirs4), islandCount);
      land := land + {p};
      parent, rank := parent[p := p], rank[p := 0];
      islandCount := islandCount + 1;
    }

    /** One turn of addLand's loop: union p with the i-th neighbour if it is
      * land, and count one island less if that joined two. */
    method LinkNeighbour(p: Point, neigh: Point, ghost L: set<Point>, ghost i: int)
      requires land == L + {p} && Linking(parent, rank, OffsetAdj(Dirs4), L, p, Neighbours(p, Dirs4), i, islandCount)
      requires i < |Dirs4| && neigh == Neighbours(p, Dirs4)[i]
      modifies this
      ensures land == L + {p}
      ensures Linking(parent, rank, OffsetAdj(Dirs4), L, p, Neighbours(p, Dirs4), i + 1, islandCount)
    {
      ghost var ns := Neighbours(p, Dirs4);
      ghost var parent0, rank0, count0 := parent, rank, islandCount;
      if neigh in land {
        Dirs4Symmetric();
        NeighboursAdjacent(p, Dirs4, L + {p});
        var merged := Union(p, neigh);
        if merged {
          islandCount := islandCount - 1;
        }
        LinkUnion(parent0, rank0, parent, rank, OffsetAdj(Dirs4), L, p, ns, i, count0, merged);
      } else {
        LinkSkip(parent, rank, OffsetAdj(Dirs4), L, p, ns, i, islandCount);
      }
    }

    /** getIslands: the number of four-connected components of the land. */
    function GetIslands(): (n: int)
      reads this
      requires Valid()
      ensures ComponentCount(OffsetAdj(Dirs4), land, n)
    {
      CountedCount(parent, rank, OffsetAdj(Dirs4), land, islandCount);
      islandCount
    }

    /** find, with path compression: no element changes representative. */
    method Find(p: Point) returns (root: Point)
      requires Forest(parent, rank) && p in parent
      modifies this
      ensures Forest(parent, rank) && parent.Keys == old(parent).Keys && rank == old(rank)
      ensures root == Root(old(parent), rank, p)
      ensures SameRoots(old(parent), rank, parent, rank)
      ensures land == old(land) && islandCount == old(islandCount)
    {
      root, parent := FindIn(parent, rank, p);
    }

    /** union by rank; true exactly when two classes were joined. */
    method Union(a: Point, b: Point) returns (merged: bool)
      requires Forest(parent, rank) && a in parent && b in parent
      modifies this
      ensures Unioned(old(parent), old(rank), parent, rank, a, b, merged)
      ensures land == old(land) && islandCount == old(islandCount)
    {
      merged, parent, rank := UnionIn(parent, rank, a, b);
    }
  }
}
