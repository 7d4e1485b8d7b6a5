/**
 * Disjoint-set forest with union by rank and path compression, as the island
 * counters use it: a parent map and a rank map keyed by the elements
 * (NumberOfIslands/DSUProd.java, DSU3D.java and the inline copy in
 * DSUSparse.java). The forest is specified by Root, the representative an
 * element's parent chain ends at; find and union are proved against it, and
 * Partitions says when the classes of the forest are exactly the connected
 * components of the land.
 */
module UnionFind {
  import opened Connectivity

  /** Every parent is an element, ranks are non-negative and rise strictly
    * from an element to its parent (so parent chains end). */
  ghost predicate Forest<T>(parent: map<T, T>, rank: map<T, int>)
  {
    parent.Keys == rank.Keys &&
    forall x {:trigger Up(parent, x)} :: x in parent ==>
      Up(parent, x) in parent && 0 <= rank[x] &&
      (Up(parent, x) != x ==> rank[x] < rank[Up(parent, x)])
  }

  /** The parent of x. (Named, so that the forest property is used only where
    * a parent step is taken.) */
  function Up<T>(parent: map<T, T>, x: T): T
    requires x in parent
  {
    parent[x]
  }

  /** The elements ranked above x: the termination measure of a parent chain. */
  ghost function Above<T>(rank: map<T, int>, x: T): set<T>
    requires x in rank
  {
    set y | y in rank && rank[y] > rank[x]
  }

  lemma StrictSubsetSmaller<T>(a: set<T>, b: set<T>)
    requires a < b
    ensures |a| < |b|
  {
    var d := b - a;
    assert b == a + d && a * d == {};
    assert d != {};
  }

  lemma AboveShrinks<T>(rank: map<T, int>, x: T, y: T)
    requires x in rank && y in rank && rank[x] < rank[y]
    ensures |Above(rank, y)| < |Above(rank, x)|
  {
    assert y in Above(rank, x) && y !in Above(rank, y);
    StrictSubsetSmaller(Above(rank, y), Above(rank, x));
  }

  /** The representative of x: the end of its parent chain. */
  ghost function Root<T>(parent: map<T, T>, rank: map<T, int>, x: T): (r: T)
    requires Forest(parent, rank) && x in parent
    ensures r in parent && parent[r] == r
    ensures r != x ==> rank[x] < rank[r]
    decreases |Above(rank, x)|
  {
    if Up(parent, x) == x then x
    else
      AboveShrinks(rank, x, Up(parent, x));
      Root(parent, rank, Up(parent, x))
  }

  /** The representatives: the elements that are their own parent. */
  ghost function Roots<T>(parent: map<T, T>): set<T>
  {
    set x | x in parent && parent[x] == x
  }

  /** Re-pointing a non-representative keeps the representatives. */
  lemma RootsRepoint<T>(parent: map<T, T>, x: T, v: T)
    requires x in parent && parent[x] != x && v != x
    ensures Roots(parent[x := v]) == Roots(parent)
  {
  }

  /** Linking representative l under another element removes it from the
    * representatives. */
  lemma RootsLink<T>(parent: map<T, T>, l: T, w: T)
    requires l in parent && w != l
    ensures Roots(parent[l := w]) == Roots(parent) - {l}
  {
  }

  /** A new element made its own parent is a new representative. */
  lemma RootsAdd<T>(parent: map<T, T>, p: T)
    requires p !in parent
    ensures Roots(parent[p := p]) == Roots(parent) + {p}
  {
  }

  /** Re-pointing x at a higher-ranked element keeps the forest valid. */
  lemma Repoint<T>(parent: map<T, T>, rank: map<T, int>, x: T, v: T)
    requires Forest(parent, rank) && x in parent && v in parent
    requires v != x ==> rank[x] < rank[v]
    ensures Forest(parent[x := v], rank)
  {
    var p' := parent[x := v];
    forall z | z in p'
      ensures Up(p', z) in p' && 0 <= rank[z] && (Up(p', z) != z ==> rank[z] < rank[Up(p', z)])
    {
      if z != x {
        assert Up(p', z) == Up(parent, z);
      }
    }
  }

  /** A new element that is its own parent, with rank 0, keeps the forest valid. */
  lemma AddRoot<T>(parent: map<T, T>, rank: map<T, int>, p: T)
    requires Forest(parent, rank) && p !in parent
    ensures Forest(parent[p := p], rank[p := 0])
  {
    var p', r' := parent[p := p], rank[p := 0];
    forall z | z in p'
      ensures Up(p', z) in p' && 0 <= r'[z] && (Up(p', z) != z ==> r'[z] < r'[Up(p', z)])
    {
      if z != p {
        assert Up(p', z) == Up(parent, z);
      }
    }
  }

  /** Ranks only bound chain lengths: the representative is the same under any
    * valid rank map. */
  lemma {:induction false} RootRankFree<T>(parent: map<T, T>, rank1: map<T, int>, rank2: map<T, int>, x: T)
    requires Forest(parent, rank1) && Forest(parent, rank2) && x in parent
    ensures Root(parent, rank1, x) == Root(parent, rank2, x)
    decreases |Above(rank1, x)|
  {
    if parent[x] != x {
      AboveShrinks(rank1, x, Up(parent, x));
      RootRankFree(parent, rank1, rank2, Up(parent, x));
    }
  }

  /** Path compression: pointing x straight at its representative keeps the
    * forest valid and every element's representative. */
  lemma {:induction false} Compress<T>(parent: map<T, T>, rank: map<T, int>, x: T, y: T)
    requires Forest(parent, rank) && x in parent && y in parent
    ensures Forest(parent[x := Root(parent, rank, x)], rank)
    ensures Root(parent[x := Root(parent, rank, x)], rank, y) == Root(parent, rank, y)
    decreases |Above(rank, y)|
  {
    var r := Root(parent, rank, x);
    var p' := parent[x := r];
    Repoint(parent, rank, x, r);
    if y == x {
      if r != x {
        assert p'[r] == r;
      }
    } else if parent[y] != y {
      AboveShrinks(rank, y, Up(parent, y));
      Compress(parent, rank, x, Up(parent, y));
    }
  }

  /** Linking root l under root w of higher rank: l's class joins w's. */
  lemma {:induction false} Link<T>(parent: map<T, T>, rank: map<T, int>, l: T, w: T, y: T)
    requires Forest(parent, rank) && l in Roots(parent) && w in Roots(parent)
    requires rank[l] < rank[w] && y in parent
    ensures Forest(parent[l := w], rank)
    ensures Root(parent[l := w], rank, y) ==
      if Root(parent, rank, y) == l then w else Root(parent, rank, y)
    decreases |Above(rank, y)|
  {
    var p' := parent[l := w];
    Repoint(parent, rank, l, w);
    if y == l {
      assert p'[w] == w;
    } else if parent[y] != y {
      AboveShrinks(rank, y, Up(parent, y));
      Link(parent, rank, l, w, Up(parent, y));
    }
  }

  /** Raising a representative's rank keeps the forest valid. */
  lemma RaiseRoot<T>(parent: map<T, T>, rank: map<T, int>, w: T)
    requires Forest(parent, rank) && w in Roots(parent)
    ensures Forest(parent, rank[w := rank[w] + 1])
  {
    var r' := rank[w := rank[w] + 1];
    forall z | z in parent
      ensures Up(parent, z) in parent && 0 <= r'[z] && (Up(parent, z) != z ==> r'[z] < r'[Up(parent, z)])
    {
    }
  }

  /** makeSet on a new element: a fresh singleton class, nothing else moves. */
  lemma {:induction false} MakeSetRoots<T>(parent: map<T, T>, rank: map<T, int>, p: T, y: T)
    requires Forest(parent, rank) && p !in parent && y in parent
    ensures Forest(parent[p := p], rank[p := 0])
    ensures Root(parent[p := p], rank[p := 0], y) == Root(parent, rank, y)
    decreases |Above(rank, y)|
  {
    AddRoot(parent, rank, p);
    if parent[y] != y {
      AboveShrinks(rank, y, Up(parent, y));
      MakeSetRoots(parent, rank, p, Up(parent, y));
    }
  }

  /** makeSet of a new element, stated for all elements at once: p is a new
    * representative, and the old elements keep theirs. */
  lemma MakeSetAll<T>(parent: map<T, T>, rank: map<T, int>, p: T)
    requires Forest(parent, rank) && p !in parent
    ensures Forest(parent[p := p], rank[p := 0])
    ensures Root(parent[p := p], rank[p := 0], p) == p
    ensures forall y {:trigger Root(parent[p := p], rank[p := 0], y)} :: y in parent ==>
      Root(parent[p := p], rank[p := 0], y) == Root(parent, rank, y)
    ensures Roots(parent[p := p]) == Roots(parent) + {p}
  {
    AddRoot(parent, rank, p);
    RootsAdd(parent, p);
    assert Up(parent[p := p], p) == p;
    forall y | y in parent ensures Root(parent[p := p], rank[p := 0], y) == Root(parent, rank, y) {
      MakeSetRoots(parent, rank, p, y);
    }
  }

  /** No element changes representative between the two forests. */
  ghost predicate SameRoots<T>(parent: map<T, T>, rank: map<T, int>, parent': map<T, T>, rank': map<T, int>)
    requires Forest(parent, rank) && Forest(parent', rank') && parent'.Keys == parent.Keys
  {
    forall y {:trigger Root(parent', rank', y)} :: y in parent ==> Root(parent', rank', y) == Root(parent, rank, y)
  }

  /** The class of representative l has joined the class of w; no other
    * element changes representative. */
  ghost predicate Relinked<T>(parent: map<T, T>, rank: map<T, int>, parent': map<T, T>, rank': map<T, int>, l: T, w: T)
    requires Forest(parent, rank) && Forest(parent', rank') && parent'.Keys == parent.Keys
  {
    forall y {:trigger Root(parent', rank', y)} :: y in parent ==>
      Root(parent', rank', y) == if Root(parent, rank, y) == l then w else Root(parent, rank, y)
  }

  /** Compressing one element's path, stated for all elements at once. */
  lemma CompressAll<T>(parent: map<T, T>, rank: map<T, int>, x: T)
    requires Forest(parent, rank) && x in parent && parent[x] != x
    ensures Forest(parent[x := Root(parent, rank, x)], rank)
    ensures SameRoots(parent, rank, parent[x := Root(parent, rank, x)], rank)
    ensures Roots(parent[x := Root(parent, rank, x)]) == Roots(parent)
  {
    var r := Root(parent, rank, x);
    RootsRepoint(parent, x, r);
    Compress(parent, rank, x, x);
    forall y {:trigger Root(parent[x := r], rank, y)} | y in parent
      ensures Root(parent[x := r], rank, y) == Root(parent, rank, y)
    {
      Compress(parent, rank, x, y);
    }
  }

  /** Linking a lower-ranked representative l under w, for all elements. */
  lemma LinkAll<T>(parent: map<T, T>, rank: map<T, int>, l: T, w: T)
    requires Forest(parent, rank) && l in Roots(parent) && w in Roots(parent)
    requires rank[l] < rank[w]
    ensures Forest(parent[l := w], rank)
    ensures Relinked(parent, rank, parent[l := w], rank, l, w)
    ensures Roots(parent[l := w]) == Roots(parent) - {l}
  {
    RootsLink(parent, l, w);
    Link(parent, rank, l, w, l);
    forall y {:trigger Root(parent[l := w], rank, y)} | y in parent
      ensures Root(parent[l := w], rank, y) == if Root(parent, rank, y) == l then w else Root(parent, rank, y)
    {
      Link(parent, rank, l, w, y);
    }
  }

  /** Linking two representatives of equal rank: l goes under w, whose rank
    * rises by one. */
  lemma TieAll<T>(parent: map<T, T>, rank: map<T, int>, l: T, w: T)
    requires Forest(parent, rank) && l in Roots(parent) && w in Roots(parent)
    requires l != w && rank[l] == rank[w]
    ensures Forest(parent[l := w], rank[w := rank[w] + 1])
    ensures Relinked(parent, rank, parent[l := w], rank[w := rank[w] + 1], l, w)
    ensures Roots(parent[l := w]) == Roots(parent) - {l}
  {
    var rank' := rank[w := rank[w] + 1];
    RaiseRoot(parent, rank, w);
    LinkAll(parent, rank', l, w);
    forall y {:trigger Root(parent, rank', y)} | y in parent ensures Root(parent, rank', y) == Root(parent, rank, y) {
      RootRankFree(parent, rank, rank', y);
    }
  }

  /** find: returns x's representative, compressing the path behind it; no
    * element changes representative and the representatives stay the same. */
  method FindIn<T>(parent: map<T, T>, rank: map<T, int>, x: T) returns (root: T, parent': map<T, T>)
    requires Forest(parent, rank) && x in parent
    ensures root == Root(parent, rank, x)
    ensures Forest(parent', rank) && parent'.Keys == parent.Keys
    ensures SameRoots(parent, rank, parent', rank)
    ensures Roots(parent') == Roots(parent)
    ensures parent'[x] == root
    decreases |Above(rank, x)|
  {
    if parent[x] != x {
      AboveShrinks(rank, x, Up(parent, x));
      var r, p1 := FindIn(parent, rank, parent[x]);
      assert x !in Roots(p1);
      CompressAll(p1, rank, x);
      parent' := p1[x := r];
      root := r;
    } else {
      root, parent' := x, parent;
    }
  }

  /** All elements of a's class and of b's class now have representative w;
    * every other element keeps its own. */
  ghost predicate Merged<T>(parent: map<T, T>, rank: map<T, int>,
                            parent': map<T, T>, rank': map<T, int>, a: T, b: T, w: T)
    requires Forest(parent, rank) && Forest(parent', rank')
    requires parent'.Keys == parent.Keys && a in parent && b in parent
  {
    forall y {:trigger Root(parent', rank', y)} :: y in parent ==>
      Root(parent', rank', y) ==
        if Root(parent, rank, y) == Root(parent, rank, a) || Root(parent, rank, y) == Root(parent, rank, b)
        then w
        else Root(parent, rank, y)
  }

  /** Two finds followed by a link merge the classes of a and b. */
  lemma FindsThenLink<T>(parent: map<T, T>, rank: map<T, int>, p2: map<T, T>,
                         parent': map<T, T>, rank': map<T, int>, a: T, b: T, l: T, w: T)
    requires Forest(parent, rank) && Forest(p2, rank) && Forest(parent', rank')
    requires p2.Keys == parent.Keys && parent'.Keys == parent.Keys && a in parent && b in parent
    requires SameRoots(parent, rank, p2, rank) && Relinked(p2, rank, parent', rank', l, w)
    requires {l, w} == {Root(parent, rank, a), Root(parent, rank, b)}
    ensures Merged(parent, rank, parent', rank', a, b, w)
  {
  }

  /** The outcome of union(a, b): merged is false exactly when a and b
    * already share a representative; otherwise the lower-ranked
    * representative is linked under the other (on a tie b's under a's, whose
    * rank then rises by one), the classes of a and b become one, and no
    * other element changes representative. */
  ghost predicate Unioned<T>(parent: map<T, T>, rank: map<T, int>, parent': map<T, T>, rank': map<T, int>,
                             a: T, b: T, merged: bool)
    requires Forest(parent, rank) && a in parent && b in parent
  {
    Forest(parent', rank') && parent'.Keys == parent.Keys &&
    (merged <==> Root(parent, rank, a) != Root(parent, rank, b)) &&
    var ra, rb := Root(parent, rank, a), Root(parent, rank, b);
    var w := if rank[ra] < rank[rb] then rb else ra;
    Merged(parent, rank, parent', rank', a, b, w) &&
    rank' == (if merged && rank[ra] == rank[rb] then rank[ra := rank[ra] + 1] else rank) &&
    Roots(parent') == Roots(parent) - {ra, rb} + {w}
  }

  /** union, on the forest's maps. */
  method UnionIn<T>(parent: map<T, T>, rank: map<T, int>, a: T, b: T)
      returns (merged: bool, parent': map<T, T>, rank': map<T, int>)
    requires Forest(parent, rank) && a in parent && b in parent
    ensures Unioned(parent, rank, parent', rank', a, b, merged)
  {
    var pa, p1 := FindIn(parent, rank, a);
    var pb, p2 := FindIn(p1, rank, b);
    assert SameRoots(parent, rank, p2, rank);
    if pa == pb {
      merged, parent', rank' := false, p2, rank;
      return;
    }
    merged := true;
    var ra, rb := rank[pa], rank[pb];
    if ra < rb {
      parent', rank' := p2[pa := pb], rank;
      LinkAll(p2, rank, pa, pb);
      FindsThenLink(parent, rank, p2, parent', rank', a, b, pa, pb);
    } else if rb < ra {
      parent', rank' := p2[pb := pa], rank;
      LinkAll(p2, rank, pb, pa);
      FindsThenLink(parent, rank, p2, parent', rank', a, b, pb, pa);
    } else {
      parent', rank' := p2[pb := pa], rank[pa := ra + 1];
      TieAll(p2, rank, pb, pa);
      FindsThenLink(parent, rank, p2, parent', rank', a, b, pb, pa);
    }
  }

  /** The classes of the forest restricted to L are exactly the components of
    * L: adjacent members of L share a representative, and every member of L
    * is connected inside L to its representative (which is itself in L). */
  ghost predicate Partitions<T(!new)>(parent: map<T, T>, rank: map<T, int>, adj: (T, T) -> bool, L: set<T>)
  {
    PartitionsBut(parent, rank, adj, L, {})
  }

  /** Partitions, except that the member p (if any) may still be apart from
    * the adjacent members listed in pending. */
  ghost predicate PartitionsBut<T(!new)>(parent: map<T, T>, rank: map<T, int>, adj: (T, T) -> bool,
                                         L: set<T>, pending: set<(T, T)>)
  {
    Forest(parent, rank) && L <= parent.Keys &&
    (forall x, y {:trigger adj(x, y)} :: x in L && y in L && adj(x, y) && (x, y) !in pending ==>
       Root(parent, rank, x) == Root(parent, rank, y)) &&
    (forall x {:trigger Root(parent, rank, x)} :: x in L ==>
       Root(parent, rank, x) in L && Connected(adj, L, x, Root(parent, rank, x)))
  }

  /** The representatives of members of L. */
  ghost function RootsIn<T>(parent: map<T, T>, L: set<T>): set<T>
  {
    set x | x in L && x in parent && parent[x] == x
  }

  /** When the forest partitions L, the representatives in L are one per
    * component: their number is the number of components. */
  lemma PartitionCount<T(!new)>(parent: map<T, T>, rank: map<T, int>, adj: (T, T) -> bool, L: set<T>)
    requires Partitions(parent, rank, adj, L)
    ensures Representatives(adj, L, RootsIn(parent, L))
    ensures ComponentCount(adj, L, |RootsIn(parent, L)|)
  {
    var R := RootsIn(parent, L);
    forall x | x in L ensures exists r :: r in R && Connected(adj, L, x, r) {
      assert Root(parent, rank, x) in R;
    }
    forall r1, r2 | r1 in R && r2 in R && Connected(adj, L, r1, r2) ensures r1 == r2 {
      var V := set z | z in L && Root(parent, rank, z) == Root(parent, rank, r1);
      assert ClosedIn(adj, L, V) by {
        forall a, b | a in V && b in L && adj(a, b) ensures b in V {
          assert (a, b) !in {};
        }
      }
      ClosedContains(adj, L, V, r1, r2);
    }
  }

  /** The pairs (p, y) and (y, p) for y in L adjacent to p. */
  ghost function Around<T(!new)>(adj: (T, T) -> bool, L: set<T>, p: T): set<(T, T)>
  {
    (set y | y in L && adj(p, y) :: (p, y)) + (set y | y in L && adj(y, p) :: (y, p))
  }

  /** Adding a new singleton class {p} to a partition of L gives a partition
    * of L + {p} apart from p's edges. */
  lemma AddVertex<T(!new)>(parent: map<T, T>, rank: map<T, int>, adj: (T, T) -> bool, L: set<T>, p: T)
    requires Partitions(parent, rank, adj, L)
    requires p in parent && p !in L && parent[p] == p
    ensures PartitionsBut(parent, rank, adj, L + {p}, Around(adj, L, p))
    ensures RootsIn(parent, L + {p}) == RootsIn(parent, L) + {p}
  {
    var L' := L + {p};
    forall x, y | x in L' && y in L' && adj(x, y)
      ensures (x, y) !in Around(adj, L, p) ==> Root(parent, rank, x) == Root(parent, rank, y)
    {
      if x == p && y == p {
      } else if x == p {
        assert (p, y) in Around(adj, L, p);
      } else if y == p {
        assert (x, p) in Around(adj, L, p);
      } else {
        assert (x, y) !in {};
      }
    }
    forall x | x in L' ensures Root(parent, rank, x) in L' && Connected(adj, L', x, Root(parent, rank, x)) {
      if x == p {
        ConnectedRefl(adj, L', p);
      } else {
        ConnectedMono(adj, L, L', x, Root(parent, rank, x));
      }
    }
  }

  /** After joining the classes of adjacent p and n under w, x is still
    * connected to its (possibly new) representative. */
  lemma UnionKeepsConnected<T(!new)>(parent: map<T, T>, rank: map<T, int>, parent': map<T, T>, rank': map<T, int>,
                                     adj: (T, T) -> bool, L: set<T>, pending: set<(T, T)>, p: T, n: T, w: T, x: T)
    requires Symmetric(adj)
    requires PartitionsBut(parent, rank, adj, L, pending)
    requires p in L && n in L && adj(p, n) && x in L
    requires Forest(parent', rank') && parent'.Keys == parent.Keys
    requires Merged(parent, rank, parent', rank', p, n, w)
    requires w == Root(parent, rank, p) || w == Root(parent, rank, n)
    ensures Root(parent', rank', x) in L && Connected(adj, L, x, Root(parent', rank', x))
  {
    var rp, rn, rx := Root(parent, rank, p), Root(parent, rank, n), Root(parent, rank, x);
    if rx == rp || rx == rn {
      assert Root(parent', rank', x) == w;
      ConnectedSym(adj, L, p, rp);
      ConnectedSym(adj, L, n, rn);
      if rx == rp && w == rn {
        ConnectedTrans(adj, L, x, rp, p);
        ConnectedStep(adj, L, x, p, n);
        ConnectedTrans(adj, L, x, n, rn);
      } else if rx == rn && w == rp {
        assert adj(n, p);
        ConnectedTrans(adj, L, x, rn, n);
        ConnectedStep(adj, L, x, n, p);
        ConnectedTrans(adj, L, x, p, rp);
      }
    } else {
      assert Root(parent', rank', x) == rx;
    }
  }

  /** Joining the classes of p and n keeps adjacent members together and puts
    * p and n together. */
  lemma UnionKeepsClosed<T(!new)>(parent: map<T, T>, rank: map<T, int>, parent': map<T, T>, rank': map<T, int>,
                                  adj: (T, T) -> bool, L: set<T>, pending: set<(T, T)>, p: T, n: T, w: T)
    requires PartitionsBut(parent, rank, adj, L, pending)
    requires p in L && n in L
    requires Forest(parent', rank') && parent'.Keys == parent.Keys
    requires Merged(parent, rank, parent', rank', p, n, w)
    ensures forall x, y :: x in L && y in L && adj(x, y) && (x, y) !in pending - {(p, n), (n, p)} ==>
       Root(parent', rank', x) == Root(parent', rank', y)
  {
    forall x, y | x in L && y in L && adj(x, y) && (x, y) !in pending - {(p, n), (n, p)}
      ensures Root(parent', rank', x) == Root(parent', rank', y)
    {
      if (x, y) !in pending {
        assert Root(parent, rank, x) == Root(parent, rank, y);
      } else {
        assert (x == p && y == n) || (x == n && y == p);
      }
    }
  }

  /** A union of p with an adjacent member n settles the pairs (p, n), (n, p). */
  lemma UnionStep<T(!new)>(parent: map<T, T>, rank: map<T, int>, parent': map<T, T>, rank': map<T, int>,
                           adj: (T, T) -> bool, L: set<T>, pending: set<(T, T)>, p: T, n: T, w: T)
    requires Symmetric(adj)
    requires PartitionsBut(parent, rank, adj, L, pending)
    requires p in L && n in L && adj(p, n)
    requires Forest(parent', rank') && parent'.Keys == parent.Keys
    requires Merged(parent, rank, parent', rank', p, n, w)
    requires w == Root(parent, rank, p) || w == Root(parent, rank, n)
    ensures PartitionsBut(parent', rank', adj, L, pending - {(p, n), (n, p)})
  {
    UnionKeepsClosed(parent, rank, parent', rank', adj, L, pending, p, n, w);
    forall x | x in L ensures Root(parent', rank', x) in L && Connected(adj, L, x, Root(parent', rank', x)) {
      UnionKeepsConnected(parent, rank, parent', rank', adj, L, pending, p, n, w, x);
    }
  }

  /** Once no pending pair is adjacent, the forest partitions L. */
  lemma Settled<T(!new)>(parent: map<T, T>, rank: map<T, int>, adj: (T, T) -> bool, L: set<T>, pending: set<(T, T)>)
    requires PartitionsBut(parent, rank, adj, L, pending)
    requires forall x, y :: (x, y) in pending ==> !(x in L && y in L && adj(x, y))
    ensures Partitions(parent, rank, adj, L)
  {
    forall x, y | x in L && y in L && adj(x, y) && (x, y) !in {}
      ensures Root(parent, rank, x) == Root(parent, rank, y)
    {
      assert (x, y) !in pending;
    }
  }

  /** The disjoint-set object of NumberOfIslands/DSUProd.java and
    * NumberOfIslands/DSU3D.java (the same code over 2D and 3D points). */
  class Dsu<T(==)> {
    var parent: map<T, T>
    var rank: map<T, int>

    ghost predicate Valid()
      reads this
    {
      Forest(parent, rank)
    }

    constructor()
      ensures Valid() && parent == map[] && rank == map[]
    {
      parent, rank := map[], map[];
    }

    /** makeSet: p becomes a class of its own with rank 0. */
    method MakeSet(p: T)
      requires Valid() && p !in parent
      modifies this
      ensures Valid()
      ensures parent == old(parent)[p := p] && rank == old(rank)[p := 0]
    {
      MakeSetAll(parent, rank, p);
      parent, rank := parent[p := p], rank[p := 0];
    }

    /** find, with path compression. */
    method Find(p: T) returns (root: T)
      requires Valid() && p in parent
      modifies this
      ensures Valid() && parent.Keys == old(parent).Keys && rank == old(rank)
      ensures root == Root(old(parent), rank, p)
      ensures SameRoots(old(parent), rank, parent, rank)
      ensures Roots(parent) == Roots(old(parent))
    {
      root, parent := FindIn(parent, rank, p);
    }

    /** union by rank; true when two classes were joined. */
    method Union(a: T, b: T) returns (merged: bool)
      requires Valid() && a in parent && b in parent
      modifies this
      ensures Valid() && Unioned(old(parent), old(rank), parent, rank, a, b, merged)
    {
      merged, parent, rank := UnionIn(parent, rank, a, b);
    }
  }
}
