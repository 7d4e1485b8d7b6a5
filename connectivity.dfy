/**
 * Connected components of a finite vertex set under an adjacency relation.
 * Every island counter (union-find over a map, union-find over arrays,
 * breadth-first search over a set or a matrix) counts the components of its
 * land cells; this module says what that number is.
 */
module Connectivity {
  /** The graph is undirected. */
  ghost predicate Symmetric<T(!new)>(adj: (T, T) -> bool)
  {
    forall a, b :: adj(a, b) == adj(b, a)
  }

  /** p is a walk through vertices of L, each step between adjacent vertices. */
  ghost predicate IsPath<T(!new)>(adj: (T, T) -> bool, L: set<T>, p: seq<T>)
  {
    |p| > 0 &&
    (forall i :: 0 <= i < |p| ==> p[i] in L) &&
    (forall i :: 0 <= i < |p| - 1 ==> adj(p[i], p[i + 1]))
  }

  /** x and y lie in the same component of L. */
  ghost predicate Connected<T(!new)>(adj: (T, T) -> bool, L: set<T>, x: T, y: T)
  {
    exists p :: IsPath(adj, L, p) && p[0] == x && p[|p| - 1] == y
  }

  lemma ConnectedRefl<T(!new)>(adj: (T, T) -> bool, L: set<T>, x: T)
    requires x in L
    ensures Connected(adj, L, x, x)
  {
    assert IsPath(adj, L, [x]);
  }

  lemma ConnectedEnds<T(!new)>(adj: (T, T) -> bool, L: set<T>, x: T, y: T)
    requires Connected(adj, L, x, y)
    ensures x in L && y in L
  {
    var p :| IsPath(adj, L, p) && p[0] == x && p[|p| - 1] == y;
  }

  /** A component can be extended by one adjacent vertex of L. */
  lemma ConnectedStep<T(!new)>(adj: (T, T) -> bool, L: set<T>, x: T, y: T, z: T)
    requires Connected(adj, L, x, y) && adj(y, z) && z in L
    ensures Connected(adj, L, x, z)
  {
    var p :| IsPath(adj, L, p) && p[0] == x && p[|p| - 1] == y;
    var q := p + [z];
    assert forall i :: 0 <= i < |q| - 1 ==> q[i] == p[i];
    assert IsPath(adj, L, q);
  }

  lemma ConnectedTrans<T(!new)>(adj: (T, T) -> bool, L: set<T>, x: T, y: T, z: T)
    requires Connected(adj, L, x, y) && Connected(adj, L, y, z)
    ensures Connected(adj, L, x, z)
  {
    var p :| IsPath(adj, L, p) && p[0] == x && p[|p| - 1] == y;
    var q :| IsPath(adj, L, q) && q[0] == y && q[|q| - 1] == z;
    var r := p + q[1..];
    assert forall i :: |p| <= i < |r| ==> r[i] == q[i - |p| + 1];
    assert forall i :: 0 <= i < |r| - 1 ==> adj(r[i], r[i + 1]) by {
      forall i | 0 <= i < |r| - 1 ensures adj(r[i], r[i + 1]) {
        if i < |p| - 1 {
        } else if i == |p| - 1 {
          assert r[i] == y == q[0] && r[i + 1] == q[1];
        } else {
          assert r[i] == q[i - |p| + 1] && r[i + 1] == q[i - |p| + 2];
        }
      }
    }
    assert IsPath(adj, L, r);
  }

  function Reverse<T>(p: seq<T>): (r: seq<T>)
    ensures |r| == |p|
    ensures forall i :: 0 <= i < |p| ==> r[i] == p[|p| - 1 - i]
  {
    if |p| == 0 then [] else Reverse(p[1..]) + [p[0]]
  }

  lemma ConnectedSym<T(!new)>(adj: (T, T) -> bool, L: set<T>, x: T, y: T)
    requires Symmetric(adj) && Connected(adj, L, x, y)
    ensures Connected(adj, L, y, x)
  {
    var p :| IsPath(adj, L, p) && p[0] == x && p[|p| - 1] == y;
    var r := Reverse(p);
    assert forall i :: 0 <= i < |r| - 1 ==> adj(r[i], r[i + 1]) by {
      forall i | 0 <= i < |r| - 1 ensures adj(r[i], r[i + 1]) {
        var j := |p| - 2 - i;
        assert r[i] == p[j + 1] && r[i + 1] == p[j];
        assert adj(p[j], p[j + 1]);
      }
    }
    assert IsPath(adj, L, r);
  }

  /** Adding vertices never disconnects. */
  lemma ConnectedMono<T(!new)>(adj: (T, T) -> bool, L: set<T>, L': set<T>, x: T, y: T)
    requires L <= L' && Connected(adj, L, x, y)
    ensures Connected(adj, L', x, y)
  {
    var p :| IsPath(adj, L, p) && p[0] == x && p[|p| - 1] == y;
    assert IsPath(adj, L', p);
  }

  /** V has no edge leaving it inside L. */
  ghost predicate ClosedIn<T(!new)>(adj: (T, T) -> bool, L: set<T>, V: set<T>)
  {
    forall a, b :: a in V && b in L && adj(a, b) ==> b in V
  }

  /** A set closed inside L holds the whole component of each of its members. */
  lemma ClosedContains<T(!new)>(adj: (T, T) -> bool, L: set<T>, V: set<T>, x: T, y: T)
    requires ClosedIn(adj, L, V) && x in V && Connected(adj, L, x, y)
    ensures y in V
  {
    var p :| IsPath(adj, L, p) && p[0] == x && p[|p| - 1] == y;
    var i := 0;
    while i < |p| - 1
      invariant 0 <= i < |p| && p[i] in V
    {
      assert adj(p[i], p[i + 1]) && p[i + 1] in L;
      i := i + 1;
    }
  }

  /** In an undirected graph a path that starts outside a closed set V never
    * enters it, so it is a path of L - V. */
  lemma AvoidsClosed<T(!new)>(adj: (T, T) -> bool, L: set<T>, V: set<T>, x: T, y: T)
    requires Symmetric(adj) && ClosedIn(adj, L, V)
    requires x !in V && Connected(adj, L, x, y)
    ensures Connected(adj, L - V, x, y)
  {
    var p :| IsPath(adj, L, p) && p[0] == x && p[|p| - 1] == y;
    var i := 0;
    while i < |p| - 1
      invariant 0 <= i < |p|
      invariant forall j :: 0 <= j <= i ==> p[j] !in V
    {
      assert adj(p[i + 1], p[i]) by { assert adj(p[i], p[i + 1]); }
      if p[i + 1] in V {
        assert false;
      }
      i := i + 1;
    }
    assert IsPath(adj, L - V, p);
  }

  /** R holds exactly one vertex of every component of L. */
  ghost predicate Representatives<T(!new)>(adj: (T, T) -> bool, L: set<T>, R: set<T>)
  {
    R <= L &&
    (forall x :: x in L ==> exists r :: r in R && Connected(adj, L, x, r)) &&
    (forall r1, r2 :: r1 in R && r2 in R && Connected(adj, L, r1, r2) ==> r1 == r2)
  }

  /** L has n connected components. */
  ghost predicate ComponentCount<T(!new)>(adj: (T, T) -> bool, L: set<T>, n: int)
  {
    exists R :: Representatives(adj, L, R) && |R| == n
  }

  /** Pairwise disconnected vertices each joined to some vertex of B are no
    * more numerous than B. */
  lemma {:induction false} FewerThan<T(!new)>(adj: (T, T) -> bool, L: set<T>, A: set<T>, B: set<T>)
    requires Symmetric(adj)
    requires forall a :: a in A ==> exists b :: b in B && Connected(adj, L, a, b)
    requires forall a1, a2 :: a1 in A && a2 in A && Connected(adj, L, a1, a2) ==> a1 == a2
    ensures |A| <= |B|
    decreases |A|
  {
    if A != {} {
      var a :| a in A;
      var b :| b in B && Connected(adj, L, a, b);
      var A', B' := A - {a}, B - {b};
      forall a' | a' in A' ensures exists b' :: b' in B' && Connected(adj, L, a', b') {
        var b' :| b' in B && Connected(adj, L, a', b');
        if b' == b {
          ConnectedSym(adj, L, a, b);
          ConnectedTrans(adj, L, a', b, a);
          assert false;
        }
        assert b' in B';
      }
      FewerThan(adj, L, A', B');
    }
  }

  /** The number of components does not depend on the representatives chosen. */
  lemma RepresentativesSameSize<T(!new)>(adj: (T, T) -> bool, L: set<T>, R1: set<T>, R2: set<T>)
    requires Symmetric(adj)
    requires Representatives(adj, L, R1) && Representatives(adj, L, R2)
    ensures |R1| == |R2|
  {
    FewerThan(adj, L, R1, R2);
    FewerThan(adj, L, R2, R1);
  }

  /** So ComponentCount names one number. */
  lemma ComponentCountUnique<T(!new)>(adj: (T, T) -> bool, L: set<T>, m: int, n: int)
    requires Symmetric(adj)
    requires ComponentCount(adj, L, m) && ComponentCount(adj, L, n)
    ensures m == n
  {
    var R1 :| Representatives(adj, L, R1) && |R1| == m;
    var R2 :| Representatives(adj, L, R2) && |R2| == n;
    RepresentativesSameSize(adj, L, R1, R2);
  }

  /** L is one component when every member reaches r. */
  lemma OneComponent<T(!new)>(adj: (T, T) -> bool, L: set<T>, r: T)
    requires r in L && forall x :: x in L ==> Connected(adj, L, x, r)
    ensures ComponentCount(adj, L, 1)
  {
    assert Representatives(adj, L, {r});
  }

  /** L is two components when it splits into two closed parts, each
    * reaching its own member. */
  lemma TwoComponents<T(!new)>(adj: (T, T) -> bool, L: set<T>, V: set<T>, W: set<T>, v: T, w: T)
    requires L == V + W && V !! W && ClosedIn(adj, L, V) && ClosedIn(adj, L, W)
    requires v in V && forall x :: x in V ==> Connected(adj, L, x, v)
    requires w in W && forall x :: x in W ==> Connected(adj, L, x, w)
    ensures ComponentCount(adj, L, 2)
  {
    var R := {v, w};
    forall r1, r2 | r1 in R && r2 in R && Connected(adj, L, r1, r2) ensures r1 == r2 {
      if r1 == v && r2 == w {
        ClosedContains(adj, L, V, v, w);
      } else if r1 == w && r2 == v {
        ClosedContains(adj, L, W, w, v);
      }
    }
    assert Representatives(adj, L, R);
  }

  /** A map that keeps L's members inside L' and its edges as edges of adj'
    * carries paths, so connected members stay connected. */
  lemma ConnectedImage<A(!new), B(!new)>(adj: (A, A) -> bool, adj': (B, B) -> bool, L: set<A>, L': set<B>,
                                         f: A -> B, x: A, y: A)
    requires forall a {:trigger f(a)} :: a in L ==> f(a) in L'
    requires forall a1, a2 {:trigger f(a1), f(a2)} :: a1 in L && a2 in L && adj(a1, a2) ==> adj'(f(a1), f(a2))
    requires Connected(adj, L, x, y)
    ensures Connected(adj', L', f(x), f(y))
  {
    var p :| IsPath(adj, L, p) && p[0] == x && p[|p| - 1] == y;
    var q := PathImage(adj, adj', L, L', f, p);
  }

  lemma PathImage<A(!new), B(!new)>(adj: (A, A) -> bool, adj': (B, B) -> bool, L: set<A>, L': set<B>,
                                    f: A -> B, p: seq<A>) returns (q: seq<B>)
    requires forall a {:trigger f(a)} :: a in L ==> f(a) in L'
    requires forall a1, a2 {:trigger f(a1), f(a2)} :: a1 in L && a2 in L && adj(a1, a2) ==> adj'(f(a1), f(a2))
    requires IsPath(adj, L, p)
    ensures IsPath(adj', L', q) && q[0] == f(p[0]) && q[|q| - 1] == f(p[|p| - 1])
  {
    q := seq(|p|, i requires 0 <= i < |p| => f(p[i]));
    forall i | 0 <= i < |q| - 1 ensures adj'(q[i], q[i + 1]) {
      assert adj(p[i], p[i + 1]);
    }
  }

  /** A map that is one-to-one on R keeps R's size. */
  lemma {:induction false} ImageSize<A, B>(R: set<A>, f: A -> B, g: B -> A)
    requires forall a {:trigger f(a)} :: a in R ==> g(f(a)) == a
    ensures |set a | a in R :: f(a)| == |R|
    decreases |R|
  {
    if R != {} {
      var a :| a in R;
      var R' := R - {a};
      ImageSize(R', f, g);
      var S, S' := (set b | b in R :: f(b)), (set b | b in R' :: f(b));
      assert S == S' + {f(a)};
      assert f(a) !in S';
    }
  }

  /** Component counts agree on two graphs that g and f, inverse to each
    * other, map onto one another edge for edge. */
  lemma ComponentCountImage<A(!new), B(!new)>(adj: (A, A) -> bool, adj': (B, B) -> bool, L: set<A>, L': set<B>,
                                              f: A -> B, g: B -> A, n: int)
    requires forall a {:trigger f(a)} :: a in L ==> f(a) in L' && g(f(a)) == a
    requires forall b {:trigger g(b)} :: b in L' ==> g(b) in L && f(g(b)) == b
    requires forall a1, a2 {:trigger f(a1), f(a2)} :: a1 in L && a2 in L ==> (adj(a1, a2) <==> adj'(f(a1), f(a2)))
    requires ComponentCount(adj, L, n)
    ensures ComponentCount(adj', L', n)
  {
    var R :| Representatives(adj, L, R) && |R| == n;
    EdgesBack(adj, adj', L, L', f, g);
    RepresentativesImage(adj, adj', L, L', f, g, R);
    PreimageSize(L, L', f, g, R);
  }

  lemma EdgesBack<A(!new), B(!new)>(adj: (A, A) -> bool, adj': (B, B) -> bool, L: set<A>, L': set<B>,
                                    f: A -> B, g: B -> A)
    requires forall b {:trigger g(b)} :: b in L' ==> g(b) in L && f(g(b)) == b
    requires forall a1, a2 {:trigger f(a1), f(a2)} :: a1 in L && a2 in L ==> (adj(a1, a2) <==> adj'(f(a1), f(a2)))
    ensures forall b1, b2 {:trigger g(b1), g(b2)} :: b1 in L' && b2 in L' && adj'(b1, b2) ==> adj(g(b1), g(b2))
  {
    forall b1, b2 | b1 in L' && b2 in L' && adj'(b1, b2) ensures adj(g(b1), g(b2)) {
      assert f(g(b1)) == b1 && f(g(b2)) == b2;
    }
  }

  /** The vertices of L' that g sends into R have as many members as R. */
  lemma PreimageSize<A(!new), B(!new)>(L: set<A>, L': set<B>, f: A -> B, g: B -> A, R: set<A>)
    requires R <= L
    requires forall a {:trigger f(a)} :: a in L ==> f(a) in L' && g(f(a)) == a
    requires forall b {:trigger g(b)} :: b in L' ==> f(g(b)) == b
    ensures |set b | b in L' && g(b) in R| == |R|
  {
    var S := set b | b in L' && g(b) in R;
    forall b | b in S ensures b in set a | a in R :: f(a) {
      assert f(g(b)) == b;
    }
    forall a | a in R ensures f(a) in S {
      assert f(a) in L' && g(f(a)) == a;
    }
    assert S == set a | a in R :: f(a);
    ImageSize(R, f, g);
  }

  /** The vertices of L' that g sends to representatives of L represent L'. */
  lemma RepresentativesImage<A(!new), B(!new)>(adj: (A, A) -> bool, adj': (B, B) -> bool, L: set<A>, L': set<B>,
                                               f: A -> B, g: B -> A, R: set<A>)
    requires forall a {:trigger f(a)} :: a in L ==> f(a) in L' && g(f(a)) == a
    requires forall b {:trigger g(b)} :: b in L' ==> g(b) in L && f(g(b)) == b
    requires forall a1, a2 {:trigger f(a1), f(a2)} :: a1 in L && a2 in L && adj(a1, a2) ==> adj'(f(a1), f(a2))
    requires forall b1, b2 {:trigger g(b1), g(b2)} :: b1 in L' && b2 in L' && adj'(b1, b2) ==> adj(g(b1), g(b2))
    requires Representatives(adj, L, R)
    ensures Representatives(adj', L', set b | b in L' && g(b) in R)
  {
    PreimageCovers(adj, adj', L, L', f, g, R);
    PreimageApart(adj, adj', L, L', f, g, R);
  }

  lemma PreimageCovers<A(!new), B(!new)>(adj: (A, A) -> bool, adj': (B, B) -> bool, L: set<A>, L': set<B>,
                                         f: A -> B, g: B -> A, R: set<A>)
    requires forall a {:trigger f(a)} :: a in L ==> f(a) in L' && g(f(a)) == a
    requires forall b {:trigger g(b)} :: b in L' ==> g(b) in L && f(g(b)) == b
    requires forall a1, a2 {:trigger f(a1), f(a2)} :: a1 in L && a2 in L && adj(a1, a2) ==> adj'(f(a1), f(a2))
    requires Representatives(adj, L, R)
    ensures forall b :: b in L' ==> exists r' :: r' in (set b | b in L' && g(b) in R) && Connected(adj', L', b, r')
  {
    forall b | b in L' ensures exists r' :: r' in (set b | b in L' && g(b) in R) && Connected(adj', L', b, r') {
      ImageReaches(adj, adj', L, L', f, g, R, b);
    }
  }

  lemma PreimageApart<A(!new), B(!new)>(adj: (A, A) -> bool, adj': (B, B) -> bool, L: set<A>, L': set<B>,
                                        f: A -> B, g: B -> A, R: set<A>)
    requires forall b {:trigger g(b)} :: b in L' ==> g(b) in L && f(g(b)) == b
    requires forall b1, b2 {:trigger g(b1), g(b2)} :: b1 in L' && b2 in L' && adj'(b1, b2) ==> adj(g(b1), g(b2))
    requires Representatives(adj, L, R)
    ensures forall r1, r2 ::
              r1 in (set b | b in L' && g(b) in R) && r2 in (set b | b in L' && g(b) in R) && Connected(adj', L', r1, r2)
              ==> r1 == r2
  {
    var R' := set b | b in L' && g(b) in R;
    forall r1, r2 | r1 in R' && r2 in R' && Connected(adj', L', r1, r2) ensures r1 == r2 {
      ImageApart(adj, adj', L, L', g, R, r1, r2);
      assert f(g(r1)) == r1 && f(g(r2)) == r2;
    }
  }

  lemma ImageReaches<A(!new), B(!new)>(adj: (A, A) -> bool, adj': (B, B) -> bool, L: set<A>, L': set<B>,
                                       f: A -> B, g: B -> A, R: set<A>, b: B)
    requires forall a {:trigger f(a)} :: a in L ==> f(a) in L' && g(f(a)) == a
    requires b in L' && g(b) in L && f(g(b)) == b
    requires forall a1, a2 {:trigger f(a1), f(a2)} :: a1 in L && a2 in L && adj(a1, a2) ==> adj'(f(a1), f(a2))
    requires Representatives(adj, L, R)
    ensures exists r' :: r' in (set b | b in L' && g(b) in R) && Connected(adj', L', b, r')
  {
    var r :| r in R && Connected(adj, L, g(b), r);
    ConnectedImage(adj, adj', L, L', f, g(b), r);
    assert f(r) in L' && g(f(r)) == r;
    assert f(r) in (set b | b in L' && g(b) in R);
  }

  lemma ImageApart<A(!new), B(!new)>(adj: (A, A) -> bool, adj': (B, B) -> bool, L: set<A>, L': set<B>,
                                     g: B -> A, R: set<A>, r1: B, r2: B)
    requires forall b {:trigger g(b)} :: b in L' ==> g(b) in L
    requires forall b1, b2 {:trigger g(b1), g(b2)} :: b1 in L' && b2 in L' && adj'(b1, b2) ==> adj(g(b1), g(b2))
    requires Representatives(adj, L, R)
    requires r1 in L' && r2 in L' && g(r1) in R && g(r2) in R && Connected(adj', L', r1, r2)
    ensures g(r1) == g(r2)
  {
    ConnectedImage(adj', adj, L', L, g, r1, r2);
  }
}
