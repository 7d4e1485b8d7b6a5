/**
 * Ordered views of integer sets: the iteration order of the key sets of Java's
 * TreeMap and ConcurrentSkipListMap.
 */
module IntSets {
  /** A witness for a non-empty set (any element). */
  lemma Element<T>(s: set<T>) returns (x: T)
    requires s != {}
    ensures x in s
  {
    if forall y :: y !in s { assert false; }
    x :| x in s;
  }

  /** Every non-empty finite set of integers has a least element. */
  lemma {:induction false} HasMin(s: set<int>)
    requires s != {}
    ensures exists m :: m in s && forall x :: x in s ==> m <= x
    decreases |s|
  {
    var x := Element(s);
    var rest := s - {x};
    if rest == {} {
      assert forall y :: y in s ==> y == x by {
        forall y | y in s ensures y == x { assert y in rest || y == x; }
      }
      assert x in s && forall y :: y in s ==> x <= y;
    } else {
      HasMin(rest);
      var m :| m in rest && forall y :: y in rest ==> m <= y;
      assert forall y :: y in s ==> y == x || y in rest;
      if x < m {
        assert x in s && forall y :: y in s ==> x <= y;
      } else {
        assert m in s && forall y :: y in s ==> m <= y;
      }
    }
  }

  /** The least element of a non-empty set (TreeMap.firstKey). */
  ghost function Min(s: set<int>): (m: int)
    requires s != {}
    ensures m in s
    ensures forall x :: x in s ==> m <= x
  {
    HasMin(s);
    var m :| m in s && forall x :: x in s ==> m <= x;
    m
  }

  /** The greatest element of a non-empty set: the negation of the least
    * negated element. */
  ghost function Max(s: set<int>): (m: int)
    requires s != {}
    ensures m in s
    ensures forall x :: x in s ==> x <= m
  {
    var neg := set x | x in s :: -x;
    NonEmpty(s);
    var w :| w in s;
    assert -w in neg;
    var least := Min(neg);
    var m :| m in s && -m == least;
    assert forall x :: x in s ==> -x in neg;
    m
  }

  lemma NonEmpty(s: set<int>)
    requires s != {}
    ensures exists x :: x in s
  {
    var x := Element(s);
  }

  ghost predicate StrictlyIncreasing(xs: seq<int>)
  {
    forall i, j :: 0 <= i < j < |xs| ==> xs[i] < xs[j]
  }

  /** The elements of s in ascending order: the order a TreeMap walks its keys. */
  ghost function Ascending(s: set<int>): (xs: seq<int>)
    ensures |xs| == |s|
    decreases |s|
  {
    if s == {} then []
    else
      var m := Min(s);
      [m] + Ascending(s - {m})
  }

  /** Ascending(s) lists exactly the elements of s. */
  lemma {:induction false} AscendingMembers(s: set<int>)
    ensures forall x :: x in Ascending(s) <==> x in s
    decreases |s|
  {
    if s != {} {
      var m := Min(s);
      var rest := Ascending(s - {m});
      AscendingMembers(s - {m});
      assert Ascending(s) == [m] + rest;
    }
  }

  /** Ascending(s) is strictly increasing, so it lists each element once, smallest first. */
  lemma {:induction false} AscendingIncreasing(s: set<int>)
    ensures StrictlyIncreasing(Ascending(s))
    decreases |s|
  {
    if s != {} {
      var m := Min(s);
      var rest := Ascending(s - {m});
      AscendingIncreasing(s - {m});
      AscendingMembers(s - {m});
      var xs := [m] + rest;
      assert Ascending(s) == xs;
      forall i, j | 0 <= i < j < |xs| ensures xs[i] < xs[j] {
        assert xs[j] == rest[j - 1];
        if i == 0 {
          assert rest[j - 1] in rest;
        } else {
          assert xs[i] == rest[i - 1];
        }
      }
    }
  }

  lemma HeadIsMember(xs: seq<int>)
    requires xs != []
    ensures xs[0] in xs
  {
  }

  /** The head of a strictly increasing sequence is its least element. */
  lemma HeadIsLeast(xs: seq<int>)
    requires StrictlyIncreasing(xs) && xs != []
    ensures forall x :: x in xs ==> xs[0] <= x
    ensures xs[0] !in xs[1..]
  {
    forall k | 0 <= k < |xs| ensures xs[0] <= xs[k] {
      if k > 0 { assert xs[0] < xs[k]; }
    }
  }

  /** A strictly increasing sequence is determined by its elements. */
  lemma {:induction false} IncreasingUnique(xs: seq<int>, ys: seq<int>)
    requires StrictlyIncreasing(xs) && StrictlyIncreasing(ys)
    requires forall x :: x in xs <==> x in ys
    ensures xs == ys
    decreases |xs|
  {
    if xs == [] {
      if ys != [] {
        HeadIsMember(ys);
        assert false;
      }
    } else {
      assert xs[0] in xs && xs[0] in ys;
      assert ys[0] in ys && ys[0] in xs;
      HeadIsLeast(xs);
      HeadIsLeast(ys);
      assert xs[0] == ys[0];
      forall x ensures x in xs[1..] <==> x in ys[1..] {
        assert x in xs <==> x in xs[1..] || x == xs[0];
        assert x in ys <==> x in ys[1..] || x == ys[0];
      }
      IncreasingUnique(xs[1..], ys[1..]);
      assert xs == [xs[0]] + xs[1..];
      assert ys == [ys[0]] + ys[1..];
    }
  }

  /** `TreeMap.lastKey` over a key set: its greatest element, found by a
    * scan. */
  method LastKey(keys: set<int>) returns (k: int)
    requires keys != {}
    ensures k in keys && forall v :: v in keys ==> v <= k
  {
    ghost var w := Element(keys);
    k :| k in keys;
    var rest := keys - {k};
    while rest != {}
      invariant rest <= keys && k in keys
      invariant forall v :: v in keys && v !in rest ==> v <= k
      decreases |rest|
    {
      ghost var u := Element(rest);
      var v :| v in rest;
      if v > k {
        k := v;
      }
      rest := rest - {v};
    }
  }

  /** `TreeMap.firstKey` over a key set: its least element, found by a
    * scan. */
  method FirstKey(keys: set<int>) returns (k: int)
    requires keys != {}
    ensures k in keys && forall v :: v in keys ==> k <= v
  {
    ghost var w := Element(keys);
    k :| k in keys;
    var rest := keys - {k};
    while rest != {}
      invariant rest <= keys && k in keys
      invariant forall v :: v in keys && v !in rest ==> k <= v
      decreases |rest|
    {
      ghost var u := Element(rest);
      var v :| v in rest;
      if v < k {
        k := v;
      }
      rest := rest - {v};
    }
  }
}
