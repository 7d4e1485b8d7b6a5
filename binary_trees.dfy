/**
 * The ghost shape of a linked binary tree and the state of a reverse Morris
 * traversal over it (KthLargestBST/Morris.java and ThreadedBST.java): the
 * subtree still to walk, the stack of ancestors whose right subtree is being
 * walked, and the temporary threads, each from the leftmost node of such a
 * right subtree back to its ancestor.
 */
module BinaryTrees {
  datatype Tree<N> = Leaf | Br(l: Tree<N>, n: N, r: Tree<N>)

  function Nodes<N>(t: Tree<N>): set<N>
  {
    match t
    case Leaf => {}
    case Br(l, n, r) => Nodes(l) + {n} + Nodes(r)
  }

  /** Reverse in-order: right subtree, node, left subtree; in a search tree
    * the keys in descending order. */
  function RevIn<N>(t: Tree<N>): seq<N>
  {
    match t
    case Leaf => []
    case Br(l, n, r) => RevIn(r) + [n] + RevIn(l)
  }

  /** The leftmost node, the last one in reverse in-order. */
  function Min<N>(t: Tree<N>): N
    requires t.Br?
  {
    if t.l.Br? then Min(t.l) else t.n
  }

  /** No node occurs twice. */
  ghost predicate Distinct<N>(t: Tree<N>)
  {
    match t
    case Leaf => true
    case Br(l, n, r) => Distinct(l) && Distinct(r) && n !in Nodes(l) && n !in Nodes(r) && Nodes(l) !! Nodes(r)
  }

  /** s is a subtree of t. */
  ghost predicate Sub<N>(s: Tree<N>, t: Tree<N>)
  {
    s == t || (t.Br? && (Sub(s, t.l) || Sub(s, t.r)))
  }

  /** L and R give the left and right subtree of every node of t. */
  ghost predicate Shaped<N>(t: Tree<N>, L: map<N, Tree<N>>, R: map<N, Tree<N>>)
  {
    match t
    case Leaf => true
    case Br(l, n, r) => n in L && n in R && L[n] == l && R[n] == r && Shaped(l, L, R) && Shaped(r, L, R)
  }

  ghost predicate NoDup<N>(s: seq<N>)
  {
    forall i, j :: 0 <= i < j < |s| ==> s[i] != s[j]
  }

  /** The nodes of a frame still to visit: the ancestor, then its left subtree. */
  ghost function Piece<N>(f: Tree<N>): set<N>
    requires f.Br?
  {
    {f.n} + Nodes(f.l)
  }

  /** What the stack of frames still visits, innermost frame first. */
  function Conts<N>(fr: seq<Tree<N>>): seq<N>
    requires forall i :: 0 <= i < |fr| ==> fr[i].Br?
  {
    if |fr| == 0 then [] else
      var f := fr[|fr| - 1];
      [f.n] + RevIn(f.l) + Conts(fr[..|fr| - 1])
  }

  ghost predicate Frames<N>(fr: seq<Tree<N>>)
  {
    forall i :: 0 <= i < |fr| ==> fr[i].Br? && fr[i].r.Br?
  }

  /** The traversal state over t, with node shapes L and R: the walk has
    * visited `visited`, is inside the subtree cur, and has the frames fr
    * (innermost last) still to finish; together, in this order, they are the
    * reverse in-order of t.  B maps each thread's node to its frame's node. */
  ghost predicate Walk<N>(t: Tree<N>, L: map<N, Tree<N>>, R: map<N, Tree<N>>, B: map<N, N>,
                          cur: Tree<N>, fr: seq<Tree<N>>, visited: seq<N>)
  {
    Layout(t, L, R, cur, fr, visited) && Threaded(L, B, fr) && Chained(B, cur, fr) && Owned(B, cur, fr)
  }

  ghost predicate Layout<N>(t: Tree<N>, L: map<N, Tree<N>>, R: map<N, Tree<N>>,
                            cur: Tree<N>, fr: seq<Tree<N>>, visited: seq<N>)
  {
    Shaped(t, L, R) && Distinct(t) && Sub(cur, t) && Frames(fr) &&
    (forall i :: 0 <= i < |fr| ==> Sub(fr[i], t)) &&
    RevIn(t) == visited + RevIn(cur) + Conts(fr)
  }

  /** Each frame's thread runs from the leftmost node of its right subtree,
    * a node without a left child, to the frame's node; there are no others. */
  ghost predicate Threaded<N>(L: map<N, Tree<N>>, B: map<N, N>, fr: seq<Tree<N>>)
  {
    Frames(fr) &&
    (forall i :: 0 <= i < |fr| ==> Min(fr[i].r) in B && B[Min(fr[i].r)] == fr[i].n) &&
    |B| == |fr| &&
    (forall y :: y in B ==> y in L && L[y] == Leaf)
  }

  /** The leftmost node of cur holds the innermost frame's thread, and the
    * leftmost node of each frame the thread of the frame below; the
    * outermost ones hold none. */
  ghost predicate Chained<N>(B: map<N, N>, cur: Tree<N>, fr: seq<Tree<N>>)
  {
    Frames(fr) &&
    (cur.Br? ==> if |fr| == 0 then Min(cur) !in B else Min(cur) == Min(fr[|fr| - 1].r)) &&
    (|fr| > 0 ==> Min(fr[0]) !in B) &&
    (forall i :: 0 < i < |fr| ==> Min(fr[i]) == Min(fr[i - 1].r))
  }

  /** No other node of cur or of a frame holds a thread. */
  ghost predicate Owned<N>(B: map<N, N>, cur: Tree<N>, fr: seq<Tree<N>>)
  {
    Frames(fr) &&
    (forall y :: y in B && y in Nodes(cur) ==> y == Min(cur)) &&
    (forall i, y :: 0 <= i < |fr| && y in B && y in Piece(fr[i]) ==> y == Min(fr[i]))
  }

  /** The left subtree of each node of t. */
  ghost function Lefts<N>(t: Tree<N>): (L: map<N, Tree<N>>)
    ensures L.Keys == Nodes(t)
  {
    match t
    case Leaf => map[]
    case Br(l, n, r) => Lefts(l) + Lefts(r) + map[n := l]
  }

  /** The right subtree of each node of t. */
  ghost function Rights<N>(t: Tree<N>): (R: map<N, Tree<N>>)
    ensures R.Keys == Nodes(t)
  {
    match t
    case Leaf => map[]
    case Br(l, n, r) => Rights(l) + Rights(r) + map[n := r]
  }

  /** Lefts and Rights give t's shape when its nodes are distinct. */
  lemma {:induction false} ShapedMaps<N>(t: Tree<N>)
    requires Distinct(t)
    ensures Shaped(t, Lefts(t), Rights(t))
  {
    match t
    case Leaf =>
    case Br(l, n, r) =>
      ShapedMaps(l);
      ShapedMaps(r);
      MapsSplit(t);
      ShapedWithin(l, Lefts(l), Rights(l), Lefts(t), Rights(t));
      ShapedWithin(r, Lefts(r), Rights(r), Lefts(t), Rights(t));
  }

  /** The maps of a tree with distinct nodes agree with its subtrees' maps. */
  lemma MapsSplit<N>(t: Tree<N>)
    requires Distinct(t) && t.Br?
    ensures forall x :: x in Nodes(t.l) ==> Lefts(t)[x] == Lefts(t.l)[x] && Rights(t)[x] == Rights(t.l)[x]
    ensures forall x :: x in Nodes(t.r) ==> Lefts(t)[x] == Lefts(t.r)[x] && Rights(t)[x] == Rights(t.r)[x]
  {
    var Lt, Rt := Lefts(t), Rights(t);
    assert Lt == Lefts(t.l) + Lefts(t.r) + map[t.n := t.l];
    assert Rt == Rights(t.l) + Rights(t.r) + map[t.n := t.r];
    forall x | x in Nodes(t.l)
      ensures Lt[x] == Lefts(t.l)[x] && Rt[x] == Rights(t.l)[x]
    {
      assert x !in Nodes(t.r) && x != t.n;
    }
    forall x | x in Nodes(t.r)
      ensures Lt[x] == Lefts(t.r)[x] && Rt[x] == Rights(t.r)[x]
    {
      assert x != t.n;
    }
  }

  /** Shapes given by L and R are kept by maps that agree with them on t. */
  lemma ShapedWithin<N>(t: Tree<N>, L: map<N, Tree<N>>, R: map<N, Tree<N>>, L': map<N, Tree<N>>, R': map<N, Tree<N>>)
    requires Shaped(t, L, R)
    requires forall x :: x in Nodes(t) ==> x in L && x in R && x in L' && x in R' && L'[x] == L[x] && R'[x] == R[x]
    ensures Shaped(t, L', R')
  {
  }

  lemma NodesRevIn<N>(t: Tree<N>, x: N)
    ensures x in RevIn(t) <==> x in Nodes(t)
  {
    match t
    case Leaf =>
    case Br(l, n, r) =>
      NodesRevIn(l, x);
      NodesRevIn(r, x);
  }

  lemma NoDupSplit<N>(a: seq<N>, b: seq<N>)
    requires NoDup(a + b)
    ensures NoDup(a) && NoDup(b) && forall x :: x in a ==> x !in b
  {
    assert forall i :: 0 <= i < |a| ==> (a + b)[i] == a[i];
    assert forall j :: 0 <= j < |b| ==> (a + b)[|a| + j] == b[j];
  }

  lemma NoDupJoin<N>(a: seq<N>, b: seq<N>)
    requires NoDup(a) && NoDup(b) && forall x :: x in a ==> x !in b
    ensures NoDup(a + b)
  {
    forall i, j | 0 <= i < j < |a + b| ensures (a + b)[i] != (a + b)[j] {
      if j < |a| {
      } else if i >= |a| {
        assert (a + b)[i] == b[i - |a|] && (a + b)[j] == b[j - |a|];
      } else {
        assert (a + b)[i] == a[i] && (a + b)[j] == b[j - |a|];
        assert a[i] in a;
      }
    }
  }

  /** The reverse in-order of a tree with distinct nodes has no repeats. */
  lemma {:induction false} DistinctNoDup<N>(t: Tree<N>)
    requires Distinct(t)
    ensures NoDup(RevIn(t))
  {
    match t
    case Leaf =>
    case Br(l, n, r) =>
      DistinctNoDup(l);
      DistinctNoDup(r);
      forall x | x in RevIn(r) ensures x !in [n] + RevIn(l) {
        NodesRevIn(r, x);
        NodesRevIn(l, x);
      }
      forall x | x in [n] ensures x !in RevIn(l) {
        NodesRevIn(l, x);
      }
      NoDupJoin([n], RevIn(l));
      NoDupJoin(RevIn(r), [n] + RevIn(l));
      assert RevIn(r) + ([n] + RevIn(l)) == RevIn(t);
  }

  lemma SubTrans<N>(s: Tree<N>, u: Tree<N>, t: Tree<N>)
    requires Sub(s, u) && Sub(u, t)
    ensures Sub(s, t)
  {
    if u != t {
      if Sub(u, t.l) {
        SubTrans(s, u, t.l);
      } else {
        SubTrans(s, u, t.r);
      }
    }
  }

  lemma SubFacts<N>(s: Tree<N>, t: Tree<N>, L: map<N, Tree<N>>, R: map<N, Tree<N>>)
    requires Sub(s, t) && Distinct(t) && Shaped(t, L, R)
    ensures Distinct(s) && Shaped(s, L, R) && Nodes(s) <= Nodes(t)
  {
    if s != t {
      if Sub(s, t.l) {
        SubFacts(s, t.l, L, R);
      } else {
        SubFacts(s, t.r, L, R);
      }
    }
  }

  lemma MinFacts<N>(t: Tree<N>, L: map<N, Tree<N>>, R: map<N, Tree<N>>)
    requires t.Br? && Shaped(t, L, R)
    ensures Min(t) in Piece(t) && Min(t) in Nodes(t) && Min(t) in L && L[Min(t)] == Leaf
  {
    if t.l.Br? {
      MinFacts(t.l, L, R);
    }
  }

  /** Each frame's nodes are among what the frames still visit. */
  lemma {:induction false} ContsPiece<N>(fr: seq<Tree<N>>, i: int, y: N)
    requires Frames(fr) && 0 <= i < |fr| && y in Piece(fr[i])
    ensures y in Conts(fr)
  {
    var f := fr[|fr| - 1];
    if i == |fr| - 1 {
      NodesRevIn(f.l, y);
    } else {
      ContsPiece(fr[..|fr| - 1], i, y);
    }
  }

  /** Frames with no repeats between them hold different nodes. */
  lemma {:induction false} ContsApart<N>(fr: seq<Tree<N>>, i: int, j: int, y: N)
    requires Frames(fr) && NoDup(Conts(fr)) && 0 <= i < j < |fr| && y in Piece(fr[i])
    ensures y !in Piece(fr[j])
  {
    var f, rest := fr[|fr| - 1], fr[..|fr| - 1];
    NoDupSplit([f.n] + RevIn(f.l), Conts(rest));
    if j == |fr| - 1 {
      ContsPiece(rest, i, y);
      NodesRevIn(f.l, y);
      assert y !in [f.n] + RevIn(f.l);
    } else {
      ContsApart(rest, i, j, y);
    }
  }

  /** The start of the traversal: all of t to walk, no frames, no threads. */
  lemma WalkStart<N>(t: Tree<N>, L: map<N, Tree<N>>, R: map<N, Tree<N>>)
    requires Shaped(t, L, R) && Distinct(t)
    ensures Walk(t, L, R, map[], t, [], [])
  {
    assert RevIn(t) == [] + RevIn(t) + Conts<N>([]);
  }

  /** The visited nodes are the start of the reverse in-order. */
  lemma VisitedPrefix<N>(t: Tree<N>, cur: Tree<N>, fr: seq<Tree<N>>, visited: seq<N>)
    requires Frames(fr) && RevIn(t) == visited + RevIn(cur) + Conts(fr)
    ensures |visited| <= |RevIn(t)| && forall i :: 0 <= i < |visited| ==> RevIn(t)[i] == visited[i]
  {
  }

  /** The node the walk is at has not been visited yet: neither cur's node
    * nor the innermost frame's. */
  lemma Unvisited<N>(t: Tree<N>, L: map<N, Tree<N>>, R: map<N, Tree<N>>,
                     cur: Tree<N>, fr: seq<Tree<N>>, visited: seq<N>)
    requires Layout(t, L, R, cur, fr, visited)
    ensures cur.Br? ==> cur.n !in visited
    ensures |fr| > 0 ==> fr[|fr| - 1].n !in visited
  {
    RestNoDup(t, cur, fr, visited);
    DistinctNoDup(t);
    assert visited + RevIn(cur) + Conts(fr) == visited + (RevIn(cur) + Conts(fr));
    NoDupSplit(visited, RevIn(cur) + Conts(fr));
    if cur.Br? {
      NodesRevIn(cur, cur.n);
      assert cur.n in RevIn(cur) + Conts(fr);
    }
    if |fr| > 0 {
      assert fr[|fr| - 1].n == Conts(fr)[0];
      assert fr[|fr| - 1].n in RevIn(cur) + Conts(fr);
    }
  }

  /** The leftmost node comes last in reverse in-order. */
  lemma {:induction false} LastIsMin<N>(t: Tree<N>)
    requires t.Br?
    ensures |RevIn(t)| > 0 && RevIn(t)[|RevIn(t)| - 1] == Min(t)
  {
    if t.l.Br? {
      LastIsMin(t.l);
    }
  }

  /** What a state still visits has no repeats. */
  lemma RestNoDup<N>(t: Tree<N>, cur: Tree<N>, fr: seq<Tree<N>>, visited: seq<N>)
    requires Distinct(t) && Frames(fr) && RevIn(t) == visited + RevIn(cur) + Conts(fr)
    ensures NoDup(RevIn(cur) + Conts(fr))
  {
    DistinctNoDup(t);
    assert visited + RevIn(cur) + Conts(fr) == visited + (RevIn(cur) + Conts(fr));
    NoDupSplit(visited, RevIn(cur) + Conts(fr));
  }

  /** cur and the frames hold different nodes. */
  lemma CurApart<N>(cur: Tree<N>, fr: seq<Tree<N>>)
    requires Frames(fr) && NoDup(RevIn(cur) + Conts(fr))
    ensures forall i, y :: 0 <= i < |fr| && y in Nodes(cur) ==> y !in Piece(fr[i])
  {
    NoDupSplit(RevIn(cur), Conts(fr));
    forall i, y | 0 <= i < |fr| && y in Nodes(cur) ensures y !in Piece(fr[i]) {
      NodesRevIn(cur, y);
      if y in Piece(fr[i]) {
        ContsPiece(fr, i, y);
        assert false;
      }
    }
  }

  /** Two frames hold different nodes. */
  lemma FramesApart<N>(cur: Tree<N>, fr: seq<Tree<N>>)
    requires Frames(fr) && NoDup(RevIn(cur) + Conts(fr))
    ensures forall i, j, y :: 0 <= i < j < |fr| && y in Piece(fr[i]) ==> y !in Piece(fr[j])
  {
    NoDupSplit(RevIn(cur), Conts(fr));
    forall i, j, y | 0 <= i < j < |fr| && y in Piece(fr[i]) ensures y !in Piece(fr[j]) {
      ContsApart(fr, i, j, y);
    }
  }

  /** Visiting cur's node, which has no right subtree, and going on with its
    * left subtree; the node's left link leads to that subtree, or through a
    * thread to the innermost frame, or nowhere. */
  lemma WalkVisit<N>(t: Tree<N>, L: map<N, Tree<N>>, R: map<N, Tree<N>>, B: map<N, N>,
                     cur: Tree<N>, fr: seq<Tree<N>>, visited: seq<N>)
    requires Walk(t, L, R, B, cur, fr, visited) && cur.Br? && cur.r.Leaf?
    ensures Walk(t, L, R, B, cur.l, fr, visited + [cur.n])
    ensures cur.l.Br? ==> cur.n !in B
    ensures cur.l.Leaf? && |fr| == 0 ==> cur.n !in B
    ensures cur.l.Leaf? && |fr| > 0 ==> cur.n in B && B[cur.n] == fr[|fr| - 1].n
  {
    VisitLayout(t, L, R, cur, fr, visited);
    SubFacts(cur, t, L, R);
    if cur.l.Br? {
      MinFacts(cur.l, L, R);
    }
  }

  lemma VisitLayout<N>(t: Tree<N>, L: map<N, Tree<N>>, R: map<N, Tree<N>>,
                       cur: Tree<N>, fr: seq<Tree<N>>, visited: seq<N>)
    requires Layout(t, L, R, cur, fr, visited) && cur.Br? && cur.r.Leaf?
    ensures Layout(t, L, R, cur.l, fr, visited + [cur.n])
  {
    SubTrans(cur.l, cur, t);
    assert visited + RevIn(cur) + Conts(fr) == (visited + [cur.n]) + RevIn(cur.l) + Conts(fr);
  }

  /** Going into cur's right subtree: its leftmost node, which has no thread
    * yet, gets one back to cur, and cur becomes the innermost frame. */
  lemma WalkPush<N>(t: Tree<N>, L: map<N, Tree<N>>, R: map<N, Tree<N>>, B: map<N, N>,
                    cur: Tree<N>, fr: seq<Tree<N>>, visited: seq<N>)
    requires Walk(t, L, R, B, cur, fr, visited) && cur.Br? && cur.r.Br?
    ensures Min(cur.r) !in B && Min(cur.r) in L && L[Min(cur.r)] == Leaf
    ensures Walk(t, L, R, B[Min(cur.r) := cur.n], cur.r, fr + [cur], visited)
  {
    PushFacts(t, L, R, B, cur, fr, visited);
    PushLayout(t, L, R, cur, fr, visited);
    PushThreaded(L, B, cur, fr);
    PushChained(B, cur, fr);
    PushOwned(B, cur, fr);
  }

  /** What going into cur's right subtree relies on: the leftmost node m of
    * that subtree holds no thread and lies in neither cur's piece nor a frame. */
  lemma PushFacts<N>(t: Tree<N>, L: map<N, Tree<N>>, R: map<N, Tree<N>>, B: map<N, N>,
                     cur: Tree<N>, fr: seq<Tree<N>>, visited: seq<N>)
    requires Layout(t, L, R, cur, fr, visited) && Owned(B, cur, fr) && cur.Br? && cur.r.Br?
    ensures var m := Min(cur.r);
      m !in B && m in L && L[m] == Leaf && m !in Piece(cur) && m != Min(cur) && Min(cur) !in Nodes(cur.r) &&
      forall i :: 0 <= i < |fr| ==> m !in Piece(fr[i]) && m != Min(fr[i])
  {
    SubFacts(cur, t, L, R);
    MinFacts(cur.r, L, R);
    MinFacts(cur, L, R);
    RestNoDup(t, cur, fr, visited);
    CurApart(cur, fr);
    forall i | 0 <= i < |fr| ensures Min(fr[i]) in Piece(fr[i]) {
      SubFacts(fr[i], t, L, R);
      MinFacts(fr[i], L, R);
    }
  }

  lemma PushLayout<N>(t: Tree<N>, L: map<N, Tree<N>>, R: map<N, Tree<N>>,
                      cur: Tree<N>, fr: seq<Tree<N>>, visited: seq<N>)
    requires Layout(t, L, R, cur, fr, visited) && cur.Br? && cur.r.Br?
    ensures Layout(t, L, R, cur.r, fr + [cur], visited)
  {
    SubTrans(cur.r, cur, t);
    ContsPush(cur, fr, visited);
  }

  /** Pushing cur as a frame moves its node and its left subtree from the
    * current tree to the frames. */
  lemma ContsPush<N>(cur: Tree<N>, fr: seq<Tree<N>>, visited: seq<N>)
    requires cur.Br? && forall i :: 0 <= i < |fr| ==> fr[i].Br?
    ensures visited + RevIn(cur) + Conts(fr) == visited + RevIn(cur.r) + Conts(fr + [cur])
  {
    var fr' := fr + [cur];
    assert fr'[..|fr'| - 1] == fr;
    assert Conts(fr') == [cur.n] + RevIn(cur.l) + Conts(fr);
    assert RevIn(cur) == RevIn(cur.r) + [cur.n] + RevIn(cur.l);
    Regroup(visited, RevIn(cur.r), [cur.n], RevIn(cur.l), Conts(fr));
  }

  lemma Regroup<T>(v: seq<T>, a: seq<T>, b: seq<T>, c: seq<T>, d: seq<T>)
    ensures v + (a + b + c) + d == v + a + (b + c + d)
  {
    assert a + b + c + d == a + (b + c + d);
  }

  lemma PushThreaded<N>(L: map<N, Tree<N>>, B: map<N, N>, cur: Tree<N>, fr: seq<Tree<N>>)
    requires Threaded(L, B, fr) && cur.Br? && cur.r.Br?
    requires Min(cur.r) !in B && Min(cur.r) in L && L[Min(cur.r)] == Leaf
    ensures Threaded(L, B[Min(cur.r) := cur.n], fr + [cur])
  {
    var fr' := fr + [cur];
    forall i | 0 <= i < |fr| ensures fr'[i] == fr[i] {
    }
  }

  lemma PushChained<N>(B: map<N, N>, cur: Tree<N>, fr: seq<Tree<N>>)
    requires Chained(B, cur, fr) && cur.Br? && cur.r.Br?
    requires Min(cur.r) !in B && Min(cur.r) != Min(cur)
    requires forall i :: 0 <= i < |fr| ==> Min(cur.r) != Min(fr[i])
    ensures Chained(B[Min(cur.r) := cur.n], cur.r, fr + [cur])
  {
    var fr' := fr + [cur];
    forall i | 0 <= i < |fr| ensures fr'[i] == fr[i] {
    }
  }

  lemma PushOwned<N>(B: map<N, N>, cur: Tree<N>, fr: seq<Tree<N>>)
    requires Owned(B, cur, fr) && cur.Br? && cur.r.Br?
    requires Min(cur.r) !in Piece(cur) && Min(cur) !in Nodes(cur.r)
    requires forall i :: 0 <= i < |fr| ==> Min(cur.r) !in Piece(fr[i])
    ensures Owned(B[Min(cur.r) := cur.n], cur.r, fr + [cur])
  {
    var fr' := fr + [cur];
    forall i | 0 <= i < |fr| ensures fr'[i] == fr[i] {
    }
  }

  /** Back at the innermost frame's node through its thread: the thread is
    * removed, the node visited, and the walk goes on with its left subtree;
    * the node's left link leads there, or through a thread to the next
    * frame, or nowhere. */
  lemma WalkPop<N>(t: Tree<N>, L: map<N, Tree<N>>, R: map<N, Tree<N>>, B: map<N, N>,
                   cur: Tree<N>, fr: seq<Tree<N>>, visited: seq<N>)
    requires Walk(t, L, R, B, cur, fr, visited) && cur.Leaf? && |fr| > 0
    ensures var f := fr[|fr| - 1]; Min(f.r) in B && B[Min(f.r)] == f.n
    ensures var f := fr[|fr| - 1]; var B' := B - {Min(f.r)};
      Walk(t, L, R, B', f.l, fr[..|fr| - 1], visited + [f.n]) &&
      (f.l.Br? ==> f.n !in B') &&
      (f.l.Leaf? && |fr| == 1 ==> f.n !in B') &&
      (f.l.Leaf? && |fr| > 1 ==> f.n in B' && B'[f.n] == fr[|fr| - 2].n)
  {
    var f := fr[|fr| - 1];
    PopFacts(t, L, R, cur, fr, visited);
    PopLayout(t, L, R, cur, fr, visited);
    PopThreaded(L, B, fr);
    PopChained(B, fr);
    PopOwned(B, fr);
    if f.l.Br? {
      MinFacts(f.l, L, R);
    }
  }

  /** What coming back to the innermost frame relies on: the frames' nodes
    * differ, and the frame's node lies in neither of its subtrees. */
  lemma PopFacts<N>(t: Tree<N>, L: map<N, Tree<N>>, R: map<N, Tree<N>>,
                    cur: Tree<N>, fr: seq<Tree<N>>, visited: seq<N>)
    requires Layout(t, L, R, cur, fr, visited) && |fr| > 0
    ensures var f := fr[|fr| - 1];
      Distinct(f) && Shaped(f, L, R) && f.n !in Nodes(f.l) && f.n !in Nodes(f.r) && Min(f.r) in Nodes(f.r) &&
      forall i :: 0 <= i < |fr| - 1 ==> fr[i].n != f.n
  {
    var f := fr[|fr| - 1];
    SubFacts(f, t, L, R);
    MinFacts(f.r, L, R);
    RestNoDup(t, cur, fr, visited);
    FramesApart(cur, fr);
    forall i | 0 <= i < |fr| - 1 ensures fr[i].n != f.n {
      assert fr[i].n in Piece(fr[i]);
    }
  }

  lemma PopLayout<N>(t: Tree<N>, L: map<N, Tree<N>>, R: map<N, Tree<N>>,
                     cur: Tree<N>, fr: seq<Tree<N>>, visited: seq<N>)
    requires Layout(t, L, R, cur, fr, visited) && cur.Leaf? && |fr| > 0
    ensures Layout(t, L, R, fr[|fr| - 1].l, fr[..|fr| - 1], visited + [fr[|fr| - 1].n])
  {
    var f, fr' := fr[|fr| - 1], fr[..|fr| - 1];
    SubTrans(f.l, f, t);
    assert visited + RevIn(cur) + Conts(fr) == (visited + [f.n]) + RevIn(f.l) + Conts(fr');
  }

  lemma PopThreaded<N>(L: map<N, Tree<N>>, B: map<N, N>, fr: seq<Tree<N>>)
    requires Threaded(L, B, fr) && |fr| > 0
    requires forall i :: 0 <= i < |fr| - 1 ==> fr[i].n != fr[|fr| - 1].n
    ensures Threaded(L, B - {Min(fr[|fr| - 1].r)}, fr[..|fr| - 1])
  {
  }

  lemma PopChained<N>(B: map<N, N>, fr: seq<Tree<N>>)
    requires Chained(B, Leaf, fr) && |fr| > 0
    ensures Chained(B - {Min(fr[|fr| - 1].r)}, fr[|fr| - 1].l, fr[..|fr| - 1])
  {
    var f, fr', B' := fr[|fr| - 1], fr[..|fr| - 1], B - {Min(fr[|fr| - 1].r)};
    var m := |fr| - 1;
    assert Frames(fr');
    if f.l.Br? {
      assert Min(f.l) == Min(f);
      if m > 0 {
        assert Min(f) == Min(fr[m - 1].r);
      }
    }
    if |fr'| > 0 {
      assert fr'[0] == fr[0];
    }
    forall i | 0 < i < |fr'| ensures Min(fr'[i]) == Min(fr'[i - 1].r) {
      assert fr'[i] == fr[i] && fr'[i - 1] == fr[i - 1];
    }
  }

  lemma PopOwned<N>(B: map<N, N>, fr: seq<Tree<N>>)
    requires Owned(B, Leaf, fr) && |fr| > 0
    ensures Owned(B - {Min(fr[|fr| - 1].r)}, fr[|fr| - 1].l, fr[..|fr| - 1])
  {
  }

  /** One step down the left spine of owner's right subtree, in search of
    * its leftmost node. */
  lemma SpineStep<N>(t: Tree<N>, L: map<N, Tree<N>>, R: map<N, Tree<N>>, B: map<N, N>, owner: Tree<N>, s: Tree<N>)
    requires Shaped(t, L, R) && Distinct(t) && Sub(owner, t) && owner.Br? && owner.r.Br?
    requires forall y :: y in B ==> y in L && L[y] == Leaf
    requires Sub(s, owner.r) && s.Br? && Min(s) == Min(owner.r)
    ensures s.n in L && L[s.n] == s.l
    ensures s.l.Br? ==> s.n !in B && s.l.n != owner.n && Sub(s.l, owner.r) && Min(s.l) == Min(owner.r)
    ensures s.l.Leaf? ==> s.n == Min(owner.r)
  {
    SubFacts(owner, t, L, R);
    SubFacts(owner.r, owner, L, R);
    SubFacts(s, owner.r, L, R);
    if s.l.Br? {
      SubTrans(s.l, s, owner.r);
    }
  }

  /** A search tree under key: the keys of a left subtree are below the
    * node's, those of a right subtree above it. */
  ghost predicate SearchTree<N>(t: Tree<N>, key: N -> int)
  {
    match t
    case Leaf => true
    case Br(l, n, r) =>
      SearchTree(l, key) && SearchTree(r, key) &&
      (forall x :: x in Nodes(l) ==> key(x) < key(n)) && (forall x :: x in Nodes(r) ==> key(n) < key(x))
  }

  /** In a search tree the reverse in-order holds the keys in strictly
    * descending order, so its k-th node holds the k-th largest key. */
  lemma {:induction false} Descending<N>(t: Tree<N>, key: N -> int)
    requires SearchTree(t, key)
    ensures forall i, j :: 0 <= i < j < |RevIn(t)| ==> key(RevIn(t)[i]) > key(RevIn(t)[j])
  {
    match t
    case Leaf =>
    case Br(l, n, r) =>
      Descending(l, key);
      Descending(r, key);
      var a, b := RevIn(r), RevIn(l);
      assert RevIn(t) == a + [n] + b;
      forall i | 0 <= i < |a| ensures key(a[i]) > key(n) {
        NodesRevIn(r, a[i]);
      }
      forall j | 0 <= j < |b| ensures key(n) > key(b[j]) {
        NodesRevIn(l, b[j]);
      }
  }

  /** In a search tree the node before the i-th in reverse in-order holds the
    * next larger key: no node's key lies between the two. */
  lemma NextLarger<N>(t: Tree<N>, key: N -> int, i: int)
    requires SearchTree(t, key) && 0 < i < |RevIn(t)|
    ensures key(RevIn(t)[i - 1]) > key(RevIn(t)[i])
    ensures forall y :: y in Nodes(t) && key(y) > key(RevIn(t)[i]) ==> key(y) >= key(RevIn(t)[i - 1])
  {
    Descending(t, key);
    var order := RevIn(t);
    forall y | y in Nodes(t) && key(y) > key(order[i]) ensures key(y) >= key(order[i - 1]) {
      NodesRevIn(t, y);
      var j :| 0 <= j < |order| && order[j] == y;
      assert j < i;
    }
  }
}
