/** The boundary walk of an N-ary tree: a breadth-first search finds the
  * first and the last deepest leaves, and the walk climbs from the first one
  * to the root and descends to the last one. */
module NaryWalk {
  import opened Wrappers

  // ---------- trees over node ids ----------

  /** Nodes are the ids 0..|vals|-1 with root 0; `children[n]` lists the
    * children of n in order. */
  datatype Tree = Tree(vals: seq<int>, children: seq<seq<nat>>)

  /** A finite tree: a child's id is larger than its parent's, a node is
    * listed as a child by one parent only, and every node but the root has a
    * parent (so the root never is a child). */
  predicate ValidTree(t: Tree)
  {
    |t.vals| == |t.children| >= 1 &&
    (forall p, k :: 0 <= p < |t.children| && 0 <= k < |t.children[p]| ==>
      p < t.children[p][k] < |t.children| && ListedOnlyBy(t, t.children[p][k], p)) &&
    (forall n :: 1 <= n < |t.children| ==> HasParent(t, n))
  }

  /** No node other than p lists c as a child. */
  predicate ListedOnlyBy(t: Tree, c: nat, p: nat)
  {
    forall q :: 0 <= q < |t.children| && c in t.children[q] ==> q == p
  }

  /** Some node below n lists n as a child. */
  predicate HasParent(t: Tree, n: nat)
  {
    exists p :: 0 <= p < n && p < |t.children| && n in t.children[p]
  }

  predicate IsNode(t: Tree, n: int)
  {
    0 <= n < |t.children|
  }

  predicate IsLeaf(t: Tree, n: nat)
    requires IsNode(t, n)
  {
    |t.children[n]| == 0
  }

  /** The parent of n > 0, searched among the ids p and below. */
  function FindParent(t: Tree, n: nat, p: nat): (r: nat)
    requires n < |t.children| && p < n
    ensures r <= p
  {
    if n in t.children[p] || p == 0 then p else FindParent(t, n, p - 1)
  }

  function ParentOf(t: Tree, n: nat): (r: nat)
    requires 1 <= n < |t.children|
    ensures r < n
  {
    FindParent(t, n, n - 1)
  }

  /** The parent pointer of n: none for the root. */
  function TreeParent(t: Tree, n: nat): Option<nat>
    requires IsNode(t, n)
  {
    if n == 0 then None else Some(ParentOf(t, n))
  }

  lemma {:induction false} FindParentFinds(t: Tree, n: nat, q: nat, p: nat)
    requires n < |t.children| && p <= q < n && n in t.children[p] && ListedOnlyBy(t, n, p)
    ensures FindParent(t, n, q) == p
    decreases q
  {
    if !(n in t.children[q]) && q != 0 {
      FindParentFinds(t, n, q - 1, p);
    }
  }

  /** The parent found for a listed child is the node that lists it. */
  lemma ParentOfChild(t: Tree, p: nat, k: nat)
    requires ValidTree(t) && p < |t.children| && k < |t.children[p]|
    ensures 1 <= t.children[p][k] && ParentOf(t, t.children[p][k]) == p
  {
    assert ListedOnlyBy(t, t.children[p][k], p);
    FindParentFinds(t, t.children[p][k], t.children[p][k] - 1, p);
  }

  /** Every node but the root is a child of its parent. */
  lemma ParentListsChild(t: Tree, n: nat)
    requires ValidTree(t) && 1 <= n < |t.children|
    ensures n in t.children[ParentOf(t, n)]
  {
    assert HasParent(t, n);
    var p :| 0 <= p < n && p < |t.children| && n in t.children[p];
    var k :| 0 <= k < |t.children[p]| && t.children[p][k] == n;
    assert ListedOnlyBy(t, t.children[p][k], p);
    FindParentFinds(t, n, n - 1, p);
  }

  /** The number of edges from the root down to n. */
  function Depth(t: Tree, n: nat): nat
    requires IsNode(t, n)
    decreases n
  {
    if n == 0 then 0 else Depth(t, ParentOf(t, n)) + 1
  }

  // ---------- breadth-first order ----------

  predicate InTree(t: Tree, q: seq<nat>)
  {
    forall i :: 0 <= i < |q| ==> IsNode(t, q[i])
  }

  /** The number of nodes in the subtree of n. */
  function Size(t: Tree, n: nat): nat
    requires ValidTree(t) && IsNode(t, n)
    decreases |t.children| - n, 1
  {
    1 + Forest(t, t.children[n], n)
  }

  /** The number of nodes in the subtrees of cs, all of them above lo. */
  function Forest(t: Tree, cs: seq<nat>, lo: int): nat
    requires ValidTree(t) && forall i :: 0 <= i < |cs| ==> lo < cs[i] < |t.children|
    decreases |t.children| - lo, 0, |cs|
  {
    if cs == [] then 0 else Size(t, cs[0]) + Forest(t, cs[1..], lo)
  }

  lemma {:induction false} ForestBound(t: Tree, cs: seq<nat>, lo: int, lo': int)
    requires ValidTree(t) && forall i :: 0 <= i < |cs| ==> lo < cs[i] < |t.children|
    requires lo' <= lo
    ensures Forest(t, cs, lo) == Forest(t, cs, lo')
    decreases |cs|
  {
    if cs != [] {
      ForestBound(t, cs[1..], lo, lo');
    }
  }

  lemma {:induction false} ForestAppend(t: Tree, a: seq<nat>, b: seq<nat>)
    requires ValidTree(t) && InTree(t, a) && InTree(t, b)
    ensures Forest(t, a + b, -1) == Forest(t, a, -1) + Forest(t, b, -1)
    decreases |a|
  {
    if a != [] {
      assert (a + b)[0] == a[0];
      assert (a + b)[1..] == a[1..] + b;
      ForestAppend(t, a[1..], b);
      assert Forest(t, a + b, -1) == Size(t, a[0]) + Forest(t, a[1..] + b, -1);
      assert Forest(t, a, -1) == Size(t, a[0]) + Forest(t, a[1..], -1);
    } else {
      assert a + b == b;
    }
  }

  /** Taking the front of the queue and appending its children removes one
    * node from the work left. */
  lemma ForestStep(t: Tree, q: seq<nat>)
    requires ValidTree(t) && InTree(t, q) && q != []
    ensures InTree(t, q[1..] + t.children[q[0]])
    ensures Forest(t, q[1..] + t.children[q[0]], -1) < Forest(t, q, -1)
  {
    ForestAppend(t, q[1..], t.children[q[0]]);
    ForestBound(t, t.children[q[0]], q[0], -1);
  }

  /** The order in which a FIFO queue starting from q takes nodes. */
  function BfsOrder(t: Tree, q: seq<nat>): seq<nat>
    requires ValidTree(t) && InTree(t, q)
    decreases Forest(t, q, -1)
  {
    if q == [] then []
    else
      ForestStep(t, q);
      [q[0]] + BfsOrder(t, q[1..] + t.children[q[0]])
  }

  lemma {:induction false} BfsOrderInTree(t: Tree, q: seq<nat>)
    requires ValidTree(t) && InTree(t, q)
    ensures InTree(t, BfsOrder(t, q))
    decreases Forest(t, q, -1)
  {
    if q != [] {
      ForestStep(t, q);
      BfsOrderInTree(t, q[1..] + t.children[q[0]]);
    }
  }

  // ---------- deepest leaves in an order ----------

  /** n is a leaf at depth d. */
  predicate Deep(t: Tree, n: nat, d: int)
    requires IsNode(t, n)
  {
    IsLeaf(t, n) && Depth(t, n) == d
  }

  /** The largest depth of a leaf in s, 0 if s holds no leaf. */
  function MaxLeafDepth(t: Tree, s: seq<nat>): nat
    requires InTree(t, s)
  {
    if s == [] then 0
    else
      var m := MaxLeafDepth(t, s[..|s| - 1]);
      var x := s[|s| - 1];
      if IsLeaf(t, x) && Depth(t, x) > m then Depth(t, x) else m
  }

  /** The first index of a leaf at depth d in s. */
  function FirstAt(t: Tree, s: seq<nat>, d: int): Option<nat>
    requires InTree(t, s)
  {
    if s == [] then None
    else
      match FirstAt(t, s[..|s| - 1], d)
      case Some(i) => Some(i)
      case None => if Deep(t, s[|s| - 1], d) then Some(|s| - 1) else None
  }

  /** The last index of a leaf at depth d in s. */
  function LastAt(t: Tree, s: seq<nat>, d: int): Option<nat>
    requires InTree(t, s)
  {
    if s == [] then None
    else if Deep(t, s[|s| - 1], d) then Some(|s| - 1)
    else LastAt(t, s[..|s| - 1], d)
  }

  /** The node at an index found in s, the root when none was found. */
  function NodeAt(s: seq<nat>, i: Option<nat>): nat
  {
    if i.Some? && i.value < |s| then s[i.value] else 0
  }

  lemma {:induction false} MaxLeafDepthIsMax(t: Tree, s: seq<nat>)
    requires InTree(t, s)
    ensures forall k :: 0 <= k < |s| && IsLeaf(t, s[k]) ==> Depth(t, s[k]) <= MaxLeafDepth(t, s)
    ensures MaxLeafDepth(t, s) > 0 ==> FirstAt(t, s, MaxLeafDepth(t, s)).Some?
    decreases |s|
  {
    if s != [] {
      var f := s[..|s| - 1];
      MaxLeafDepthIsMax(t, f);
      assert forall k :: 0 <= k < |f| ==> s[k] == f[k];
      if MaxLeafDepth(t, s) > 0 && MaxLeafDepth(t, s) == MaxLeafDepth(t, f) {
        assert FirstAt(t, f, MaxLeafDepth(t, f)).Some?;
      }
    }
  }

  lemma {:induction false} FirstAtIsFirst(t: Tree, s: seq<nat>, d: int)
    requires InTree(t, s)
    ensures match FirstAt(t, s, d)
      case Some(i) => i < |s| && Deep(t, s[i], d) && forall k :: 0 <= k < i ==> !Deep(t, s[k], d)
      case None => forall k :: 0 <= k < |s| ==> !Deep(t, s[k], d)
    decreases |s|
  {
    if s != [] {
      var f := s[..|s| - 1];
      FirstAtIsFirst(t, f, d);
      assert forall k :: 0 <= k < |f| ==> s[k] == f[k];
    }
  }

  lemma {:induction false} LastAtIsLast(t: Tree, s: seq<nat>, d: int)
    requires InTree(t, s)
    ensures match LastAt(t, s, d)
      case Some(i) => i < |s| && Deep(t, s[i], d) && forall k :: i < k < |s| ==> !Deep(t, s[k], d)
      case None => forall k :: 0 <= k < |s| ==> !Deep(t, s[k], d)
    decreases |s|
  {
    if s != [] {
      var f := s[..|s| - 1];
      LastAtIsLast(t, f, d);
      assert forall k :: 0 <= k < |f| ==> s[k] == f[k];
    }
  }

  // ---------- the walk ----------

  /** From n up to the root, following parents. */
  function UpPath(t: Tree, n: nat): (p: seq<nat>)
    requires IsNode(t, n)
    ensures |p| >= 1
    decreases n
  {
    if n == 0 then [0] else [n] + UpPath(t, ParentOf(t, n))
  }

  function Reverse(s: seq<nat>): (r: seq<nat>)
    ensures |r| == |s| && forall i :: 0 <= i < |s| ==> r[i] == s[|s| - 1 - i]
  {
    if s == [] then [] else Reverse(s[1..]) + [s[0]]
  }

  /** The breadth-first order of the whole tree. */
  function Order(t: Tree): (o: seq<nat>)
    requires ValidTree(t)
    ensures InTree(t, o)
  {
    BfsOrderInTree(t, [0]);
    BfsOrder(t, [0])
  }

  /** The largest depth of a leaf. */
  function Deepest(t: Tree): nat
    requires ValidTree(t)
  {
    MaxLeafDepth(t, Order(t))
  }

  /** The first leaf at the largest depth in breadth-first order. */
  function FirstDeepest(t: Tree): (n: nat)
    requires ValidTree(t)
    ensures IsNode(t, n)
  {
    NodeAt(Order(t), FirstAt(t, Order(t), Deepest(t)))
  }

  /** The last leaf at the largest depth in breadth-first order. */
  function LastDeepest(t: Tree): (n: nat)
    requires ValidTree(t)
    ensures IsNode(t, n)
  {
    NodeAt(Order(t), LastAt(t, Order(t), Deepest(t)))
  }

  /** The walk for a tree: the path up from the first deepest leaf, then the
    * path down to the last one without the root a second time. */
  function Walk(t: Tree): seq<nat>
    requires ValidTree(t)
  {
    UpPath(t, FirstDeepest(t)) + Reverse(UpPath(t, LastDeepest(t)))[1..]
  }

  // ---------- what the walk is ----------

  /** The up-path from n has Depth(n) + 1 nodes, starts at n, ends at the
    * root, and each node is followed by its parent. */
  lemma {:induction false} UpPathShape(t: Tree, n: nat)
    requires ValidTree(t) && IsNode(t, n)
    ensures var u := UpPath(t, n);
      |u| == Depth(t, n) + 1 && u[0] == n && u[|u| - 1] == 0 && InTree(t, u) &&
      forall j :: 0 <= j < |u| - 1 ==> 1 <= u[j] && ParentOf(t, u[j]) == u[j + 1]
    decreases n
  {
    if n != 0 {
      UpPathShape(t, ParentOf(t, n));
      var u := UpPath(t, n);
      var v := UpPath(t, ParentOf(t, n));
      assert u == [n] + v;
      assert forall j :: 1 <= j < |u| ==> u[j] == v[j - 1];
    }
  }

  /** A node with itself or an ancestor in the queue is taken by the search:
    * q[i] is the j-th node on its path up. */
  lemma {:induction false} BfsCovers(t: Tree, q: seq<nat>, n: nat, i: nat, j: nat)
    requires ValidTree(t) && InTree(t, q) && IsNode(t, n)
    requires i < |q| && j < |UpPath(t, n)| && q[i] == UpPath(t, n)[j]
    ensures n in BfsOrder(t, q)
    decreases Forest(t, q, -1)
  {
    ForestStep(t, q);
    var q' := q[1..] + t.children[q[0]];
    assert BfsOrder(t, q) == [q[0]] + BfsOrder(t, q');
    UpPathShape(t, n);
    var u := UpPath(t, n);
    if i == 0 && j == 0 {
      assert n == q[0];
    } else if i == 0 {
      var c := u[j - 1];
      ParentListsChild(t, c);
      var k :| 0 <= k < |t.children[q[0]]| && t.children[q[0]][k] == c;
      assert q'[|q| - 1 + k] == c;
      BfsCovers(t, q', n, |q| - 1 + k, j - 1);
    } else {
      assert q'[i - 1] == q[i];
      BfsCovers(t, q', n, i - 1, j);
    }
  }

  /** The search from the root takes every node of the tree. */
  lemma BfsVisitsAll(t: Tree, n: nat)
    requires ValidTree(t) && IsNode(t, n)
    ensures n in Order(t)
  {
    UpPathShape(t, n);
    BfsCovers(t, [0], n, 0, |UpPath(t, n)| - 1);
  }

  /** Following first children down from n ends at a leaf. */
  lemma {:induction false} LeafBelow(t: Tree, n: nat) returns (l: nat)
    requires ValidTree(t) && IsNode(t, n)
    ensures IsNode(t, l) && IsLeaf(t, l)
    decreases |t.children| - n
  {
    if |t.children[n]| == 0 {
      l := n;
    } else {
      var c := t.children[n][0];
      assert n < c < |t.children|;
      l := LeafBelow(t, c);
    }
  }

  /** Deepest(t) is the largest depth of any leaf of the tree, and the first
    * and last deepest leaves are leaves at that depth, no other leaf at that
    * depth coming before the first or after the last in breadth-first
    * order. */
  lemma DeepestLeaves(t: Tree)
    requires ValidTree(t)
    ensures forall n: nat :: IsNode(t, n) && IsLeaf(t, n) ==> Depth(t, n) <= Deepest(t)
    ensures Deep(t, FirstDeepest(t), Deepest(t)) && Deep(t, LastDeepest(t), Deepest(t))
    ensures exists i :: (0 <= i < |Order(t)| && Order(t)[i] == FirstDeepest(t) &&
      forall k :: 0 <= k < i ==> !Deep(t, Order(t)[k], Deepest(t)))
    ensures exists i :: (0 <= i < |Order(t)| && Order(t)[i] == LastDeepest(t) &&
      forall k :: i < k < |Order(t)| ==> !Deep(t, Order(t)[k], Deepest(t)))
  {
    var o, d := Order(t), Deepest(t);
    MaxLeafDepthIsMax(t, o);
    FirstAtIsFirst(t, o, d);
    LastAtIsLast(t, o, d);
    forall n: nat | IsNode(t, n) && IsLeaf(t, n)
      ensures Depth(t, n) <= d
    {
      BfsVisitsAll(t, n);
      var k :| 0 <= k < |o| && o[k] == n;
    }
    var m := LeafBelow(t, 0);
    BfsVisitsAll(t, m);
    var k :| 0 <= k < |o| && o[k] == m;
    assert d == 0 ==> Deep(t, o[k], d);
  }

  /** Both ends of the walk are leaves at the largest depth. */
  lemma DeepestAreDeep(t: Tree)
    requires ValidTree(t)
    ensures Deep(t, FirstDeepest(t), Deepest(t)) && Deep(t, LastDeepest(t), Deepest(t))
  {
    DeepestLeaves(t);
  }

  /** The walk has 2 * Deepest(t) + 1 nodes: it starts at the first deepest
    * leaf, climbs one parent at a time to the root, which sits in the middle,
    * and descends one child at a time to the last deepest leaf. */
  lemma WalkShape(t: Tree)
    requires ValidTree(t)
    ensures var w, d := Walk(t), Deepest(t);
      |w| == 2 * d + 1 && InTree(t, w) &&
      w[0] == FirstDeepest(t) && w[d] == 0 && w[2 * d] == LastDeepest(t) &&
      (forall k :: 0 <= k < d ==> 1 <= w[k] && ParentOf(t, w[k]) == w[k + 1]) &&
      (forall k :: d < k <= 2 * d ==> 1 <= w[k] && ParentOf(t, w[k]) == w[k - 1])
  {
    var d, l, r := Deepest(t), FirstDeepest(t), LastDeepest(t);
    DeepestAreDeep(t);
    UpPathShape(t, l);
    UpPathShape(t, r);
    JoinShape(t, UpPath(t, l), UpPath(t, r), d);
  }

  /** Two up-paths of d + 1 nodes each, the second reversed and without its
    * root, climb and then descend through the root at index d. */
  lemma JoinShape(t: Tree, ul: seq<nat>, ur: seq<nat>, d: nat)
    requires |ul| == d + 1 && |ur| == d + 1 && ul[d] == 0 && ur[d] == 0 && InTree(t, ul) && InTree(t, ur)
    requires forall j :: 0 <= j < d ==> 1 <= ul[j] && ParentOf(t, ul[j]) == ul[j + 1]
    requires forall j :: 0 <= j < d ==> 1 <= ur[j] && ParentOf(t, ur[j]) == ur[j + 1]
    ensures var w := ul + Reverse(ur)[1..];
      |w| == 2 * d + 1 && InTree(t, w) && w[0] == ul[0] && w[d] == 0 && w[2 * d] == ur[0] &&
      (forall k :: 0 <= k < d ==> 1 <= w[k] && ParentOf(t, w[k]) == w[k + 1]) &&
      (forall k :: d < k <= 2 * d ==> 1 <= w[k] && ParentOf(t, w[k]) == w[k - 1])
  {
    var rr := Reverse(ur);
    var w := ul + rr[1..];
    forall k | 0 <= k <= 2 * d
      ensures w[k] == if k <= d then ul[k] else ur[2 * d - k]
    {
      if k > d {
        assert w[k] == rr[k - d];
      }
    }
    forall k | 0 <= k < d
      ensures 1 <= w[k] && ParentOf(t, w[k]) == w[k + 1]
    {
      assert w[k] == ul[k] && w[k + 1] == ul[k + 1];
    }
    forall k | d < k <= 2 * d
      ensures 1 <= w[k] && ParentOf(t, w[k]) == w[k - 1]
    {
      assert w[k] == ur[2 * d - k] && w[k - 1] == ur[2 * d - k + 1];
    }
  }

  /** The partial up-path still to be added while `curr` is not null. */
  function UpFrom(t: Tree, curr: Option<nat>): seq<nat>
    requires curr.Some? ==> IsNode(t, curr.value)
  {
    if curr.Some? then UpPath(t, curr.value) else []
  }

  /** Follows parent pointers from `start` to the root, adding each node. */
  method ClimbToRoot(t: Tree, parent: map<nat, Option<nat>>, start: nat) returns (path: seq<nat>)
    requires IsNode(t, start) && start in parent
    requires forall n :: n in parent ==>
      IsNode(t, n) && parent[n] == TreeParent(t, n) && (n != 0 ==> ParentOf(t, n) in parent)
    ensures path == UpPath(t, start)
  {
    var curr: Option<nat> := Some(start);
    path := [];
    while curr.Some?
      invariant curr.Some? ==> curr.value in parent
      invariant path + UpFrom(t, curr) == UpPath(t, start)
      decreases if curr.Some? then curr.value + 1 else 0
    {
      path := path + [curr.value];
      curr := if curr.value in parent then parent[curr.value] else None;
    }
  }

  /** The state of the search after the nodes in `polled` were taken. */
  ghost predicate Searched(t: Tree, q: seq<nat>, polled: seq<nat>,
    parent: map<nat, Option<nat>>, depth: map<nat, nat>)
  {
    InTree(t, q) && InTree(t, polled) && 0 in parent &&
    (forall i :: 0 <= i < |q| ==> q[i] in parent && q[i] in depth) &&
    (forall i :: 0 <= i < |polled| ==> polled[i] in parent) &&
    (forall n :: n in parent ==>
      IsNode(t, n) && parent[n] == TreeParent(t, n) && (n != 0 ==> ParentOf(t, n) in parent)) &&
    (forall n :: n in depth ==> IsNode(t, n) && depth[n] == Depth(t, n))
  }

  /** Every child listed by n is a node above n whose parent is n. */
  predicate ChildrenOf(t: Tree, n: nat)
    requires IsNode(t, n)
  {
    forall k :: 0 <= k < |t.children[n]| ==>
      n < t.children[n][k] < |t.children| && ParentOf(t, t.children[n][k]) == n
  }

  lemma ValidChildren(t: Tree, n: nat)
    requires ValidTree(t) && IsNode(t, n)
    ensures ChildrenOf(t, n)
  {
    forall k | 0 <= k < |t.children[n]|
      ensures n < t.children[n][k] < |t.children| && ParentOf(t, t.children[n][k]) == n
    {
      ParentOfChild(t, n, k);
    }
  }

  /** Appends the children of `front` to the queue, recording `front` as
    * their parent and one more than its depth as theirs. */
  method EnqueueChildren(t: Tree, front: nat, frontDepth: nat, q0: seq<nat>,
    parent0: map<nat, Option<nat>>, depth0: map<nat, nat>, ghost polled: seq<nat>)
    returns (q: seq<nat>, parent: map<nat, Option<nat>>, depth: map<nat, nat>)
    requires IsNode(t, front) && front in parent0 && frontDepth == Depth(t, front)
    requires ChildrenOf(t, front) && Searched(t, q0, polled, parent0, depth0)
    ensures q == q0 + t.children[front]
    ensures Searched(t, q, polled, parent, depth)
  {
    q, parent, depth := q0, parent0, depth0;
    var i := 0;
    while i < |t.children[front]|
      invariant 0 <= i <= |t.children[front]|
      invariant q == q0 + t.children[front][..i]
      invariant front in parent
      invariant Searched(t, q, polled, parent, depth)
    {
      var c := t.children[front][i];
      AppendNext(q0, t.children[front], i);
      SearchedAdd(t, q, polled, parent, depth, front, c, frontDepth);
      q := q + [c];
      parent := parent[c := Some(front)];
      depth := depth[c := frontDepth + 1];
      i := i + 1;
    }
    assert t.children[front][..i] == t.children[front];
  }

  /** Polling the front of the queue keeps the search state. */
  lemma SearchedPoll(t: Tree, q: seq<nat>, polled: seq<nat>, parent: map<nat, Option<nat>>,
    depth: map<nat, nat>)
    requires q != [] && Searched(t, q, polled, parent, depth)
    ensures Searched(t, q[1..], polled + [q[0]], parent, depth)
  {
    var p' := polled + [q[0]];
    forall i | 0 <= i < |p'| ensures IsNode(t, p'[i]) && p'[i] in parent {
      if i < |polled| { assert p'[i] == polled[i]; }
    }
    forall i | 0 <= i < |q| - 1 ensures IsNode(t, q[1..][i]) && q[1..][i] in parent && q[1..][i] in depth {
      assert q[1..][i] == q[i + 1];
    }
  }

  /** Taking one more element of s onto a prefix. */
  lemma AppendNext(q0: seq<nat>, s: seq<nat>, i: nat)
    requires i < |s|
    ensures q0 + s[..i + 1] == (q0 + s[..i]) + [s[i]]
  {
    assert s[..i + 1] == s[..i] + [s[i]];
  }

  /** Recording a child of a recorded node keeps the search state. */
  lemma SearchedAdd(t: Tree, q: seq<nat>, polled: seq<nat>, parent: map<nat, Option<nat>>,
    depth: map<nat, nat>, front: nat, c: nat, frontDepth: nat)
    requires IsNode(t, front) && front in parent && frontDepth == Depth(t, front)
    requires front < c < |t.children| && ParentOf(t, c) == front
    requires Searched(t, q, polled, parent, depth)
    ensures Searched(t, q + [c], polled, parent[c := Some(front)], depth[c := frontDepth + 1])
  {
    QueueAdd(t, q, parent, depth, c, Some(front), frontDepth + 1);
    ParentAdd(t, parent, front, c);
    DepthAdd(t, depth, front, c, frontDepth);
    PolledKept(polled, parent, c, Some(front));
  }

  /** Recording one more node keeps the polled nodes recorded. */
  lemma PolledKept(polled: seq<nat>, parent: map<nat, Option<nat>>, c: nat, pc: Option<nat>)
    requires 0 in parent && forall i :: 0 <= i < |polled| ==> polled[i] in parent
    ensures 0 in parent[c := pc] && forall i :: 0 <= i < |polled| ==> polled[i] in parent[c := pc]
  {
  }

  /** The queue grows by a node that the two maps now record. */
  lemma QueueAdd(t: Tree, q: seq<nat>, parent: map<nat, Option<nat>>, depth: map<nat, nat>, c: nat,
    pc: Option<nat>, dc: nat)
    requires InTree(t, q) && IsNode(t, c)
    requires forall i :: 0 <= i < |q| ==> q[i] in parent && q[i] in depth
    ensures InTree(t, q + [c])
    ensures forall i :: 0 <= i < |q + [c]| ==> (q + [c])[i] in parent[c := pc] && (q + [c])[i] in depth[c := dc]
  {
    var q' := q + [c];
    forall j | 0 <= j < |q'| ensures IsNode(t, q'[j]) && q'[j] in parent[c := pc] && q'[j] in depth[c := dc] {
      if j < |q| { assert q'[j] == q[j]; }
    }
  }

  /** Recording the parent of a child of a recorded node keeps every
    * recorded parent the tree's. */
  lemma ParentAdd(t: Tree, parent: map<nat, Option<nat>>, front: nat, c: nat)
    requires front in parent && front < c < |t.children| && ParentOf(t, c) == front
    requires forall n :: n in parent ==>
      IsNode(t, n) && parent[n] == TreeParent(t, n) && (n != 0 ==> ParentOf(t, n) in parent)
    ensures var parent' := parent[c := Some(front)];
      forall n :: n in parent' ==>
        IsNode(t, n) && parent'[n] == TreeParent(t, n) && (n != 0 ==> ParentOf(t, n) in parent')
  {
    var parent' := parent[c := Some(front)];
    assert TreeParent(t, c) == Some(front);
    forall n | n in parent'
      ensures IsNode(t, n) && parent'[n] == TreeParent(t, n) && (n != 0 ==> ParentOf(t, n) in parent')
    {
      if n != c { assert n in parent; }
    }
  }

  /** Recording the depth of a child as one more than its parent's keeps
    * every recorded depth the tree's. */
  lemma DepthAdd(t: Tree, depth: map<nat, nat>, front: nat, c: nat, frontDepth: nat)
    requires IsNode(t, front) && frontDepth == Depth(t, front)
    requires front < c < |t.children| && ParentOf(t, c) == front
    requires forall n :: n in depth ==> IsNode(t, n) && depth[n] == Depth(t, n)
    ensures var depth' := depth[c := frontDepth + 1];
      forall n :: n in depth' ==> IsNode(t, n) && depth'[n] == Depth(t, n)
  {
    var depth' := depth[c := frontDepth + 1];
    assert Depth(t, c) == frontDepth + 1;
    forall n | n in depth' ensures IsNode(t, n) && depth'[n] == Depth(t, n) {
      if n != c { assert n in depth; }
    }
  }

  /** One step of the search: the order so far grows by the front. */
  lemma BfsStep(t: Tree, q: seq<nat>, polled: seq<nat>, order: seq<nat>)
    requires ValidTree(t) && InTree(t, q) && q != [] && order == polled + BfsOrder(t, q)
    ensures InTree(t, q[1..] + t.children[q[0]])
    ensures order == (polled + [q[0]]) + BfsOrder(t, q[1..] + t.children[q[0]])
  {
    ForestStep(t, q);
  }

  /** Breadth-first search from the root recording parents and depths, then
    * the walk from the first deepest leaf up to the root and down to the
    * last deepest leaf. */
  method Bfs(t: Tree) returns (walk: seq<nat>)
    requires ValidTree(t)
    ensures walk == Walk(t)
  {
    ghost var order := Order(t);
    var q: seq<nat> := [0];
    var parent: map<nat, Option<nat>> := map[0 := None];
    var depth: map<nat, nat> := map[0 := 0];
    var maxDepth := 0;
    var leftChild := 0;
    var rightChild := 0;
    ghost var polled: seq<nat> := [];
    while q != []
      invariant Searched(t, q, polled, parent, depth)
      invariant order == polled + BfsOrder(t, q)
      invariant maxDepth == MaxLeafDepth(t, polled)
      invariant leftChild == NodeAt(polled, FirstAt(t, polled, maxDepth))
      invariant rightChild == NodeAt(polled, LastAt(t, polled, maxDepth))
      decreases Forest(t, q, -1)
    {
      ForestStep(t, q);
      BfsStep(t, q, polled, order);
      var front := q[0];
      var frontDepth := depth[front];
      StepDeepest(t, polled, front, maxDepth);
      if |t.children[front]| == 0 {
        if frontDepth > maxDepth {
          maxDepth := frontDepth;
          leftChild := front;
          rightChild := front;
        } else if frontDepth == maxDepth {
          rightChild := front;
        }
      }
      ValidChildren(t, front);
      SearchedPoll(t, q, polled, parent, depth);
      q, parent, depth := EnqueueChildren(t, front, frontDepth, q[1..], parent, depth, polled + [front]);
      polled := polled + [front];
    }
    assert order == polled;
    assert leftChild in parent && rightChild in parent by {
      var f, l := FirstAt(t, polled, maxDepth), LastAt(t, polled, maxDepth);
      assert f.Some? && f.value < |polled| ==> polled[f.value] in parent;
      assert l.Some? && l.value < |polled| ==> polled[l.value] in parent;
    }
    var leftWalk := ClimbToRoot(t, parent, leftChild);
    var rightWalk := ClimbToRoot(t, parent, rightChild);
    rightWalk := Reverse(rightWalk);
    rightWalk := rightWalk[1..];
    walk := leftWalk + rightWalk;
  }

  /** How one polled node moves the deepest depth and the first and last
    * deepest leaves. */
  lemma StepDeepest(t: Tree, s: seq<nat>, x: nat, m: nat)
    requires InTree(t, s) && IsNode(t, x) && m == MaxLeafDepth(t, s)
    ensures var s' := s + [x];
      InTree(t, s') &&
      (IsLeaf(t, x) && Depth(t, x) > m ==>
        MaxLeafDepth(t, s') == Depth(t, x) && NodeAt(s', FirstAt(t, s', Depth(t, x))) == x &&
        NodeAt(s', LastAt(t, s', Depth(t, x))) == x) &&
      (IsLeaf(t, x) && Depth(t, x) == m ==>
        MaxLeafDepth(t, s') == m && NodeAt(s', FirstAt(t, s', m)) == NodeAt(s, FirstAt(t, s, m)) &&
        NodeAt(s', LastAt(t, s', m)) == x) &&
      (!(IsLeaf(t, x) && Depth(t, x) >= m) ==>
        MaxLeafDepth(t, s') == m && NodeAt(s', FirstAt(t, s', m)) == NodeAt(s, FirstAt(t, s, m)) &&
        NodeAt(s', LastAt(t, s', m)) == NodeAt(s, LastAt(t, s, m)))
  {
    var s' := s + [x];
    assert s'[..|s'| - 1] == s;
    assert forall i :: 0 <= i < |s| ==> s'[i] == s[i];
    if IsLeaf(t, x) && Depth(t, x) > m {
      MaxLeafDepthIsMax(t, s);
      FirstAtIsFirst(t, s, Depth(t, x));
    }
    FirstAtIsFirst(t, s, m);
    LastAtIsLast(t, s, m);
  }

  // ---------- the sample tree ----------

  /** The values of the nodes of a walk. */
  function Values(t: Tree, w: seq<nat>): (vs: seq<int>)
    requires forall i :: 0 <= i < |w| ==> w[i] < |t.vals|
    ensures |vs| == |w| && forall i :: 0 <= i < |w| ==> vs[i] == t.vals[w[i]]
  {
    seq(|w|, i requires 0 <= i < |w| => t.vals[w[i]])
  }

  /** 4 with children 5 and 7, 12 below 5, and 1 and 8 below 7. */
  function Sample(): Tree
  {
    Tree([4, 5, 7, 12, 1, 8], [[1, 2], [3], [4, 5], [], [], []])
  }

  lemma SampleValid()
    ensures ValidTree(Sample())
  {
    var t := Sample();
    assert 0 < 1 && 1 in t.children[0];
    assert 0 < 2 && 2 in t.children[0];
    assert 1 < 3 && 3 in t.children[1];
    assert 2 < 4 && 4 in t.children[2];
    assert 2 < 5 && 5 in t.children[2];
    assert forall n :: 1 <= n < |t.children| ==> HasParent(t, n);
  }

  /** One poll of the search queue. */
  lemma BfsOrderStep(t: Tree, q: seq<nat>, q': seq<nat>)
    requires ValidTree(t) && InTree(t, q) && q != [] && q' == q[1..] + t.children[q[0]]
    ensures InTree(t, q') && BfsOrder(t, q) == [q[0]] + BfsOrder(t, q')
  {
    ForestStep(t, q);
  }

  /** Leaves leave the queue one by one, in queue order. */
  lemma {:induction false} LeavesInOrder(t: Tree, q: seq<nat>)
    requires ValidTree(t) && InTree(t, q)
    requires forall i :: 0 <= i < |q| ==> IsLeaf(t, q[i])
    ensures BfsOrder(t, q) == q
    decreases |q|
  {
    if q != [] {
      BfsOrderStep(t, q, q[1..]);
      LeavesInOrder(t, q[1..]);
    }
  }

  lemma SampleOrder()
    ensures ValidTree(Sample()) && Order(Sample()) == [0, 1, 2, 3, 4, 5]
  {
    var t := Sample();
    SampleValid();
    SampleOrderTail();
    assert [1, 2][1..] + t.children[1] == [2, 3];
    BfsOrderStep(t, [1, 2], [2, 3]);
    assert [0][1..] + t.children[0] == [1, 2];
    BfsOrderStep(t, [0], [1, 2]);
  }

  /** The sample's queue once nodes 0 and 1 have been polled. */
  lemma SampleOrderTail()
    ensures ValidTree(Sample()) && BfsOrder(Sample(), [2, 3]) == [2, 3, 4, 5]
  {
    var t := Sample();
    SampleValid();
    assert IsLeaf(t, 3) && IsLeaf(t, 4) && IsLeaf(t, 5);
    LeavesInOrder(t, [3, 4, 5]);
    assert [2, 3][1..] + t.children[2] == [3, 4, 5];
    BfsOrderStep(t, [2, 3], [3, 4, 5]);
  }

  lemma SampleParents()
    ensures ParentOf(Sample(), 1) == 0 && ParentOf(Sample(), 2) == 0 && ParentOf(Sample(), 3) == 1
    ensures ParentOf(Sample(), 4) == 2 && ParentOf(Sample(), 5) == 2
  {
    var t := Sample();
    assert 1 in t.children[0] && 2 in t.children[0] && 3 in t.children[1];
    assert 4 in t.children[2] && 5 in t.children[2];
  }

  lemma SampleDepths()
    ensures Depth(Sample(), 1) == 1 && Depth(Sample(), 2) == 1
    ensures Depth(Sample(), 3) == 2 && Depth(Sample(), 4) == 2 && Depth(Sample(), 5) == 2
  {
    SampleParents();
  }

  /** Scanning the breadth-first order of the sample: the deepest leaves
    * are at depth 2, node 3 first and node 5 last. */
  lemma SampleScan()
    ensures InTree(Sample(), [0, 1, 2, 3, 4, 5])
    ensures var s: seq<nat> := [0, 1, 2, 3, 4, 5];
      MaxLeafDepth(Sample(), s) == 2 && NodeAt(s, FirstAt(Sample(), s, 2)) == 3 &&
      NodeAt(s, LastAt(Sample(), s, 2)) == 5
  {
    var t := Sample();
    SampleDepths();
    assert !IsLeaf(t, 0) && !IsLeaf(t, 1) && !IsLeaf(t, 2);
    assert IsLeaf(t, 3) && IsLeaf(t, 4) && IsLeaf(t, 5);
    assert MaxLeafDepth(t, []) == 0 && NodeAt([], FirstAt(t, [], 0)) == 0 && NodeAt([], LastAt(t, [], 0)) == 0;
    StepDeepest(t, [], 0, 0);
    assert [] + [0] == [0];
    StepDeepest(t, [0], 1, 0);
    assert [0] + [1] == [0, 1];
    StepDeepest(t, [0, 1], 2, 0);
    assert [0, 1] + [2] == [0, 1, 2];
    StepDeepest(t, [0, 1, 2], 3, 0);
    assert [0, 1, 2] + [3] == [0, 1, 2, 3];
    StepDeepest(t, [0, 1, 2, 3], 4, 2);
    assert [0, 1, 2, 3] + [4] == [0, 1, 2, 3, 4];
    StepDeepest(t, [0, 1, 2, 3, 4], 5, 2);
    assert [0, 1, 2, 3, 4] + [5] == [0, 1, 2, 3, 4, 5];
  }

  /** The deepest leaves of the sample are 12 (node 3) first and 8 (node 5)
    * last, at depth 2. */
  lemma SampleDeepest()
    ensures ValidTree(Sample())
    ensures Deepest(Sample()) == 2 && FirstDeepest(Sample()) == 3 && LastDeepest(Sample()) == 5
  {
    SampleOrder();
    SampleScan();
  }

  /** The walk of the sample tree climbs from node 3 to the root and
    * descends to node 5. */
  lemma SampleWalkNodes()
    ensures ValidTree(Sample()) && Walk(Sample()) == [3, 1, 0, 2, 5]
  {
    var t := Sample();
    SampleDeepest();
    SampleUpPaths();
    var r := Reverse([5, 2, 0]);
    assert r == [0, 2, 5];
    assert Walk(t) == [3, 1, 0] + r[1..];
  }

  lemma SampleUpPaths()
    ensures UpPath(Sample(), 3) == [3, 1, 0] && UpPath(Sample(), 5) == [5, 2, 0]
  {
    var t := Sample();
    SampleParents();
    assert UpPath(t, 1) == [1, 0] && UpPath(t, 2) == [2, 0];
  }

  /** The walk of the sample tree reads 12, 5, 4, 7, 8. */
  lemma SampleWalk()
    ensures ValidTree(Sample()) && InTree(Sample(), Walk(Sample()))
    ensures Values(Sample(), Walk(Sample())) == [12, 5, 4, 7, 8]
  {
    SampleWalkNodes();
    SampleValues();
  }

  lemma SampleValues()
    ensures InTree(Sample(), [3, 1, 0, 2, 5])
    ensures Values(Sample(), [3, 1, 0, 2, 5]) == [12, 5, 4, 7, 8]
  {
    var v := Values(Sample(), [3, 1, 0, 2, 5]);
    assert v[0] == 12 && v[1] == 5 && v[2] == 4 && v[3] == 7 && v[4] == 8;
  }
}
