/**
 * KthLargestBST/ThreadedBST.java: createLeftThreadedBST runs the reverse
 * Morris traversal of Morris.java over the whole tree and, at every node it
 * visits, replaces the right link by a link to the node visited just before
 * (the next larger one) and marks it as a thread; kthLargest then follows
 * right links from a starting node.
 */
module ThreadedBst {
  import opened BinaryTrees

  class Node {
    const val: int
    var left: Node?
    var right: Node?
    var isThread: bool

    constructor (val: int)
      ensures this.val == val && left == null && right == null && !isThread
    {
      this.val := val;
      left, right, isThread := null, null, false;
    }
  }

  /** The node at the top of a subtree, null for the empty one. */
  function Top(t: Tree<Node>): Node?
  {
    if t.Leaf? then null else t.n
  }

  /** The nodes' links are the ones t gives them. */
  ghost predicate Linked(t: Tree<Node>)
    reads Nodes(t)
  {
    match t
    case Leaf => true
    case Br(l, n, r) => n.left == Top(l) && n.right == Top(r) && Linked(l) && Linked(r)
  }

  /** The left links are the ones t gives. */
  ghost predicate LeftLinked(t: Tree<Node>)
    reads Nodes(t)
  {
    match t
    case Leaf => true
    case Br(l, n, r) => n.left == Top(l) && LeftLinked(l) && LeftLinked(r)
  }

  /** Each node's right link leads to the node before it in order, the first
    * node's to nothing. */
  ghost predicate RightChain(order: seq<Node>)
    reads set i | 0 <= i < |order| :: order[i]
  {
    (|order| > 0 ==> order[0].right == null) &&
    forall i :: 0 < i < |order| ==> order[i].right == order[i - 1]
  }

  /** The last node of a sequence, null for the empty one. */
  function Last(vs: seq<Node>): Node?
  {
    if |vs| == 0 then null else vs[|vs| - 1]
  }

  /** The right link each visited node gets: the node visited just before. */
  ghost function PrevOf(vs: seq<Node>): (P: map<Node, Node?>)
    ensures forall x :: x in P ==> x in vs
    ensures forall x :: x in vs ==> x in P
  {
    if |vs| == 0 then map[] else PrevOf(vs[..|vs| - 1])[vs[|vs| - 1] := Last(vs[..|vs| - 1])]
  }

  lemma PrevOfSnoc(vs: seq<Node>, v: Node)
    ensures PrevOf(vs + [v]) == PrevOf(vs)[v := Last(vs)] && Last(vs + [v]) == v
  {
    assert (vs + [v])[..|vs|] == vs;
  }

  /** Without repeats, each node's entry is its predecessor in the
    * sequence, none for the first. */
  lemma {:induction false} PrevOfAt(vs: seq<Node>, i: int)
    requires NoDup(vs) && 0 <= i < |vs|
    ensures vs[i] in PrevOf(vs) && PrevOf(vs)[vs[i]] == if i == 0 then null else vs[i - 1]
  {
    var m := |vs| - 1;
    var init := vs[..m];
    assert vs == init + [vs[m]];
    PrevOfSnoc(init, vs[m]);
    if i < m {
      assert init[i] == vs[i] && vs[i] != vs[m];
      PrevOfAt(init, i);
      if i > 0 {
        assert init[i - 1] == vs[i - 1];
      }
    }
  }

  /** The left links are the ones L gives, except that each thread node in B
    * links left to its ancestor. */
  ghost predicate LeftLinks(L: map<Node, Tree<Node>>, B: map<Node, Node>)
    reads L.Keys
  {
    forall x :: x in L ==> x.left == (if x in B then B[x] else Top(L[x]))
  }

  /** The right links are the ones R gives, except that each visited node in
    * P has been marked as a thread and links right to P's entry. */
  ghost predicate RightLinks(L: map<Node, Tree<Node>>, R: map<Node, Tree<Node>>, P: map<Node, Node?>)
    reads L.Keys
  {
    forall x :: x in L ==> x in R && x.right == (if x in P then P[x] else Top(R[x])) && (x in P ==> x.isThread)
  }

  /** The node the walk is at: the top of the subtree it is in, or else the
    * innermost frame's node, reached through its thread. */
  function Here(cur: Tree<Node>, fr: seq<Tree<Node>>): Node?
  {
    if cur.Br? then cur.n else if |fr| > 0 then Top(fr[|fr| - 1]) else null
  }

  /** The state of createLeftThreadedBST's loop: prev is the node visited
    * last. */
  ghost predicate Building(t: Tree<Node>, L: map<Node, Tree<Node>>, R: map<Node, Tree<Node>>, B: map<Node, Node>,
                           cur: Tree<Node>, fr: seq<Tree<Node>>, visited: seq<Node>, node: Node?, prev: Node?)
    reads L.Keys
  {
    Walk(t, L, R, B, cur, fr, visited) && L.Keys == Nodes(t) &&
    LeftLinks(L, B) && RightLinks(L, R, PrevOf(visited)) && node == Here(cur, fr) && prev == Last(visited)
  }

  lemma {:induction false} LinkedLinks(t: Tree<Node>)
    requires Linked(t) && Distinct(t)
    ensures LeftLinks(Lefts(t), map[]) && RightLinks(Lefts(t), Rights(t), map[])
  {
    match t
    case Leaf =>
    case Br(l, n, r) =>
      LinkedLinks(l);
      LinkedLinks(r);
      MapsSplit(t);
      var L, R := Lefts(t), Rights(t);
      forall x: Node | x in L
        ensures x in R && x.right == Top(R[x]) && x.left == Top(L[x])
      {
        if x == n {
        } else if x in Nodes(l) {
          assert x in Lefts(l);
        } else {
          assert x in Lefts(r);
        }
      }
  }

  lemma {:induction false} LinksLeft(t: Tree<Node>, L: map<Node, Tree<Node>>, R: map<Node, Tree<Node>>)
    requires Shaped(t, L, R) && LeftLinks(L, map[])
    ensures LeftLinked(t)
  {
    match t
    case Leaf =>
    case Br(l, n, r) =>
      LinksLeft(l, L, R);
      LinksLeft(r, L, R);
  }

  /** createLeftThreadedBST: afterwards every left link is the original one,
    * and every node is marked as a thread whose right link leads to the
    * node before it in reverse in-order (the next larger node in a search
    * tree), the first node's to nothing. */
  method CreateLeftThreadedBST(root: Node?, ghost t: Tree<Node>)
    requires Linked(t) && Distinct(t) && root == Top(t)
    modifies Nodes(t)
    ensures LeftLinked(t) && RightChain(RevIn(t))
    ensures forall x :: x in Nodes(t) ==> x.isThread
  {
    ghost var L, R := Begin(t);
    ghost var B: map<Node, Node>, cur, fr: seq<Tree<Node>>, visited: seq<Node> := map[], t, [], [];
    var current := root;
    var prev: Node? := null;
    while current != null
      invariant Building(t, L, R, B, cur, fr, visited, current, prev)
      decreases |RevIn(t)| - |visited|, |RevIn(cur)|
    {
      current, prev, B, cur, fr, visited := Step(current, prev, t, L, R, B, cur, fr, visited);
    }
    Done(t, L, R, B, cur, fr, visited, prev);
  }

  /** Before the loop: the walk starts at the root, nothing visited. */
  lemma Begin(t: Tree<Node>) returns (L: map<Node, Tree<Node>>, R: map<Node, Tree<Node>>)
    requires Linked(t) && Distinct(t)
    ensures Building(t, L, R, map[], t, [], [], Top(t), null)
  {
    L, R := Lefts(t), Rights(t);
    ShapedMaps(t);
    LinkedLinks(t);
    WalkStart(t, Lefts(t), Rights(t));
  }

  /** When the walk runs out of nodes it has visited all of them in reverse
    * in-order and every temporary thread is gone. */
  lemma Done(t: Tree<Node>, L: map<Node, Tree<Node>>, R: map<Node, Tree<Node>>, B: map<Node, Node>,
             cur: Tree<Node>, fr: seq<Tree<Node>>, visited: seq<Node>, prev: Node?)
    requires Building(t, L, R, B, cur, fr, visited, null, prev)
    ensures LeftLinked(t) && RightChain(RevIn(t))
    ensures forall x :: x in Nodes(t) ==> x.isThread
  {
    assert cur.Leaf? && fr == [] && B == map[];
    assert visited == RevIn(t) by {
      assert RevIn(t) == visited + RevIn(cur) + Conts(fr);
    }
    LinksLeft(t, L, R);
    Chain(t, L, R);
  }

  /** Once every node is visited, the right links form the chain of reverse
    * in-order. */
  lemma Chain(t: Tree<Node>, L: map<Node, Tree<Node>>, R: map<Node, Tree<Node>>)
    requires Distinct(t) && L.Keys == Nodes(t) && RightLinks(L, R, PrevOf(RevIn(t)))
    ensures RightChain(RevIn(t))
    ensures forall x :: x in Nodes(t) ==> x.isThread
  {
    DistinctNoDup(t);
    var order := RevIn(t);
    if |order| > 0 {
      NodesRevIn(t, order[0]);
      PrevOfAt(order, 0);
    }
    forall i | 0 < i < |order| ensures order[i].right == order[i - 1] {
      NodesRevIn(t, order[i]);
      PrevOfAt(order, i);
    }
    forall x | x in Nodes(t) ensures x.isThread {
      NodesRevIn(t, x);
    }
  }

  /** One turn of createLeftThreadedBST's loop: a node without a right child
    * is visited; otherwise the leftmost node of its right subtree either
    * gets a temporary thread back to it, or has one and loses it, and then
    * the node is visited.  Visiting a node links it right to prev. */
  method Step(node: Node, prev: Node?, ghost t: Tree<Node>, ghost L: map<Node, Tree<Node>>, ghost R: map<Node, Tree<Node>>,
              ghost B: map<Node, Node>, ghost cur: Tree<Node>, ghost fr: seq<Tree<Node>>, ghost visited: seq<Node>)
      returns (next: Node?, prev': Node?, ghost B': map<Node, Node>, ghost cur': Tree<Node>, ghost fr': seq<Tree<Node>>, ghost visited': seq<Node>)
    requires Building(t, L, R, B, cur, fr, visited, node, prev)
    modifies Nodes(t)
    ensures Building(t, L, R, B', cur', fr', visited', next, prev')
    ensures (visited' == visited && |RevIn(cur')| < |RevIn(cur)|) ||
            (visited' == visited + [node] && |visited| < |RevIn(t)|)
  {
    AtNode(t, L, R, B, cur, fr, visited, node, prev);
    if node.right == null {
      Visit(t, L, R, B, cur, fr, visited, node, prev);
      Thread(node, prev, L, R, B, visited);
      next, prev' := node.left, node;
      B', cur', fr', visited' := B, cur.l, fr, visited + [node];
    } else {
      ghost var owner := if cur.Br? then cur else fr[|fr| - 1];
      AtRight(t, L, R, B, cur, fr, visited, node, prev);
      var succ := Successor(node, t, L, R, B, owner);
      AtSuccessor(t, L, R, B, cur, fr, visited, node, prev, owner, succ);
      if succ.left == null {
        B', cur', fr' := MakeThread(node, succ, prev, t, L, R, B, cur, fr, visited);
        next, prev' := node.right, prev;
        visited' := visited;
      } else {
        B', cur', fr' := RemoveThread(node, succ, prev, t, L, R, B, cur, fr, visited);
        next, prev' := node.left, node;
        visited' := visited + [node];
      }
    }
  }

  /** At the node the walk is at, which has not been visited: which of the
    * three cases it is in. */
  lemma AtNode(t: Tree<Node>, L: map<Node, Tree<Node>>, R: map<Node, Tree<Node>>, B: map<Node, Node>,
               cur: Tree<Node>, fr: seq<Tree<Node>>, visited: seq<Node>, node: Node, prev: Node?)
    requires Building(t, L, R, B, cur, fr, visited, node, prev)
    ensures node !in visited && node in L && node.right == Top(R[node])
    ensures node.right == null <==> cur.Br? && cur.r.Leaf?
    ensures cur.Br? ==> Sub(cur, t) && node == cur.n
    ensures cur.Leaf? ==> |fr| > 0 && node == fr[|fr| - 1].n && Sub(fr[|fr| - 1], t) && fr[|fr| - 1].r.Br?
  {
    Unvisited(t, L, R, cur, fr, visited);
    if cur.Br? {
      SubFacts(cur, t, L, R);
    } else {
      var f := fr[|fr| - 1];
      SubFacts(f, t, L, R);
    }
  }

  /** Visiting a node without a right child: it is the next node in reverse
    * in-order, and its left link is where the walk goes on. */
  lemma Visit(t: Tree<Node>, L: map<Node, Tree<Node>>, R: map<Node, Tree<Node>>, B: map<Node, Node>,
              cur: Tree<Node>, fr: seq<Tree<Node>>, visited: seq<Node>, node: Node, prev: Node?)
    requires Building(t, L, R, B, cur, fr, visited, node, prev) && cur.Br? && cur.r.Leaf?
    ensures |visited| < |RevIn(t)| && RevIn(t)[|visited|] == node && node in L
    ensures Walk(t, L, R, B, cur.l, fr, visited + [node])
    ensures (if node in B then B[node] else Top(L[node])) == Here(cur.l, fr)
  {
    SubFacts(cur, t, L, R);
    WalkVisit(t, L, R, B, cur, fr, visited);
    VisitedPrefix(t, cur.l, fr, visited + [node]);
  }

  /** Visiting: current.right = prev; current.isThread = true. */
  method Thread(x: Node, prev: Node?, ghost L: map<Node, Tree<Node>>, ghost R: map<Node, Tree<Node>>,
                ghost B: map<Node, Node>, ghost visited: seq<Node>)
    requires LeftLinks(L, B) && RightLinks(L, R, PrevOf(visited)) && x in L && prev == Last(visited)
    modifies x
    ensures LeftLinks(L, B) && RightLinks(L, R, PrevOf(visited + [x]))
  {
    PrevOfSnoc(visited, x);
    x.right := prev;
    x.isThread := true;
  }

  /** At a node with a right child: it is cur's node, or the innermost
    * frame's node reached through its thread, and its right link is still
    * its right child, where the successor search starts. */
  lemma AtRight(t: Tree<Node>, L: map<Node, Tree<Node>>, R: map<Node, Tree<Node>>, B: map<Node, Node>,
                cur: Tree<Node>, fr: seq<Tree<Node>>, visited: seq<Node>, node: Node, prev: Node?)
    requires Building(t, L, R, B, cur, fr, visited, node, prev) && node.right != null
    ensures var owner := if cur.Br? then cur else fr[|fr| - 1];
      Shaped(t, L, R) && Distinct(t) && LeftLinks(L, B) && (forall y :: y in B ==> y in L && L[y] == Leaf) &&
      Sub(owner, t) && owner.Br? && owner.r.Br? && node == owner.n && node.right == owner.r.n &&
      (Min(owner.r) in B ==> B[Min(owner.r)] == node)
  {
    AtNode(t, L, R, B, cur, fr, visited, node, prev);
    var owner := if cur.Br? then cur else fr[|fr| - 1];
    SubFacts(owner, t, L, R);
    if cur.Br? {
      WalkPush(t, L, R, B, cur, fr, visited);
    }
  }

  /** The successor's left link tells the two cases apart: null when the
    * walk is going down into node's right subtree, the thread back to node
    * when it has come up through it. */
  lemma AtSuccessor(t: Tree<Node>, L: map<Node, Tree<Node>>, R: map<Node, Tree<Node>>, B: map<Node, Node>,
                    cur: Tree<Node>, fr: seq<Tree<Node>>, visited: seq<Node>, node: Node, prev: Node?,
                    owner: Tree<Node>, succ: Node)
    requires Building(t, L, R, B, cur, fr, visited, node, prev) && node.right != null
    requires owner == if cur.Br? then cur else fr[|fr| - 1]
    requires owner.Br? && owner.r.Br? && succ == Min(owner.r)
    ensures succ in Nodes(t)
    ensures succ.left == null <==> cur.Br?
  {
    AtNode(t, L, R, B, cur, fr, visited, node, prev);
    SubFacts(owner, t, L, R);
    MinFacts(owner.r, L, R);
    if cur.Br? {
      WalkPush(t, L, R, B, cur, fr, visited);
    }
  }

  /** succ.left = current; current = current.right: the temporary thread
    * from the leftmost node of node's right subtree back to node is made and
    * the walk goes right. */
  method MakeThread(node: Node, succ: Node, prev: Node?, ghost t: Tree<Node>, ghost L: map<Node, Tree<Node>>,
                    ghost R: map<Node, Tree<Node>>, ghost B: map<Node, Node>, ghost cur: Tree<Node>,
                    ghost fr: seq<Tree<Node>>, ghost visited: seq<Node>)
      returns (ghost B': map<Node, Node>, ghost cur': Tree<Node>, ghost fr': seq<Tree<Node>>)
    requires Building(t, L, R, B, cur, fr, visited, node, prev) && cur.Br? && cur.r.Br? && succ == Min(cur.r)
    modifies succ
    ensures Building(t, L, R, B', cur', fr', visited, node.right, prev) && |RevIn(cur')| < |RevIn(cur)|
  {
    AtNode(t, L, R, B, cur, fr, visited, node, prev);
    Push(t, L, R, B, cur, fr, visited);
    B', cur', fr' := B[succ := node], cur.r, fr + [cur];
    SetLeft(succ, node, L, R, B, B', PrevOf(visited));
  }

  lemma Push(t: Tree<Node>, L: map<Node, Tree<Node>>, R: map<Node, Tree<Node>>, B: map<Node, Node>,
             cur: Tree<Node>, fr: seq<Tree<Node>>, visited: seq<Node>)
    requires Walk(t, L, R, B, cur, fr, visited) && cur.Br? && cur.r.Br?
    ensures Min(cur.r) in L && cur.n in L && cur.n in R && R[cur.n] == cur.r && |RevIn(cur.r)| < |RevIn(cur)|
    ensures Walk(t, L, R, B[Min(cur.r) := cur.n], cur.r, fr + [cur], visited)
  {
    SubFacts(cur, t, L, R);
    WalkPush(t, L, R, B, cur, fr, visited);
  }

  /** succ.left = null, then the visit: back at a frame's node, the
    * temporary thread to it is removed, the node is visited and the walk
    * goes left. */
  method RemoveThread(node: Node, succ: Node, prev: Node?, ghost t: Tree<Node>, ghost L: map<Node, Tree<Node>>,
                      ghost R: map<Node, Tree<Node>>, ghost B: map<Node, Node>, ghost cur: Tree<Node>,
                      ghost fr: seq<Tree<Node>>, ghost visited: seq<Node>)
      returns (ghost B': map<Node, Node>, ghost cur': Tree<Node>, ghost fr': seq<Tree<Node>>)
    requires Building(t, L, R, B, cur, fr, visited, node, prev) && cur.Leaf? && |fr| > 0 && succ == Min(fr[|fr| - 1].r)
    modifies succ, node
    ensures |visited| < |RevIn(t)|
    ensures Building(t, L, R, B', cur', fr', visited + [node], node.left, node)
  {
    AtNode(t, L, R, B, cur, fr, visited, node, prev);
    Pop(t, L, R, B, cur, fr, visited);
    var f := fr[|fr| - 1];
    B', cur', fr' := B - {succ}, f.l, fr[..|fr| - 1];
    SetLeft(succ, null, L, R, B, B', PrevOf(visited));
    Thread(node, prev, L, R, B', visited);
  }

  lemma Pop(t: Tree<Node>, L: map<Node, Tree<Node>>, R: map<Node, Tree<Node>>, B: map<Node, Node>,
            cur: Tree<Node>, fr: seq<Tree<Node>>, visited: seq<Node>)
    requires Walk(t, L, R, B, cur, fr, visited) && cur.Leaf? && |fr| > 0
    ensures var f := fr[|fr| - 1]; var B' := B - {Min(f.r)};
      Min(f.r) in L && L[Min(f.r)] == Leaf && f.n in L && L[f.n] == f.l &&
      |visited| < |RevIn(t)| &&
      Walk(t, L, R, B', f.l, fr[..|fr| - 1], visited + [f.n]) &&
      (if f.n in B' then B'[f.n] else Top(f.l)) == Here(f.l, fr[..|fr| - 1])
  {
    var f := fr[|fr| - 1];
    SubFacts(f, t, L, R);
    WalkPop(t, L, R, B, cur, fr, visited);
    MinFacts(f.r, L, R);
    VisitedPrefix(t, f.l, fr[..|fr| - 1], visited + [f.n]);
  }

  /** A single left link changes: the thread map changes with it, and no
    * right link changes. */
  method SetLeft(x: Node, y: Node?, ghost L: map<Node, Tree<Node>>, ghost R: map<Node, Tree<Node>>,
                 ghost B: map<Node, Node>, ghost B': map<Node, Node>, ghost P: map<Node, Node?>)
    requires LeftLinks(L, B) && RightLinks(L, R, P) && x in L
    requires forall z :: z in B' && z != x ==> z in B && B'[z] == B[z]
    requires forall z :: z in B && z != x ==> z in B'
    requires y == if x in B' then B'[x] else Top(L[x])
    modifies x
    ensures LeftLinks(L, B') && RightLinks(L, R, P)
  {
    x.left := y;
  }

  /** The inner loop of createLeftThreadedBST: from owner's right child down
    * the left links to the leftmost node of owner's right subtree. */
  method Successor(node: Node, ghost t: Tree<Node>, ghost L: map<Node, Tree<Node>>, ghost R: map<Node, Tree<Node>>,
                   ghost B: map<Node, Node>, ghost owner: Tree<Node>) returns (succ: Node)
    requires Shaped(t, L, R) && Distinct(t) && LeftLinks(L, B) && (forall y :: y in B ==> y in L && L[y] == Leaf)
    requires Sub(owner, t) && owner.Br? && owner.r.Br? && node == owner.n && node.right == owner.r.n
    requires Min(owner.r) in B ==> B[Min(owner.r)] == node
    ensures succ == Min(owner.r)
  {
    SubFacts(owner, t, L, R);
    succ := node.right;
    ghost var s := owner.r;
    while succ.left != null && succ.left != node
      invariant Sub(s, owner.r) && s.Br? && Min(s) == Min(owner.r) && succ == s.n
      decreases s
    {
      SpineStep(t, L, R, B, owner, s);
      succ, s := succ.left, s.l;
    }
    SpineStep(t, L, R, B, owner, s);
  }

  /** Where kthLargest's first loop stops when it starts at index j of a
    * chain: at the nearest node at or before j marked as a thread, or at the
    * first node. */
  ghost function Descend(order: seq<Node>, j: int): (q: int)
    requires 0 <= j < |order|
    reads set i | 0 <= i < |order| :: order[i]
    ensures 0 <= q <= j && (q == 0 || order[q].isThread)
    ensures forall i :: q < i <= j ==> !order[i].isThread
    decreases j
  {
    if j > 0 && !order[j].isThread then Descend(order, j - 1) else j
  }

  /** kthLargest as written, on nodes whose right links form a chain (the
    * state createLeftThreadedBST leaves): -1 for a missing root or k below 1;
    * otherwise it moves up the chain from the root while the node is not
    * marked as a thread, then k - 1 links further, and gives that node's key,
    * or -1 when it runs off the first node. */
  method KthLargest(root: Node?, k: int, ghost order: seq<Node>, ghost p: int) returns (r: int)
    requires RightChain(order)
    requires root == null || (0 <= p < |order| && order[p] == root)
    ensures root == null || k <= 0 ==> r == -1
    ensures root != null && k > 0 ==>
      var q := Descend(order, p); r == if k - 1 <= q then order[q - (k - 1)].val else -1
  {
    if root == null || k <= 0 {
      return -1;
    }
    var curr := root;
    ghost var j := p;
    while curr.right != null && !curr.isThread
      invariant 0 <= j <= p && curr == order[j] && Descend(order, j) == Descend(order, p)
      decreases j
    {
      curr := curr.right;
      j := j - 1;
    }
    var c: Node? := curr;
    var k' := k;
    while c != null && k' > 1
      invariant 1 <= k' <= k
      invariant c == if j - (k - k') >= 0 then order[j - (k - k')] else null
      decreases k'
    {
      c := c.right;
      k' := k' - 1;
    }
    r := if c != null then c.val else -1;
  }

  /** The k-th largest key found on the tree createLeftThreadedBST leaves:
    * down the left links to the smallest node, along the right links to
    * count the nodes, and along them again to the k-th largest; -1 when k is
    * not between 1 and the number of nodes. */
  method KthLargestCorrected(root: Node?, k: int, ghost t: Tree<Node>) returns (r: int)
    requires LeftLinked(t) && RightChain(RevIn(t)) && root == Top(t)
    ensures r == if 1 <= k <= |RevIn(t)| then RevIn(t)[k - 1].val else -1
  {
    if root == null || k <= 0 {
      return -1;
    }
    ghost var order := RevIn(t);
    ghost var size := |order|;
    var low := root;
    ghost var s := t;
    while low.left != null
      invariant s.Br? && low == s.n && LeftLinked(s) && Min(s) == Min(t)
      decreases s
    {
      low := low.left;
      s := s.l;
    }
    LastIsMin(t);
    var n := 0;
    var c: Node? := low;
    while c != null
      invariant 0 <= n <= size && c == if n < size then order[size - 1 - n] else null
      decreases size - n
    {
      c := c.right;
      n := n + 1;
    }
    if k > n {
      return -1;
    }
    var d := low;
    var i := 0;
    while i < n - k
      invariant 0 <= i <= n - k && d == order[size - 1 - i]
    {
      d := d.right;
      i := i + 1;
    }
    r := d.val;
  }

  /** The tree main builds: 10 at the root, 4 and 2 down its left side. */
  method MainRoot() returns (root: Node, ghost t: Tree<Node>)
    ensures Linked(t) && Distinct(t) && root == Top(t) && fresh(Nodes(t))
    ensures |RevIn(t)| == 7 && RevIn(t)[4] == root && root.val == 10 && RevIn(t)[0].val == 40
  {
    root := new Node(10);
    var n4 := new Node(4);
    var n2 := new Node(2);
    root.left := n4;
    n4.left := n2;
    var n15, t15 := MainRight();
    root.right := n15;
    ghost var t4 := Br(Br(Leaf, n2, Leaf), n4, Leaf);
    LeftFacts(n2, n4);
    assert Linked(Br(Leaf, n2, Leaf));
    t := Br(t4, root, t15);
    JoinFacts(t4, root, t15);
  }

  /** The right subtree of main's tree: 15 with children 12 and 20, and 40
    * right of 20. */
  method MainRight() returns (n15: Node, ghost t: Tree<Node>)
    ensures Linked(t) && Distinct(t) && n15 == Top(t) && fresh(Nodes(t))
    ensures |RevIn(t)| == 4 && RevIn(t)[0].val == 40
  {
    n15 := new Node(15);
    var n12 := new Node(12);
    var n20 := new Node(20);
    var n40 := new Node(40);
    n15.left := n12;
    n15.right := n20;
    n20.right := n40;
    ghost var t20 := Br(Leaf, n20, Br(Leaf, n40, Leaf));
    assert Linked(Br(Leaf, n40, Leaf)) && Linked(Br(Leaf, n12, Leaf));
    assert Linked(t20) && Nodes(t20) == {n20, n40};
    t := Br(Br(Leaf, n12, Leaf), n15, t20);
    assert RevIn(t20) == [n40, n20];
  }

  lemma LeftFacts(n2: Node, n4: Node)
    requires n2 != n4
    ensures var t4 := Br(Br(Leaf, n2, Leaf), n4, Leaf);
      Nodes(t4) == {n4, n2} && |RevIn(t4)| == 2 && Distinct(t4)
  {
  }

  lemma JoinFacts(l: Tree<Node>, n: Node, r: Tree<Node>)
    requires |RevIn(l)| == 2 && |RevIn(r)| == 4
    ensures |RevIn(Br(l, n, r))| == 7 && RevIn(Br(l, n, r))[4] == n && RevIn(Br(l, n, r))[0] == RevIn(r)[0]
  {
  }

  /** main's first query on its threaded tree, as written: it gives the
    * root's key 10, where the largest key is 40. */
  method SampleAsWritten() returns (r: int)
    ensures r == 10
  {
    var root, t := MainRoot();
    CreateLeftThreadedBST(root, t);
    r := KthLargest(root, 1, RevIn(t), 4);
  }

  /** The same query answered by the corrected search: 40. */
  method SampleCorrected() returns (r: int)
    ensures r == 40
  {
    var root, t := MainRoot();
    CreateLeftThreadedBST(root, t);
    r := KthLargestCorrected(root, 1, t);
  }
}
