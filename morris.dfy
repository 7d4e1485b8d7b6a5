/**
 * KthLargestBST/Morris.java: the k-th largest key of a binary search tree by
 * a reverse Morris traversal.  The traversal walks right subtree, node, left
 * subtree without a stack: before going right it threads the leftmost node
 * of the right subtree back to the node, and it finds its way back up along
 * that thread, removing it.
 */
module Morris {
  import opened Wrappers
  import opened BinaryTrees

  class Node {
    const val: int
    var left: Node?
    var right: Node?

    constructor (val: int)
      ensures this.val == val && left == null && right == null
    {
      this.val := val;
      left, right := null, null;
    }
  }

  /** The node at the top of a subtree, null for the empty one. */
  function Top(t: Tree<Node>): Node?
  {
    if t.Leaf? then null else t.n
  }

  /** The nodes' links are the ones t gives them. */
  ghost predicate Linked(t: Tree<Node>)
    reads Nodes(t)
  {
    match t
    case Leaf => true
    case Br(l, n, r) => n.left == Top(l) && n.right == Top(r) && Linked(l) && Linked(r)
  }

  /** The links are the ones L and R give, except that each thread node in B
    * links left to its ancestor. */
  ghost predicate Links(L: map<Node, Tree<Node>>, R: map<Node, Tree<Node>>, B: map<Node, Node>)
    reads L.Keys
  {
    forall x :: x in L ==> x in R && x.right == Top(R[x]) && x.left == (if x in B then B[x] else Top(L[x]))
  }

  /** The node the walk is at: the top of the subtree it is in, or else the
    * innermost frame's node, reached through its thread. */
  function Here(cur: Tree<Node>, fr: seq<Tree<Node>>): Node?
  {
    if cur.Br? then cur.n else if |fr| > 0 then Top(fr[|fr| - 1]) else null
  }

  /** The state of findKthLargest's loop. */
  ghost predicate Walking(t: Tree<Node>, L: map<Node, Tree<Node>>, R: map<Node, Tree<Node>>, B: map<Node, Node>,
                          cur: Tree<Node>, fr: seq<Tree<Node>>, visited: seq<Node>, node: Node?)
    reads L.Keys
  {
    Walk(t, L, R, B, cur, fr, visited) && L.Keys == Nodes(t) && Links(L, R, B) && node == Here(cur, fr)
  }

  /** The right links are the ones t gives. */
  ghost predicate RightLinked(t: Tree<Node>)
    reads Nodes(t)
  {
    match t
    case Leaf => true
    case Br(l, n, r) => n.right == Top(r) && RightLinked(l) && RightLinked(r)
  }

  lemma {:induction false} LinkedLinks(t: Tree<Node>)
    requires Linked(t) && Distinct(t)
    ensures Links(Lefts(t), Rights(t), map[])
  {
    match t
    case Leaf =>
    case Br(l, n, r) =>
      LinkedLinks(l);
      LinkedLinks(r);
      MapsSplit(t);
      var L, R := Lefts(t), Rights(t);
      forall x: Node | x in L
        ensures x in R && x.right == Top(R[x]) && x.left == Top(L[x])
      {
        if x == n {
        } else if x in Nodes(l) {
          assert x in Lefts(l);
        } else {
          assert x in Lefts(r);
        }
      }
  }

  lemma {:induction false} LinksRight(t: Tree<Node>, L: map<Node, Tree<Node>>, R: map<Node, Tree<Node>>, B: map<Node, Node>)
    requires Shaped(t, L, R) && Links(L, R, B)
    ensures RightLinked(t)
  {
    match t
    case Leaf =>
    case Br(l, n, r) =>
      LinksRight(l, L, R, B);
      LinksRight(r, L, R, B);
  }

  lemma {:induction false} LinksLinked(t: Tree<Node>, L: map<Node, Tree<Node>>, R: map<Node, Tree<Node>>)
    requires Shaped(t, L, R) && Links(L, R, map[])
    ensures Linked(t)
  {
    match t
    case Leaf =>
    case Br(l, n, r) =>
      LinksLinked(l, L, R);
      LinksLinked(r, L, R);
  }

  /** findKthLargest: the k-th node in reverse in-order, which in a search
    * tree holds the k-th largest key, or None when k is below 1 or above the
    * number of nodes.  Right links never change and, when nothing is found,
    * every thread has been removed again. */
  method FindKthLargest(root: Node?, k: int, ghost t: Tree<Node>) returns (r: Option<int>)
    requires Linked(t) && Distinct(t) && root == Top(t)
    modifies Nodes(t)
    ensures r == if 1 <= k <= |RevIn(t)| then Some(RevIn(t)[k - 1].val) else None
    ensures RightLinked(t)
    ensures r.None? ==> Linked(t)
  {
    ghost var L, R := Begin(t);
    ghost var B: map<Node, Node>, cur, fr: seq<Tree<Node>>, visited: seq<Node> := map[], t, [], [];
    var node := root;
    var count := 0;
    while node != null
      invariant Walking(t, L, R, B, cur, fr, visited, node)
      invariant count == |visited| && (1 <= k ==> count < k)
      decreases |RevIn(t)| - |visited|, |RevIn(cur)|
    {
      var v;
      ghost var seen := |visited|;
      v, node, B, cur, fr, visited := Step(node, t, L, R, B, cur, fr, visited);
      if v != null {
        count := count + 1;
        if count == k {
          assert k - 1 == seen < |RevIn(t)| && RevIn(t)[k - 1] == v;
          Stop(t, L, R, B, cur, fr, visited, node);
          return Some(v.val);
        }
      }
    }
    Done(t, L, R, B, cur, fr, visited);
    assert count == |RevIn(t)|;
    return None;
  }

  /** Before the loop: the walk starts at the root with no threads. */
  lemma Begin(t: Tree<Node>) returns (L: map<Node, Tree<Node>>, R: map<Node, Tree<Node>>)
    requires Linked(t) && Distinct(t)
    ensures Walking(t, L, R, map[], t, [], [], Top(t))
  {
    L, R := Lefts(t), Rights(t);
    ShapedMaps(t);
    LinkedLinks(t);
    WalkStart(t, Lefts(t), Rights(t));
  }

  /** Wherever the walk stops, every right link is the original one. */
  lemma Stop(t: Tree<Node>, L: map<Node, Tree<Node>>, R: map<Node, Tree<Node>>, B: map<Node, Node>,
             cur: Tree<Node>, fr: seq<Tree<Node>>, visited: seq<Node>, node: Node?)
    requires Walking(t, L, R, B, cur, fr, visited, node)
    ensures RightLinked(t)
  {
    LinksRight(t, L, R, B);
  }

  /** When the walk runs out of nodes, it has visited all of them in reverse
    * in-order and every thread is gone, so the tree is as it was. */
  lemma Done(t: Tree<Node>, L: map<Node, Tree<Node>>, R: map<Node, Tree<Node>>, B: map<Node, Node>,
             cur: Tree<Node>, fr: seq<Tree<Node>>, visited: seq<Node>)
    requires Walking(t, L, R, B, cur, fr, visited, null)
    ensures visited == RevIn(t) && RightLinked(t) && Linked(t)
  {
    assert cur.Leaf? && fr == [] && B == map[];
    assert RevIn(t) == visited + RevIn(cur) + Conts(fr);
    LinksRight(t, L, R, B);
    LinksLinked(t, L, R);
  }

  /** One turn of findKthLargest's loop, apart from the count: the node it
    * visits, if any, and the node the walk goes on at.  A node without a
    * right child is visited; otherwise the leftmost node of its right
    * subtree either gets a thread back to it, or has one and loses it, and
    * then the node is visited. */
  method Step(node: Node, ghost t: Tree<Node>, ghost L: map<Node, Tree<Node>>, ghost R: map<Node, Tree<Node>>,
              ghost B: map<Node, Node>, ghost cur: Tree<Node>, ghost fr: seq<Tree<Node>>, ghost visited: seq<Node>)
      returns (v: Node?, next: Node?, ghost B': map<Node, Node>, ghost cur': Tree<Node>, ghost fr': seq<Tree<Node>>, ghost visited': seq<Node>)
    requires Walking(t, L, R, B, cur, fr, visited, node)
    modifies Nodes(t)
    ensures Walking(t, L, R, B', cur', fr', visited', next)
    ensures v == null ==> visited' == visited && |RevIn(cur')| < |RevIn(cur)|
    ensures v != null ==> v == node && visited' == visited + [node] && |visited| < |RevIn(t)| && RevIn(t)[|visited|] == node
  {
    AtNode(t, L, R, B, cur, fr, visited, node);
    if node.right == null {
      Visit(t, L, R, B, cur, fr, visited, node);
      v, next := node, node.left;
      B', cur', fr', visited' := B, cur.l, fr, visited + [cur.n];
    } else {
      ghost var owner := if cur.Br? then cur else fr[|fr| - 1];
      AtRight(t, L, R, B, cur, fr, visited, node);
      var succ := Successor(node, t, L, R, B, owner);
      AtSuccessor(t, L, R, B, cur, fr, visited, node, owner, succ);
      if succ.left == null {
        B', cur', fr' := MakeThread(node, succ, t, L, R, B, cur, fr, visited);
        v, next := null, node.right;
        visited' := visited;
      } else {
        B', cur', fr' := RemoveThread(node, succ, t, L, R, B, cur, fr, visited);
        v, next := node, node.left;
        visited' := visited + [owner.n];
      }
    }
  }

  /** What the loop relies on at the node the walk is at: which of the three
    * cases it is in. */
  lemma AtNode(t: Tree<Node>, L: map<Node, Tree<Node>>, R: map<Node, Tree<Node>>, B: map<Node, Node>,
               cur: Tree<Node>, fr: seq<Tree<Node>>, visited: seq<Node>, node: Node)
    requires Walking(t, L, R, B, cur, fr, visited, node)
    ensures node.right == null <==> cur.Br? && cur.r.Leaf?
    ensures cur.Br? ==> Sub(cur, t) && node == cur.n
    ensures cur.Leaf? ==> |fr| > 0 && node == fr[|fr| - 1].n && Sub(fr[|fr| - 1], t) && fr[|fr| - 1].r.Br?
  {
    if cur.Br? {
      SubFacts(cur, t, L, R);
    } else {
      var f := fr[|fr| - 1];
      SubFacts(f, t, L, R);
    }
  }

  /** Visiting a node without a right child: it is the next node in reverse
    * in-order, and the walk goes on at its left link. */
  lemma Visit(t: Tree<Node>, L: map<Node, Tree<Node>>, R: map<Node, Tree<Node>>, B: map<Node, Node>,
              cur: Tree<Node>, fr: seq<Tree<Node>>, visited: seq<Node>, node: Node)
    requires Walking(t, L, R, B, cur, fr, visited, node) && cur.Br? && cur.r.Leaf?
    ensures |visited| < |RevIn(t)| && RevIn(t)[|visited|] == node
    ensures Walking(t, L, R, B, cur.l, fr, visited + [node], node.left)
  {
    SubFacts(cur, t, L, R);
    WalkVisit(t, L, R, B, cur, fr, visited);
    VisitedPrefix(t, cur.l, fr, visited + [node]);
  }

  /** At a node with a right child: it is cur's node, or the innermost
    * frame's node reached through its thread, and the successor search
    * starts from it. */
  lemma AtRight(t: Tree<Node>, L: map<Node, Tree<Node>>, R: map<Node, Tree<Node>>, B: map<Node, Node>,
                cur: Tree<Node>, fr: seq<Tree<Node>>, visited: seq<Node>, node: Node)
    requires Walking(t, L, R, B, cur, fr, visited, node) && node.right != null
    ensures var owner := if cur.Br? then cur else fr[|fr| - 1];
      Shaped(t, L, R) && Distinct(t) && Links(L, R, B) && (forall y :: y in B ==> y in L && L[y] == Leaf) &&
      Sub(owner, t) && owner.Br? && owner.r.Br? && node == owner.n &&
      (Min(owner.r) in B ==> B[Min(owner.r)] == node)
  {
    AtNode(t, L, R, B, cur, fr, visited, node);
    if cur.Br? {
      WalkPush(t, L, R, B, cur, fr, visited);
    }
  }

  /** The successor's left link tells the two cases apart: null when the
    * walk is going down into node's right subtree, the thread back to node
    * when it has come up through it. */
  lemma AtSuccessor(t: Tree<Node>, L: map<Node, Tree<Node>>, R: map<Node, Tree<Node>>, B: map<Node, Node>,
                    cur: Tree<Node>, fr: seq<Tree<Node>>, visited: seq<Node>, node: Node, owner: Tree<Node>, succ: Node)
    requires Walking(t, L, R, B, cur, fr, visited, node) && node.right != null
    requires owner == if cur.Br? then cur else fr[|fr| - 1]
    requires owner.Br? && owner.r.Br? && succ == Min(owner.r)
    ensures succ in Nodes(t)
    ensures succ.left == null <==> cur.Br?
  {
    AtNode(t, L, R, B, cur, fr, visited, node);
    SubFacts(owner, t, L, R);
    MinFacts(owner.r, L, R);
    if cur.Br? {
      WalkPush(t, L, R, B, cur, fr, visited);
    }
  }

  /** succ.left = root; root = root.right: the thread from the leftmost node
    * of node's right subtree back to node is made and the walk goes right. */
  method MakeThread(node: Node, succ: Node, ghost t: Tree<Node>, ghost L: map<Node, Tree<Node>>, ghost R: map<Node, Tree<Node>>,
                    ghost B: map<Node, Node>, ghost cur: Tree<Node>, ghost fr: seq<Tree<Node>>, ghost visited: seq<Node>)
      returns (ghost B': map<Node, Node>, ghost cur': Tree<Node>, ghost fr': seq<Tree<Node>>)
    requires Walking(t, L, R, B, cur, fr, visited, node) && cur.Br? && cur.r.Br? && succ == Min(cur.r)
    modifies succ
    ensures Walking(t, L, R, B', cur', fr', visited, node.right) && |RevIn(cur')| < |RevIn(cur)|
  {
    Push(t, L, R, B, cur, fr, visited);
    B', cur', fr' := B[succ := node], cur.r, fr + [cur];
    SetLeft(succ, node, L, R, B, B');
  }

  lemma Push(t: Tree<Node>, L: map<Node, Tree<Node>>, R: map<Node, Tree<Node>>, B: map<Node, Node>,
             cur: Tree<Node>, fr: seq<Tree<Node>>, visited: seq<Node>)
    requires Walk(t, L, R, B, cur, fr, visited) && cur.Br? && cur.r.Br?
    ensures Min(cur.r) in L && cur.n in L && cur.n in R && R[cur.n] == cur.r && |RevIn(cur.r)| < |RevIn(cur)|
    ensures Walk(t, L, R, B[Min(cur.r) := cur.n], cur.r, fr + [cur], visited)
  {
    SubFacts(cur, t, L, R);
    WalkPush(t, L, R, B, cur, fr, visited);
  }

  /** succ.left = null; root = root.left: back at a frame's node, the thread
    * to it is removed, the node is visited and the walk goes left. */
  method RemoveThread(node: Node, succ: Node, ghost t: Tree<Node>, ghost L: map<Node, Tree<Node>>, ghost R: map<Node, Tree<Node>>,
                      ghost B: map<Node, Node>, ghost cur: Tree<Node>, ghost fr: seq<Tree<Node>>, ghost visited: seq<Node>)
      returns (ghost B': map<Node, Node>, ghost cur': Tree<Node>, ghost fr': seq<Tree<Node>>)
    requires Walking(t, L, R, B, cur, fr, visited, node) && cur.Leaf? && |fr| > 0 && succ == Min(fr[|fr| - 1].r)
    modifies succ
    ensures |visited| < |RevIn(t)| && RevIn(t)[|visited|] == node
    ensures Walking(t, L, R, B', cur', fr', visited + [node], node.left)
  {
    Pop(t, L, R, B, cur, fr, visited);
    var f := fr[|fr| - 1];
    B', cur', fr' := B - {succ}, f.l, fr[..|fr| - 1];
    SetLeft(succ, null, L, R, B, B');
  }

  lemma Pop(t: Tree<Node>, L: map<Node, Tree<Node>>, R: map<Node, Tree<Node>>, B: map<Node, Node>,
            cur: Tree<Node>, fr: seq<Tree<Node>>, visited: seq<Node>)
    requires Walk(t, L, R, B, cur, fr, visited) && cur.Leaf? && |fr| > 0
    ensures var f := fr[|fr| - 1]; var B' := B - {Min(f.r)};
      Min(f.r) in L && L[Min(f.r)] == Leaf && f.n in L && L[f.n] == f.l &&
      |visited| < |RevIn(t)| && RevIn(t)[|visited|] == f.n &&
      Walk(t, L, R, B', f.l, fr[..|fr| - 1], visited + [f.n]) &&
      (if f.n in B' then B'[f.n] else Top(f.l)) == Here(f.l, fr[..|fr| - 1])
  {
    var f := fr[|fr| - 1];
    SubFacts(f, t, L, R);
    WalkPop(t, L, R, B, cur, fr, visited);
    MinFacts(f.r, L, R);
    VisitedPrefix(t, f.l, fr[..|fr| - 1], visited + [f.n]);
  }

  /** A single left link changes: the thread map changes with it. */
  method SetLeft(x: Node, y: Node?, ghost L: map<Node, Tree<Node>>, ghost R: map<Node, Tree<Node>>, ghost B: map<Node, Node>, ghost B': map<Node, Node>)
    requires Links(L, R, B) && x in L
    requires forall z :: z in B' && z != x ==> z in B && B'[z] == B[z]
    requires forall z :: z in B && z != x ==> z in B'
    requires y == if x in B' then B'[x] else Top(L[x])
    modifies x
    ensures Links(L, R, B')
  {
    x.left := y;
  }

  /** The inner loop of findKthLargest: from owner's right child down the
    * left links to the leftmost node of owner's right subtree, where the
    * left link is null before the thread is made and owner after. */
  method Successor(node: Node, ghost t: Tree<Node>, ghost L: map<Node, Tree<Node>>, ghost R: map<Node, Tree<Node>>,
                   ghost B: map<Node, Node>, ghost owner: Tree<Node>) returns (succ: Node)
    requires Shaped(t, L, R) && Distinct(t) && Links(L, R, B) && (forall y :: y in B ==> y in L && L[y] == Leaf)
    requires Sub(owner, t) && owner.Br? && owner.r.Br? && node == owner.n
    requires Min(owner.r) in B ==> B[Min(owner.r)] == node
    ensures succ == Min(owner.r) && Links(L, R, B)
  {
    SubFacts(owner, t, L, R);
    succ := node.right;
    ghost var s := owner.r;
    while succ.left != null && succ.left != node
      invariant Sub(s, owner.r) && s.Br? && Min(s) == Min(owner.r) && succ == s.n
      decreases s
    {
      SpineStep(t, L, R, B, owner, s);
      succ, s := succ.left, s.l;
    }
    SpineStep(t, L, R, B, owner, s);
  }

  /** The tree main builds: 10 at the root, 4 and 2 down its left side. */
  method MainRoot() returns (root: Node, ghost t: Tree<Node>)
    ensures Linked(t) && Distinct(t) && root == Top(t) && fresh(Nodes(t))
    ensures |RevIn(t)| == 7 && RevIn(t)[2].val == 15
  {
    root := new Node(10);
    var n4 := new Node(4);
    var n2 := new Node(2);
    root.left := n4;
    n4.left := n2;
    var n15, t15 := MainRight();
    root.right := n15;
    ghost var t4 := Br(Br(Leaf, n2, Leaf), n4, Leaf);
    LeftFacts(n2, n4);
    assert Linked(Br(Leaf, n2, Leaf));
    t := Br(t4, root, t15);
    JoinFacts(t4, root, t15);
  }

  /** The right subtree of main's tree: 15 with children 12 and 20, and 40
    * right of 20. */
  method MainRight() returns (n15: Node, ghost t: Tree<Node>)
    ensures Linked(t) && Distinct(t) && n15 == Top(t) && fresh(Nodes(t))
    ensures |RevIn(t)| == 4 && RevIn(t)[2] == n15 && n15.val == 15
  {
    n15 := new Node(15);
    var n12 := new Node(12);
    var n20 := new Node(20);
    var n40 := new Node(40);
    n15.left := n12;
    n15.right := n20;
    n20.right := n40;
    ghost var t20 := Br(Leaf, n20, Br(Leaf, n40, Leaf));
    assert Linked(Br(Leaf, n40, Leaf)) && Linked(Br(Leaf, n12, Leaf));
    assert Linked(t20) && Nodes(t20) == {n20, n40};
    t := Br(Br(Leaf, n12, Leaf), n15, t20);
    assert RevIn(t20) == [n40, n20];
  }

  lemma LeftFacts(n2: Node, n4: Node)
    requires n2 != n4
    ensures var t4 := Br(Br(Leaf, n2, Leaf), n4, Leaf);
      Nodes(t4) == {n4, n2} && |RevIn(t4)| == 2 && Distinct(t4)
  {
  }

  lemma JoinFacts(l: Tree<Node>, n: Node, r: Tree<Node>)
    requires |RevIn(l)| == 2 && |RevIn(r)| == 4
    ensures |RevIn(Br(l, n, r))| == 7 && RevIn(Br(l, n, r))[2] == RevIn(r)[2]
  {
  }

  /** main's query: the third largest key of its tree is 15. */
  method Sample() returns (ans: Option<int>)
    ensures ans == Some(15)
  {
    var root, t := MainRoot();
    ans := FindKthLargest(root, 3, t);
  }
}
