/** Build order of a package: collect every component the package depends on,
  * directly or not, by depth-first search, then order them by Kahn's
  * algorithm so that each comes after all of its dependencies; a cycle among
  * them is an error. */
module ServiceDiscovery {
  import opened Wrappers

  /** component -> its direct dependencies, in the order listed */
  type Graph = map<string, seq<string>>

  /** `getPackageBuildDependencies`: the listed dependencies, or none. */
  function Deps(g: Graph, p: string): seq<string> {
    if p in g then g[p] else []
  }

  /** Each element after the first is a dependency of the one before it. */
  ghost predicate IsPath(g: Graph, p: seq<string>) {
    |p| >= 1 && forall k, l {:trigger p[k], p[l]} :: 0 <= k && l == k + 1 && l < |p| ==> p[l] in Deps(g, p[k])
  }

  /** b is a (reflexive, transitive) dependency of a. */
  ghost predicate Reaches(g: Graph, a: string, b: string) {
    exists p :: IsPath(g, p) && p[0] == a && p[|p| - 1] == b
  }

  /** p is a cycle of dependencies reachable from pkg. */
  ghost predicate CycleBelow(g: Graph, pkg: string, p: seq<string>) {
    IsPath(g, p) && |p| >= 2 && p[0] == p[|p| - 1] && Reaches(g, pkg, p[0])
  }

  /** The dependencies reachable from pkg hold a cycle. */
  ghost predicate CycleFrom(g: Graph, pkg: string) {
    exists p :: CycleBelow(g, pkg, p)
  }

  /** S holds the dependencies of each of its members. */
  ghost predicate Closed(g: Graph, S: set<string>) {
    forall n, d :: n in S && d in Deps(g, n) ==> d in S
  }

  /** Every component named in the graph. */
  ghost function Nodes(g: Graph): set<string> {
    g.Keys + set n, d | n in g && d in g[n] :: d
  }

  lemma NodesClosed(g: Graph, pkg: string)
    ensures Closed(g, Nodes(g) + {pkg})
  {
    forall n, d | n in Nodes(g) + {pkg} && d in Deps(g, n)
      ensures d in Nodes(g)
    {
      assert n in g && d in g[n];
    }
  }

  lemma ReachSelf(g: Graph, a: string)
    ensures Reaches(g, a, a)
  {
    assert IsPath(g, [a]);
  }

  /** A dependency's dependencies are dependencies. */
  lemma ReachStep(g: Graph, a: string, d: string, n: string)
    requires d in Deps(g, a) && Reaches(g, d, n)
    ensures Reaches(g, a, n)
  {
    var p :| IsPath(g, p) && p[0] == d && p[|p| - 1] == n;
    var q := [a] + p;
    assert forall k :: 1 <= k < |q| ==> q[k] == p[k - 1];
    assert IsPath(g, q);
  }

  /** A closed set holding a holds everything a reaches. */
  lemma {:induction false} ClosedPath(g: Graph, S: set<string>, p: seq<string>)
    requires Closed(g, S) && IsPath(g, p) && p[0] in S
    ensures forall k :: 0 <= k < |p| ==> p[k] in S
    decreases |p|
  {
    if |p| > 1 {
      var q := p[..|p| - 1];
      assert IsPath(g, q);
      ClosedPath(g, S, q);
      assert p[|p| - 1] in Deps(g, q[|q| - 1]);
    }
  }

  lemma ClosedReach(g: Graph, S: set<string>, a: string, b: string)
    requires Closed(g, S) && a in S && Reaches(g, a, b)
    ensures b in S
  {
    var p :| IsPath(g, p) && p[0] == a && p[|p| - 1] == b;
    ClosedPath(g, S, p);
  }

  lemma SubsetSmaller(A: set<string>, B: set<string>)
    requires A < B
    ensures |A| < |B|
  {
    var x :| x in B && x !in A;
    assert x in B - A;
    assert |B - A| > 0;
    assert A * B == A && A + B == B && A - B == {};
    assert |A - B| + |B - A| + |A * B| == |A + B|;
  }

  /** After the search from dependency d of pkg, everything added since
    * visited is still reachable from pkg and, pkg aside, has its
    * dependencies marked. */
  lemma SearchedDependency(g: Graph, pkg: string, ds: seq<string>, i: nat, visited: set<string>,
                           before: set<string>, after: set<string>)
    requires ds == Deps(g, pkg) && i < |ds| && before <= after && ds[i] in after
    requires forall k :: 0 <= k < i ==> ds[k] in before
    requires forall n :: n in before - visited ==> Reaches(g, pkg, n)
    requires forall n :: n in after - before ==> Reaches(g, ds[i], n)
    requires forall n, e :: n in before - visited - {pkg} && e in Deps(g, n) ==> e in before
    requires forall n, e :: n in after - before && e in Deps(g, n) ==> e in after
    ensures forall k :: 0 <= k < i + 1 ==> ds[k] in after
    ensures forall n :: n in after - visited ==> Reaches(g, pkg, n)
    ensures forall n, e :: n in after - visited - {pkg} && e in Deps(g, n) ==> e in after
  {
    forall n | n in after - before
      ensures Reaches(g, pkg, n)
    {
      ReachStep(g, pkg, ds[i], n);
    }
  }

  /** `discoverDFS`: marks pkg and, when it was not marked before, searches
    * its dependencies in turn. Whatever it adds is reachable from pkg, pkg is
    * marked, and each component it adds has all its dependencies marked. */
  method DiscoverDFS(g: Graph, pkg: string, visited: set<string>, ghost U: set<string>)
    returns (visited': set<string>)
    requires pkg in U && visited <= U && Closed(g, U)
    ensures visited <= visited' <= U
    ensures pkg in visited'
    ensures forall n :: n in visited' - visited ==> Reaches(g, pkg, n)
    ensures forall n, d :: n in visited' - visited && d in Deps(g, n) ==> d in visited'
    decreases |U - visited|
  {
    if pkg in visited {
      return visited;
    }
    visited' := visited + {pkg};
    ReachSelf(g, pkg);
    var ds := Deps(g, pkg);
    for i := 0 to |ds|
      invariant visited + {pkg} <= visited' <= U
      invariant forall k :: 0 <= k < i ==> ds[k] in visited'
      invariant forall n :: n in visited' - visited ==> Reaches(g, pkg, n)
      invariant forall n, d :: n in visited' - visited - {pkg} && d in Deps(g, n) ==> d in visited'
    {
      SubsetSmaller(U - visited', U - visited);
      ghost var before := visited';
      visited' := DiscoverDFS(g, ds[i], visited', U);
      SearchedDependency(g, pkg, ds, i, visited, before, visited');
    }
  }

  /** The components `dependencyResolver` collects: exactly those pkg
    * reaches, a set holding the dependencies of each member. */
  method Discover(g: Graph, pkg: string) returns (reachable: set<string>)
    ensures forall n :: n in reachable <==> Reaches(g, pkg, n)
    ensures Closed(g, reachable)
  {
    NodesClosed(g, pkg);
    reachable := DiscoverDFS(g, pkg, {}, Nodes(g) + {pkg});
    forall n | Reaches(g, pkg, n)
      ensures n in reachable
    {
      ClosedReach(g, reachable, pkg, n);
    }
  }

  /** The reversed edges `dependencyResolver` builds over R: adj[d] lists each
    * component c of R once per time c names d, and every component is a key. */
  ghost predicate Edges(g: Graph, R: set<string>, adj: map<string, seq<string>>) {
    adj.Keys == R &&
    (forall d, c {:trigger multiset(adj[d])[c]} :: d in R && c in R ==> multiset(adj[d])[c] == multiset(Deps(g, c))[d]) &&
    (forall d, c :: d in adj && c in adj[d] ==> c in R)
  }

  /** Step 2 of `dependencyResolver`, first loop: every component gets an empty
    * dependents list and in-degree 0. */
  method InitGraph(R: set<string>) returns (adj: map<string, seq<string>>, indeg: map<string, int>)
    ensures adj.Keys == R && indeg.Keys == R
    ensures forall c :: c in R ==> adj[c] == [] && indeg[c] == 0
  {
    adj, indeg := map[], map[];
    var rest := R;
    while rest != {}
      invariant rest <= R
      invariant forall c :: c in adj <==> c in R && c !in rest
      invariant forall c :: c in indeg <==> c in R && c !in rest
      invariant forall c :: c in adj ==> adj[c] == [] && indeg[c] == 0
      decreases |rest|
    {
      var c :| c in rest;
      adj := adj[c := []];
      indeg := indeg[c := 0];
      rest := rest - {c};
    }
  }

  /** k copies of c. */
  function Copies(c: string, k: nat): (s: seq<string>)
    ensures |s| == k
  {
    if k == 0 then [] else Copies(c, k - 1) + [c]
  }

  lemma {:induction false} CopiesCount(c: string, k: nat)
    ensures multiset(Copies(c, k)) == multiset{}[c := k]
  {
    if k > 0 {
      CopiesCount(c, k - 1);
    }
  }

  /** adj after c joins the list of each dependency in seen, in turn. */
  function Joined(adj: map<string, seq<string>>, c: string, seen: seq<string>): map<string, seq<string>>
  {
    if seen == [] then adj
    else
      var m := Joined(adj, c, seen[..|seen| - 1]);
      var d := seen[|seen| - 1];
      if d in m then m[d := m[d] + [c]] else m
  }

  /** Joining keeps the keys. */
  lemma {:induction false} JoinedKeys(adj: map<string, seq<string>>, c: string, seen: seq<string>)
    ensures Joined(adj, c, seen).Keys == adj.Keys
  {
    if seen != [] {
      JoinedKeys(adj, c, seen[..|seen| - 1]);
    }
  }

  /** Each list gains one copy of c per time seen names its key. */
  lemma {:induction false} JoinedList(adj: map<string, seq<string>>, c: string, seen: seq<string>, e: string)
    requires e in adj
    ensures e in Joined(adj, c, seen)
    ensures Joined(adj, c, seen)[e] == adj[e] + Copies(c, multiset(seen)[e])
  {
    JoinedKeys(adj, c, seen);
    if seen != [] {
      var pre, d := seen[..|seen| - 1], seen[|seen| - 1];
      assert seen == pre + [d];
      JoinedList(adj, c, pre, e);
      JoinedKeys(adj, c, pre);
      var k := multiset(pre)[e];
      if e == d {
        assert Joined(adj, c, seen)[e] == (adj[e] + Copies(c, k)) + [c];
        assert Copies(c, k + 1) == Copies(c, k) + [c];
      } else {
        assert Joined(adj, c, seen)[e] == Joined(adj, c, pre)[e];
        assert multiset(seen)[e] == k;
      }
    }
  }

  /** Step 2, inner loop for one component c: for each dependency d it names,
    * c joins adj[d] and c's in-degree grows by one. */
  method AddEdges(g: Graph, c: string, adj: map<string, seq<string>>, indeg: map<string, int>)
    returns (adj': map<string, seq<string>>, indeg': map<string, int>)
    requires c in indeg && forall d :: d in Deps(g, c) ==> d in adj
    ensures adj' == Joined(adj, c, Deps(g, c))
    ensures indeg' == indeg[c := indeg[c] + |Deps(g, c)|]
  {
    adj', indeg' := adj, indeg;
    var ds := Deps(g, c);
    for j := 0 to |ds|
      invariant adj' == Joined(adj, c, ds[..j])
      invariant indeg' == indeg[c := indeg[c] + j]
    {
      assert ds[..j + 1][..j] == ds[..j];
      JoinedKeys(adj, c, ds[..j]);
      var d := ds[j];
      adj' := adj'[d := adj'[d] + [c]];
      indeg' := indeg'[c := indeg'[c] + 1];
    }
    assert ds[..|ds|] == ds;
  }

  lemma JoinedCount(adj: map<string, seq<string>>, c: string, ds: seq<string>, d: string, x: string)
    requires d in adj
    ensures d in Joined(adj, c, ds)
    ensures multiset(Joined(adj, c, ds)[d])[x] == multiset(adj[d])[x] + (if x == c then multiset(ds)[d] else 0)
  {
    JoinedList(adj, c, ds, d);
    CopiesCount(c, multiset(ds)[d]);
  }

  /** No component occurs twice. */
  ghost predicate NoDups(s: seq<string>) {
    forall x :: multiset(s)[x] <= 1
  }

  /** The lists after step 2 has handled the components of seen, in turn. */
  function Reversed(g: Graph, adj: map<string, seq<string>>, seen: seq<string>): map<string, seq<string>>
  {
    if seen == [] then adj
    else
      var c := seen[|seen| - 1];
      Joined(Reversed(g, adj, seen[..|seen| - 1]), c, Deps(g, c))
  }

  /** The in-degrees after step 2 has handled the components of seen, in turn. */
  function Counted(g: Graph, indeg: map<string, int>, seen: seq<string>): map<string, int>
  {
    if seen == [] then indeg
    else
      var m, c := Counted(g, indeg, seen[..|seen| - 1]), seen[|seen| - 1];
      if c in m then m[c := m[c] + |Deps(g, c)|] else m
  }

  lemma {:induction false} ReversedKeys(g: Graph, adj: map<string, seq<string>>, seen: seq<string>)
    ensures Reversed(g, adj, seen).Keys == adj.Keys
  {
    if seen != [] {
      var c := seen[|seen| - 1];
      ReversedKeys(g, adj, seen[..|seen| - 1]);
      JoinedKeys(Reversed(g, adj, seen[..|seen| - 1]), c, Deps(g, c));
    }
  }

  lemma {:induction false} CountedKeys(g: Graph, indeg: map<string, int>, seen: seq<string>)
    ensures Counted(g, indeg, seen).Keys == indeg.Keys
  {
    if seen != [] {
      CountedKeys(g, indeg, seen[..|seen| - 1]);
    }
  }

  /** Once step 2 has handled seen, adj[d] holds each handled component once
    * per time it names d, after what adj[d] held before. */
  lemma {:induction false} ReversedCount(g: Graph, adj: map<string, seq<string>>, seen: seq<string>, d: string, x: string)
    requires d in adj && NoDups(seen)
    ensures d in Reversed(g, adj, seen)
    ensures multiset(Reversed(g, adj, seen)[d])[x]
         == multiset(adj[d])[x] + (if x in seen then multiset(Deps(g, x))[d] else 0)
  {
    if seen != [] {
      var pre, c := seen[..|seen| - 1], seen[|seen| - 1];
      assert seen == pre + [c];
      NoDupsLast(seen);
      ReversedCount(g, adj, pre, d, x);
      ReversedKeys(g, adj, pre);
      JoinedCount(Reversed(g, adj, pre), c, Deps(g, c), d, x);
      assert x in seen <==> x in pre || x == c;
    }
  }

  /** Once step 2 has handled seen, each handled component's in-degree has
    * grown by its number of dependencies. */
  lemma {:induction false} CountedValue(g: Graph, indeg: map<string, int>, seen: seq<string>, x: string)
    requires x in indeg && NoDups(seen)
    ensures x in Counted(g, indeg, seen)
    ensures Counted(g, indeg, seen)[x] == indeg[x] + (if x in seen then |Deps(g, x)| else 0)
  {
    CountedKeys(g, indeg, seen);
    if seen != [] {
      var pre, c := seen[..|seen| - 1], seen[|seen| - 1];
      assert seen == pre + [c];
      NoDupsLast(seen);
      CountedValue(g, indeg, pre, x);
      CountedKeys(g, indeg, pre);
      assert x in seen <==> x in pre || x == c;
    }
  }

  /** Handling c next extends the lists and in-degrees as the definitions say. */
  lemma HandleNext(g: Graph, adj0: map<string, seq<string>>, indeg0: map<string, int>, seen: seq<string>, c: string,
                   adj: map<string, seq<string>>, indeg: map<string, int>,
                   adj': map<string, seq<string>>, indeg': map<string, int>)
    requires adj == Reversed(g, adj0, seen) && indeg == Counted(g, indeg0, seen) && c in indeg
    requires adj' == Joined(adj, c, Deps(g, c)) && indeg' == indeg[c := indeg[c] + |Deps(g, c)|]
    ensures adj' == Reversed(g, adj0, seen + [c]) && indeg' == Counted(g, indeg0, seen + [c])
  {
    assert (seen + [c])[..|seen|] == seen;
  }

  /** Step 2 of `dependencyResolver`: the reversed edges and the number of
    * dependencies of each component of R. */
  method BuildGraph(g: Graph, R: set<string>) returns (adj: map<string, seq<string>>, indeg: map<string, int>)
    requires Closed(g, R)
    ensures Edges(g, R, adj)
    ensures indeg.Keys == R && forall c :: c in R ==> indeg[c] == |Deps(g, c)|
  {
    var adj0, indeg0 := InitGraph(R);
    adj, indeg := adj0, indeg0;
    var rest := R;
    ghost var seen: seq<string> := [];
    while rest != {}
      invariant rest <= R && NoDups(seen)
      invariant forall x :: x in seen <==> x in R && x !in rest
      invariant adj == Reversed(g, adj0, seen) && indeg == Counted(g, indeg0, seen)
      decreases |rest|
    {
      var c :| c in rest;
      ReversedKeys(g, adj0, seen);
      CountedKeys(g, indeg0, seen);
      var adj', indeg' := AddEdges(g, c, adj, indeg);
      HandleNext(g, adj0, indeg0, seen, c, adj, indeg, adj', indeg');
      adj, indeg := adj', indeg';
      seen := seen + [c];
      rest := rest - {c};
    }
    BuiltEdges(g, R, adj0, seen);
    BuiltCounts(g, R, indeg0, seen);
  }

  /** Once all of R is handled, the lists are the reversed edges over R. */
  lemma BuiltEdges(g: Graph, R: set<string>, adj0: map<string, seq<string>>, seen: seq<string>)
    requires adj0.Keys == R && forall c :: c in R ==> adj0[c] == []
    requires NoDups(seen) && forall x :: x in seen <==> x in R
    ensures Edges(g, R, Reversed(g, adj0, seen))
  {
    var adj := Reversed(g, adj0, seen);
    ReversedKeys(g, adj0, seen);
    forall d, x | d in R
      ensures multiset(adj[d])[x] == if x in R then multiset(Deps(g, x))[d] else 0
    {
      ReversedCount(g, adj0, seen, d, x);
    }
    forall d, x | d in adj && x in adj[d]
      ensures x in R
    {
      assert multiset(adj[d])[x] > 0;
    }
  }

  /** Once all of R is handled, each in-degree is the number of dependencies. */
  lemma BuiltCounts(g: Graph, R: set<string>, indeg0: map<string, int>, seen: seq<string>)
    requires indeg0.Keys == R && forall c :: c in R ==> indeg0[c] == 0
    requires NoDups(seen) && forall x :: x in seen <==> x in R
    ensures Counted(g, indeg0, seen).Keys == R
    ensures forall c :: c in R ==> Counted(g, indeg0, seen)[c] == |Deps(g, c)|
  {
    CountedKeys(g, indeg0, seen);
    forall c | c in R
      ensures Counted(g, indeg0, seen)[c] == |Deps(g, c)|
    {
      CountedValue(g, indeg0, seen, c);
    }
  }

  /** Step 3 of `dependencyResolver`, first loop: the queue starts with every
    * component of R whose in-degree is 0, each once. */
  method InitQueue(R: set<string>, indeg: map<string, int>) returns (queue: seq<string>)
    requires indeg.Keys == R
    ensures NoDups(queue)
    ensures forall c :: c in queue <==> c in R && indeg[c] == 0
  {
    queue := [];
    var rest := R;
    while rest != {}
      invariant rest <= R && NoDups(queue)
      invariant forall c :: c in queue <==> c in R && c !in rest && indeg[c] == 0
      decreases |rest|
    {
      var c :| c in rest;
      if indeg[c] == 0 {
        queue := queue + [c];
      }
      rest := rest - {c};
    }
  }

  /** Dropping the last entry keeps a sequence free of repeats, and that
    * entry occurs nowhere before it. */
  lemma NoDupsLast(s: seq<string>)
    requires NoDups(s) && s != []
    ensures NoDups(s[..|s| - 1]) && s[|s| - 1] !in s[..|s| - 1]
  {
    var pre, c := s[..|s| - 1], s[|s| - 1];
    assert s == pre + [c];
    assert multiset(s) == multiset(pre) + multiset{c};
    assert multiset(s)[c] <= 1;
    forall x
      ensures multiset(pre)[x] <= 1
    {
      assert multiset(pre)[x] <= multiset(s)[x];
    }
  }

  lemma SliceNext<T>(s: seq<T>, j: nat)
    requires j < |s|
    ensures s[..j + 1] == s[..j] + [s[j]]
  {
  }

  lemma SliceAll<T>(s: seq<T>)
    ensures s[..|s|] == s
  {
  }

  /** How many entries of ds are not yet in done. */
  ghost function Pending(ds: seq<string>, done: seq<string>): nat
  {
    if ds == [] then 0 else (if ds[0] in done then 0 else 1) + Pending(ds[1..], done)
  }

  /** Nothing is pending exactly when every entry is done. */
  lemma {:induction false} PendingZero(ds: seq<string>, done: seq<string>)
    ensures Pending(ds, done) == 0 <==> forall d :: d in ds ==> d in done
  {
    if ds != [] {
      PendingZero(ds[1..], done);
      assert forall d :: d in ds <==> d == ds[0] || d in ds[1..];
    }
  }

  /** Finishing x removes every occurrence of x from the pending entries. */
  lemma {:induction false} PendingAdd(ds: seq<string>, done: seq<string>, x: string)
    requires x !in done
    ensures Pending(ds, done + [x]) == Pending(ds, done) - multiset(ds)[x]
  {
    if ds != [] {
      PendingAdd(ds[1..], done, x);
      assert ds == [ds[0]] + ds[1..];
    }
  }

  /** Kahn's loop between two iterations: each component of R is in the
    * output or the queue at most once, its in-degree counts its dependencies
    * not yet output, and it is in the output or the queue exactly when that
    * count is 0. */
  ghost predicate KahnState(g: Graph, R: set<string>, indeg: map<string, int>, order: seq<string>, queue: seq<string>) {
    indeg.Keys == R && NoDups(order + queue) && (forall x :: x in order + queue ==> x in R) &&
    (forall c {:trigger indeg[c]} :: c in R ==> indeg[c] == Pending(Deps(g, c), order)) &&
    (forall c {:trigger indeg[c]} :: c in R ==> (c in order + queue <==> indeg[c] == 0))
  }

  /** Kahn's inner loop after the first j dependents of node: node is output,
    * and each dependent seen so far has lost one count per time it was seen. */
  ghost predicate RelaxState(g: Graph, R: set<string>, order: seq<string>, node: string, seen: seq<string>,
                             indeg: map<string, int>, queue: seq<string>) {
    indeg.Keys == R && node in R && node !in order &&
    NoDups(order + [node] + queue) && (forall x :: x in order + [node] + queue ==> x in R) &&
    (forall c {:trigger indeg[c]} :: c in R ==> indeg[c] == Pending(Deps(g, c), order) - multiset(seen)[c]) &&
    (forall c {:trigger indeg[c]} :: c in R ==> (c in order + [node] + queue <==> indeg[c] == 0))
  }

  /** Taking the head of the queue starts the inner loop. */
  lemma PopNode(g: Graph, R: set<string>, indeg: map<string, int>, order: seq<string>, queue: seq<string>)
    requires KahnState(g, R, indeg, order, queue) && queue != []
    ensures RelaxState(g, R, order, queue[0], [], indeg, queue[1..])
  {
    assert order + queue == order + [queue[0]] + queue[1..];
    assert multiset(order + queue)[queue[0]] == multiset(order)[queue[0]] + multiset(queue)[queue[0]];
  }

  /** A dependent c of node not yet seen as often as it names node still
    * has a positive in-degree. */
  lemma StillPending(g: Graph, order: seq<string>, node: string, nbrs: seq<string>, j: nat, pending: int)
    requires node !in order && j < |nbrs|
    requires multiset(nbrs)[nbrs[j]] == multiset(Deps(g, nbrs[j]))[node]
    requires pending == Pending(Deps(g, nbrs[j]), order) - multiset(nbrs[..j])[nbrs[j]]
    ensures pending > 0
  {
    var c := nbrs[j];
    assert nbrs == nbrs[..j] + [c] + nbrs[j + 1..];
    PendingAdd(Deps(g, c), order, node);
  }

  /** Decrementing the dependent c keeps each in-degree equal to the pending
    * count less the number of times the component has been seen. */
  lemma CountStep(g: Graph, R: set<string>, order: seq<string>, seen: seq<string>, c: string, seen': seq<string>,
                  indeg: map<string, int>, indeg': map<string, int>)
    requires c in indeg && indeg.Keys == R && seen' == seen + [c]
    requires forall x {:trigger indeg[x]} :: x in R ==> indeg[x] == Pending(Deps(g, x), order) - multiset(seen)[x]
    requires indeg' == indeg[c := indeg[c] - 1]
    ensures indeg'.Keys == R
    ensures forall x {:trigger indeg'[x]} :: x in R ==> indeg'[x] == Pending(Deps(g, x), order) - multiset(seen')[x]
  {
  }

  /** The dependents listed for a component of R are in R. */
  lemma DependentInside(g: Graph, R: set<string>, adj: map<string, seq<string>>, node: string, j: nat)
    requires Edges(g, R, adj) && node in R && j < |adj[node]|
    ensures adj[node][j] in R && multiset(adj[node])[adj[node][j]] == multiset(Deps(g, adj[node][j]))[node]
  {
  }

  /** Enqueueing c exactly when its in-degree reaches 0 keeps each component
    * in the output or queue once, exactly when its in-degree is 0. */
  lemma QueueStep(R: set<string>, front: seq<string>, c: string, indeg: map<string, int>, indeg': map<string, int>,
                  queue: seq<string>, queue': seq<string>)
    requires indeg.Keys == R && c in R && indeg[c] > 0
    requires NoDups(front + queue) && forall x :: x in front + queue ==> x in R
    requires forall x {:trigger indeg[x]} :: x in R ==> (x in front + queue <==> indeg[x] == 0)
    requires indeg' == indeg[c := indeg[c] - 1]
    requires queue' == if indeg'[c] == 0 then queue + [c] else queue
    ensures NoDups(front + queue') && forall x :: x in front + queue' ==> x in R
    ensures forall x {:trigger indeg'[x]} :: x in R ==> (x in front + queue' <==> indeg'[x] == 0)
  {
    assert c !in front + queue;
    assert (front + queue) + [c] == front + (queue + [c]);
  }

  /** One step of the inner loop keeps its state. */
  lemma RelaxStep(g: Graph, R: set<string>, adj: map<string, seq<string>>, order: seq<string>, node: string,
                  j: nat, indeg: map<string, int>, queue: seq<string>,
                  indeg': map<string, int>, queue': seq<string>)
    requires Edges(g, R, adj) && node in R && j < |adj[node]|
    requires RelaxState(g, R, order, node, adj[node][..j], indeg, queue)
    requires adj[node][j] in indeg && indeg' == indeg[adj[node][j] := indeg[adj[node][j]] - 1]
    requires queue' == if indeg'[adj[node][j]] == 0 then queue + [adj[node][j]] else queue
    ensures RelaxState(g, R, order, node, adj[node][..j + 1], indeg', queue')
  {
    var nbrs := adj[node];
    var c := nbrs[j];
    DependentInside(g, R, adj, node, j);
    StillPending(g, order, node, nbrs, j, indeg[c]);
    SliceNext(nbrs, j);
    CountStep(g, R, order, nbrs[..j], c, nbrs[..j + 1], indeg, indeg');
    QueueStep(R, order + [node], c, indeg, indeg', queue, queue');
  }

  /** After all dependents of node, node counts as output. */
  lemma RelaxDone(g: Graph, R: set<string>, adj: map<string, seq<string>>, order: seq<string>, node: string,
                  indeg: map<string, int>, queue: seq<string>)
    requires Edges(g, R, adj) && node in R
    requires RelaxState(g, R, order, node, adj[node], indeg, queue)
    ensures KahnState(g, R, indeg, order + [node], queue)
  {
    assert order + [node] + queue == (order + [node]) + queue;
    forall c | c in R
      ensures indeg[c] == Pending(Deps(g, c), order + [node])
    {
      PendingAdd(Deps(g, c), order, node);
    }
  }

  /** One pass of Kahn's inner loop: the j-th dependent of node loses one
    * count, and joins the queue when its count reaches 0. */
  method Release(ghost g: Graph, ghost R: set<string>, adj: map<string, seq<string>>, node: string, j: nat,
                 indeg: map<string, int>, queue: seq<string>, ghost order: seq<string>)
    returns (indeg': map<string, int>, queue': seq<string>)
    requires Edges(g, R, adj) && node in R && j < |adj[node]|
    requires RelaxState(g, R, order, node, adj[node][..j], indeg, queue)
    ensures RelaxState(g, R, order, node, adj[node][..j + 1], indeg', queue')
  {
    var c := adj[node][j];
    DependentInside(g, R, adj, node, j);
    indeg' := indeg[c := indeg[c] - 1];
    queue' := queue;
    if indeg'[c] == 0 {
      queue' := queue + [c];
    }
    RelaxStep(g, R, adj, order, node, j, indeg, queue, indeg', queue');
  }

  /** Kahn's inner loop over the dependents of node: each loses one count per
    * edge, and one whose count reaches 0 joins the queue. */
  method Relax(ghost g: Graph, ghost R: set<string>, adj: map<string, seq<string>>, node: string,
               indeg: map<string, int>, queue: seq<string>, ghost order: seq<string>)
    returns (indeg': map<string, int>, queue': seq<string>)
    requires Edges(g, R, adj) && node in R
    requires RelaxState(g, R, order, node, [], indeg, queue)
    ensures KahnState(g, R, indeg', order + [node], queue')
  {
    indeg', queue' := indeg, queue;
    for j := 0 to |adj[node]|
      invariant RelaxState(g, R, order, node, adj[node][..j], indeg', queue')
    {
      indeg', queue' := Release(g, R, adj, node, j, indeg', queue', order);
    }
    SliceAll(adj[node]);
    RelaxDone(g, R, adj, order, node, indeg', queue');
  }

  /** Every dependency of an output component is output before it. */
  ghost predicate Precedes(g: Graph, order: seq<string>) {
    forall i, d :: 0 <= i < |order| && d in Deps(g, order[i]) ==> d in order[..i]
  }

  /** A sequence free of repeats, drawn from R, is no longer than R has members. */
  lemma {:induction false} NoDupsCard(s: seq<string>, R: set<string>)
    requires NoDups(s) && forall x :: x in s ==> x in R
    ensures |s| <= |R|
  {
    if s != [] {
      var pre, c := s[..|s| - 1], s[|s| - 1];
      assert s == pre + [c];
      NoDupsLast(s);
      NoDupsCard(pre, R - {c});
    }
  }

  /** The head of the queue has all its dependencies output already. */
  lemma PrecedeNext(g: Graph, R: set<string>, indeg: map<string, int>, order: seq<string>, queue: seq<string>)
    requires KahnState(g, R, indeg, order, queue) && queue != [] && Precedes(g, order)
    ensures Precedes(g, order + [queue[0]])
  {
    var node := queue[0];
    assert node in order + queue;
    assert indeg[node] == 0;
    PendingZero(Deps(g, node), order);
    var o := order + [node];
    forall i, d | 0 <= i < |o| && d in Deps(g, o[i])
      ensures d in o[..i]
    {
      if i < |order| {
        assert o[..i] == order[..i];
      } else {
        assert o[..i] == order;
      }
    }
  }

  /** Step 3 of `dependencyResolver`, Kahn's loop: output the head of the
    * queue, then relax its dependents. The output repeats nothing, lists
    * every dependency before its dependents, and each component left out
    * still has a dependency that was not output. */
  method Kahn(ghost g: Graph, ghost R: set<string>, adj: map<string, seq<string>>,
              indeg: map<string, int>, queue: seq<string>)
    returns (order: seq<string>)
    requires Edges(g, R, adj) && KahnState(g, R, indeg, [], queue)
    ensures NoDups(order) && forall x :: x in order ==> x in R
    ensures Precedes(g, order)
    ensures forall c {:trigger Pending(Deps(g, c), order)} :: c in R && c !in order ==> Pending(Deps(g, c), order) > 0
  {
    order := [];
    var deg, q := indeg, queue;
    while q != []
      invariant KahnState(g, R, deg, order, q) && Precedes(g, order)
      decreases |R| - |order|
    {
      NoDupsCard(order + q, R);
      var node := q[0];
      PopNode(g, R, deg, order, q);
      PrecedeNext(g, R, deg, order, q);
      q := q[1..];
      ghost var before := order;
      order := order + [node];
      deg, q := Relax(g, R, adj, node, deg, q, before);
    }
    assert order + q == order;
    forall c | c in R && c !in order
      ensures Pending(Deps(g, c), order) > 0
    {
      assert deg[c] != 0;
    }
    forall x
      ensures multiset(order)[x] <= 1
    {
      assert multiset(order + q)[x] <= 1;
    }
  }

  /** Nothing is done yet: every entry is pending. */
  lemma {:induction false} PendingNone(ds: seq<string>)
    ensures Pending(ds, []) == |ds|
  {
    if ds != [] {
      PendingNone(ds[1..]);
    }
  }

  /** The state Kahn's loop starts from. */
  lemma KahnStart(g: Graph, R: set<string>, indeg: map<string, int>, queue: seq<string>)
    requires indeg.Keys == R && forall c :: c in R ==> indeg[c] == |Deps(g, c)|
    requires NoDups(queue) && forall c :: c in queue <==> c in R && indeg[c] == 0
    ensures KahnState(g, R, indeg, [], queue)
  {
    assert [] + queue == queue;
    forall c | c in R
      ensures indeg[c] == Pending(Deps(g, c), [])
    {
      PendingNone(Deps(g, c));
    }
  }

  /** A sequence shorter than R misses a member of R. */
  lemma {:induction false} Missing(s: seq<string>, R: set<string>) returns (c: string)
    requires |s| < |R|
    ensures c in R && c !in s
  {
    if s == [] {
      assert R != {};
      c :| c in R;
    } else {
      var pre, last := s[..|s| - 1], s[|s| - 1];
      assert s == pre + [last];
      c := Missing(pre, R - {last});
    }
  }

  /** A repeat-free sequence drawn from R, as long as R, lists all of R. */
  lemma {:induction false} Covers(s: seq<string>, R: set<string>)
    requires NoDups(s) && (forall x :: x in s ==> x in R) && |s| == |R|
    ensures forall x :: x in R ==> x in s
  {
    if s != [] {
      var pre, c := s[..|s| - 1], s[|s| - 1];
      assert s == pre + [c];
      NoDupsLast(s);
      Covers(pre, R - {c});
    }
  }

  /** The first entry of ds not yet in done. */
  ghost function FirstPending(ds: seq<string>, done: seq<string>): (d: string)
    requires Pending(ds, done) > 0
    ensures d in ds && d !in done
  {
    if ds[0] !in done then ds[0] else FirstPending(ds[1..], done)
  }

  /** Walking from c, always to the first dependency not yet output, stays
    * among the components of R left out of order for n steps. */
  lemma {:induction false} Walk(g: Graph, R: set<string>, order: seq<string>, c: string, n: nat) returns (p: seq<string>)
    requires Closed(g, R) && c in R && c !in order
    requires forall x {:trigger Pending(Deps(g, x), order)} :: x in R && x !in order ==> Pending(Deps(g, x), order) > 0
    ensures IsPath(g, p) && |p| == n + 1 && p[0] == c
    ensures forall k :: 0 <= k < |p| ==> p[k] in R && p[k] !in order
  {
    if n == 0 {
      p := [c];
    } else {
      var q := Walk(g, R, order, c, n - 1);
      var x := q[|q| - 1];
      assert Pending(Deps(g, x), order) > 0;
      var d := FirstPending(Deps(g, x), order);
      p := q + [d];
      assert forall k :: 0 <= k < |q| ==> p[k] == q[k];
    }
  }

  /** A sequence longer than U drawn from U repeats an entry. */
  lemma {:induction false} Repeat(s: seq<string>, U: set<string>) returns (i: nat, j: nat)
    requires |s| > |U| && forall k :: 0 <= k < |s| ==> s[k] in U
    ensures i < j < |s| && s[i] == s[j]
  {
    var pre, c := s[..|s| - 1], s[|s| - 1];
    if c in pre {
      i :| 0 <= i < |pre| && pre[i] == c;
      j := |s| - 1;
    } else {
      assert forall k :: 0 <= k < |pre| ==> pre[k] == s[k];
      i, j := Repeat(pre, U - {c});
    }
  }

  /** When Kahn's loop stops early, the dependencies of pkg hold a cycle. */
  lemma StuckCycle(g: Graph, pkg: string, R: set<string>, order: seq<string>, c: string)
    requires Closed(g, R) && forall n :: n in R <==> Reaches(g, pkg, n)
    requires c in R && c !in order
    requires forall x {:trigger Pending(Deps(g, x), order)} :: x in R && x !in order ==> Pending(Deps(g, x), order) > 0
    ensures CycleFrom(g, pkg)
  {
    var U := set x | x in R && x !in order;
    var p := Walk(g, R, order, c, |U|);
    var i, j := Repeat(p, U);
    assert p[i] in R;
    CycleFound(g, pkg, p, i, j);
  }

  /** A path that comes back to a component pkg reaches is a cycle. */
  lemma CycleFound(g: Graph, pkg: string, p: seq<string>, i: nat, j: nat)
    requires IsPath(g, p) && i < j < |p| && p[i] == p[j] && Reaches(g, pkg, p[i])
    ensures CycleFrom(g, pkg)
  {
    var cycle := p[i..j + 1];
    forall k | 0 <= k < |cycle| - 1
      ensures cycle[k + 1] in Deps(g, cycle[k])
    {
      assert cycle[k] == p[i + k] && cycle[k + 1] == p[i + k + 1];
    }
    assert CycleBelow(g, pkg, cycle);
  }

  /** Where x first occurs in s. */
  ghost function IndexOf(s: seq<string>, x: string): (i: nat)
    requires x in s
    ensures i < |s| && s[i] == x
  {
    if s[0] == x then 0 else 1 + IndexOf(s[1..], x)
  }

  /** In a sequence free of repeats, equal entries sit at the same index. */
  lemma NoDupsIndex(s: seq<string>, i: nat, j: nat)
    requires NoDups(s) && i < j < |s|
    ensures s[i] != s[j]
  {
    assert s == s[..j] + [s[j]] + s[j + 1..];
    assert s[i] in s[..j];
    assert multiset(s)[s[j]] == multiset(s[..j])[s[j]] + 1 + multiset(s[j + 1..])[s[j]];
  }

  /** Along a path inside a repeat-free order that lists dependencies first,
    * each step moves to a strictly earlier index. */
  lemma {:induction false} Descend(g: Graph, order: seq<string>, p: seq<string>)
    requires NoDups(order) && Precedes(g, order) && IsPath(g, p)
    requires forall k :: 0 <= k < |p| ==> p[k] in order
    ensures IndexOf(order, p[|p| - 1]) + |p| - 1 <= IndexOf(order, p[0])
  {
    if |p| > 1 {
      var q := p[..|p| - 1];
      assert IsPath(g, q);
      Descend(g, order, q);
      var a, b := p[|p| - 2], p[|p| - 1];
      var i := IndexOf(order, a);
      assert b in Deps(g, order[i]);
      var k :| 0 <= k < i && order[k] == b;
      var m := IndexOf(order, b);
      if k < m {
        NoDupsIndex(order, k, m);
      } else if m < k {
        NoDupsIndex(order, m, k);
      }
    }
  }

  /** An order listing all of R, dependencies first, leaves no cycle among
    * the dependencies of pkg. */
  lemma NoCycle(g: Graph, pkg: string, R: set<string>, order: seq<string>)
    requires Closed(g, R) && forall n :: Reaches(g, pkg, n) ==> n in R
    requires NoDups(order) && Precedes(g, order) && forall x :: x in R ==> x in order
    ensures !CycleFrom(g, pkg)
  {
    forall p
      ensures !CycleBelow(g, pkg, p)
    {
      if IsPath(g, p) && |p| >= 2 && Reaches(g, pkg, p[0]) {
        ClosedPath(g, R, p);
        Descend(g, order, p);
      }
    }
  }

  /** Dependencies first, stated on indices. */
  lemma PrecedesIndices(g: Graph, order: seq<string>)
    requires NoDups(order) && Precedes(g, order)
    ensures forall i, j :: 0 <= i < |order| && 0 <= j < |order| && order[j] in Deps(g, order[i]) ==> j < i
  {
    forall i, j | 0 <= i < |order| && 0 <= j < |order| && order[j] in Deps(g, order[i])
      ensures j < i
    {
      var k :| 0 <= k < i && order[k] == order[j];
      if k < j {
        NoDupsIndex(order, k, j);
      } else if j < k {
        NoDupsIndex(order, j, k);
      }
    }
  }

  /** `dependencyResolver`: the build order of pkg. Unless its dependencies
    * hold a cycle, it lists each component pkg reaches exactly once, each
    * after all of its dependencies; with a cycle it throws. */
  method DependencyResolver(g: Graph, pkg: string) returns (r: Result<seq<string>>)
    ensures r.Err? <==> CycleFrom(g, pkg)
    ensures r.Err? ==> r.error == RuntimeException
    ensures r.Ok? ==> forall n :: multiset(r.value)[n] == if Reaches(g, pkg, n) then 1 else 0
    ensures r.Ok? ==> forall i, j :: 0 <= i < |r.value| && 0 <= j < |r.value| && r.value[j] in Deps(g, r.value[i]) ==> j < i
  {
    var reachable := Discover(g, pkg);
    var adj, indeg := BuildGraph(g, reachable);
    var queue := InitQueue(reachable, indeg);
    KahnStart(g, reachable, indeg, queue);
    var order := Kahn(g, reachable, adj, indeg, queue);
    if |order| != |reachable| {
      NoDupsCard(order, reachable);
      var c := Missing(order, reachable);
      StuckCycle(g, pkg, reachable, order, c);
      return Err(RuntimeException);
    }
    Covers(order, reachable);
    NoCycle(g, pkg, reachable, order);
    PrecedesIndices(g, order);
    forall n
      ensures multiset(order)[n] == if Reaches(g, pkg, n) then 1 else 0
    {
      assert multiset(order)[n] <= 1;
      assert n in order <==> Reaches(g, pkg, n);
    }
    return Ok(order);
  }

  /** The graph of the `main` example. */
  function MainGraph(): Graph {
    map["Service" := ["Adapters", "Core", "Utils"], "Adapters" := ["Interfaces"], "Core" := ["Types"],
        "Utils" := [], "Interfaces" := [], "Types" := []]
  }

  /** The components of the sample graph. */
  function MainComponents(): set<string> {
    {"Service", "Adapters", "Core", "Utils", "Interfaces", "Types"}
  }

  /** Everything "Service" reaches is a component of the sample. */
  lemma MainBelow()
    ensures Closed(MainGraph(), MainComponents())
    ensures forall n :: Reaches(MainGraph(), "Service", n) ==> n in MainComponents()
  {
    var g, R := MainGraph(), MainComponents();
    assert Closed(g, R);
    forall n | Reaches(g, "Service", n)
      ensures n in R
    {
      ClosedReach(g, R, "Service", n);
    }
  }

  /** A path reaches from its first entry to its last. */
  lemma PathReaches(g: Graph, p: seq<string>)
    requires IsPath(g, p)
    ensures Reaches(g, p[0], p[|p| - 1])
  {
  }

  /** The dependencies the sample lists. */
  lemma MainDeps()
    ensures Deps(MainGraph(), "Service") == ["Adapters", "Core", "Utils"]
    ensures Deps(MainGraph(), "Adapters") == ["Interfaces"]
    ensures Deps(MainGraph(), "Core") == ["Types"]
  {
  }

  /** "Service" reaches each component of the sample. */
  lemma MainAbove()
    ensures Reaches(MainGraph(), "Service", "Service") && Reaches(MainGraph(), "Service", "Utils")
    ensures Reaches(MainGraph(), "Service", "Adapters") && Reaches(MainGraph(), "Service", "Interfaces")
    ensures Reaches(MainGraph(), "Service", "Core") && Reaches(MainGraph(), "Service", "Types")
  {
    var g := MainGraph();
    MainDeps();
    ReachSelf(g, "Service");
    ReachSelf(g, "Utils");
    ReachStep(g, "Service", "Utils", "Utils");
    ReachSelf(g, "Interfaces");
    ReachStep(g, "Adapters", "Interfaces", "Interfaces");
    ReachStep(g, "Service", "Adapters", "Interfaces");
    ReachSelf(g, "Types");
    ReachStep(g, "Core", "Types", "Types");
    ReachStep(g, "Service", "Core", "Types");
    ReachSelf(g, "Adapters");
    ReachStep(g, "Service", "Adapters", "Adapters");
    ReachSelf(g, "Core");
    ReachStep(g, "Service", "Core", "Core");
  }

  /** The sample graph has no cycle below "Service". */
  lemma MainAcyclic()
    ensures !CycleFrom(MainGraph(), "Service")
  {
    MainBelow();
    MainOrderRepeatFree();
    MainOrderPrecedes();
    NoCycle(MainGraph(), "Service", MainComponents(), MainOrder());
  }

  /** A build order of the sample graph. */
  function MainOrder(): seq<string> {
    ["Interfaces", "Adapters", "Types", "Core", "Utils", "Service"]
  }

  lemma MainOrderRepeatFree()
    ensures NoDups(MainOrder())
  {
    assert multiset(MainOrder()) == multiset{"Interfaces", "Adapters", "Types", "Core", "Utils", "Service"};
  }

  lemma MainOrderPrecedes()
    ensures Precedes(MainGraph(), MainOrder())
  {
    var g, order := MainGraph(), MainOrder();
    forall i, d | 0 <= i < |order| && d in Deps(g, order[i])
      ensures d in order[..i]
    {
      if i == 1 {
        assert d == "Interfaces" && order[0] == d;
      } else if i == 3 {
        assert d == "Types" && order[2] == d;
      } else if i == 5 {
        assert d in ["Adapters", "Core", "Utils"];
        assert order[1] == "Adapters" && order[3] == "Core" && order[4] == "Utils";
      }
    }
  }

  /** Resolving "Service" in the sample graph succeeds: it lists each
    * of the six components once, "Interfaces" ahead of "Adapters" and
    * "Types" ahead of "Core". */
  method MainExample() returns (order: seq<string>)
    ensures forall n :: multiset(order)[n] == if n in MainComponents() then 1 else 0
    ensures forall i, j :: 0 <= i < |order| && 0 <= j < |order| && order[i] == "Adapters" && order[j] == "Interfaces" ==> j < i
    ensures forall i, j :: 0 <= i < |order| && 0 <= j < |order| && order[i] == "Core" && order[j] == "Types" ==> j < i
  {
    MainAcyclic();
    MainBelow();
    MainAbove();
    var r := DependencyResolver(MainGraph(), "Service");
    order := r.value;
  }
}
