/** Closest common group when groups form a directed acyclic graph: a group
  * may have several parents. The ancestors of a group are the group and
  * the ancestors of each of its parents, its depth is the length of the
  * longest parent path up to a root, and both are memoised. */
module EmployeeDag {
  import opened Wrappers
  import opened IntSets
  import opened GroupQueries

  /** A registered group with its parent and child links. */
  datatype Group = Group(parents: set<string>, children: set<string>)

  /** Every link joins two registered groups and is recorded at both ends. */
  ghost predicate Linked(groups: map<string, Group>) {
    (forall c, p :: c in groups && p in groups[c].parents ==> p in groups && c in groups[p].children)
    && (forall p, c :: p in groups && c in groups[p].children ==> c in groups && p in groups[c].parents)
  }

  /** rank witnesses that the parent links have no cycle: every parent is
    * registered and ranked below its child. */
  ghost predicate Ranked(groups: map<string, Group>, rank: map<string, nat>) {
    forall g :: g in groups ==> (g in rank
      && forall p :: p in groups[g].parents ==> p in groups && p in rank && rank[p] < rank[g])
  }

  /** a is g or an ancestor of one of g's parents. */
  ghost predicate IsAnc(groups: map<string, Group>, rank: map<string, nat>, a: string, g: string)
    requires Ranked(groups, rank) && g in groups
    decreases rank[g]
  {
    a == g || exists p :: p in groups[g].parents && IsAnc(groups, rank, a, p)
  }

  /** The ancestors of g, g itself included. */
  ghost function AncSet(groups: map<string, Group>, rank: map<string, nat>, g: string): set<string>
    requires Ranked(groups, rank) && g in groups
  {
    set a | a in groups && IsAnc(groups, rank, a, g)
  }

  /** Every ancestor is registered. */
  lemma {:induction false} AncRegistered(groups: map<string, Group>, rank: map<string, nat>, a: string, g: string)
    requires Ranked(groups, rank) && g in groups && IsAnc(groups, rank, a, g)
    ensures a in groups
    decreases rank[g]
  {
    if a != g {
      var p :| p in groups[g].parents && IsAnc(groups, rank, a, p);
      AncRegistered(groups, rank, a, p);
    }
  }

  /** The ancestors of g are g and the ancestors of each parent. */
  lemma AncUnfold(groups: map<string, Group>, rank: map<string, nat>, g: string)
    requires Ranked(groups, rank) && g in groups
    ensures forall a :: a in AncSet(groups, rank, g) <==>
      a == g || exists p :: p in groups[g].parents && a in AncSet(groups, rank, p)
  {
    forall a
      ensures a in AncSet(groups, rank, g) <==>
        a == g || exists p :: p in groups[g].parents && a in AncSet(groups, rank, p)
    {
      if a in AncSet(groups, rank, g) && a != g {
        var p :| p in groups[g].parents && IsAnc(groups, rank, a, p);
        assert a in AncSet(groups, rank, p);
      }
      if exists p :: p in groups[g].parents && a in AncSet(groups, rank, p) {
        var p :| p in groups[g].parents && a in AncSet(groups, rank, p);
        assert IsAnc(groups, rank, a, g);
      }
    }
  }

  function Max(a: int, b: int): int {
    if a >= b then a else b
  }

  /** The length of the longest parent path from g up to a root. */
  ghost function Depth(groups: map<string, Group>, rank: map<string, nat>, g: string): nat
    requires Ranked(groups, rank) && g in groups
    decreases rank[g], 1
  {
    MaxDepthOver(groups, rank, g, groups[g].parents)
  }

  /** The longest path through one of the parents ps of g; 0 for none. */
  ghost function MaxDepthOver(groups: map<string, Group>, rank: map<string, nat>, g: string, ps: set<string>): nat
    requires Ranked(groups, rank) && g in groups && ps <= groups[g].parents
    decreases rank[g], 0, ps
  {
    if ps == {} then 0
    else
      var p :| p in ps;
      Max(1 + Depth(groups, rank, p), MaxDepthOver(groups, rank, g, ps - {p}))
  }

  /** The longest path through ps is at least one more than the depth of
    * each of them, and equal to that for one of them. */
  lemma {:induction false} MaxDepthOverSpec(groups: map<string, Group>, rank: map<string, nat>, g: string, ps: set<string>)
    requires Ranked(groups, rank) && g in groups && ps <= groups[g].parents
    ensures forall p :: p in ps ==> MaxDepthOver(groups, rank, g, ps) >= 1 + Depth(groups, rank, p)
    ensures ps == {} ==> MaxDepthOver(groups, rank, g, ps) == 0
    ensures ps != {} ==> exists p :: p in ps && MaxDepthOver(groups, rank, g, ps) == 1 + Depth(groups, rank, p)
    decreases ps
  {
    if ps != {} {
      var p :| p in ps && MaxDepthOver(groups, rank, g, ps) ==
        Max(1 + Depth(groups, rank, p), MaxDepthOver(groups, rank, g, ps - {p}));
      var m, rest := MaxDepthOver(groups, rank, g, ps), MaxDepthOver(groups, rank, g, ps - {p});
      var dp := 1 + Depth(groups, rank, p);
      assert m == Max(dp, rest);
      MaxDepthOverSpec(groups, rank, g, ps - {p});
      assert forall q :: q in ps ==> q == p || q in ps - {p};
      if rest > dp {
        assert ps - {p} != {};
        var q :| q in ps - {p} && rest == 1 + Depth(groups, rank, q);
        assert q in ps && m == 1 + Depth(groups, rank, q);
      } else {
        assert m == dp;
      }
    }
  }

  /** Roots have depth 0; otherwise the depth is one more than the deepest
    * parent. */
  lemma DepthSpec(groups: map<string, Group>, rank: map<string, nat>, g: string)
    requires Ranked(groups, rank) && g in groups
    ensures groups[g].parents == {} ==> Depth(groups, rank, g) == 0
    ensures forall p :: p in groups[g].parents ==> Depth(groups, rank, g) >= 1 + Depth(groups, rank, p)
    ensures groups[g].parents != {} ==>
      exists p :: p in groups[g].parents && Depth(groups, rank, g) == 1 + Depth(groups, rank, p)
  {
    MaxDepthOverSpec(groups, rank, g, groups[g].parents);
  }

  /** Any value that is at least one more than every parent's depth and is
    * attained by a parent (or is 0 for a root) is the depth. */
  lemma DepthUnique(groups: map<string, Group>, rank: map<string, nat>, g: string, d: int)
    requires Ranked(groups, rank) && g in groups
    requires forall p :: p in groups[g].parents ==> d >= 1 + Depth(groups, rank, p)
    requires groups[g].parents == {} ==> d == 0
    requires groups[g].parents != {} ==> exists p :: p in groups[g].parents && d == 1 + Depth(groups, rank, p)
    ensures d == Depth(groups, rank, g)
  {
    DepthSpec(groups, rank, g);
    if groups[g].parents != {} {
      var p :| p in groups[g].parents && Depth(groups, rank, g) == 1 + Depth(groups, rank, p);
      var q :| q in groups[g].parents && d == 1 + Depth(groups, rank, q);
    }
  }

  /** Every memoised ancestor set is right. */
  ghost predicate AncSound(groups: map<string, Group>, rank: map<string, nat>, memo: map<string, set<string>>)
    requires Ranked(groups, rank)
  {
    forall k :: k in memo ==> k in groups && memo[k] == AncSet(groups, rank, k)
  }

  /** Every memoised depth is right. */
  ghost predicate DepthSound(groups: map<string, Group>, rank: map<string, nat>, memo: map<string, int>)
    requires Ranked(groups, rank)
  {
    forall k :: k in memo ==> k in groups && memo[k] == Depth(groups, rank, k)
  }

  /** `computeAncestors`: the memoised set, or gid together with the
    * ancestors of each parent, memoised on the way. */
  method ComputeAncestors(groups: map<string, Group>, memo: map<string, set<string>>, gid: string, ghost rank: map<string, nat>)
    returns (res: set<string>, memo': map<string, set<string>>)
    requires Ranked(groups, rank) && gid in groups && AncSound(groups, rank, memo)
    ensures res == AncSet(groups, rank, gid)
    ensures AncSound(groups, rank, memo') && gid in memo'
    ensures forall k :: k in memo ==> k in memo'
    decreases rank[gid]
  {
    if gid in memo {
      return memo[gid], memo;
    }
    res := {gid};
    memo' := memo;
    var ps := groups[gid].parents;
    var rest := ps;
    while rest != {}
      invariant rest <= ps
      invariant AncSound(groups, rank, memo') && forall k :: k in memo ==> k in memo'
      invariant forall x :: x in res <==>
        x == gid || exists q :: q in ps && q !in rest && x in AncSet(groups, rank, q)
      decreases rest
    {
      ghost var w := Element(rest);
      var p :| p in rest;
      var a;
      a, memo' := ComputeAncestors(groups, memo', p, rank);
      res := res + a;
      rest := rest - {p};
    }
    AncUnfold(groups, rank, gid);
    memo' := memo'[gid := res];
  }

  /** `computeDepth`: the memoised depth, or the longest of one plus each
    * parent's depth (0 for a root), memoised on the way. */
  method ComputeDepth(groups: map<string, Group>, memo: map<string, int>, gid: string, ghost rank: map<string, nat>)
    returns (best: int, memo': map<string, int>)
    requires Ranked(groups, rank) && gid in groups && DepthSound(groups, rank, memo)
    ensures best == Depth(groups, rank, gid)
    ensures DepthSound(groups, rank, memo') && gid in memo'
    ensures forall k :: k in memo ==> k in memo'
    decreases rank[gid]
  {
    if gid in memo {
      return memo[gid], memo;
    }
    best := 0;
    memo' := memo;
    var ps := groups[gid].parents;
    var rest := ps;
    while rest != {}
      invariant rest <= ps
      invariant DepthSound(groups, rank, memo') && forall k :: k in memo ==> k in memo'
      invariant forall q :: q in ps && q !in rest ==> best >= 1 + Depth(groups, rank, q)
      invariant best == 0 || exists q :: q in ps && q !in rest && best == 1 + Depth(groups, rank, q)
      invariant rest == ps ==> best == 0
      decreases rest
    {
      ghost var w := Element(rest);
      var p :| p in rest;
      var d;
      d, memo' := ComputeDepth(groups, memo', p, rank);
      best := Max(best, 1 + d);
      rest := rest - {p};
    }
    DepthUnique(groups, rank, gid, best);
    memo' := memo'[gid := best];
  }

  /** The first loop of `buildMemo`: the ancestors of every group. */
  method MemoiseAncestors(groups: map<string, Group>, memo: map<string, set<string>>, ghost rank: map<string, nat>)
    returns (memo': map<string, set<string>>)
    requires Ranked(groups, rank) && AncSound(groups, rank, memo)
    ensures AncSound(groups, rank, memo')
    ensures forall g :: g in memo' <==> g in memo || g in groups
  {
    var todo := groups.Keys;
    memo' := memo;
    while todo != {}
      invariant todo <= groups.Keys && AncSound(groups, rank, memo')
      invariant forall g :: g in memo' ==> g in memo || g in groups
      invariant forall g :: g in memo || (g in groups && g !in todo) ==> g in memo'
      decreases todo
    {
      ghost var w := Element(todo);
      var g :| g in todo;
      var _, m := ComputeAncestors(groups, memo', g, rank);
      memo' := m;
      todo := todo - {g};
    }
  }

  /** The second loop of `buildMemo`: the depth of every group. */
  method MemoiseDepths(groups: map<string, Group>, memo: map<string, int>, ghost rank: map<string, nat>)
    returns (memo': map<string, int>)
    requires Ranked(groups, rank) && DepthSound(groups, rank, memo)
    ensures DepthSound(groups, rank, memo')
    ensures forall g :: g in memo' <==> g in memo || g in groups
  {
    var todo := groups.Keys;
    memo' := memo;
    while todo != {}
      invariant todo <= groups.Keys && DepthSound(groups, rank, memo')
      invariant forall g :: g in memo' ==> g in memo || g in groups
      invariant forall g :: g in memo || (g in groups && g !in todo) ==> g in memo'
      decreases todo
    {
      ghost var w := Element(todo);
      var g :| g in todo;
      var d, m := ComputeDepth(groups, memo', g, rank);
      memo' := m[g := d];
      todo := todo - {g};
    }
  }

  /** `depthMemo.getOrDefault(c, 0)` for each candidate. */
  function DepthOrZero(depthMemo: map<string, int>, cands: set<string>): (m: map<string, int>)
    ensures m.Keys == cands
    ensures forall c :: c in cands ==> m[c] == if c in depthMemo then depthMemo[c] else 0
  {
    map c | c in cands :: if c in depthMemo then depthMemo[c] else 0
  }

  /** `putIfAbsent(id, new Group(id))`. */
  function Register(groups: map<string, Group>, id: string): (r: map<string, Group>)
    ensures id in r && r[id] == if id in groups then groups[id] else Group({}, {})
    ensures forall g :: g in r <==> g in groups || g == id
    ensures forall g :: g in groups ==> r[g] == groups[g]
  {
    if id in groups then groups else groups[id := Group({}, {})]
  }

  /** `addParent`: both groups registered, parent added to child's parents
    * and child to parent's children; every link is still recorded at both
    * ends. */
  function AddLink(groups: map<string, Group>, child: string, parent: string): (r: map<string, Group>)
    ensures forall g :: g in r <==> g in groups || g == child || g == parent
    ensures forall c, p :: c in r && p in r[c].parents <==>
      (c in groups && p in groups[c].parents) || (c == child && p == parent)
    ensures forall p, c :: p in r && c in r[p].children <==>
      (p in groups && c in groups[p].children) || (p == parent && c == child)
    ensures forall g :: g in groups && g != child && g != parent ==> r[g] == groups[g]
    ensures Linked(groups) ==> Linked(r)
  {
    Link(Register(Register(groups, child), parent), child, parent)
  }

  /** Records the link at both ends of two registered groups. */
  function Link(groups: map<string, Group>, child: string, parent: string): (r: map<string, Group>)
    requires child in groups && parent in groups
    ensures r.Keys == groups.Keys
    ensures forall c, p :: c in r && p in r[c].parents <==>
      (c in groups && p in groups[c].parents) || (c == child && p == parent)
    ensures forall p, c :: p in r && c in r[p].children <==>
      (p in groups && c in groups[p].children) || (p == parent && c == child)
    ensures forall g :: g in groups && g != child && g != parent ==> r[g] == groups[g]
  {
    var linked := groups[child := groups[child].(parents := groups[child].parents + {parent})];
    linked[parent := linked[parent].(children := linked[parent].children + {child})]
  }

  class Org {
    var groups: map<string, Group>
    var empToGroups: map<string, set<string>>
    var ancestorsMemo: map<string, set<string>>
    var depthMemo: map<string, int>

    ghost predicate Valid()
      reads this
    {
      Linked(groups) && ancestorsMemo.Keys <= groups.Keys && depthMemo.Keys <= groups.Keys
      && forall k :: k in depthMemo ==> depthMemo[k] >= 0
    }

    constructor ()
      ensures Valid() && groups == map[] && empToGroups == map[]
      ensures ancestorsMemo == map[] && depthMemo == map[]
    {
      groups, empToGroups, ancestorsMemo, depthMemo := map[], map[], map[], map[];
    }

    /** Registers a group without links unless its id is already taken. */
    method AddGroup(id: string)
      requires Valid()
      modifies this
      ensures Valid()
      ensures groups == Register(old(groups), id)
      ensures empToGroups == old(empToGroups)
      ensures ancestorsMemo == old(ancestorsMemo) && depthMemo == old(depthMemo)
    {
      groups := Register(groups, id);
    }

    /** Registers both groups and records the link at both ends. */
    method AddParent(child: string, parent: string)
      requires Valid()
      modifies this
      ensures Valid() && groups == AddLink(old(groups), child, parent)
      ensures empToGroups == old(empToGroups)
      ensures ancestorsMemo == old(ancestorsMemo) && depthMemo == old(depthMemo)
    {
      groups := AddLink(groups, child, parent);
    }

    method AddEmployeeToGroup(emp: string, group: string)
      modifies this
      ensures empToGroups == old(empToGroups)[emp := GroupsOf(old(empToGroups), emp) + {group}]
      ensures groups == old(groups)
      ensures ancestorsMemo == old(ancestorsMemo) && depthMemo == old(depthMemo)
    {
      empToGroups := empToGroups[emp := GroupsOf(empToGroups, emp) + {group}];
    }

    /** Memoises the ancestors and then the depth of every group. */
    method BuildMemo(ghost rank: map<string, nat>)
      requires Valid() && Ranked(groups, rank)
      requires AncSound(groups, rank, ancestorsMemo) && DepthSound(groups, rank, depthMemo)
      modifies this
      ensures Valid() && groups == old(groups) && empToGroups == old(empToGroups)
      ensures AncSound(groups, rank, ancestorsMemo) && DepthSound(groups, rank, depthMemo)
      ensures forall g :: g in groups ==> g in ancestorsMemo && g in depthMemo
    {
      ancestorsMemo := MemoiseAncestors(groups, ancestorsMemo, rank);
      depthMemo := MemoiseDepths(groups, depthMemo, rank);
    }

    /** null for no employees or no common ancestor; otherwise the deepest
      * common ancestor (an unmemoised depth counting as 0), ties going to
      * the lexicographically smallest id. */
    method ClosestCommon(employees: set<string>) returns (r: Option<string>)
      requires Valid()
      ensures employees == {} ==> r == None
      ensures r == None <==>
        employees == {} || forall a :: !CommonTo(a, employees, empToGroups, ancestorsMemo)
      ensures r.Some? ==> (
        CommonTo(r.value, employees, empToGroups, ancestorsMemo)
        && forall c :: CommonTo(c, employees, empToGroups, ancestorsMemo) ==>
          Beats(r.value, c, DepthOrZero(depthMemo, {r.value, c})))
    {
      if employees == {} {
        return None;
      }
      var inter := CommonAncestors(employees, empToGroups, ancestorsMemo);
      if inter == {} {
        return None;
      }
      var depth := DepthOrZero(depthMemo, inter);
      var best := PickDeepest(inter, depth);
      forall c | c in inter
        ensures Beats(best, c, DepthOrZero(depthMemo, {best, c}))
      {
        assert Beats(best, c, depth);
      }
      return Some(best);
    }
  }

  /** The parent links of the demo DAG: A under R1 and R2, B under R1, C
    * under A and D under B. */
  predicate DemoEdge(c: string, p: string) {
    (c == "A" && (p == "R1" || p == "R2")) || (c == "B" && p == "R1")
    || (c == "C" && p == "A") || (c == "D" && p == "B")
  }

  ghost predicate DemoDag(groups: map<string, Group>) {
    (forall g :: g in groups <==> g == "R1" || g == "R2" || g == "A" || g == "B" || g == "C" || g == "D")
    && forall c, p :: c in groups && p in groups[c].parents <==> DemoEdge(c, p)
  }

  function DemoRank(): map<string, nat> {
    map["R1" := 0, "R2" := 0, "A" := 1, "B" := 1, "C" := 2, "D" := 2]
  }

  /** A root has only itself as ancestor. */
  lemma AncOfRoot(groups: map<string, Group>, rank: map<string, nat>, g: string)
    requires Ranked(groups, rank) && g in groups && groups[g].parents == {}
    ensures AncSet(groups, rank, g) == {g}
  {
    AncUnfold(groups, rank, g);
  }

  /** A group with one parent has itself and that parent's ancestors. */
  lemma AncOfOneParent(groups: map<string, Group>, rank: map<string, nat>, g: string, p: string)
    requires Ranked(groups, rank) && g in groups && groups[g].parents == {p}
    ensures p in groups && AncSet(groups, rank, g) == {g} + AncSet(groups, rank, p)
  {
    AncUnfold(groups, rank, g);
  }

  /** A group with two parents has itself and both parents' ancestors. */
  lemma AncOfTwoParents(groups: map<string, Group>, rank: map<string, nat>, g: string, p: string, q: string)
    requires Ranked(groups, rank) && g in groups && groups[g].parents == {p, q}
    ensures p in groups && q in groups
    ensures AncSet(groups, rank, g) == {g} + AncSet(groups, rank, p) + AncSet(groups, rank, q)
  {
    AncUnfold(groups, rank, g);
  }

  /** The parent sets of the demo DAG. */
  lemma DemoParents(groups: map<string, Group>)
    requires DemoDag(groups)
    ensures "R1" in groups && "R2" in groups && "A" in groups && "B" in groups && "C" in groups && "D" in groups
    ensures groups["R1"].parents == {} && groups["R2"].parents == {}
    ensures groups["A"].parents == {"R1", "R2"} && groups["B"].parents == {"R1"}
    ensures groups["C"].parents == {"A"} && groups["D"].parents == {"B"}
  {
  }

  /** The demo DAG has no cycle. */
  lemma DemoRanked(groups: map<string, Group>)
    requires DemoDag(groups)
    ensures Ranked(groups, DemoRank())
  {
  }

  /** The ancestors of A and B in the demo DAG. */
  lemma DemoUpperAncestors(groups: map<string, Group>)
    requires DemoDag(groups)
    ensures Ranked(groups, DemoRank()) && "A" in groups && "B" in groups && "C" in groups && "D" in groups
    ensures groups["C"].parents == {"A"} && groups["D"].parents == {"B"}
    ensures AncSet(groups, DemoRank(), "A") == {"A", "R1", "R2"}
    ensures AncSet(groups, DemoRank(), "B") == {"B", "R1"}
  {
    DemoRanked(groups);
    DemoParents(groups);
    DemoRootAncestors(groups, DemoRank());
  }

  /** The ancestors of A and B from the parent sets of the top of the
    * demo DAG. */
  lemma DemoRootAncestors(groups: map<string, Group>, rank: map<string, nat>)
    requires Ranked(groups, rank) && "R1" in groups && "R2" in groups && "A" in groups && "B" in groups
    requires groups["R1"].parents == {} && groups["R2"].parents == {}
    requires groups["A"].parents == {"R1", "R2"} && groups["B"].parents == {"R1"}
    ensures AncSet(groups, rank, "A") == {"A", "R1", "R2"}
    ensures AncSet(groups, rank, "B") == {"B", "R1"}
  {
    AncOfRoot(groups, rank, "R1");
    AncOfRoot(groups, rank, "R2");
    AncOfTwoParents(groups, rank, "A", "R1", "R2");
    AncOfOneParent(groups, rank, "B", "R1");
  }

  /** The ancestors of C and D from those of their parents A and B. */
  lemma DemoLowerAncestors(groups: map<string, Group>, rank: map<string, nat>)
    requires Ranked(groups, rank) && "A" in groups && "B" in groups && "C" in groups && "D" in groups
    requires groups["C"].parents == {"A"} && groups["D"].parents == {"B"}
    requires AncSet(groups, rank, "A") == {"A", "R1", "R2"} && AncSet(groups, rank, "B") == {"B", "R1"}
    ensures AncSet(groups, rank, "C") == {"C", "A", "R1", "R2"}
    ensures AncSet(groups, rank, "D") == {"D", "B", "R1"}
  {
    AncOfOneParent(groups, rank, "C", "A");
    AncOfOneParent(groups, rank, "D", "B");
  }

  /** The ancestors of C and D in the demo DAG. */
  lemma DemoAncestors(groups: map<string, Group>)
    requires DemoDag(groups)
    ensures Ranked(groups, DemoRank())
    ensures AncSet(groups, DemoRank(), "C") == {"C", "A", "R1", "R2"}
    ensures AncSet(groups, DemoRank(), "D") == {"D", "B", "R1"}
  {
    DemoUpperAncestors(groups);
    DemoLowerAncestors(groups, DemoRank());
  }

  /** groups registers exactly keys and has exactly the parent links
    * edges, each a (child, parent) pair. */
  ghost predicate HasLinks(groups: map<string, Group>, keys: set<string>, edges: set<(string, string)>) {
    (forall g :: g in groups <==> g in keys)
    && forall c, p :: c in groups && p in groups[c].parents <==> (c, p) in edges
  }

  lemma RegisterLinks(groups: map<string, Group>, keys: set<string>, edges: set<(string, string)>, id: string)
    requires HasLinks(groups, keys, edges)
    ensures HasLinks(Register(groups, id), keys + {id}, edges)
  {
  }

  lemma AddLinkLinks(groups: map<string, Group>, keys: set<string>, edges: set<(string, string)>, child: string, parent: string)
    requires HasLinks(groups, keys, edges)
    ensures HasLinks(AddLink(groups, child, parent), keys + {child, parent}, edges + {(child, parent)})
  {
  }

  /** The demo's groups and links give the demo DAG. */
  lemma DemoLinksDag(groups: map<string, Group>)
    requires HasLinks(groups, {"R1", "R2", "A", "B", "C", "D"},
      {("A", "R1"), ("A", "R2"), ("B", "R1"), ("C", "A"), ("D", "B")})
    ensures DemoDag(groups)
  {
    forall c, p
      ensures c in groups && p in groups[c].parents <==> DemoEdge(c, p)
    {
      DemoEdgeListed(c, p);
    }
  }

  /** The demo's link set lists exactly the demo edges. */
  lemma DemoEdgeListed(c: string, p: string)
    ensures (c, p) in {("A", "R1"), ("A", "R2"), ("B", "R1"), ("C", "A"), ("D", "B")} <==> DemoEdge(c, p)
  {
  }

  /** The demo's two roots. */
  method DemoRoots() returns (org: Org)
    ensures fresh(org) && org.Valid() && HasLinks(org.groups, {"R1", "R2"}, {}) && org.empToGroups == map[]
    ensures org.ancestorsMemo == map[] && org.depthMemo == map[]
  {
    org := new Org();
    org.AddGroup("R1");
    RegisterLinks(map[], {}, {}, "R1");
    ghost var g := org.groups;
    org.AddGroup("R2");
    RegisterLinks(g, {"R1"}, {}, "R2");
    assert {"R1"} + {"R2"} == {"R1", "R2"};
  }

  /** The demo's roots, with A under both. */
  method DemoLinksA() returns (org: Org)
    ensures fresh(org) && org.Valid() && org.empToGroups == map[]
    ensures HasLinks(org.groups, {"R1", "R2", "A"}, {("A", "R1"), ("A", "R2")})
    ensures org.ancestorsMemo == map[] && org.depthMemo == map[]
  {
    org := DemoRoots();
    ghost var g := org.groups;
    org.AddParent("A", "R1");
    AddLinkLinks(g, {"R1", "R2"}, {}, "A", "R1");
    g := org.groups;
    org.AddParent("A", "R2");
    AddLinkLinks(g, {"R1", "R2"} + {"A", "R1"}, {} + {("A", "R1")}, "A", "R2");
    LinksASets();
  }

  /** The keys and links after A is put under both roots. */
  lemma LinksASets()
    ensures {"R1", "R2"} + {"A", "R1"} + {"A", "R2"} == {"R1", "R2", "A"}
    ensures {} + {("A", "R1")} + {("A", "R2")} == {("A", "R1"), ("A", "R2")}
  {
  }

  /** Then B under R1. */
  method DemoLinksB() returns (org: Org)
    ensures fresh(org) && org.Valid() && org.empToGroups == map[]
    ensures HasLinks(org.groups, {"R1", "R2", "A", "B"}, {("A", "R1"), ("A", "R2"), ("B", "R1")})
    ensures org.ancestorsMemo == map[] && org.depthMemo == map[]
  {
    org := DemoLinksA();
    ghost var g := org.groups;
    org.AddParent("B", "R1");
    AddLinkLinks(g, {"R1", "R2", "A"}, {("A", "R1"), ("A", "R2")}, "B", "R1");
    assert {"R1", "R2", "A"} + {"B", "R1"} == {"R1", "R2", "A", "B"};
    assert {("A", "R1"), ("A", "R2")} + {("B", "R1")} == {("A", "R1"), ("A", "R2"), ("B", "R1")};
  }

  /** Then C under A. */
  method DemoLinksC() returns (org: Org)
    ensures fresh(org) && org.Valid() && org.empToGroups == map[]
    ensures HasLinks(org.groups, {"R1", "R2", "A", "B", "C"}, {("A", "R1"), ("A", "R2"), ("B", "R1"), ("C", "A")})
    ensures org.ancestorsMemo == map[] && org.depthMemo == map[]
  {
    org := DemoLinksB();
    ghost var g := org.groups;
    org.AddParent("C", "A");
    AddLinkLinks(g, {"R1", "R2", "A", "B"}, {("A", "R1"), ("A", "R2"), ("B", "R1")}, "C", "A");
    assert {"R1", "R2", "A", "B"} + {"C", "A"} == {"R1", "R2", "A", "B", "C"};
    assert {("A", "R1"), ("A", "R2"), ("B", "R1")} + {("C", "A")} == {("A", "R1"), ("A", "R2"), ("B", "R1"), ("C", "A")};
  }

  /** Then D under B: the whole demo DAG. */
  method DemoLinks() returns (org: Org)
    ensures fresh(org) && org.Valid() && DemoDag(org.groups) && org.empToGroups == map[]
    ensures org.ancestorsMemo == map[] && org.depthMemo == map[]
  {
    org := DemoLinksC();
    ghost var keys: set<string> := {"R1", "R2", "A", "B", "C"};
    ghost var edges: set<(string, string)> := {("A", "R1"), ("A", "R2"), ("B", "R1"), ("C", "A")};
    ghost var g := org.groups;
    org.AddParent("D", "B");
    AddLinkLinks(g, keys, edges, "D", "B");
    assert keys + {"D", "B"} == {"R1", "R2", "A", "B", "C", "D"};
    assert edges + {("D", "B")} == {("A", "R1"), ("A", "R2"), ("B", "R1"), ("C", "A"), ("D", "B")};
    DemoLinksDag(org.groups);
  }

  /** The demo organisation before its memos are built. */
  method DemoOrg() returns (org: Org)
    ensures fresh(org) && org.Valid() && DemoDag(org.groups)
    ensures org.ancestorsMemo == map[] && org.depthMemo == map[]
    ensures GroupsOf(org.empToGroups, "e1") == {"C"} && GroupsOf(org.empToGroups, "e2") == {"D"}
  {
    org := DemoLinks();
    org.AddEmployeeToGroup("e1", "C");
    assert GroupsOf(org.empToGroups, "e1") == {"C"};
    org.AddEmployeeToGroup("e2", "D");
  }

  /** The demo organisation with its memos built. */
  method DemoBuilt() returns (org: Org)
    ensures org.Valid()
    ensures GroupsOf(org.empToGroups, "e1") == {"C"} && GroupsOf(org.empToGroups, "e2") == {"D"}
    ensures "C" in org.ancestorsMemo && org.ancestorsMemo["C"] == {"C", "A", "R1", "R2"}
    ensures "D" in org.ancestorsMemo && org.ancestorsMemo["D"] == {"D", "B", "R1"}
  {
    org := DemoOrg();
    DemoAncestors(org.groups);
    org.BuildMemo(DemoRank());
  }

  /** The demo: e1 in C and e2 in D have closest common group R1. */
  method Example() returns (ans: Option<string>)
    ensures ans == Some("R1")
  {
    var org := DemoBuilt();
    ans := org.ClosestCommon({"e1", "e2"});
    DemoCommon(org.empToGroups, org.ancestorsMemo);
    assert CommonTo("R1", {"e1", "e2"}, org.empToGroups, org.ancestorsMemo);
    assert ans != None;
    assert CommonTo(ans.value, {"e1", "e2"}, org.empToGroups, org.ancestorsMemo);
  }

  /** Only R1 is an ancestor of a group of both e1 and e2. */
  lemma DemoCommon(empToGroups: map<string, set<string>>, ancestors: map<string, set<string>>)
    requires GroupsOf(empToGroups, "e1") == {"C"} && GroupsOf(empToGroups, "e2") == {"D"}
    requires "C" in ancestors && ancestors["C"] == {"C", "A", "R1", "R2"}
    requires "D" in ancestors && ancestors["D"] == {"D", "B", "R1"}
    ensures forall a :: CommonTo(a, {"e1", "e2"}, empToGroups, ancestors) <==> a == "R1"
  {
    var emps: set<string> := {"e1", "e2"};
    forall a
      ensures CommonTo(a, emps, empToGroups, ancestors) <==> a == "R1"
    {
      if a == "R1" {
        assert InUnion(a, "e1", empToGroups, ancestors) by { assert "C" in GroupsOf(empToGroups, "e1"); }
        assert InUnion(a, "e2", empToGroups, ancestors) by { assert "D" in GroupsOf(empToGroups, "e2"); }
      }
      if CommonTo(a, emps, empToGroups, ancestors) {
        assert InUnion(a, "e1", empToGroups, ancestors);
        assert InUnion(a, "e2", empToGroups, ancestors);
      }
    }
  }
}
