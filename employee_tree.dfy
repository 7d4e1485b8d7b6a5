/** Closest common group in a tree of groups: every group has at most one
  * parent; an employee belongs to any number of groups. The ancestors of
  * each group are the chain of parents up to a root (or up to a parent id
  * that was never registered), and the answer is the deepest group that is
  * an ancestor of some group of every queried employee. */
module EmployeeTree {
  import opened Wrappers
  import opened IntSets
  import opened GroupQueries

  /** A registered group: its parent (None for a root) and its depth, -1
    * until the depths are built. */
  datatype Group = Group(parent: Option<string>, depth: int)

  /** The chain of ids visited from cur: cur, then, while cur is registered
    * and has a parent, the chain from that parent. None when it needs more
    * than fuel ids. */
  function Walk(groups: map<string, Group>, cur: string, fuel: nat): (r: Option<seq<string>>)
    ensures r.Some? ==> |r.value| <= fuel
    decreases fuel
  {
    if fuel == 0 then None
    else if cur !in groups || groups[cur].parent.None? then Some([cur])
    else
      match Walk(groups, groups[cur].parent.value, fuel - 1)
      case None => None
      case Some(rest) => Some([cur] + rest)
  }

  /** The walk from g ends with enough fuel. */
  ghost predicate Ends(groups: map<string, Group>, g: string) {
    exists n: nat :: Walk(groups, g, n).Some?
  }

  /** Every walk from a registered group ends: the parent links have no
    * cycle. */
  ghost predicate Acyclic(groups: map<string, Group>) {
    forall g :: g in groups ==> Ends(groups, g)
  }

  /** More fuel does not change a walk that ended. */
  lemma {:induction false} WalkMoreFuel(groups: map<string, Group>, cur: string, n: nat, m: nat)
    requires n <= m && Walk(groups, cur, n).Some?
    ensures Walk(groups, cur, m) == Walk(groups, cur, n)
    decreases n
  {
    if cur in groups && groups[cur].parent.Some? {
      WalkMoreFuel(groups, groups[cur].parent.value, n - 1, m - 1);
    }
  }

  /** Two walks from the same id that both end agree. */
  lemma WalkFuelFree(groups: map<string, Group>, cur: string, n: nat, m: nat)
    requires Walk(groups, cur, n).Some? && Walk(groups, cur, m).Some?
    ensures Walk(groups, cur, n) == Walk(groups, cur, m)
  {
    if n <= m {
      WalkMoreFuel(groups, cur, n, m);
    } else {
      WalkMoreFuel(groups, cur, m, n);
    }
  }

  /** The parent chain from g. */
  ghost function Chain(groups: map<string, Group>, g: string): seq<string>
    requires Ends(groups, g)
  {
    var n: nat :| Walk(groups, g, n).Some?;
    Walk(groups, g, n).value
  }

  /** The ancestors of g, g itself included. */
  ghost function AncSet(groups: map<string, Group>, g: string): set<string>
    requires Ends(groups, g)
  {
    set x | x in Chain(groups, g)
  }

  /** Any ended walk from g is its chain. */
  lemma ChainIsWalk(groups: map<string, Group>, g: string, n: nat)
    requires Walk(groups, g, n).Some?
    ensures Ends(groups, g) && Chain(groups, g) == Walk(groups, g, n).value
  {
    var k: nat :| Walk(groups, g, k).Some? && Chain(groups, g) == Walk(groups, g, k).value;
    WalkFuelFree(groups, g, n, k);
  }

  /** A walk starts at its first id, follows parent links, and stops at a
    * root or at an unregistered id. */
  lemma {:induction false} WalkLinks(groups: map<string, Group>, cur: string, fuel: nat)
    requires Walk(groups, cur, fuel).Some?
    ensures var c := Walk(groups, cur, fuel).value;
      c != [] && c[0] == cur
      && (forall i :: 0 <= i < |c| - 1 ==> c[i] in groups && groups[c[i]].parent == Some(c[i + 1]))
      && (c[|c| - 1] !in groups || groups[c[|c| - 1]].parent.None?)
    decreases fuel
  {
    if cur in groups && groups[cur].parent.Some? {
      var p := groups[cur].parent.value;
      WalkLinks(groups, p, fuel - 1);
      var rest := Walk(groups, p, fuel - 1).value;
      var c := [cur] + rest;
      forall i | 0 <= i < |c| - 1
        ensures c[i] in groups && groups[c[i]].parent == Some(c[i + 1])
      {
        if i > 0 {
          assert c[i] == rest[i - 1] && c[i + 1] == rest[i];
        }
      }
    }
  }

  /** Only the ids and parents of the groups matter to a walk. */
  lemma {:induction false} WalkSameParents(g1: map<string, Group>, g2: map<string, Group>, cur: string, fuel: nat)
    requires forall g :: g in g1 <==> g in g2
    requires forall g :: g in g1 ==> g1[g].parent == g2[g].parent
    ensures Walk(g1, cur, fuel) == Walk(g2, cur, fuel)
    decreases fuel
  {
    if fuel > 0 && cur in g1 && g1[cur].parent.Some? {
      WalkSameParents(g1, g2, g1[cur].parent.value, fuel - 1);
    }
  }

  /** The depth of every registered group. */
  function DepthMap(groups: map<string, Group>): (m: map<string, int>)
    ensures m.Keys == groups.Keys
    ensures forall g :: g in groups ==> m[g] == groups[g].depth
  {
    map g | g in groups :: groups[g].depth
  }

  /** `computeAncestors`: walks the parent chain from gid, unless its
    * ancestors are already memoised. The memo map is passed in and the
    * updated one returned. */
  method ComputeAncestors(groups: map<string, Group>, memo: map<string, set<string>>, gid: string)
    returns (res: set<string>, memo': map<string, set<string>>)
    requires Acyclic(groups) && gid in groups
    ensures gid in memo ==> memo' == memo && res == memo[gid]
    ensures gid !in memo ==> memo' == memo[gid := res] && res == AncSet(groups, gid)
  {
    if gid in memo {
      return memo[gid], memo;
    }
    res := {};
    var cur := Some(gid);
    assert Ends(groups, gid);
    ghost var fuel: nat :| Walk(groups, gid, fuel).Some?;
    ChainIsWalk(groups, gid, fuel);
    while cur.Some?
      invariant cur.Some? ==> Walk(groups, cur.value, fuel).Some?
      invariant cur.Some? ==> AncSet(groups, gid) == res + set x | x in Walk(groups, cur.value, fuel).value
      invariant cur.None? ==> AncSet(groups, gid) == res
      decreases if cur.Some? then fuel + 1 else 0
    {
      var c := cur.value;
      ghost var tail := Walk(groups, c, fuel).value;
      res := res + {c};
      if c !in groups {
        assert tail == [c];
        cur := None;
      } else {
        if groups[c].parent.Some? {
          assert tail == [c] + Walk(groups, groups[c].parent.value, fuel - 1).value;
        } else {
          assert tail == [c];
        }
        cur := groups[c].parent;
        fuel := fuel - 1;
      }
    }
    memo' := memo[gid := res];
  }

  /** The first loop of `buildAncestorsAndDepths`: computes the ancestors
    * of every group that has none memoised. */
  method MemoiseAll(groups: map<string, Group>, memo: map<string, set<string>>) returns (memo': map<string, set<string>>)
    requires Acyclic(groups)
    ensures forall g :: g in memo' <==> g in memo || g in groups
    ensures forall g :: g in memo ==> memo'[g] == memo[g]
    ensures forall g :: g in groups && g !in memo ==> memo'[g] == AncSet(groups, g)
  {
    var todo := groups.Keys;
    memo' := memo;
    while todo != {}
      invariant todo <= groups.Keys
      invariant forall g :: g in memo' <==> g in memo || (g in groups && g !in todo)
      invariant forall g :: g in memo ==> memo'[g] == memo[g]
      invariant forall g :: g in memo' && g !in memo ==> memo'[g] == AncSet(groups, g)
      decreases todo
    {
      ghost var w := Element(todo);
      var g :| g in todo;
      var _, m := ComputeAncestors(groups, memo', g);
      memo' := m;
      todo := todo - {g};
    }
  }

  class Org {
    var groups: map<string, Group>
    var empToGroups: map<string, set<string>>
    /** The memoised ancestor sets. */
    var ancestors: map<string, set<string>>

    ghost predicate Valid()
      reads this
    {
      ancestors.Keys <= groups.Keys && forall g :: g in groups ==> groups[g].depth >= -1
    }

    constructor ()
      ensures Valid() && groups == map[] && empToGroups == map[] && ancestors == map[]
    {
      groups, empToGroups, ancestors := map[], map[], map[];
    }

    /** Registers a group unless its id is already taken. */
    method AddGroup(id: string, parent: Option<string>)
      requires Valid()
      modifies this
      ensures Valid()
      ensures groups == if id in old(groups) then old(groups) else old(groups)[id := Group(parent, -1)]
      ensures empToGroups == old(empToGroups) && ancestors == old(ancestors)
    {
      if id !in groups {
        groups := groups[id := Group(parent, -1)];
      }
    }

    method AddEmployeeToGroup(emp: string, groupId: string)
      modifies this
      ensures empToGroups == old(empToGroups)[emp := GroupsOf(old(empToGroups), emp) + {groupId}]
      ensures groups == old(groups) && ancestors == old(ancestors)
    {
      empToGroups := empToGroups[emp := GroupsOf(empToGroups, emp) + {groupId}];
    }

    /** Memoises the ancestors of every group, then sets each depth to the
      * size of its ancestor set minus one. */
    method BuildAncestorsAndDepths()
      requires Valid() && Acyclic(groups)
      modifies this
      ensures Valid() && empToGroups == old(empToGroups)
      ensures groups.Keys == old(groups).Keys && ancestors.Keys == groups.Keys
      ensures forall g :: g in old(ancestors) ==> ancestors[g] == old(ancestors)[g]
      ensures forall g :: g in groups && g !in old(ancestors) ==> ancestors[g] == AncSet(old(groups), g)
      ensures forall g :: g in groups ==>
        groups[g].parent == old(groups)[g].parent && groups[g].depth == |ancestors[g]| - 1
    {
      ancestors := MemoiseAll(groups, ancestors);
      SetDepths();
    }

    /** The second pass: every memoised group gets depth |ancestors| - 1. */
    method SetDepths()
      requires Valid()
      modifies this
      ensures Valid() && empToGroups == old(empToGroups) && ancestors == old(ancestors)
      ensures groups.Keys == old(groups).Keys
      ensures forall g :: g in groups ==> groups[g].parent == old(groups)[g].parent
      ensures forall g :: g in groups ==>
        groups[g].depth == if g in ancestors then |ancestors[g]| - 1 else old(groups)[g].depth
    {
      var todo := ancestors.Keys;
      while todo != {}
        invariant Valid() && todo <= ancestors.Keys
        invariant empToGroups == old(empToGroups) && ancestors == old(ancestors)
        invariant groups.Keys == old(groups).Keys
        invariant forall g :: g in groups ==> groups[g].parent == old(groups)[g].parent
        invariant forall g :: g in groups ==>
          groups[g].depth == if g in ancestors && g !in todo then |ancestors[g]| - 1 else old(groups)[g].depth
        decreases todo
      {
        ghost var w := Element(todo);
        var g :| g in todo;
        groups := groups[g := groups[g].(depth := |ancestors[g]| - 1)];
        todo := todo - {g};
      }
    }

    /** null for no employees or no common ancestor; a
      * `NullPointerException` when a common ancestor is an unregistered
      * parent id (it has no depth); otherwise the deepest common ancestor,
      * ties going to the lexicographically smallest id. */
    method ClosestCommonGroup(employees: set<string>) returns (r: Result<Option<string>>)
      requires Valid()
      ensures employees == {} ==> r == Ok(None)
      ensures r == Ok(None) <==>
        employees == {} || forall a :: !CommonTo(a, employees, empToGroups, ancestors)
      ensures r.Err? ==> (r.error == NullPointerException
        && exists a :: CommonTo(a, employees, empToGroups, ancestors) && a !in groups)
      ensures r.Ok? && r.value.Some? ==> (
        var best := r.value.value;
        CommonTo(best, employees, empToGroups, ancestors) && best in groups
        && forall c :: CommonTo(c, employees, empToGroups, ancestors) ==>
          c in groups && Beats(best, c, DepthMap(groups)))
    {
      if employees == {} {
        return Ok(None);
      }
      var inter := CommonAncestors(employees, empToGroups, ancestors);
      if inter == {} {
        return Ok(None);
      }
      if !(inter <= groups.Keys) {
        ghost var a :| a in inter && a !in groups;
        return Err(NullPointerException);
      }
      var depth := DepthMap(groups);
      var best := PickDeepest(inter, depth);
      return Ok(Some(best));
    }
  }

  /** One step of a walk: a registered id with a parent is followed by the
    * walk from that parent. */
  lemma WalkStep(groups: map<string, Group>, cur: string, fuel: nat, rest: seq<string>)
    requires fuel > 0 && cur in groups && groups[cur].parent.Some?
    requires Walk(groups, groups[cur].parent.value, fuel - 1) == Some(rest)
    ensures Walk(groups, cur, fuel) == Some([cur] + rest)
  {
  }

  /** The demo tree: A -> B -> D and A -> C -> E. */
  ghost predicate DemoTree(groups: map<string, Group>) {
    (forall g :: g in groups <==> g == "A" || g == "B" || g == "C" || g == "D" || g == "E")
    && groups["A"].parent == None && groups["B"].parent == Some("A")
    && groups["C"].parent == Some("A") && groups["D"].parent == Some("B")
    && groups["E"].parent == Some("C")
  }

  /** The demo tree has no cycle, and its chains are D, B, A and E, C, A. */
  lemma DemoChains(groups: map<string, Group>)
    requires DemoTree(groups)
    ensures Acyclic(groups)
    ensures AncSet(groups, "D") == {"D", "B", "A"}
    ensures AncSet(groups, "E") == {"E", "C", "A"}
    ensures AncSet(groups, "B") == {"B", "A"}
  {
    assert Walk(groups, "A", 1) == Some(["A"]);
    WalkStep(groups, "B", 2, ["A"]);
    WalkStep(groups, "C", 2, ["A"]);
    WalkStep(groups, "D", 3, ["B"] + ["A"]);
    WalkStep(groups, "E", 3, ["C"] + ["A"]);
    forall g | g in groups
      ensures Ends(groups, g)
    {
      if g == "A" {
        assert Walk(groups, g, 1).Some?;
      } else if g == "B" || g == "C" {
        assert Walk(groups, g, 2).Some?;
      } else {
        assert Walk(groups, g, 3).Some?;
      }
    }
    ChainIsWalk(groups, "D", 3);
    ChainIsWalk(groups, "E", 3);
    ChainIsWalk(groups, "B", 2);
  }

  /** The demo tree as built by `addGroup`. */
  function DemoGroups(): map<string, Group> {
    map["A" := Group(None, -1), "B" := Group(Some("A"), -1), "C" := Group(Some("A"), -1),
        "D" := Group(Some("B"), -1), "E" := Group(Some("C"), -1)]
  }

  lemma DemoGroupsTree()
    ensures DemoTree(DemoGroups())
  {
    var d := DemoGroups();
    assert d.Keys == {"A", "B", "C", "D", "E"};
  }

  /** The demo organisation before its ancestors are built. */
  method DemoOrg() returns (org: Org)
    ensures fresh(org) && org.Valid() && org.ancestors == map[]
    ensures org.groups == DemoGroups()
    ensures GroupsOf(org.empToGroups, "emp1") == {"D"} && GroupsOf(org.empToGroups, "emp2") == {"E"}
    ensures GroupsOf(org.empToGroups, "emp3") == {"B"}
  {
    org := new Org();
    org.AddGroup("A", None);
    assert org.groups == map["A" := Group(None, -1)];
    org.AddGroup("B", Some("A"));
    assert org.groups == map["A" := Group(None, -1), "B" := Group(Some("A"), -1)];
    org.AddGroup("C", Some("A"));
    assert org.groups == map["A" := Group(None, -1), "B" := Group(Some("A"), -1), "C" := Group(Some("A"), -1)];
    org.AddGroup("D", Some("B"));
    assert org.groups == map["A" := Group(None, -1), "B" := Group(Some("A"), -1), "C" := Group(Some("A"), -1),
                             "D" := Group(Some("B"), -1)];
    org.AddGroup("E", Some("C"));
    assert org.groups == DemoGroups();
    org.AddEmployeeToGroup("emp1", "D");
    assert GroupsOf(org.empToGroups, "emp1") == {"D"};
    org.AddEmployeeToGroup("emp2", "E");
    assert GroupsOf(org.empToGroups, "emp1") == {"D"};
    org.AddEmployeeToGroup("emp3", "B");
  }

  /** The demo organisation once its ancestors and depths are built. */
  method DemoBuilt() returns (org: Org)
    ensures org.Valid() && "A" in org.groups
    ensures GroupsOf(org.empToGroups, "emp1") == {"D"} && GroupsOf(org.empToGroups, "emp2") == {"E"}
    ensures GroupsOf(org.empToGroups, "emp3") == {"B"}
    ensures "D" in org.ancestors && org.ancestors["D"] == {"D", "B", "A"}
    ensures "E" in org.ancestors && org.ancestors["E"] == {"E", "C", "A"}
    ensures "B" in org.ancestors && org.ancestors["B"] == {"B", "A"}
  {
    org := DemoOrg();
    DemoGroupsTree();
    DemoChains(org.groups);
    org.BuildAncestorsAndDepths();
  }

  /** The demo: emp1 in D, emp2 in E and emp3 in B have closest common
    * group A. */
  method Example() returns (ans: Result<Option<string>>)
    ensures ans == Ok(Some("A"))
  {
    var org := DemoBuilt();
    ans := org.ClosestCommonGroup({"emp1", "emp2", "emp3"});
    DemoCommon(org.empToGroups, org.ancestors);
    OnlyCandidate(ans, {"emp1", "emp2", "emp3"}, org.empToGroups, org.ancestors, org.groups, "A");
  }

  /** When exactly one registered id is common to the employees, the query
    * returns it. */
  lemma OnlyCandidate(r: Result<Option<string>>, emps: set<string>, empToGroups: map<string, set<string>>,
                      ancestors: map<string, set<string>>, groups: map<string, Group>, x: string)
    requires emps != {}
    requires forall a :: CommonTo(a, emps, empToGroups, ancestors) <==> a == x
    requires x in groups
    requires r == Ok(None) <==> emps == {} || forall a :: !CommonTo(a, emps, empToGroups, ancestors)
    requires r.Err? ==> exists a :: CommonTo(a, emps, empToGroups, ancestors) && a !in groups
    requires r.Ok? && r.value.Some? ==> CommonTo(r.value.value, emps, empToGroups, ancestors)
    ensures r == Ok(Some(x))
  {
    assert CommonTo(x, emps, empToGroups, ancestors);
    assert r != Ok(None);
    assert forall a :: CommonTo(a, emps, empToGroups, ancestors) ==> a in groups;
    assert !r.Err?;
    assert r.Ok? && r.value.Some?;
    assert r.value.value == x;
  }

  /** Only A is an ancestor of a group of each of emp1, emp2 and emp3. */
  lemma DemoCommon(empToGroups: map<string, set<string>>, ancestors: map<string, set<string>>)
    requires GroupsOf(empToGroups, "emp1") == {"D"} && GroupsOf(empToGroups, "emp2") == {"E"}
    requires GroupsOf(empToGroups, "emp3") == {"B"}
    requires "D" in ancestors && ancestors["D"] == {"D", "B", "A"}
    requires "E" in ancestors && ancestors["E"] == {"E", "C", "A"}
    requires "B" in ancestors && ancestors["B"] == {"B", "A"}
    ensures forall a :: CommonTo(a, {"emp1", "emp2", "emp3"}, empToGroups, ancestors) <==> a == "A"
  {
    var emps: set<string> := {"emp1", "emp2", "emp3"};
    forall a
      ensures CommonTo(a, emps, empToGroups, ancestors) <==> a == "A"
    {
      if a == "A" {
        assert InUnion(a, "emp1", empToGroups, ancestors) by { assert "D" in GroupsOf(empToGroups, "emp1"); }
        assert InUnion(a, "emp2", empToGroups, ancestors) by { assert "E" in GroupsOf(empToGroups, "emp2"); }
        assert InUnion(a, "emp3", empToGroups, ancestors) by { assert "B" in GroupsOf(empToGroups, "emp3"); }
      }
      if CommonTo(a, emps, empToGroups, ancestors) {
        assert InUnion(a, "emp1", empToGroups, ancestors);
        assert InUnion(a, "emp2", empToGroups, ancestors);
      }
    }
  }
}
