/** Closest common group when groups have no subgroups: the answer is the
  * lexicographically smallest group that every queried employee belongs
  * to. */
module EmployeeFlat {
  import opened Wrappers
  import opened IntSets
  import opened GroupQueries

  /** g is a group of every employee in emps. */
  ghost predicate InAll(g: string, emps: set<string>, empToGroups: map<string, set<string>>) {
    forall e :: e in emps ==> g in GroupsOf(empToGroups, e)
  }

  /** The smallest string of a non-empty set under `String.compareTo`. */
  method LexMin(s: set<string>) returns (m: string)
    requires s != {}
    ensures m in s && forall x :: x in s && x != m ==> LexLess(m, x)
  {
    ghost var w := Element(s);
    m :| m in s;
    var rest := s - {m};
    while rest != {}
      invariant rest <= s && m in s && m !in rest
      invariant forall x :: x in s && x !in rest && x != m ==> LexLess(m, x)
      decreases rest
    {
      ghost var v := Element(rest);
      var x :| x in rest;
      if LexLess(x, m) {
        forall y | y in s && y !in rest && y != m
          ensures LexLess(x, y)
        {
          LexTransitive(x, m, y);
        }
        m := x;
      } else {
        LexTotal(m, x);
      }
      rest := rest - {x};
    }
  }

  /** The intersection of the employees' group sets, given up as soon as it
    * is empty. */
  method Intersect(emps: set<string>, empToGroups: map<string, set<string>>) returns (inter: set<string>)
    requires emps != {}
    ensures forall g :: g in inter <==> InAll(g, emps, empToGroups)
  {
    var rest := emps;
    var started := false;
    ghost var seen: set<string> := {};
    inter := {};
    while rest != {}
      invariant rest <= emps && seen == emps - rest
      invariant !started <==> seen == {}
      invariant started ==> forall g :: g in inter <==> InAll(g, seen, empToGroups)
      decreases rest
    {
      ghost var w := Element(rest);
      var e :| e in rest;
      var gs := GroupsOf(empToGroups, e);
      if !started {
        inter := gs;
        started := true;
      } else {
        inter := inter * gs;
      }
      seen := seen + {e};
      rest := rest - {e};
      if inter == {} {
        assert forall g :: InAll(g, emps, empToGroups) ==> InAll(g, seen, empToGroups);
        return;
      }
    }
  }

  class Org {
    var empToGroups: map<string, set<string>>

    constructor ()
      ensures empToGroups == map[]
    {
      empToGroups := map[];
    }

    /** Adds group to the set of each listed employee, and to no other. */
    method AddGroupWithEmployees(group: string, emps: set<string>)
      modifies this
      ensures forall e :: e in empToGroups <==> e in old(empToGroups) || e in emps
      ensures forall e :: (GroupsOf(empToGroups, e) ==
        if e in emps then GroupsOf(old(empToGroups), e) + {group} else GroupsOf(old(empToGroups), e))
    {
      var rest := emps;
      while rest != {}
        invariant rest <= emps
        invariant forall e :: e in empToGroups <==> e in old(empToGroups) || (e in emps && e !in rest)
        invariant forall e :: (GroupsOf(empToGroups, e) ==
          if e in emps && e !in rest then GroupsOf(old(empToGroups), e) + {group} else GroupsOf(old(empToGroups), e))
        decreases rest
      {
        ghost var w := Element(rest);
        var e :| e in rest;
        empToGroups := empToGroups[e := GroupsOf(empToGroups, e) + {group}];
        rest := rest - {e};
      }
    }

    /** null for no employees or no group holding them all; otherwise the
      * lexicographically smallest group that holds them all. */
    method FindGroupContainingAll(emps: set<string>) returns (r: Option<string>)
      ensures r == None <==> emps == {} || forall g :: !InAll(g, emps, empToGroups)
      ensures r.Some? ==> (InAll(r.value, emps, empToGroups)
        && forall g :: InAll(g, emps, empToGroups) && g != r.value ==> LexLess(r.value, g))
    {
      if emps == {} {
        return None;
      }
      var inter := Intersect(emps, empToGroups);
      if inter == {} {
        return None;
      }
      var m := LexMin(inter);
      return Some(m);
    }
  }

  /** The queried result is the only common group that precedes all others. */
  lemma SmallestUnique(emps: set<string>, empToGroups: map<string, set<string>>, r: Option<string>, x: string)
    requires InAll(x, emps, empToGroups)
    requires forall g :: InAll(g, emps, empToGroups) && g != x ==> LexLess(x, g)
    requires r == None <==> emps == {} || forall g :: !InAll(g, emps, empToGroups)
    requires emps != {}
    requires r.Some? ==> (InAll(r.value, emps, empToGroups)
      && forall g :: InAll(g, emps, empToGroups) && g != r.value ==> LexLess(r.value, g))
    ensures r == Some(x)
  {
    assert r != None;
    if r.value != x {
      assert LexLess(x, r.value) && LexLess(r.value, x);
      LexAsymmetric(x, r.value);
    }
  }

  /** The demo organisation: G1 holds a, b and c; G2 holds b, c and d; G3
    * holds a and d. */
  method DemoOrg() returns (o: Org)
    ensures GroupsOf(o.empToGroups, "a") == {"G1", "G3"} && GroupsOf(o.empToGroups, "b") == {"G1", "G2"}
    ensures GroupsOf(o.empToGroups, "c") == {"G1", "G2"} && GroupsOf(o.empToGroups, "d") == {"G2", "G3"}
    ensures GroupsOf(o.empToGroups, "x") == {}
  {
    o := new Org();
    o.AddGroupWithEmployees("G1", {"a", "b", "c"});
    assert GroupsOf(o.empToGroups, "a") == {"G1"} && GroupsOf(o.empToGroups, "b") == {"G1"};
    assert GroupsOf(o.empToGroups, "c") == {"G1"} && GroupsOf(o.empToGroups, "d") == {};
    assert GroupsOf(o.empToGroups, "x") == {};
    o.AddGroupWithEmployees("G2", {"b", "c", "d"});
    assert GroupsOf(o.empToGroups, "a") == {"G1"} && GroupsOf(o.empToGroups, "b") == {"G1", "G2"};
    assert GroupsOf(o.empToGroups, "c") == {"G1", "G2"} && GroupsOf(o.empToGroups, "d") == {"G2"};
    assert GroupsOf(o.empToGroups, "x") == {};
    o.AddGroupWithEmployees("G3", {"a", "d"});
  }

  /** The demo queries: {b, c} gives G1, {a, d} gives G3 and {a, x}
    * gives null. */
  method Example() returns (r1: Option<string>, r2: Option<string>, r3: Option<string>)
    ensures r1 == Some("G1") && r2 == Some("G3") && r3 == None
  {
    var o := DemoOrg();
    r1 := o.FindGroupContainingAll({"b", "c"});
    DemoBC(o.empToGroups);
    SmallestUnique({"b", "c"}, o.empToGroups, r1, "G1");
    r2 := o.FindGroupContainingAll({"a", "d"});
    DemoAD(o.empToGroups);
    SmallestUnique({"a", "d"}, o.empToGroups, r2, "G3");
    r3 := o.FindGroupContainingAll({"a", "x"});
    assert forall g :: !InAll(g, {"a", "x"}, o.empToGroups) by {
      assert GroupsOf(o.empToGroups, "x") == {};
    }
  }

  /** G1 and G2 hold both b and c, and G1 precedes G2. */
  lemma DemoBC(empToGroups: map<string, set<string>>)
    requires GroupsOf(empToGroups, "b") == {"G1", "G2"} && GroupsOf(empToGroups, "c") == {"G1", "G2"}
    ensures InAll("G1", {"b", "c"}, empToGroups)
    ensures forall g :: InAll(g, {"b", "c"}, empToGroups) && g != "G1" ==> LexLess("G1", g)
  {
    assert LexLess("G1", "G2");
  }

  /** Only G3 holds both a and d. */
  lemma DemoAD(empToGroups: map<string, set<string>>)
    requires GroupsOf(empToGroups, "a") == {"G1", "G3"} && GroupsOf(empToGroups, "d") == {"G2", "G3"}
    ensures InAll("G3", {"a", "d"}, empToGroups)
    ensures forall g :: InAll(g, {"a", "d"}, empToGroups) ==> g == "G3"
  {
  }
}
