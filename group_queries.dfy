/** What the closest-common-group queries share: Java's `String.compareTo`
  * order, the choice of the deepest candidate with ties going to the
  * lexicographically smallest id, and the intersection over employees of
  * the ancestors of their groups. */
module GroupQueries {
  import opened IntSets

  const MIN_INT: int := -0x8000_0000

  /** `a.compareTo(b) < 0`: at the first differing position a has the
    * smaller character, or a is a proper prefix of b. */
  predicate LexLess(a: string, b: string)
    decreases |a|
  {
    if a == [] then b != []
    else if b == [] then false
    else if a[0] != b[0] then a[0] < b[0]
    else LexLess(a[1..], b[1..])
  }

  lemma {:induction false} LexIrreflexive(a: string)
    ensures !LexLess(a, a)
    decreases |a|
  {
    if a != [] {
      LexIrreflexive(a[1..]);
    }
  }

  lemma {:induction false} LexTransitive(a: string, b: string, c: string)
    requires LexLess(a, b) && LexLess(b, c)
    ensures LexLess(a, c)
    decreases |a|
  {
    if a != [] && b != [] && c != [] && a[0] == b[0] && b[0] == c[0] {
      LexTransitive(a[1..], b[1..], c[1..]);
    }
  }

  /** Distinct strings are ordered one way or the other. */
  lemma {:induction false} LexTotal(a: string, b: string)
    requires a != b
    ensures LexLess(a, b) || LexLess(b, a)
    decreases |a|
  {
    if a != [] && b != [] && a[0] == b[0] {
      assert a == [a[0]] + a[1..] && b == [b[0]] + b[1..];
      LexTotal(a[1..], b[1..]);
    }
  }

  lemma {:induction false} LexAsymmetric(a: string, b: string)
    requires LexLess(a, b)
    ensures !LexLess(b, a)
    decreases |a|
  {
    if a != [] && b != [] && a[0] == b[0] {
      LexAsymmetric(a[1..], b[1..]);
    }
  }

  /** best is at least as good a choice as c: deeper, or as deep and
    * lexicographically smaller. */
  predicate Beats(best: string, c: string, depth: map<string, int>)
    requires best in depth && c in depth
  {
    c == best || depth[c] < depth[best] || (depth[c] == depth[best] && LexLess(best, c))
  }

  /** best is the deepest candidate, the lexicographically smallest of the
    * deepest ones. */
  ghost predicate Deepest(best: string, cands: set<string>, depth: map<string, int>)
    requires cands <= depth.Keys
  {
    best in cands && forall c :: c in cands ==> Beats(best, c, depth)
  }

  /** There is only one deepest candidate. */
  lemma DeepestUnique(b1: string, b2: string, cands: set<string>, depth: map<string, int>)
    requires cands <= depth.Keys
    requires Deepest(b1, cands, depth) && Deepest(b2, cands, depth)
    ensures b1 == b2
  {
    assert Beats(b1, b2, depth) && Beats(b2, b1, depth);
    if b1 != b2 {
      LexAsymmetric(b1, b2);
    }
  }

  /** The scan over the candidates: a candidate replaces the best so far
    * when it is deeper, or as deep and lexicographically smaller. */
  method PickDeepest(cands: set<string>, depth: map<string, int>) returns (best: string)
    requires cands != {} && cands <= depth.Keys
    requires forall c :: c in cands ==> depth[c] >= MIN_INT
    ensures Deepest(best, cands, depth)
  {
    var rest := cands;
    var found: bool := false;
    var bestDepth := MIN_INT;
    best := "";
    while rest != {}
      invariant rest <= cands
      invariant !found ==> rest == cands && bestDepth == MIN_INT
      invariant found ==> best in cands && bestDepth == depth[best]
      invariant found ==> forall c :: c in cands && c !in rest ==> Beats(best, c, depth)
      decreases rest
    {
      ghost var w := Element(rest);
      var cand :| cand in rest;
      var d := depth[cand];
      if d > bestDepth || (d == bestDepth && (!found || LexLess(cand, best))) {
        if found {
          BetterStep(best, cand, cands - rest, depth);
        }
        best, bestDepth, found := cand, d, true;
      } else {
        if cand != best && d == bestDepth {
          LexTotal(cand, best);
        }
      }
      rest := rest - {cand};
    }
  }

  /** A candidate that beats the best so far beats everything it beat. */
  lemma BetterStep(best: string, cand: string, seen: set<string>, depth: map<string, int>)
    requires seen <= depth.Keys && best in depth && cand in depth
    requires forall c :: c in seen ==> Beats(best, c, depth)
    requires depth[cand] > depth[best] || (depth[cand] == depth[best] && LexLess(cand, best))
    ensures forall c :: c in seen + {best} ==> Beats(cand, c, depth)
  {
    forall c | c in seen + {best}
      ensures Beats(cand, c, depth)
    {
      if c != best && c != cand && depth[c] == depth[cand] {
        LexTransitive(cand, best, c);
      }
    }
  }

  /** `empToGroups.getOrDefault(emp, emptySet())`. */
  function GroupsOf(empToGroups: map<string, set<string>>, emp: string): set<string> {
    if emp in empToGroups then empToGroups[emp] else {}
  }

  /** `ancestors.getOrDefault(g, emptySet())`. */
  function AncestorsOf(ancestors: map<string, set<string>>, g: string): set<string> {
    if g in ancestors then ancestors[g] else {}
  }

  /** a is an ancestor of one of the employee's groups. */
  ghost predicate InUnion(a: string, emp: string, empToGroups: map<string, set<string>>, ancestors: map<string, set<string>>) {
    exists g :: g in GroupsOf(empToGroups, emp) && a in AncestorsOf(ancestors, g)
  }

  /** a is an ancestor of some group of every employee. */
  ghost predicate CommonTo(a: string, emps: set<string>, empToGroups: map<string, set<string>>, ancestors: map<string, set<string>>) {
    forall e :: e in emps ==> InUnion(a, e, empToGroups, ancestors)
  }

  /** The union of the ancestor sets of the employee's groups. */
  method UnionOfAncestors(emp: string, empToGroups: map<string, set<string>>, ancestors: map<string, set<string>>)
    returns (unionAnc: set<string>)
    ensures forall a :: a in unionAnc <==> InUnion(a, emp, empToGroups, ancestors)
  {
    var groupsForEmp := GroupsOf(empToGroups, emp);
    var rest := groupsForEmp;
    unionAnc := {};
    while rest != {}
      invariant rest <= groupsForEmp
      invariant forall a :: a in unionAnc <==>
        exists g :: g in groupsForEmp && g !in rest && a in AncestorsOf(ancestors, g)
      decreases rest
    {
      ghost var w := Element(rest);
      var g :| g in rest;
      unionAnc := unionAnc + AncestorsOf(ancestors, g);
      rest := rest - {g};
    }
  }

  /** Adding an employee keeps exactly the common ancestors that are also
    * in the new employee's union. */
  lemma CommonStep(seen: set<string>, emp: string, empToGroups: map<string, set<string>>, ancestors: map<string, set<string>>)
    ensures forall a :: CommonTo(a, seen + {emp}, empToGroups, ancestors) <==>
      CommonTo(a, seen, empToGroups, ancestors) && InUnion(a, emp, empToGroups, ancestors)
  {
  }

  /** Nothing is common to all employees once nothing is common to some. */
  lemma CommonShrinks(seen: set<string>, employees: set<string>, empToGroups: map<string, set<string>>, ancestors: map<string, set<string>>)
    requires seen <= employees
    ensures forall a :: CommonTo(a, employees, empToGroups, ancestors) ==> CommonTo(a, seen, empToGroups, ancestors)
  {
  }

  /** Intersects the employees' ancestor unions one employee at a time,
    * giving up as soon as the intersection is empty. */
  method CommonAncestors(employees: set<string>, empToGroups: map<string, set<string>>, ancestors: map<string, set<string>>)
    returns (inter: set<string>)
    requires employees != {}
    ensures forall a :: a in inter <==> CommonTo(a, employees, empToGroups, ancestors)
  {
    var rest := employees;
    var started := false;
    ghost var seen: set<string> := {};
    inter := {};
    while rest != {}
      invariant rest <= employees && seen == employees - rest
      invariant !started <==> seen == {}
      invariant started ==> forall a :: a in inter <==> CommonTo(a, seen, empToGroups, ancestors)
      decreases rest
    {
      ghost var w := Element(rest);
      var emp :| emp in rest;
      var unionAnc := UnionOfAncestors(emp, empToGroups, ancestors);
      CommonStep(seen, emp, empToGroups, ancestors);
      if !started {
        inter := unionAnc;
        started := true;
      } else {
        inter := inter * unionAnc;
      }
      seen := seen + {emp};
      rest := rest - {emp};
      if inter == {} {
        CommonShrinks(seen, employees, empToGroups, ancestors);
        return;
      }
    }
  }
}
