/** A scheduler whose "on" intervals are added and removed one at a time.
  * The intervals are kept in a map sorted by start (a `TreeMap`). Adding
  * an interval merges it with every stored interval that overlaps or
  * touches it; removing an interval cuts it out of the stored interval
  * that starts at or before it. */
module DynamicScheduling {
  import opened Wrappers
  import opened IntSets
  import opened ScheduleInterval

  /** Some stored interval contains t. */
  ghost predicate Active(entries: map<int, Interval>, t: int) {
    exists k :: k in entries && Contains(entries[k], t)
  }

  /** Every stored interval ends before the next stored interval starts,
    * with a gap: overlapping and touching intervals have been merged. */
  ghost predicate Separated(entries: map<int, Interval>) {
    forall a, b :: a in entries && b in entries && a < b ==> entries[a].en < b
  }

  /** Every stored interval ends no later than the next one starts. */
  ghost predicate NoOverlap(entries: map<int, Interval>) {
    forall a, b :: a in entries && b in entries && a < b ==> entries[a].en <= b
  }

  /** Every stored interval is non-empty. */
  ghost predicate WellFormed(entries: map<int, Interval>) {
    forall k :: k in entries ==> entries[k].st <= entries[k].en
  }

  /** `floorEntry(x)`'s key: the greatest key at most x. */
  method FloorKey(keys: set<int>, x: int) returns (r: Option<int>)
    ensures r == None <==> forall k :: k in keys ==> x < k
    ensures r.Some? ==> r.value in keys && r.value <= x && forall k :: k in keys && k <= x ==> k <= r.value
  {
    var below := set k | k in keys && k <= x;
    if below == {} {
      forall k | k in keys
        ensures x < k
      {
        assert k <= x ==> k in below;
      }
      return None;
    }
    var k := LastKey(below);
    assert forall v :: v in keys && v <= x ==> v in below;
    return Some(k);
  }

  /** `ceilingEntry(x)`'s key: the least key at least x. */
  method CeilingKey(keys: set<int>, x: int) returns (r: Option<int>)
    ensures r == None <==> forall k :: k in keys ==> k < x
    ensures r.Some? ==> r.value in keys && x <= r.value && forall k :: k in keys && x <= k ==> r.value <= k
  {
    var above := set k | k in keys && x <= k;
    if above == {} {
      forall k | k in keys
        ensures k < x
      {
        assert x <= k ==> k in above;
      }
      return None;
    }
    var k := FirstKey(above);
    assert forall v :: v in keys && x <= v ==> v in above;
    return Some(k);
  }

  function Max(a: int, b: int): int {
    if a < b then b else a
  }

  /** Separated stored intervals are ordered. */
  lemma SeparatedNoOverlap(entries: map<int, Interval>)
    requires Separated(entries)
    ensures NoOverlap(entries)
  {
  }

  /** The floor step of `addInterval`: merges nv with the stored interval at
    * or before its start when that one reaches it. */
  method MergeFloor(entries: map<int, Interval>, newIv: Interval) returns (rest: map<int, Interval>, nv: Interval)
    requires forall k :: k in entries ==> entries[k].st == k
    ensures forall k :: k in rest ==> k in entries && rest[k] == entries[k]
    ensures forall t :: Active(rest, t) || Contains(nv, t) <==> Active(entries, t) || Contains(newIv, t)
    ensures nv.st <= newIv.st && nv.en >= newIv.en
    ensures nv.st > nv.en ==> nv == newIv && (nv.st in rest ==> rest[nv.st].en < nv.st)
    ensures Separated(entries) ==> (Separated(rest)
      && forall k :: k in rest && k < nv.st ==> rest[k].en < nv.st)
    ensures forall k :: k in entries && k !in rest ==> nv.st <= k
  {
    rest, nv := entries, newIv;
    var f := FloorKey(entries.Keys, newIv.st);
    if f.Some? && !(entries[f.value].en < newIv.st) {
      var prev := entries[f.value];
      nv := Interval(prev.st, Max(prev.en, newIv.en));
      rest := entries - {f.value};
      forall t
        ensures Active(rest, t) || Contains(nv, t) <==> Active(entries, t) || Contains(newIv, t)
      {
        if Active(entries, t) && !Contains(nv, t) {
          var k :| k in entries && Contains(entries[k], t);
          assert k != f.value;
          assert k in rest && Contains(rest[k], t);
        }
        if Active(rest, t) {
          var k :| k in rest && Contains(rest[k], t);
          assert k in entries && Contains(entries[k], t);
        }
        if Contains(nv, t) && t <= prev.en {
          assert Contains(entries[f.value], t);
        }
      }
    } else {
      assert forall k :: k in rest && k < nv.st ==> k <= f.value;
    }
  }

  /** One step of the ceiling loop of `addInterval`: merges the stored
    * interval starting at c, which starts inside nv, into nv. */
  lemma MergeCeilingStep(entries: map<int, Interval>, nv: Interval, c: int)
    requires c in entries && entries[c].st == c && nv.st <= c <= nv.en
    ensures var nv' := Interval(nv.st, Max(nv.en, entries[c].en));
      forall t :: Active(entries - {c}, t) || Contains(nv', t) <==> Active(entries, t) || Contains(nv, t)
  {
    var nv' := Interval(nv.st, Max(nv.en, entries[c].en));
    forall t
      ensures Active(entries - {c}, t) || Contains(nv', t) <==> Active(entries, t) || Contains(nv, t)
    {
      if Active(entries, t) && !Contains(nv', t) {
        var k :| k in entries && Contains(entries[k], t);
        assert k != c;
        assert k in entries - {c};
      }
      if Active(entries - {c}, t) {
        var k :| k in entries - {c} && Contains((entries - {c})[k], t);
        assert k in entries && Contains(entries[k], t);
      }
    }
  }

  /** The state of the ceiling loop: rest is what is left of the stored
    * map, and rest together with nv covers the stored and the new instants. */
  ghost predicate Merging(entries: map<int, Interval>, newIv: Interval, rest: map<int, Interval>, nv: Interval)
  {
    (forall k :: k in entries ==> entries[k].st == k) &&
    (forall k :: k in rest ==> k in entries && rest[k] == entries[k]) &&
    (forall t :: Active(rest, t) || Contains(nv, t) <==> Active(entries, t) || Contains(newIv, t)) &&
    (nv.st > nv.en ==> nv == newIv && (nv.st in rest ==> rest[nv.st].en < nv.st)) &&
    nv.st <= newIv.st && nv.en >= newIv.en &&
    (Separated(entries) ==> (Separated(rest)
      && forall k :: k in rest && k < nv.st ==> rest[k].en < nv.st)) &&
    (forall k :: k in entries && k !in rest ==> nv.st <= k)
  }

  /** Merging the first stored interval at or after nv's start, when it
    * starts inside nv, keeps the state of the ceiling loop. */
  lemma MergingStep(entries: map<int, Interval>, newIv: Interval, rest: map<int, Interval>, nv: Interval, c: int)
    requires Merging(entries, newIv, rest, nv)
    requires c in rest && nv.st <= c <= nv.en && forall k :: k in rest && nv.st <= k ==> c <= k
    ensures Merging(entries, newIv, rest - {c}, Interval(nv.st, Max(nv.en, rest[c].en)))
  {
    MergeCeilingStep(rest, nv, c);
  }

  /** The ceiling loop of `addInterval`: merges into nv every stored
    * interval that starts inside it, until the next one starts after it. */
  method MergeCeiling(entries: map<int, Interval>, newIv: Interval, rest0: map<int, Interval>, nv0: Interval)
    returns (rest: map<int, Interval>, nv: Interval)
    requires forall k :: k in entries ==> entries[k].st == k
    requires forall k :: k in rest0 ==> k in entries && rest0[k] == entries[k]
    requires forall t :: Active(rest0, t) || Contains(nv0, t) <==> Active(entries, t) || Contains(newIv, t)
    requires nv0.st > nv0.en ==> nv0 == newIv && (nv0.st in rest0 ==> rest0[nv0.st].en < nv0.st)
    requires nv0.st <= newIv.st && nv0.en >= newIv.en
    requires Separated(entries) ==> (Separated(rest0)
      && forall k :: k in rest0 && k < nv0.st ==> rest0[k].en < nv0.st)
    requires forall k :: k in entries && k !in rest0 ==> nv0.st <= k
    ensures forall k :: k in rest ==> k in entries && rest[k] == entries[k]
    ensures forall t :: Active(rest, t) || Contains(nv, t) <==> Active(entries, t) || Contains(newIv, t)
    ensures nv.st > nv.en ==> nv == newIv && (nv.st in rest ==> rest[nv.st].en < nv.st)
    ensures nv.st <= newIv.st && nv.en >= newIv.en
    ensures Separated(entries) ==> (Separated(rest)
      && forall k :: k in rest && k < nv.st ==> rest[k].en < nv.st)
    ensures forall k :: k in rest && nv.st <= k ==> nv.en < k
  {
    rest, nv := rest0, nv0;
    var c := CeilingKey(rest.Keys, nv.st);
    while c.Some? && !(rest[c.value].st > nv.en)
      invariant Merging(entries, newIv, rest, nv)
      invariant c == None <==> forall k :: k in rest ==> k < nv.st
      invariant c.Some? ==> (c.value in rest && nv.st <= c.value
        && forall k :: k in rest && nv.st <= k ==> c.value <= k)
      decreases |rest|
    {
      var cv := c.value;
      MergingStep(entries, newIv, rest, nv, cv);
      nv := Interval(nv.st, Max(nv.en, rest[cv].en));
      rest := rest - {cv};
      c := CeilingKey(rest.Keys, nv.st);
    }
    assert forall k :: k in rest && nv.st <= k ==> nv.en < k by {
      if c.Some? {
        assert rest[c.value].st == c.value;
      }
    }
  }

  /** The whole of `addInterval` on the stored map: the floor step, then
    * the ceiling loop, then the insertion of the merged interval. */
  method Merge(entries: map<int, Interval>, newIv: Interval) returns (m: map<int, Interval>)
    requires forall k :: k in entries ==> entries[k].st == k
    ensures forall k :: k in m ==> m[k].st == k
    ensures forall t :: Active(m, t) <==> Active(entries, t) || Contains(newIv, t)
    ensures Separated(entries) ==> Separated(m)
    ensures WellFormed(entries) && newIv.st <= newIv.en ==> WellFormed(m)
  {
    var rest0, nv0 := MergeFloor(entries, newIv);
    var rest, nv := MergeCeiling(entries, newIv, rest0, nv0);
    AddFinish(entries, rest, nv, newIv);
    m := rest[nv.st := nv];
  }

  class DynamicScheduler {
    var entries: map<int, Interval>

    /** Each interval is stored under its start. */
    ghost predicate Valid()
      reads this
    {
      forall k :: k in entries ==> entries[k].st == k
    }

    constructor ()
      ensures Valid() && entries == map[]
    {
      entries := map[];
    }

    /** `addInterval`: afterwards exactly the old instants and those of
      * newIv are active, and intervals that were separated stay
      * separated. */
    method AddInterval(newIv: Interval)
      requires Valid()
      modifies this
      ensures Valid()
      ensures forall t :: Active(entries, t) <==> Active(old(entries), t) || Contains(newIv, t)
      ensures Separated(old(entries)) ==> Separated(entries)
      ensures WellFormed(old(entries)) && newIv.st <= newIv.en ==> WellFormed(entries)
    {
      entries := Merge(entries, newIv);
    }

    /** `removeInterval`: cuts iv out of the stored interval at or before
      * its start, keeping the parts [curr.st, iv.st] and [iv.en, curr.en]
      * that are non-empty; nothing changes without such an interval or
      * when it does not overlap iv. */
    method RemoveInterval(iv: Interval)
      requires Valid()
      modifies this
      ensures Valid()
      ensures (forall k :: k in old(entries) ==> iv.st < k) ==> entries == old(entries)
      ensures forall f :: IsFloor(old(entries), iv.st, f) ==>
        entries == if old(entries)[f].en < iv.st || old(entries)[f].st > iv.en then old(entries)
                   else CutOut(old(entries), f, iv)
      ensures forall t :: Active(entries, t) ==> Active(old(entries), t)
    {
      var f := FloorKey(entries.Keys, iv.st);
      if f.None? {
        return;
      }
      var curr := entries[f.value];
      if curr.en < iv.st || curr.st > iv.en {
        return;
      }
      CutShrinks(entries, f.value, iv);
      entries := entries - {f.value};
      if curr.st < iv.st {
        entries := entries[curr.st := Interval(curr.st, iv.st)];
      }
      if curr.en > iv.en {
        entries := entries[iv.en := Interval(iv.en, curr.en)];
      }
    }

    /** `isActive`: whether the interval at or before ts contains it. On
      * ordered, non-empty intervals that is whether any does. */
    method IsActive(ts: int) returns (b: bool)
      requires Valid()
      ensures b ==> Active(entries, ts)
      ensures NoOverlap(entries) && WellFormed(entries) ==> (b <==> Active(entries, ts))
    {
      var f := FloorKey(entries.Keys, ts);
      if f.None? {
        return false;
      }
      var iv := entries[f.value];
      b := iv.st <= ts && ts <= iv.en;
      if NoOverlap(entries) && WellFormed(entries) && !b {
        forall k | k in entries
          ensures !Contains(entries[k], ts)
        {
          if k < f.value {
            assert entries[k].en <= f.value;
          }
        }
      }
    }
  }

  /** Inserting the merged interval after the ceiling loop: the active
    * instants are the old ones and newIv's, and separation is kept. */
  lemma AddFinish(entries: map<int, Interval>, rest: map<int, Interval>, nv: Interval, newIv: Interval)
    requires forall k :: k in entries ==> entries[k].st == k
    requires forall k :: k in rest ==> k in entries && rest[k] == entries[k]
    requires forall t :: Active(rest, t) || Contains(nv, t) <==> Active(entries, t) || Contains(newIv, t)
    requires nv.st > nv.en ==> nv == newIv && (nv.st in rest ==> rest[nv.st].en < nv.st)
    requires nv.st <= newIv.st && nv.en >= newIv.en
    requires Separated(entries) ==> (Separated(rest)
      && forall k :: k in rest && k < nv.st ==> rest[k].en < nv.st)
    requires forall k :: k in rest && nv.st <= k ==> nv.en < k
    ensures forall t :: Active(rest[nv.st := nv], t) <==> Active(entries, t) || Contains(newIv, t)
    ensures Separated(entries) ==> Separated(rest[nv.st := nv])
    ensures WellFormed(entries) && newIv.st <= newIv.en ==> WellFormed(rest[nv.st := nv])
  {
    var m := rest[nv.st := nv];
    forall t
      ensures Active(m, t) <==> Active(entries, t) || Contains(newIv, t)
    {
      if Active(rest, t) && !Contains(nv, t) {
        var k :| k in rest && Contains(rest[k], t);
        assert k in m && m[k] == rest[k];
        assert Contains(m[k], t);
      }
      if Contains(nv, t) {
        assert nv.st in m && Contains(m[nv.st], t);
      }
      if Active(m, t) {
        var k :| k in m && Contains(m[k], t);
        if k != nv.st {
          assert k in rest && Contains(rest[k], t);
        }
      }
    }
    if Separated(entries) {
      forall a, b | a in m && b in m && a < b
        ensures m[a].en < b
      {
        if a != nv.st && b != nv.st {
          assert a in rest && b in rest;
        }
      }
    }
  }

  /** f is the key `floorEntry(x)` finds: the greatest key at most x. */
  ghost predicate IsFloor(entries: map<int, Interval>, x: int, f: int) {
    f in entries && f <= x && forall k :: k in entries && k <= x ==> k <= f
  }

  /** The stored interval under f replaced by its parts before and after
    * iv that are non-empty: [st, iv.st] when it starts before iv, and
    * [iv.en, en] when it ends after iv. */
  function CutOut(entries: map<int, Interval>, f: int, iv: Interval): map<int, Interval>
    requires f in entries
  {
    var curr := entries[f];
    var cut := entries - {f};
    var left := if curr.st < iv.st then cut[curr.st := Interval(curr.st, iv.st)] else cut;
    if curr.en > iv.en then left[iv.en := Interval(iv.en, curr.en)] else left
  }

  /** Cutting iv out of an overlapping interval adds no active instant. */
  lemma CutShrinks(entries: map<int, Interval>, f: int, iv: Interval)
    requires f in entries && entries[f].st == f
    requires !(entries[f].en < iv.st || entries[f].st > iv.en)
    ensures forall t :: Active(CutOut(entries, f, iv), t) ==> Active(entries, t)
  {
    var m := CutOut(entries, f, iv);
    forall t | Active(m, t)
      ensures Active(entries, t)
    {
      var k :| k in m && Contains(m[k], t);
      if Contains(entries[f], t) {
        assert Contains(entries[f], t);
      } else {
        assert k in entries && m[k] == entries[k];
      }
    }
  }

  /** Cutting a non-empty iv out of the floor interval of separated,
    * non-empty intervals leaves them ordered and non-empty: the two parts
    * may touch at a single instant. */
  lemma CutKeepsOrder(entries: map<int, Interval>, f: int, iv: Interval)
    requires forall k :: k in entries ==> entries[k].st == k
    requires Separated(entries) && WellFormed(entries) && iv.st <= iv.en
    requires IsFloor(entries, iv.st, f) && !(entries[f].en < iv.st || entries[f].st > iv.en)
    ensures var m := CutOut(entries, f, iv);
      NoOverlap(m) && WellFormed(m) && forall k :: k in m ==> m[k].st == k
  {
    var m := CutOut(entries, f, iv);
    forall k | k in m ensures m[k].st == k && m[k].st <= m[k].en {
      CutKey(entries, f, iv, k);
    }
    forall a, b | a in m && b in m && a < b
      ensures m[a].en <= b
    {
      CutKey(entries, f, iv, a);
      CutKey(entries, f, iv, b);
    }
  }

  /** Each key left by the cut is the part before iv, the part after it, or
    * an untouched interval, which lies wholly before or after the floor one. */
  lemma CutKey(entries: map<int, Interval>, f: int, iv: Interval, k: int)
    requires forall k :: k in entries ==> entries[k].st == k
    requires Separated(entries) && WellFormed(entries) && iv.st <= iv.en
    requires IsFloor(entries, iv.st, f) && !(entries[f].en < iv.st || entries[f].st > iv.en)
    requires k in CutOut(entries, f, iv)
    ensures var m, curr := CutOut(entries, f, iv), entries[f];
      (k == f && f < iv.st && m[k] == Interval(f, iv.st)) ||
      (k == iv.en && iv.en < curr.en && m[k] == Interval(iv.en, curr.en)) ||
      (k in entries && k != f && m[k] == entries[k] && (k < f || curr.en < k) && k <= m[k].en)
  {
    var curr := entries[f];
    if k != f && k != iv.en {
      assert k in entries;
      if f < k {
        assert curr.en < k;
      }
    }
  }

  /** What the cut does to the active instants of separated intervals: the
    * instants of the floor interval strictly inside iv stop being active,
    * and every active instant outside iv stays active. */
  lemma CutEffect(entries: map<int, Interval>, f: int, iv: Interval)
    requires forall k :: k in entries ==> entries[k].st == k
    requires Separated(entries) && iv.st <= iv.en
    requires IsFloor(entries, iv.st, f) && !(entries[f].en < iv.st || entries[f].st > iv.en)
    ensures forall t :: Contains(entries[f], t) && iv.st < t < iv.en ==> !Active(CutOut(entries, f, iv), t)
    ensures forall t :: Active(entries, t) && !Contains(iv, t) ==> Active(CutOut(entries, f, iv), t)
  {
    var m := CutOut(entries, f, iv);
    var curr := entries[f];
    forall t | Contains(curr, t) && iv.st < t < iv.en
      ensures !Active(m, t)
    {
      forall k | k in m
        ensures !Contains(m[k], t)
      {
        if k != f && k != iv.en {
          assert k in entries && m[k] == entries[k];
          if k < f {
            assert entries[k].en < f;
          }
        }
      }
    }
    forall t | Active(entries, t) && !Contains(iv, t)
      ensures Active(m, t)
    {
      var k :| k in entries && Contains(entries[k], t);
      if k == f {
        if t < iv.st {
          assert curr.st in m && Contains(m[curr.st], t);
        } else {
          assert iv.en in m && Contains(m[iv.en], t);
        }
      } else {
        assert k < f || curr.en < k;
        assert k in m && m[k] == entries[k];
      }
    }
  }
}
