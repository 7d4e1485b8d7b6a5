/** `assignCourts` and `assignCourtsWithMaintenance`: the bookings, sorted
  * by start, are given courts in order. A min-heap holds, for every court
  * opened so far, the time it is next free. A booking takes the court at the
  * top of the heap when that one is free by its start, and otherwise opens
  * a court with the next id. */
module TennisAssign {
  import opened Wrappers
  import opened IntSets
  import opened TennisCourts

  /** When court c is next free: the finish of the last booking it was
    * given, plus the maintenance time. */
  function FreeAt(bs: seq<BookingRecord>, rs: seq<CourtAssignment>, c: int, x: int): int
    requires |rs| <= |bs| && LastOn(rs, c) >= 0
  {
    bs[LastOn(rs, c)].finish + x
  }

  /** Assignment i is the one the heap loop makes: with k courts opened by
    * the earlier assignments, booking i either takes a court whose free time
    * is least of all and no later than its start, or, when every court is
    * free only after its start, opens court k + 1. */
  ghost predicate AssignedAt(bs: seq<BookingRecord>, rs: seq<CourtAssignment>, x: int, i: int)
    requires 0 <= i < |rs| <= |bs|
  {
    var prev := rs[..i];
    var k := Issued(prev);
    var c := rs[i].courtId;
    rs[i].bookingId == bs[i].id
    && (forall d :: 1 <= d <= k ==> LastOn(prev, d) >= 0)
    && ((1 <= c <= k && FreeAt(bs, prev, c, x) <= bs[i].start
         && forall d :: 1 <= d <= k ==> FreeAt(bs, prev, c, x) <= FreeAt(bs, prev, d, x))
        || (c == k + 1 && forall d :: 1 <= d <= k ==> bs[i].start < FreeAt(bs, prev, d, x)))
  }

  /** Every assignment so far is the one the heap loop makes. */
  ghost predicate AllAssigned(bs: seq<BookingRecord>, rs: seq<CourtAssignment>, x: int) {
    |rs| <= |bs| && forall i :: 0 <= i < |rs| ==> AssignedAt(bs, rs, x, i)
  }

  /** `pq.peek()`: a court whose free time is least. Among courts free at
    * the same time, which one is on top is the heap's choice. */
  method Peek(free: map<int, int>) returns (top: Option<int>)
    ensures top == None <==> free == map[]
    ensures top.Some? ==> top.value in free && forall d :: d in free ==> free[top.value] <= free[d]
  {
    var keys := free.Keys;
    if keys == {} {
      assert free == map[];
      return None;
    }
    ghost var w := Element(keys);
    var best :| best in keys;
    var rest := keys - {best};
    while rest != {}
      invariant rest <= keys && best in keys
      invariant forall d :: d in keys && d !in rest ==> free[best] <= free[d]
      decreases rest
    {
      ghost var v := Element(rest);
      var d :| d in rest;
      if free[d] < free[best] {
        best := d;
      }
      rest := rest - {d};
    }
    return Some(best);
  }

  /** Appending an assignment leaves the earlier ones as they were. */
  lemma AssignedExtend(bs: seq<BookingRecord>, rs: seq<CourtAssignment>, a: CourtAssignment, x: int)
    requires |rs| < |bs| && AllAssigned(bs, rs, x)
    ensures forall i :: 0 <= i < |rs| ==> AssignedAt(bs, rs + [a], x, i)
  {
    forall i | 0 <= i < |rs|
      ensures AssignedAt(bs, rs + [a], x, i)
    {
      assert (rs + [a])[..i] == rs[..i];
      assert (rs + [a])[i] == rs[i];
      assert AssignedAt(bs, rs, x, i);
    }
  }

  /** The heap after a step: the assigned court is free at the booking's
    * finish plus x, every other court as before. */
  lemma HeapStep(bs: seq<BookingRecord>, rs: seq<CourtAssignment>, free: map<int, int>, k: int, b: BookingRecord, c: int, x: int)
    requires |rs| < |bs| && bs[|rs|] == b && 1 <= c <= k + 1
    requires k == Issued(rs)
    requires forall d :: d in free <==> 1 <= d <= k
    requires forall d :: 1 <= d <= k ==> LastOn(rs, d) >= 0 && free[d] == FreeAt(bs, rs, d, x)
    ensures var rs' := rs + [CourtAssignment(b.id, c)];
      var k' := TennisCourts.Max(k, c);
      var free' := free[c := b.finish + x];
      k' == Issued(rs')
      && (forall d :: d in free' <==> 1 <= d <= k')
      && forall d :: 1 <= d <= k' ==> LastOn(rs', d) >= 0 && free'[d] == FreeAt(bs, rs', d, x)
  {
    var rs' := rs + [CourtAssignment(b.id, c)];
    assert rs'[..|rs'| - 1] == rs;
  }

  /** The court the loop picks for the next booking is the one
    * `AssignedAt` describes. */
  lemma StepAssigned(bs: seq<BookingRecord>, rs: seq<CourtAssignment>, free: map<int, int>, top: Option<int>, c: int, x: int)
    requires |rs| < |bs|
    requires forall d :: d in free <==> 1 <= d <= Issued(rs)
    requires forall d :: 1 <= d <= Issued(rs) ==> LastOn(rs, d) >= 0 && free[d] == FreeAt(bs, rs, d, x)
    requires top == None <==> free == map[]
    requires top.Some? ==> top.value in free && forall d :: d in free ==> free[top.value] <= free[d]
    requires c == if top.Some? && free[top.value] <= bs[|rs|].start then top.value else Issued(rs) + 1
    ensures AssignedAt(bs, rs + [CourtAssignment(bs[|rs|].id, c)], x, |rs|)
  {
    var rs' := rs + [CourtAssignment(bs[|rs|].id, c)];
    assert rs'[..|rs|] == rs;
    if top.None? {
      assert 1 !in free;
    }
  }

  /** `assignCourtsWithMaintenance`: sorts the bookings by start and gives
    * each, in that order, the court the heap loop picks; a court is next
    * free maintenanceTime after the finish of its last booking. */
  method AssignCourtsWithMaintenance(bookings: seq<BookingRecord>, maintenanceTime: int)
    returns (sorted: seq<BookingRecord>, result: seq<CourtAssignment>)
    ensures sorted == SortByStart(bookings)
    ensures |result| == |sorted|
    ensures AllAssigned(sorted, result, maintenanceTime)
  {
    sorted := SortByStart(bookings);
    result := [];
    var pq: map<int, int> := map[];
    var courtCounter := 0;
    for i := 0 to |sorted|
      invariant |result| == i
      invariant courtCounter == Issued(result)
      invariant forall d :: d in pq <==> 1 <= d <= courtCounter
      invariant forall d :: 1 <= d <= courtCounter ==> LastOn(result, d) >= 0 && pq[d] == FreeAt(sorted, result, d, maintenanceTime)
      invariant AllAssigned(sorted, result, maintenanceTime)
    {
      var b := sorted[i];
      var top := Peek(pq);
      var courtId;
      if top.Some? && pq[top.value] <= b.start {
        courtId := top.value;
      } else {
        courtCounter := courtCounter + 1;
        courtId := courtCounter;
      }
      StepAssigned(sorted, result, pq, top, courtId, maintenanceTime);
      HeapStep(sorted, result, pq, Issued(result), b, courtId, maintenanceTime);
      AssignedExtend(sorted, result, CourtAssignment(b.id, courtId), maintenanceTime);
      result := result + [CourtAssignment(b.id, courtId)];
      pq := pq[courtId := b.finish + maintenanceTime];
    }
  }

  /** `assignCourts`: the same loop where a court is next free at the
    * finish of its last booking, that is, no maintenance time. */
  method AssignCourts(bookings: seq<BookingRecord>) returns (sorted: seq<BookingRecord>, result: seq<CourtAssignment>)
    ensures sorted == SortByStart(bookings)
    ensures |result| == |sorted|
    ensures AllAssigned(sorted, result, 0)
  {
    sorted, result := AssignCourtsWithMaintenance(bookings, 0);
  }

  /** A prefix of the assignments is made by the same loop. */
  lemma AssignedPrefix(bs: seq<BookingRecord>, rs: seq<CourtAssignment>, x: int, m: int)
    requires AllAssigned(bs, rs, x) && 0 <= m <= |rs|
    ensures AllAssigned(bs, rs[..m], x)
  {
    forall i | 0 <= i < m
      ensures AssignedAt(bs, rs[..m], x, i)
    {
      assert rs[..m][..i] == rs[..i];
      assert AssignedAt(bs, rs, x, i);
    }
  }

  /** Court ids are issued consecutively from 1: each assignment names a
    * court already opened or the next one, and every court up to the
    * number opened has been given at least one booking. */
  lemma {:induction false} CourtIdsConsecutive(bs: seq<BookingRecord>, rs: seq<CourtAssignment>, x: int)
    requires AllAssigned(bs, rs, x)
    ensures forall i :: 0 <= i < |rs| ==> 1 <= rs[i].courtId <= Issued(rs[..i]) + 1
    ensures forall d :: 1 <= d <= Issued(rs) ==> LastOn(rs, d) >= 0
    decreases |rs|
  {
    if |rs| > 0 {
      var n := |rs| - 1;
      AssignedPrefix(bs, rs, x, n);
      CourtIdsConsecutive(bs, rs[..n], x);
      assert AssignedAt(bs, rs, x, n);
      forall i | 0 <= i < n
        ensures 1 <= rs[i].courtId <= Issued(rs[..i]) + 1
      {
        assert rs[..n][i] == rs[i] && rs[..n][..i] == rs[..i];
      }
      assert rs == rs[..n] + [rs[n]];
      OpenedCovered(rs[..n], rs[n]);
    }
  }

  /** Appending an assignment to an opened court or to the next one keeps
    * every opened court in use. */
  lemma OpenedCovered(prev: seq<CourtAssignment>, a: CourtAssignment)
    requires forall d :: 1 <= d <= Issued(prev) ==> LastOn(prev, d) >= 0
    requires 1 <= a.courtId <= Issued(prev) + 1
    ensures forall d :: 1 <= d <= Issued(prev + [a]) ==> LastOn(prev + [a], d) >= 0
  {
    IssuedAppend(prev, a);
    var rs := prev + [a];
    assert rs[..|prev|] == prev;
    forall d | 1 <= d <= Issued(rs) ensures LastOn(rs, d) >= 0 {
      if d != a.courtId {
        assert LastOn(rs, d) == LastOn(prev, d);
      }
    }
  }

  /** Two bookings given the same court follow one another there: the
    * earlier one finishes, plus the maintenance time, by the start of the
    * later one. */
  lemma {:induction false} SameCourtApart(bs: seq<BookingRecord>, rs: seq<CourtAssignment>, x: int, i: int, j: int)
    requires AllAssigned(bs, rs, x) && x >= 0
    requires forall k :: 0 <= k < |bs| ==> bs[k].start <= bs[k].finish
    requires 0 <= i < j < |rs| && rs[i].courtId == rs[j].courtId
    ensures bs[i].finish + x <= bs[j].start
    decreases j
  {
    var prev := rs[..j];
    var c := rs[j].courtId;
    assert AssignedAt(bs, rs, x, j);
    assert prev[i].courtId == c;
    var l := LastOn(prev, c);
    assert i <= l;
    if i < l {
      SameCourtApart(bs, rs, x, i, l);
    }
  }

  /** No two bookings on one court overlap, maintenance time included. */
  lemma NoOverlapOnCourt(bs: seq<BookingRecord>, rs: seq<CourtAssignment>, x: int)
    requires AllAssigned(bs, rs, x) && x >= 0
    requires forall k :: 0 <= k < |bs| ==> bs[k].start <= bs[k].finish
    ensures forall i, j :: 0 <= i < j < |rs| && rs[i].courtId == rs[j].courtId ==> bs[i].finish + x <= bs[j].start
  {
    forall i, j | 0 <= i < j < |rs| && rs[i].courtId == rs[j].courtId
      ensures bs[i].finish + x <= bs[j].start
    {
      SameCourtApart(bs, rs, x, i, j);
    }
  }

  /** However many bookings are in use at an instant, the loop without
    * maintenance has opened at least that many courts. */
  lemma CourtsCoverOverlap(bs: seq<BookingRecord>, rs: seq<CourtAssignment>, t: int)
    requires AllAssigned(bs, rs, 0) && |rs| == |bs|
    requires forall k :: 0 <= k < |bs| ==> bs[k].start <= bs[k].finish
    ensures Overlap(bs, t) <= Issued(rs)
  {
    NoOverlapOnCourt(bs, rs, 0);
    CourtIdsConsecutive(bs, rs, 0);
    var S := InUseAt(bs, t);
    var K := Issued(rs);
    var f := map i | i in S :: rs[i].courtId;
    CourtsMembers(K);
    assert forall i :: i in S ==> f[i] in Courts(K);
    assert forall i, j :: i in S && j in S && i < j ==> f[i] != f[j];
    CardInjective(S, Courts(K), f);
    CourtsCard(K);
    OverlapCard(bs, t);
  }

  /** The last court opened was opened by some booking j, when the earlier
    * bookings had opened one court fewer. */
  lemma {:induction false} OpenedAt(bs: seq<BookingRecord>, rs: seq<CourtAssignment>, x: int) returns (j: int)
    requires AllAssigned(bs, rs, x) && Issued(rs) >= 1
    ensures 0 <= j < |rs| && rs[j].courtId == Issued(rs) && Issued(rs[..j]) == Issued(rs) - 1
    decreases |rs|
  {
    var n := |rs| - 1;
    CourtIdsConsecutive(bs, rs, x);
    if Issued(rs[..n]) == Issued(rs) {
      AssignedPrefix(bs, rs, x, n);
      j := OpenedAt(bs, rs[..n], x);
      assert rs[..n][..j] == rs[..j];
    } else {
      j := n;
    }
  }

  /** When the loop without maintenance opens its last court K at booking
    * j, K bookings are in use at the start of j: j itself and, for each
    * earlier court, the last booking it was given. */
  lemma OverlapReachesCourts(bs: seq<BookingRecord>, rs: seq<CourtAssignment>) returns (t: int)
    requires AllAssigned(bs, rs, 0) && |rs| == |bs| && |rs| > 0
    requires SortedByStart(bs) && Proper(bs)
    ensures Issued(rs) <= Overlap(bs, t)
  {
    CourtIdsConsecutive(bs, rs, 0);
    assert rs[..0] == [];
    assert AssignedAt(bs, rs, 0, 0);
    var K := Issued(rs);
    var j := OpenedAt(bs, rs, 0);
    t := bs[j].start;
    var prev := rs[..j];
    assert AssignedAt(bs, rs, 0, j);
    var g := map d | d in Courts(K) :: if d == K then j else LastOn(prev, d);
    CourtsMembers(K);
    forall d | d in Courts(K)
      ensures g[d] in InUseAt(bs, t)
    {
      if d != K {
        var l := LastOn(prev, d);
        assert 1 <= d <= Issued(prev);
        assert t < FreeAt(bs, prev, d, 0) == bs[l].finish;
        assert l < j && bs[l].start <= t;
      }
    }
    forall d, e | d in Courts(K) && e in Courts(K) && g[d] == g[e]
      ensures d == e
    {
      if d != K && e != K {
        assert prev[g[d]].courtId == d && prev[g[e]].courtId == e;
      }
    }
    CardInjective(Courts(K), InUseAt(bs, t), g);
    CourtsCard(K);
    OverlapCard(bs, t);
  }

  /** `assignCourts` opens the least number of courts possible: the most
    * bookings in use at any one instant. */
  lemma AssignCourtsMinimal(bookings: seq<BookingRecord>, sorted: seq<BookingRecord>, result: seq<CourtAssignment>)
    requires Proper(bookings)
    requires sorted == SortByStart(bookings) && |result| == |sorted| && AllAssigned(sorted, result, 0)
    ensures forall t :: Overlap(bookings, t) <= Issued(result)
    ensures |bookings| > 0 ==> exists t :: Overlap(bookings, t) == Issued(result)
  {
    SortSorted(bookings);
    SortProper(bookings);
    forall t
      ensures Overlap(bookings, t) <= Issued(result)
    {
      SortOverlap(bookings, t);
      CourtsCoverOverlap(sorted, result, t);
    }
    if |bookings| > 0 {
      var t := OverlapReachesCourts(sorted, result);
      SortOverlap(bookings, t);
      CourtsCoverOverlap(sorted, result, t);
    }
  }

  /** The sample bookings, already in start order. */
  function DemoBookings(): seq<BookingRecord> {
    [BookingRecord(1, 1, 4), BookingRecord(2, 2, 6), BookingRecord(3, 5, 7), BookingRecord(4, 8, 9)]
  }

  lemma DemoSorted()
    ensures SortByStart(DemoBookings()) == DemoBookings()
  {
    var d := DemoBookings();
    SortKeepsHead(d[3], []);
    assert [d[3]] == d[3..];
    SortKeepsHead(d[2], d[3..]);
    assert [d[2]] + d[3..] == d[2..];
    SortKeepsHead(d[1], d[2..]);
    assert [d[1]] + d[2..] == d[1..];
    SortKeepsHead(d[0], d[1..]);
    assert [d[0]] + d[1..] == d;
  }

  /** The first two bookings of the sample overlap, so whatever the
    * maintenance time x >= 0, booking 1 opens court 1 and booking 2 opens
    * court 2. */
  lemma DemoFirstTwo(rs: seq<CourtAssignment>, x: int)
    requires x >= 0 && |rs| == 4 && AllAssigned(DemoBookings(), rs, x)
    ensures rs[0] == CourtAssignment(1, 1) && rs[1] == CourtAssignment(2, 2)
  {
    var bs := DemoBookings();
    assert rs[..0] == [];
    assert AssignedAt(bs, rs, x, 0);
    assert rs[..1] == [rs[0]];
    assert AssignedAt(bs, rs, x, 1);
    assert LastOn(rs[..1], 1) == 0;
  }

  /** The assignments of the sample, one prefix at a time. */
  lemma DemoPrefixes(rs: seq<CourtAssignment>, c2: int, c3: int)
    requires |rs| == 4 && rs[0] == CourtAssignment(1, 1) && rs[1] == CourtAssignment(2, 2)
    requires rs[2] == CourtAssignment(3, c2) && rs[3] == CourtAssignment(4, c3)
    ensures Issued(rs[..2]) == 2 && LastOn(rs[..2], 1) == 0 && LastOn(rs[..2], 2) == 1
    ensures Issued(rs[..3]) == TennisCourts.Max(2, c2)
    ensures forall d :: LastOn(rs[..3], d) == if d == c2 then 2 else LastOn(rs[..2], d)
    ensures Issued(rs) == TennisCourts.Max(TennisCourts.Max(2, c2), c3)
  {
    assert rs[..1] == [] + [rs[0]];
    IssuedAppend([], rs[0]);
    assert rs[..2] == rs[..1] + [rs[1]];
    IssuedAppend(rs[..1], rs[1]);
    LastOnAppend(rs[..1], rs[1], 1);
    LastOnAppend(rs[..1], rs[1], 2);
    LastOnAppend([], rs[0], 1);
    assert rs[..3] == rs[..2] + [rs[2]];
    IssuedAppend(rs[..2], rs[2]);
    forall d
      ensures LastOn(rs[..3], d) == if d == c2 then 2 else LastOn(rs[..2], d)
    {
      LastOnAppend(rs[..2], rs[2], d);
    }
    assert rs == rs[..3] + [rs[3]];
    IssuedAppend(rs[..3], rs[3]);
  }

  /** The sample without maintenance: bookings 3 and 4 reuse courts 1 and
    * 2, so two courts are used. */
  lemma DemoCourts(rs: seq<CourtAssignment>)
    requires |rs| == 4 && AllAssigned(DemoBookings(), rs, 0)
    ensures rs == [CourtAssignment(1, 1), CourtAssignment(2, 2), CourtAssignment(3, 1), CourtAssignment(4, 2)]
    ensures Issued(rs) == 2
  {
    var bs := DemoBookings();
    DemoFirstTwo(rs, 0);
    assert AssignedAt(bs, rs, 0, 2);
    assert AssignedAt(bs, rs, 0, 3);
    DemoPrefixes(rs, rs[2].courtId, rs[3].courtId);
    assert FreeAt(bs, rs[..2], 1, 0) == 4 && FreeAt(bs, rs[..2], 2, 0) == 6;
    assert rs[2].courtId == 1;
    assert LastOn(rs[..3], 1) == 2 && LastOn(rs[..3], 2) == 1;
    assert FreeAt(bs, rs[..3], 1, 0) == 7 && FreeAt(bs, rs[..3], 2, 0) == 6;
    assert rs[3].courtId == 2;
  }

  /** The sample with a maintenance time of 2: bookings 2 and 3 each open a
    * new court, and booking 4 goes back to court 1. */
  lemma DemoMaintenanceCourts(rs: seq<CourtAssignment>)
    requires |rs| == 4 && AllAssigned(DemoBookings(), rs, 2)
    ensures rs == [CourtAssignment(1, 1), CourtAssignment(2, 2), CourtAssignment(3, 3), CourtAssignment(4, 1)]
  {
    var bs := DemoBookings();
    DemoFirstTwo(rs, 2);
    assert AssignedAt(bs, rs, 2, 2);
    assert AssignedAt(bs, rs, 2, 3);
    DemoPrefixes(rs, rs[2].courtId, rs[3].courtId);
    assert FreeAt(bs, rs[..2], 1, 2) == 6 && FreeAt(bs, rs[..2], 2, 2) == 8;
    assert rs[2].courtId == 3;
    assert LastOn(rs[..3], 1) == 0 && LastOn(rs[..3], 2) == 1 && LastOn(rs[..3], 3) == 2;
    assert FreeAt(bs, rs[..3], 1, 2) == 6 && FreeAt(bs, rs[..3], 2, 2) == 8 && FreeAt(bs, rs[..3], 3, 2) == 9;
    assert rs[3].courtId == 1;
  }

  /** The sample run of `assignCourts` uses two courts; with a maintenance
    * time of 2 it uses three. */
  method Example() returns (r1: seq<CourtAssignment>, r2: seq<CourtAssignment>)
    ensures r1 == [CourtAssignment(1, 1), CourtAssignment(2, 2), CourtAssignment(3, 1), CourtAssignment(4, 2)]
    ensures Issued(r1) == 2
    ensures r2 == [CourtAssignment(1, 1), CourtAssignment(2, 2), CourtAssignment(3, 3), CourtAssignment(4, 1)]
  {
    DemoSorted();
    var s1;
    s1, r1 := AssignCourts(DemoBookings());
    DemoCourts(r1);
    var s2;
    s2, r2 := AssignCourtsWithMaintenance(DemoBookings(), 2);
    DemoMaintenanceCourts(r2);
  }
}
