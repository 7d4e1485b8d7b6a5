/** `assignCourtsWithDurability`: a court needs maintenance only after a
  * number of bookings. The heap holds a `CourtState` per court: its id,
  * when it is next free and how many bookings it has had since its last
  * maintenance. */
module TennisDurability {
  import opened Wrappers
  import opened TennisCourts
  import TennisAssign

  /** `CourtState`, polled from the heap, updated in place and offered
    * back. */
  class CourtState {
    var courtId: int
    var nextFree: int
    var usageCount: int

    constructor (courtId: int, nextFree: int, usageCount: int)
      ensures this.courtId == courtId && this.nextFree == nextFree && this.usageCount == usageCount
    {
      this.courtId := courtId;
      this.nextFree := nextFree;
      this.usageCount := usageCount;
    }

    /** Takes booking b: lines 63-70 of `assignCourtsWithDurability`. */
    method Take(b: BookingRecord, maintenanceTime: int, durability: int)
      modifies this
      ensures courtId == old(courtId)
      ensures Court(nextFree, usageCount) == Use(Court(old(nextFree), old(usageCount)), b, maintenanceTime, durability)
    {
      usageCount := usageCount + 1;
      if usageCount == durability {
        nextFree := b.finish + maintenanceTime;
        usageCount := 0;
      } else {
        nextFree := b.finish;
      }
    }
  }

  /** The value of a court's state: when it is next free, and its bookings
    * since the last maintenance. */
  datatype Court = Court(nextFree: int, usageCount: int)

  /** A court that takes booking b: one more use; the use that reaches the
    * durability sends it to maintenance and restarts the count. */
  function Use(cs: Court, b: BookingRecord, maintenanceTime: int, durability: int): Court {
    var usage := cs.usageCount + 1;
    if usage == durability then Court(b.finish + maintenanceTime, 0) else Court(b.finish, usage)
  }

  /** The courts' states after the assignments rs, replayed from an empty
    * heap: an existing court is used, a new one starts with one use and is
    * free at the booking's finish. */
  function Replay(bs: seq<BookingRecord>, rs: seq<CourtAssignment>, x: int, dur: int): map<int, Court>
    requires |rs| <= |bs|
  {
    if |rs| == 0 then map[]
    else
      var n := |rs| - 1;
      var states := Replay(bs, rs[..n], x, dur);
      var c := rs[n].courtId;
      if c in states then states[c := Use(states[c], bs[n], x, dur)]
      else states[c := Court(bs[n].finish, 1)]
  }

  lemma ReplayAppend(bs: seq<BookingRecord>, rs: seq<CourtAssignment>, a: CourtAssignment, x: int, dur: int)
    requires |rs| < |bs|
    ensures var states := Replay(bs, rs, x, dur);
      Replay(bs, rs + [a], x, dur) == if a.courtId in states then states[a.courtId := Use(states[a.courtId], bs[|rs|], x, dur)]
        else states[a.courtId := Court(bs[|rs|].finish, 1)]
  {
    assert (rs + [a])[..|rs|] == rs;
  }

  /** Assignment i is the one the loop makes: booking i takes a court whose
    * next free time is least of all and no later than its start, or, when
    * every court is free only after its start, opens court k + 1, k being
    * the number of courts opened so far. */
  ghost predicate AssignedAt(bs: seq<BookingRecord>, rs: seq<CourtAssignment>, x: int, dur: int, i: int)
    requires 0 <= i < |rs| <= |bs|
  {
    var prev := rs[..i];
    var states := Replay(bs, prev, x, dur);
    var c := rs[i].courtId;
    rs[i].bookingId == bs[i].id
    && ((c in states && states[c].nextFree <= bs[i].start
         && forall d :: d in states ==> states[c].nextFree <= states[d].nextFree)
        || (c == Issued(prev) + 1 && forall d :: d in states ==> bs[i].start < states[d].nextFree))
  }

  ghost predicate AllAssigned(bs: seq<BookingRecord>, rs: seq<CourtAssignment>, x: int, dur: int) {
    |rs| <= |bs| && forall i :: 0 <= i < |rs| ==> AssignedAt(bs, rs, x, dur, i)
  }

  lemma AssignedExtend(bs: seq<BookingRecord>, rs: seq<CourtAssignment>, a: CourtAssignment, x: int, dur: int)
    requires |rs| < |bs| && AllAssigned(bs, rs, x, dur)
    ensures forall i :: 0 <= i < |rs| ==> AssignedAt(bs, rs + [a], x, dur, i)
  {
    forall i | 0 <= i < |rs|
      ensures AssignedAt(bs, rs + [a], x, dur, i)
    {
      assert (rs + [a])[..i] == rs[..i];
      assert (rs + [a])[i] == rs[i];
      assert AssignedAt(bs, rs, x, dur, i);
    }
  }

  /** The court the loop picks for the next booking is the one
    * `AssignedAt` describes. */
  lemma StepAssigned(bs: seq<BookingRecord>, rs: seq<CourtAssignment>, x: int, dur: int, free: map<int, int>, top: Option<int>, c: int)
    requires |rs| < |bs|
    requires forall d :: d in free <==> 1 <= d <= Issued(rs)
    requires forall d :: d in Replay(bs, rs, x, dur) <==> 1 <= d <= Issued(rs)
    requires forall d :: d in free ==> free[d] == Replay(bs, rs, x, dur)[d].nextFree
    requires top == None <==> free == map[]
    requires top.Some? ==> top.value in free && forall d :: d in free ==> free[top.value] <= free[d]
    requires c == if top.Some? && free[top.value] <= bs[|rs|].start then top.value else Issued(rs) + 1
    ensures AssignedAt(bs, rs + [CourtAssignment(bs[|rs|].id, c)], x, dur, |rs|)
  {
    var rs' := rs + [CourtAssignment(bs[|rs|].id, c)];
    assert rs'[..|rs|] == rs;
    if top.None? {
      assert 1 !in free;
    }
  }

  /** The heap's court objects hold exactly the replayed states, each
    * under its own id. */
  ghost predicate Mirrors(pq: map<int, CourtState>, states: map<int, Court>)
    reads pq.Values
  {
    pq.Keys == states.Keys
    && forall d :: d in pq ==> pq[d].courtId == d && Court(pq[d].nextFree, pq[d].usageCount) == states[d]
  }

  /** Polls court c, lets it take booking b and offers it back. */
  method Reuse(pq: map<int, CourtState>, c: int, b: BookingRecord, maintenanceTime: int, durability: int, ghost states: map<int, Court>)
    requires Mirrors(pq, states) && c in pq
    modifies pq[c]
    ensures pq[c].courtId == c
    ensures Mirrors(pq, states[c := Use(states[c], b, maintenanceTime, durability)])
  {
    var cs := pq[c];
    cs.Take(b, maintenanceTime, durability);
    forall d | d in pq && d != c
      ensures unchanged(pq[d])
    {
      assert old(pq[d].courtId) != old(cs.courtId);
    }
  }

  /** Opens court c for booking b: one use, free at the booking's finish. */
  method Open(pq: map<int, CourtState>, c: int, b: BookingRecord, ghost states: map<int, Court>) returns (pq': map<int, CourtState>)
    requires Mirrors(pq, states) && c !in pq
    ensures Mirrors(pq', states[c := Court(b.finish, 1)])
    ensures forall d :: d in pq' ==> (d in pq && pq'[d] == pq[d]) || fresh(pq'[d])
  {
    var cs := new CourtState(c, b.finish, 1);
    pq' := pq[c := cs];
  }

  /** The loop's state after the assignments rs: court ids 1 to courtCounter
    * are open, each in the heap with its replayed state, and every
    * assignment so far is the one the loop makes. */
  ghost predicate Inv(bs: seq<BookingRecord>, rs: seq<CourtAssignment>, pq: map<int, CourtState>, courtCounter: int, x: int, dur: int)
    reads pq.Values
  {
    |rs| <= |bs|
    && courtCounter == Issued(rs)
    && (forall d :: d in pq <==> 1 <= d <= courtCounter)
    && Mirrors(pq, Replay(bs, rs, x, dur))
    && AllAssigned(bs, rs, x, dur)
  }

  /** One iteration of the loop: booking bs[|rs|] takes the court with the
    * least next free time if that court is free by its start, and a new
    * court otherwise. */
  method AssignNext(bs: seq<BookingRecord>, rs: seq<CourtAssignment>, pq: map<int, CourtState>, courtCounter: int, maintenanceTime: int, durability: int)
    returns (rs': seq<CourtAssignment>, pq': map<int, CourtState>, courtCounter': int)
    requires |rs| < |bs| && Inv(bs, rs, pq, courtCounter, maintenanceTime, durability)
    modifies set d | d in pq :: pq[d]
    ensures |rs'| == |rs| + 1 && Inv(bs, rs', pq', courtCounter', maintenanceTime, durability)
    ensures forall d :: d in pq' ==> (d in pq && pq'[d] == pq[d]) || fresh(pq'[d])
  {
    var b := bs[|rs|];
    ghost var states := Replay(bs, rs, maintenanceTime, durability);
    var free := map d | d in pq :: pq[d].nextFree;
    var top := TennisAssign.Peek(free);
    var courtId;
    if top.Some? && pq[top.value].nextFree <= b.start {
      courtId := top.value;
      Reuse(pq, courtId, b, maintenanceTime, durability, states);
      pq', courtCounter' := pq, courtCounter;
    } else {
      courtId := courtCounter + 1;
      assert courtId !in pq;
      pq' := Open(pq, courtId, b, states);
      courtCounter' := courtId;
    }
    StepAssigned(bs, rs, maintenanceTime, durability, free, top, courtId);
    AssignedExtend(bs, rs, CourtAssignment(b.id, courtId), maintenanceTime, durability);
    ReplayAppend(bs, rs, CourtAssignment(b.id, courtId), maintenanceTime, durability);
    IssuedAppend(rs, CourtAssignment(b.id, courtId));
    rs' := rs + [CourtAssignment(b.id, courtId)];
  }

  /** `assignCourtsWithDurability`: sorts the bookings by start and gives
    * each, in that order, the court the heap loop picks, updating that
    * court's state. */
  method AssignCourtsWithDurability(bookings: seq<BookingRecord>, maintenanceTime: int, durability: int)
    returns (sorted: seq<BookingRecord>, result: seq<CourtAssignment>)
    ensures sorted == SortByStart(bookings)
    ensures |result| == |sorted|
    ensures AllAssigned(sorted, result, maintenanceTime, durability)
  {
    sorted := SortByStart(bookings);
    result := [];
    var pq: map<int, CourtState> := map[];
    var courtCounter := 0;
    for i := 0 to |sorted|
      invariant |result| == i
      invariant forall d :: d in pq ==> fresh(pq[d])
      invariant Inv(sorted, result, pq, courtCounter, maintenanceTime, durability)
    {
      result, pq, courtCounter := AssignNext(sorted, result, pq, courtCounter, maintenanceTime, durability);
    }
  }

  /** The number of assignments to court c. */
  function CountOn(rs: seq<CourtAssignment>, c: int): nat {
    if |rs| == 0 then 0
    else CountOn(rs[..|rs| - 1], c) + (if rs[|rs| - 1].courtId == c then 1 else 0)
  }

  lemma CountOnAppend(rs: seq<CourtAssignment>, a: CourtAssignment, c: int)
    ensures CountOn(rs + [a], c) == CountOn(rs, c) + (if a.courtId == c then 1 else 0)
  {
    assert (rs + [a])[..|rs|] == rs;
  }

  lemma MulSign(m: int, k: int)
    requires m >= 1
    ensures k >= 1 ==> m * k >= m
    ensures k <= -1 ==> m * k <= -m
  {
  }

  lemma ModUnique(a: int, m: int, q: int, r: int)
    requires m >= 1 && 0 <= r < m && a == m * q + r
    ensures a % m == r
  {
    var q' := a / m;
    assert a == m * q' + a % m;
    MulSign(m, q - q');
    assert m * (q - q') == m * q - m * q';
  }

  /** Counting one more modulo m. */
  lemma ModStep(n: nat, m: int)
    requires m >= 1
    ensures (n + 1) % m == if n % m + 1 == m then 0 else n % m + 1
  {
    var q := n / m;
    assert n == m * q + n % m;
    if n % m + 1 == m {
      ModUnique(n + 1, m, q + 1, 0);
    } else {
      ModUnique(n + 1, m, q, n % m + 1);
    }
  }

  /** The heap holds exactly the courts that have been used; each is next
    * free at its last booking's finish, plus the maintenance time when that
    * booking sent it to maintenance, and its count is never negative. */
  lemma {:induction false} ReplayLast(bs: seq<BookingRecord>, rs: seq<CourtAssignment>, x: int, dur: int)
    requires |rs| <= |bs|
    ensures forall d :: d in Replay(bs, rs, x, dur) <==> LastOn(rs, d) >= 0
    ensures forall d :: d in Replay(bs, rs, x, dur) ==>
      (var st := Replay(bs, rs, x, dur)[d];
       st.usageCount >= 0
       && st.nextFree == bs[LastOn(rs, d)].finish + (if st.usageCount == 0 then x else 0))
    decreases |rs|
  {
    if |rs| > 0 {
      var n := |rs| - 1;
      var a := rs[n];
      assert rs == rs[..n] + [a];
      ReplayLast(bs, rs[..n], x, dur);
      ReplayAppend(bs, rs[..n], a, x, dur);
      forall d
        ensures LastOn(rs, d) == if a.courtId == d then n else LastOn(rs[..n], d)
      {
        LastOnAppend(rs[..n], a, d);
      }
    }
  }

  /** With a durability of at least 2, court d's count is its number of
    * bookings modulo the durability, and it is sent to maintenance after
    * exactly the bookings that make that number a multiple of the
    * durability. */
  lemma {:induction false} CycleAt(bs: seq<BookingRecord>, rs: seq<CourtAssignment>, x: int, dur: int, d: int)
    requires |rs| <= |bs| && dur >= 2
    ensures d in Replay(bs, rs, x, dur) <==> CountOn(rs, d) > 0
    ensures d in Replay(bs, rs, x, dur) ==>
      (var st := Replay(bs, rs, x, dur)[d];
       LastOn(rs, d) >= 0
       && st.usageCount == CountOn(rs, d) % dur < dur
       && st.nextFree == bs[LastOn(rs, d)].finish + (if CountOn(rs, d) % dur == 0 then x else 0))
    decreases |rs|
  {
    if |rs| > 0 {
      var n := |rs| - 1;
      var a := rs[n];
      assert rs == rs[..n] + [a];
      CycleAt(bs, rs[..n], x, dur, d);
      ReplayAppend(bs, rs[..n], a, x, dur);
      CountOnAppend(rs[..n], a, d);
      LastOnAppend(rs[..n], a, d);
      if a.courtId == d {
        ModStep(CountOn(rs[..n], d), dur);
      }
    }
  }

  lemma ReplayCycle(bs: seq<BookingRecord>, rs: seq<CourtAssignment>, x: int, dur: int)
    requires |rs| <= |bs| && dur >= 2
    ensures forall d :: d in Replay(bs, rs, x, dur) <==> CountOn(rs, d) > 0
    ensures forall d :: d in Replay(bs, rs, x, dur) ==>
      (var st := Replay(bs, rs, x, dur)[d];
       LastOn(rs, d) >= 0
       && st.usageCount == CountOn(rs, d) % dur < dur
       && st.nextFree == bs[LastOn(rs, d)].finish + (if CountOn(rs, d) % dur == 0 then x else 0))
  {
    forall d
      ensures d in Replay(bs, rs, x, dur) <==> CountOn(rs, d) > 0
      ensures d in Replay(bs, rs, x, dur) ==>
        (var st := Replay(bs, rs, x, dur)[d];
         LastOn(rs, d) >= 0
         && st.usageCount == CountOn(rs, d) % dur < dur
         && st.nextFree == bs[LastOn(rs, d)].finish + (if CountOn(rs, d) % dur == 0 then x else 0))
    {
      CycleAt(bs, rs, x, dur, d);
    }
  }

  lemma AssignedPrefix(bs: seq<BookingRecord>, rs: seq<CourtAssignment>, x: int, dur: int, m: int)
    requires AllAssigned(bs, rs, x, dur) && 0 <= m <= |rs|
    ensures AllAssigned(bs, rs[..m], x, dur)
  {
    forall i | 0 <= i < m
      ensures AssignedAt(bs, rs[..m], x, dur, i)
    {
      assert rs[..m][..i] == rs[..i];
      assert AssignedAt(bs, rs, x, dur, i);
    }
  }

  /** Court ids are consecutive from 1: the courts used so far are exactly
    * 1 to the number opened. */
  lemma {:induction false} CourtIdsConsecutive(bs: seq<BookingRecord>, rs: seq<CourtAssignment>, x: int, dur: int)
    requires AllAssigned(bs, rs, x, dur)
    ensures forall d :: d in Replay(bs, rs, x, dur) <==> 1 <= d <= Issued(rs)
    ensures forall i :: 0 <= i < |rs| ==> 1 <= rs[i].courtId
    decreases |rs|
  {
    if |rs| > 0 {
      var n := |rs| - 1;
      var a := rs[n];
      assert rs == rs[..n] + [a];
      AssignedPrefix(bs, rs, x, dur, n);
      CourtIdsConsecutive(bs, rs[..n], x, dur);
      assert AssignedAt(bs, rs, x, dur, n);
      ReplayAppend(bs, rs[..n], a, x, dur);
      IssuedAppend(rs[..n], a);
    }
  }

  /** A court takes a booking only once its previous booking has finished,
    * and when its booking count before booking j is a multiple of the
    * durability (at least 2), booking j starts no earlier than the previous
    * booking's finish plus the maintenance time. */
  lemma {:induction false} SameCourtApart(bs: seq<BookingRecord>, rs: seq<CourtAssignment>, x: int, dur: int, i: int, j: int)
    requires AllAssigned(bs, rs, x, dur) && x >= 0
    requires forall k :: 0 <= k < |bs| ==> bs[k].start <= bs[k].finish
    requires 0 <= i < j < |rs| && rs[i].courtId == rs[j].courtId
    ensures bs[i].finish <= bs[j].start
    ensures dur >= 2 && CountOn(rs[..j], rs[j].courtId) % dur == 0 ==>
      bs[LastOn(rs[..j], rs[j].courtId)].finish + x <= bs[j].start
    decreases j
  {
    var prev := rs[..j];
    var c := rs[j].courtId;
    assert AssignedAt(bs, rs, x, dur, j);
    assert prev[i].courtId == c;
    ReplayLast(bs, prev, x, dur);
    var l := LastOn(prev, c);
    assert i <= l;
    assert c in Replay(bs, prev, x, dur);
    if i < l {
      SameCourtApart(bs, rs, x, dur, i, l);
    }
    if dur >= 2 {
      ReplayCycle(bs, prev, x, dur);
    }
  }

  /** The dry run: durability 2, maintenance 3. */
  function DemoBookings(): seq<BookingRecord> {
    [BookingRecord(1, 1, 4), BookingRecord(2, 5, 7), BookingRecord(3, 8, 10), BookingRecord(4, 12, 14)]
  }

  /** Bookings (1–4) and (5–7) share court 1, which then goes to
    * maintenance until 10, so booking (8–10) opens court 2. */
  lemma DemoCourts(rs: seq<CourtAssignment>)
    requires |rs| == 4 && AllAssigned(DemoBookings(), rs, 3, 2)
    ensures rs[0] == CourtAssignment(1, 1) && rs[1] == CourtAssignment(2, 1) && rs[2] == CourtAssignment(3, 2)
    ensures rs[3].courtId in {1, 2}
  {
    var bs := DemoBookings();
    assert AssignedAt(bs, rs, 3, 2, 0);
    assert rs[..1] == [rs[0]];
    assert rs[0].courtId == 1;
    assert Replay(bs, rs[..1], 3, 2) == map[1 := Court(4, 1)];
    assert AssignedAt(bs, rs, 3, 2, 1);
    assert rs[1].courtId == 1;
    ReplayAppend(bs, rs[..1], rs[1], 3, 2);
    assert rs[..2] == rs[..1] + [rs[1]];
    assert Replay(bs, rs[..2], 3, 2) == map[1 := Court(10, 0)];
    IssuedAppend(rs[..1], rs[1]);
    assert AssignedAt(bs, rs, 3, 2, 2);
    assert rs[2].courtId == 2;
    ReplayAppend(bs, rs[..2], rs[2], 3, 2);
    assert rs[..3] == rs[..2] + [rs[2]];
    assert Replay(bs, rs[..3], 3, 2) == map[1 := Court(10, 0), 2 := Court(10, 1)];
    assert AssignedAt(bs, rs, 3, 2, 3);
  }

  lemma DemoSorted()
    ensures SortByStart(DemoBookings()) == DemoBookings()
  {
    var d := DemoBookings();
    SortKeepsHead(d[3], []);
    assert [d[3]] == d[3..];
    SortKeepsHead(d[2], d[3..]);
    assert [d[2]] + d[3..] == d[2..];
    SortKeepsHead(d[1], d[2..]);
    assert [d[1]] + d[2..] == d[1..];
    SortKeepsHead(d[0], d[1..]);
    assert [d[0]] + d[1..] == d;
  }

  /** The dry run through the method: court 1, court 1, then court 2 for
    * booking (8–10); booking (12–14) finds both courts free at 10. */
  method Example() returns (r: seq<CourtAssignment>)
    ensures |r| == 4
    ensures r[0] == CourtAssignment(1, 1) && r[1] == CourtAssignment(2, 1) && r[2] == CourtAssignment(3, 2)
    ensures r[3].bookingId == 4 && r[3].courtId in {1, 2}
  {
    DemoSorted();
    var s;
    s, r := AssignCourtsWithDurability(DemoBookings(), 3, 2);
    DemoCourts(r);
    assert AssignedAt(s, r, 3, 2, 3);
  }

  /** With durability 1 the count of a new court starts at 1 without being
    * compared with the durability, and each later use makes it larger, so
    * the court is never sent to maintenance: booking (4–6) follows booking
    * (1–4) on court 1 with no maintenance gap. */
  lemma DurabilityOneNeverMaintained(rs: seq<CourtAssignment>)
    requires |rs| == 2 && AllAssigned([BookingRecord(1, 1, 4), BookingRecord(2, 4, 6)], rs, 3, 1)
    ensures rs[0].courtId == 1 && rs[1].courtId == 1
    ensures Replay([BookingRecord(1, 1, 4), BookingRecord(2, 4, 6)], rs, 3, 1)[1] == Court(6, 2)
  {
    var bs := [BookingRecord(1, 1, 4), BookingRecord(2, 4, 6)];
    assert AssignedAt(bs, rs, 3, 1, 0);
    assert rs[..1] == [rs[0]];
    assert Replay(bs, rs[..1], 3, 1) == map[1 := Court(4, 1)];
    assert AssignedAt(bs, rs, 3, 1, 1);
    ReplayAppend(bs, rs[..1], rs[1], 3, 1);
    assert rs == rs[..1] + [rs[1]];
  }

  /** The replay with a new court's first booking counted like any other
    * use, so that it too can reach the durability. */
  function ReplayFixed(bs: seq<BookingRecord>, rs: seq<CourtAssignment>, x: int, dur: int): map<int, Court>
    requires |rs| <= |bs|
  {
    if |rs| == 0 then map[]
    else
      var n := |rs| - 1;
      var states := ReplayFixed(bs, rs[..n], x, dur);
      var c := rs[n].courtId;
      if c in states then states[c := Use(states[c], bs[n], x, dur)]
      else states[c := Use(Court(bs[n].finish, 0), bs[n], x, dur)]
  }

  /** With the fix, every durability of at least 1 sends a court to
    * maintenance after exactly the bookings that make its number of
    * bookings a multiple of the durability. */
  lemma {:induction false} CycleFixedAt(bs: seq<BookingRecord>, rs: seq<CourtAssignment>, x: int, dur: int, d: int)
    requires |rs| <= |bs| && dur >= 1
    ensures d in ReplayFixed(bs, rs, x, dur) <==> CountOn(rs, d) > 0
    ensures d in ReplayFixed(bs, rs, x, dur) ==>
      (var st := ReplayFixed(bs, rs, x, dur)[d];
       LastOn(rs, d) >= 0
       && st.usageCount == CountOn(rs, d) % dur < dur
       && st.nextFree == bs[LastOn(rs, d)].finish + (if CountOn(rs, d) % dur == 0 then x else 0))
    decreases |rs|
  {
    if |rs| > 0 {
      var n := |rs| - 1;
      var a := rs[n];
      assert rs == rs[..n] + [a];
      assert (rs[..n] + [a])[..n] == rs[..n];
      CycleFixedAt(bs, rs[..n], x, dur, d);
      CountOnAppend(rs[..n], a, d);
      LastOnAppend(rs[..n], a, d);
      if a.courtId == d {
        ModStep(CountOn(rs[..n], d), dur);
      }
    }
  }

  /** The fix changes nothing unless the durability is 1. */
  lemma {:induction false} ReplayFixedAgrees(bs: seq<BookingRecord>, rs: seq<CourtAssignment>, x: int, dur: int)
    requires |rs| <= |bs| && dur != 1
    ensures ReplayFixed(bs, rs, x, dur) == Replay(bs, rs, x, dur)
    decreases |rs|
  {
    if |rs| > 0 {
      ReplayFixedAgrees(bs, rs[..|rs| - 1], x, dur);
    }
  }
}
