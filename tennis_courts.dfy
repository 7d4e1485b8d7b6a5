/** Bookings of tennis courts, the stable sort by start time that every
  * follow-up applies first, and the number of bookings in use at an
  * instant, which is the least number of courts any assignment needs. */
module TennisCourts {
  import opened IntSets

  /** `BookingRecord`: a booking holds a court from start up to finish. */
  datatype BookingRecord = BookingRecord(id: int, start: int, finish: int)

  /** `CourtAssignment`: the court a booking was given. */
  datatype CourtAssignment = CourtAssignment(bookingId: int, courtId: int)

  function Max(a: int, b: int): int {
    if a < b then b else a
  }

  predicate SortedByStart(bs: seq<BookingRecord>) {
    forall i, j :: 0 <= i < j < |bs| ==> bs[i].start <= bs[j].start
  }

  /** Every booking starts before it finishes. */
  predicate Proper(bs: seq<BookingRecord>) {
    forall i :: 0 <= i < |bs| ==> bs[i].start < bs[i].finish
  }

  /** Inserts b before the first booking that does not start earlier. */
  function Insert(b: BookingRecord, s: seq<BookingRecord>): (r: seq<BookingRecord>)
    ensures multiset(r) == multiset(s) + multiset{b}
    ensures |r| == |s| + 1
  {
    if |s| == 0 || b.start <= s[0].start then [b] + s
    else
      assert s == [s[0]] + s[1..];
      [s[0]] + Insert(b, s[1..])
  }

  /** Insertion keeps the bookings sorted by start. */
  lemma {:induction false} InsertSorted(b: BookingRecord, s: seq<BookingRecord>)
    requires SortedByStart(s)
    ensures SortedByStart(Insert(b, s))
    decreases |s|
  {
    if |s| > 0 && s[0].start < b.start {
      var rest := Insert(b, s[1..]);
      InsertSorted(b, s[1..]);
      forall j | 0 <= j < |rest|
        ensures s[0].start <= rest[j].start
      {
        assert rest[j] in multiset(rest);
        if rest[j] != b {
          assert rest[j] in multiset(s[1..]);
          var i :| 0 <= i < |s[1..]| && s[1..][i] == rest[j];
          assert s[i + 1] == rest[j];
        }
      }
    }
  }

  /** Stable insertion sort by start; it stands for
    * `bookings.sort(Comparator.comparingInt(b -> b.start))`. */
  function SortByStart(bs: seq<BookingRecord>): (r: seq<BookingRecord>)
    ensures multiset(r) == multiset(bs)
    ensures |r| == |bs|
  {
    if |bs| == 0 then []
    else
      assert bs == [bs[0]] + bs[1..];
      Insert(bs[0], SortByStart(bs[1..]))
  }

  /** A booking that starts no later than an already sorted list stays at its head. */
  lemma SortKeepsHead(b: BookingRecord, s: seq<BookingRecord>)
    requires SortByStart(s) == s && (|s| == 0 || b.start <= s[0].start)
    ensures SortByStart([b] + s) == [b] + s
  {
    assert ([b] + s)[1..] == s;
  }

  /** The sort's result is sorted by start. */
  lemma {:induction false} SortSorted(bs: seq<BookingRecord>)
    ensures SortedByStart(SortByStart(bs))
    decreases |bs|
  {
    if |bs| > 0 {
      SortSorted(bs[1..]);
      InsertSorted(bs[0], SortByStart(bs[1..]));
    }
  }

  /** Sorting keeps every booking proper. */
  lemma SortProper(bs: seq<BookingRecord>)
    requires Proper(bs)
    ensures Proper(SortByStart(bs))
  {
    var s := SortByStart(bs);
    forall i | 0 <= i < |s|
      ensures s[i].start < s[i].finish
    {
      assert s[i] in multiset(bs);
    }
  }

  /** The booking holds its court at instant t: [start, finish). */
  predicate InUse(b: BookingRecord, t: int) {
    b.start <= t < b.finish
  }

  /** The number of bookings in use at instant t. */
  function Overlap(bs: seq<BookingRecord>, t: int): nat {
    if |bs| == 0 then 0
    else Overlap(bs[..|bs| - 1], t) + (if InUse(bs[|bs| - 1], t) then 1 else 0)
  }

  /** The indices of the bookings in use at instant t. */
  ghost function InUseAt(bs: seq<BookingRecord>, t: int): set<int> {
    set i | 0 <= i < |bs| && InUse(bs[i], t)
  }

  /** The count is the size of the set of bookings in use. */
  lemma {:induction false} OverlapCard(bs: seq<BookingRecord>, t: int)
    ensures Overlap(bs, t) == |InUseAt(bs, t)|
    decreases |bs|
  {
    if |bs| > 0 {
      var n := |bs| - 1;
      var p := bs[..n];
      OverlapCard(p, t);
      assert n !in InUseAt(p, t);
      if InUse(bs[n], t) {
        assert InUseAt(bs, t) == InUseAt(p, t) + {n};
      } else {
        assert InUseAt(bs, t) == InUseAt(p, t);
      }
    }
  }

  lemma {:induction false} OverlapAppend(u: seq<BookingRecord>, v: seq<BookingRecord>, t: int)
    ensures Overlap(u + v, t) == Overlap(u, t) + Overlap(v, t)
    decreases |v|
  {
    if |v| == 0 {
      assert u + v == u;
    } else {
      var n := |v| - 1;
      OverlapAppend(u, v[..n], t);
      assert (u + v)[..|u + v| - 1] == u + v[..n];
    }
  }

  lemma {:induction false} InsertOverlap(b: BookingRecord, s: seq<BookingRecord>, t: int)
    ensures Overlap(Insert(b, s), t) == Overlap([b], t) + Overlap(s, t)
    decreases |s|
  {
    if |s| == 0 || b.start <= s[0].start {
      OverlapAppend([b], s, t);
    } else {
      InsertOverlap(b, s[1..], t);
      OverlapAppend([s[0]], Insert(b, s[1..]), t);
      OverlapAppend([s[0]], s[1..], t);
      assert s == [s[0]] + s[1..];
    }
  }

  /** Sorting does not change how many bookings are in use at any instant. */
  lemma {:induction false} SortOverlap(bs: seq<BookingRecord>, t: int)
    ensures Overlap(SortByStart(bs), t) == Overlap(bs, t)
    decreases |bs|
  {
    if |bs| > 0 {
      SortOverlap(bs[1..], t);
      InsertOverlap(bs[0], SortByStart(bs[1..]), t);
      OverlapAppend([bs[0]], bs[1..], t);
      assert bs == [bs[0]] + bs[1..];
    }
  }

  /** The court ids 1 to k. */
  ghost function Courts(k: int): set<int>
    decreases k
  {
    if k <= 0 then {} else Courts(k - 1) + {k}
  }

  lemma {:induction false} CourtsMembers(k: int)
    ensures forall d :: d in Courts(k) <==> 1 <= d <= k
    decreases k
  {
    if k > 0 {
      CourtsMembers(k - 1);
    }
  }

  lemma {:induction false} CourtsCard(k: nat)
    ensures |Courts(k)| == k
  {
    if k > 0 {
      CourtsCard(k - 1);
      CourtsMembers(k - 1);
      assert k !in Courts(k - 1);
    }
  }

  /** A map that is one-to-one from S into T shows S is no larger than T. */
  lemma {:induction false} CardInjective(S: set<int>, T: set<int>, f: map<int, int>)
    requires forall x :: x in S ==> x in f && f[x] in T
    requires forall x, y :: x in S && y in S && f[x] == f[y] ==> x == y
    ensures |S| <= |T|
    decreases S
  {
    if S != {} {
      ghost var w := Element(S);
      var x :| x in S;
      CardInjective(S - {x}, T - {f[x]}, f);
    }
  }

  /** Any assignment of courts to bookings in which two bookings in use at
    * the same instant never share a court uses at least as many courts as
    * there are bookings in use at that instant. */
  lemma AnyAssignmentNeeds(bs: seq<BookingRecord>, courts: seq<int>, t: int)
    requires |courts| == |bs|
    requires forall i, j :: 0 <= i < j < |bs| && courts[i] == courts[j] ==> !(InUse(bs[i], t) && InUse(bs[j], t))
    ensures Overlap(bs, t) <= |set i | 0 <= i < |bs| :: courts[i]|
  {
    var S := InUseAt(bs, t);
    var used := set i | 0 <= i < |bs| :: courts[i];
    var f := map i | i in S :: courts[i];
    assert forall x, y :: x in S && y in S && x < y ==> f[x] != f[y];
    CardInjective(S, used, f);
    OverlapCard(bs, t);
  }

  /** The largest court id given so far; courts are numbered from 1, so it
    * is the number of courts opened. */
  function Issued(rs: seq<CourtAssignment>): (k: int)
    ensures k >= 0
    ensures forall i :: 0 <= i < |rs| ==> rs[i].courtId <= k
  {
    if |rs| == 0 then 0
    else Max(Issued(rs[..|rs| - 1]), rs[|rs| - 1].courtId)
  }

  /** The index of the last assignment to court c, or -1 if there is none. */
  function LastOn(rs: seq<CourtAssignment>, c: int): (l: int)
    ensures -1 <= l < |rs|
    ensures l >= 0 ==> rs[l].courtId == c
    ensures forall i :: l < i < |rs| ==> rs[i].courtId != c
  {
    if |rs| == 0 then -1
    else if rs[|rs| - 1].courtId == c then |rs| - 1
    else LastOn(rs[..|rs| - 1], c)
  }

  lemma IssuedAppend(rs: seq<CourtAssignment>, a: CourtAssignment)
    ensures Issued(rs + [a]) == Max(Issued(rs), a.courtId)
  {
    assert (rs + [a])[..|rs|] == rs;
  }

  lemma LastOnAppend(rs: seq<CourtAssignment>, a: CourtAssignment, c: int)
    ensures LastOn(rs + [a], c) == if a.courtId == c then |rs| else LastOn(rs, c)
  {
    assert (rs + [a])[..|rs|] == rs;
  }
}
