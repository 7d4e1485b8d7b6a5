/** `minCourtsNeeded`, the sweep over sorted start and end times that counts
  * the courts needed without assigning them, and `isConflict`. */
module TennisSweep {
  import opened Wrappers
  import opened TennisCourts
  import TennisAssign

  /** `isConflict`: two bookings conflict unless one finishes no later than
    * the other starts. */
  predicate IsConflict(a: BookingRecord, b: BookingRecord) {
    !(a.finish <= b.start || b.finish <= a.start)
  }

  /** Two bookings that each start before they finish conflict exactly when
    * some instant is in both. */
  lemma ConflictIffShared(a: BookingRecord, b: BookingRecord)
    requires a.start < a.finish && b.start < b.finish
    ensures IsConflict(a, b) <==> exists t :: InUse(a, t) && InUse(b, t)
  {
    if IsConflict(a, b) {
      var t := Max(a.start, b.start);
      assert InUse(a, t) && InUse(b, t);
    }
  }

  lemma ConflictSymmetric(a: BookingRecord, b: BookingRecord)
    ensures IsConflict(a, b) <==> IsConflict(b, a)
  {
  }

  /** The dry run: 1–4 does not conflict with 4–6, and does with 3–5. */
  lemma ConflictExamples()
    ensures !IsConflict(BookingRecord(1, 1, 4), BookingRecord(2, 4, 6))
    ensures IsConflict(BookingRecord(1, 1, 4), BookingRecord(3, 3, 5))
  {
  }

  function Starts(bs: seq<BookingRecord>): seq<int> {
    seq(|bs|, k requires 0 <= k < |bs| => bs[k].start)
  }

  function Ends(bs: seq<BookingRecord>): seq<int> {
    seq(|bs|, k requires 0 <= k < |bs| => bs[k].finish)
  }

  predicate SortedInts(s: seq<int>) {
    forall i, j :: 0 <= i < j < |s| ==> s[i] <= s[j]
  }

  function InsertInt(x: int, s: seq<int>): (r: seq<int>)
    ensures multiset(r) == multiset(s) + multiset{x}
    ensures |r| == |s| + 1
  {
    if |s| == 0 || x <= s[0] then [x] + s
    else
      assert s == [s[0]] + s[1..];
      [s[0]] + InsertInt(x, s[1..])
  }

  lemma {:induction false} InsertIntSorted(x: int, s: seq<int>)
    requires SortedInts(s)
    ensures SortedInts(InsertInt(x, s))
    decreases |s|
  {
    if |s| > 0 && s[0] < x {
      var rest := InsertInt(x, s[1..]);
      InsertIntSorted(x, s[1..]);
      InsertIntAbove(x, s[1..], s[0]);
      assert InsertInt(x, s) == [s[0]] + rest;
    }
  }

  /** Inserting a value no smaller than b into values no smaller than b
    * leaves them all no smaller than b. */
  lemma {:induction false} InsertIntAbove(x: int, s: seq<int>, b: int)
    requires b <= x && forall k :: 0 <= k < |s| ==> b <= s[k]
    ensures forall k :: 0 <= k < |InsertInt(x, s)| ==> b <= InsertInt(x, s)[k]
    decreases |s|
  {
    if |s| > 0 && s[0] < x {
      InsertIntAbove(x, s[1..], b);
      var rest := InsertInt(x, s[1..]);
      assert InsertInt(x, s) == [s[0]] + rest;
    }
  }

  /** The values of s in ascending order; it stands for `Arrays.sort`. */
  function SortInts(s: seq<int>): (r: seq<int>)
    ensures multiset(r) == multiset(s)
    ensures |r| == |s|
  {
    if |s| == 0 then []
    else
      assert s == [s[0]] + s[1..];
      InsertInt(s[0], SortInts(s[1..]))
  }

  lemma {:induction false} SortIntsSorted(s: seq<int>)
    ensures SortedInts(SortInts(s))
    decreases |s|
  {
    if |s| > 0 {
      SortIntsSorted(s[1..]);
      InsertIntSorted(s[0], SortInts(s[1..]));
    }
  }

  /** How many values of s are at most v. */
  function CountLe(s: seq<int>, v: int): nat {
    if |s| == 0 then 0
    else CountLe(s[..|s| - 1], v) + (if s[|s| - 1] <= v then 1 else 0)
  }

  lemma {:induction false} CountLeAppend(u: seq<int>, w: seq<int>, v: int)
    ensures CountLe(u + w, v) == CountLe(u, v) + CountLe(w, v)
    decreases |w|
  {
    if |w| == 0 {
      assert u + w == u;
    } else {
      var n := |w| - 1;
      CountLeAppend(u, w[..n], v);
      assert (u + w)[..|u + w| - 1] == u + w[..n];
    }
  }

  lemma {:induction false} InsertCount(x: int, s: seq<int>, v: int)
    ensures CountLe(InsertInt(x, s), v) == CountLe([x], v) + CountLe(s, v)
    decreases |s|
  {
    if |s| == 0 || x <= s[0] {
      CountLeAppend([x], s, v);
    } else {
      InsertCount(x, s[1..], v);
      CountLeAppend([s[0]], InsertInt(x, s[1..]), v);
      CountLeAppend([s[0]], s[1..], v);
      assert s == [s[0]] + s[1..];
    }
  }

  /** Sorting does not change how many values are at most v. */
  lemma {:induction false} SortCount(s: seq<int>, v: int)
    ensures CountLe(SortInts(s), v) == CountLe(s, v)
    decreases |s|
  {
    if |s| > 0 {
      SortCount(s[1..], v);
      InsertCount(s[0], SortInts(s[1..]), v);
      CountLeAppend([s[0]], s[1..], v);
      assert s == [s[0]] + s[1..];
    }
  }

  lemma {:induction false} CountLeAll(s: seq<int>, v: int)
    requires forall i :: 0 <= i < |s| ==> s[i] <= v
    ensures CountLe(s, v) == |s|
    decreases |s|
  {
    if |s| > 0 {
      CountLeAll(s[..|s| - 1], v);
    }
  }

  lemma {:induction false} CountLeNone(s: seq<int>, v: int)
    requires forall i :: 0 <= i < |s| ==> v < s[i]
    ensures CountLe(s, v) == 0
    decreases |s|
  {
    if |s| > 0 {
      CountLeNone(s[..|s| - 1], v);
    }
  }

  lemma {:induction false} CountLeAtMost(s: seq<int>, v: int)
    ensures CountLe(s, v) <= |s|
    decreases |s|
  {
    if |s| > 0 {
      CountLeAtMost(s[..|s| - 1], v);
    }
  }

  /** In a sorted sequence, the values at most v are exactly those before
    * the first value above v. */
  lemma {:induction false} SortedCountAt(s: seq<int>, v: int, k: int)
    requires SortedInts(s) && 0 <= k <= |s|
    requires k > 0 ==> s[k - 1] <= v
    requires k < |s| ==> v < s[k]
    ensures CountLe(s, v) == k
    decreases |s|
  {
    if |s| > 0 {
      var n := |s| - 1;
      var p := s[..n];
      assert SortedInts(p);
      if k == |s| {
        assert n > 0 ==> p[n - 1] <= s[n];
        SortedCountAt(p, v, n);
      } else {
        assert s[k] <= s[n];
        SortedCountAt(p, v, k);
      }
    }
  }

  /** In a sorted sequence, s[k] <= t exactly when more than k values are at
    * most t. */
  lemma {:induction false} SortedCountIndex(s: seq<int>, t: int, k: int)
    requires SortedInts(s) && 0 <= k < |s|
    ensures s[k] <= t ==> CountLe(s, t) >= k + 1
    ensures t < s[k] ==> CountLe(s, t) <= k
    decreases |s|
  {
    var n := |s| - 1;
    var p := s[..n];
    assert SortedInts(p);
    if k < n {
      assert s[k] <= s[n];
      SortedCountIndex(p, t, k);
    } else if s[n] <= t {
      forall i | 0 <= i < |p|
        ensures p[i] <= t
      {
        assert s[i] <= s[n];
      }
      CountLeAll(p, t);
    } else {
      CountLeAtMost(p, t);
    }
  }

  lemma {:induction false} CountMono(s: seq<int>, v: int, w: int)
    requires v <= w
    ensures CountLe(s, v) <= CountLe(s, w)
    decreases |s|
  {
    if |s| > 0 {
      CountMono(s[..|s| - 1], v, w);
    }
  }

  lemma StartsPrefix(bs: seq<BookingRecord>, n: int)
    requires 0 <= n <= |bs|
    ensures Starts(bs[..n]) == Starts(bs)[..n] && Ends(bs[..n]) == Ends(bs)[..n]
  {
  }

  /** When every booking starts before it finishes, the bookings started by
    * t less those finished by t are those in use at t. */
  lemma {:induction false} LoadIsOverlap(bs: seq<BookingRecord>, t: int)
    requires Proper(bs)
    ensures CountLe(Starts(bs), t) - CountLe(Ends(bs), t) == Overlap(bs, t)
    decreases |bs|
  {
    if |bs| > 0 {
      var n := |bs| - 1;
      StartsPrefix(bs, n);
      LoadIsOverlap(bs[..n], t);
    }
  }

  /** Every booking that finishes by v has started before v. */
  lemma {:induction false} FinishedStarted(bs: seq<BookingRecord>, v: int)
    requires Proper(bs)
    ensures CountLe(Ends(bs), v) <= CountLe(Starts(bs), v - 1)
    decreases |bs|
  {
    if |bs| > 0 {
      var n := |bs| - 1;
      StartsPrefix(bs, n);
      FinishedStarted(bs[..n], v);
    }
  }

  lemma DominatesSorted(S: seq<int>, E: seq<int>, k: int, v: int)
    requires SortedInts(S) && SortedInts(E) && 0 <= k < |S| && k < |E| && v == E[k]
    requires CountLe(E, v) <= CountLe(S, v - 1)
    ensures S[k] < v
  {
    SortedCountIndex(E, v, k);
    SortedCountIndex(S, v - 1, k);
  }

  /** Every finish at most v belongs to a booking that started before v,
    * counted over the sorted values. */
  lemma SortedFinishedStarted(bs: seq<BookingRecord>, v: int)
    requires Proper(bs)
    ensures CountLe(SortInts(Ends(bs)), v) <= CountLe(SortInts(Starts(bs)), v - 1)
  {
    SortCount(Ends(bs), v);
    FinishedStarted(bs, v);
    SortCount(Starts(bs), v - 1);
  }

  /** The k-th smallest start is below the k-th smallest finish, so the
    * sweep's end index never passes its start index. */
  lemma Dominates(bs: seq<BookingRecord>, k: int)
    requires Proper(bs) && 0 <= k < |bs|
    ensures SortInts(Starts(bs))[k] < SortInts(Ends(bs))[k]
  {
    var S := SortInts(Starts(bs));
    var E := SortInts(Ends(bs));
    SortIntsSorted(Starts(bs));
    SortIntsSorted(Ends(bs));
    var v := E[k];
    SortedFinishedStarted(bs, v);
    DominatesSorted(S, E, k, v);
  }

  /** Some booking starts no earlier than every booking finishes: the
    * bookings for which the sweep reads past the end of `ends`. */
  predicate StartsAfterAllFinish(bs: seq<BookingRecord>) {
    exists a :: a in bs && forall b :: b in bs ==> b.finish <= a.start
  }

  /** The last of the sorted values is the largest. */
  lemma SortedLast(s: seq<int>, u: seq<int>, x: int)
    requires SortedInts(s) && multiset(s) == multiset(u) && x in u
    ensures |s| > 0 && x <= s[|s| - 1] && s[|s| - 1] in u
  {
    assert x in multiset(s);
    var e :| 0 <= e < |s| && s[e] == x;
    assert s[|s| - 1] in multiset(u);
  }

  /** The largest finish is at most the largest start exactly when some
    * booking starts no earlier than every booking finishes. */
  lemma LastFinishIff(bs: seq<BookingRecord>, S: seq<int>, E: seq<int>)
    requires |bs| > 0 && |S| == |bs| && |E| == |bs|
    requires SortedInts(S) && multiset(S) == multiset(Starts(bs))
    requires SortedInts(E) && multiset(E) == multiset(Ends(bs))
    ensures E[|bs| - 1] <= S[|bs| - 1] <==> StartsAfterAllFinish(bs)
  {
    var n := |bs| - 1;
    var lastStart, lastFinish := S[n], E[n];
    forall b | b in bs
      ensures b.finish <= lastFinish && b.start <= lastStart
    {
      var k :| 0 <= k < |bs| && bs[k] == b;
      assert Ends(bs)[k] == b.finish && Starts(bs)[k] == b.start;
      SortedLast(E, Ends(bs), b.finish);
      SortedLast(S, Starts(bs), b.start);
    }
    assert Starts(bs)[0] == bs[0].start && Ends(bs)[0] == bs[0].finish;
    SortedLast(S, Starts(bs), bs[0].start);
    SortedLast(E, Ends(bs), bs[0].finish);
    if lastFinish <= lastStart {
      var k :| 0 <= k < |bs| && Starts(bs)[k] == lastStart;
      assert bs[k] in bs && forall b :: b in bs ==> b.finish <= bs[k].start;
    }
    if StartsAfterAllFinish(bs) {
      var a :| a in bs && forall b :: b in bs ==> b.finish <= a.start;
      var k :| 0 <= k < |bs| && Ends(bs)[k] == lastFinish;
      assert bs[k] in bs && bs[k].finish == lastFinish;
    }
  }

  lemma ProperNotAfterAll(bs: seq<BookingRecord>)
    requires Proper(bs)
    ensures !StartsAfterAllFinish(bs)
  {
    forall a | a in bs
      ensures a.start < a.finish
    {
      var k :| 0 <= k < |bs| && bs[k] == a;
    }
  }

  /** `Arrays.sort`: the array's values, in ascending order. */
  method SortInPlace(a: array<int>)
    modifies a
    ensures a[..] == SortInts(old(a[..]))
  {
    var s := SortInts(a[..]);
    for k := 0 to a.Length
      invariant forall m :: 0 <= m < k ==> a[m] == s[m]
    {
      a[k] := s[k];
    }
    assert a[..] == s;
  }

  /** Every instant has at most m bookings in use when, for each k, the
    * k + 1 smallest starts less the finishes up to the k-th start are at
    * most m. */
  lemma SweepUpper(bs: seq<BookingRecord>, S: seq<int>, E: seq<int>, m: int, t: int)
    requires Proper(bs) && S == SortInts(Starts(bs)) && E == SortInts(Ends(bs))
    requires forall k :: 0 <= k < |S| ==> k + 1 - CountLe(E, S[k]) <= m
    requires m >= 0
    ensures Overlap(bs, t) <= m
  {
    SortIntsSorted(Starts(bs));
    LoadIsOverlap(bs, t);
    SortCount(Starts(bs), t);
    SortCount(Ends(bs), t);
    CountBound(S, E, m, t);
  }

  /** The counting half of SweepUpper: the starts up to t less the
    * finishes up to t are bounded by the bound at the last start up to t. */
  lemma CountBound(S: seq<int>, E: seq<int>, m: int, t: int)
    requires SortedInts(S) && m >= 0
    requires forall k :: 0 <= k < |S| ==> k + 1 - CountLe(E, S[k]) <= m
    ensures CountLe(S, t) - CountLe(E, t) <= m
  {
    var p := CountLe(S, t);
    CountLeAtMost(S, t);
    if p > 0 {
      SortedCountIndex(S, t, p - 1);
      CountMono(E, S[p - 1], t);
      assert p - CountLe(E, S[p - 1]) <= m;
    }
  }

  /** The bound m is reached: at the start of booking w, when m is not 0;
    * and m is 0 only when there are no bookings. */
  lemma SweepAttained(bs: seq<BookingRecord>, S: seq<int>, E: seq<int>, m: int, w: int)
    requires Proper(bs) && |bs| > 0 && S == SortInts(Starts(bs)) && E == SortInts(Ends(bs))
    requires forall k :: 0 <= k < |S| ==> k + 1 - CountLe(E, S[k]) <= m
    requires m >= 0
    requires m == 0 || (0 <= w < |S| && m == w + 1 - CountLe(E, S[w]))
    ensures 0 <= w < |bs| && Overlap(bs, S[w]) == m
    ensures m <= |bs|
  {
    SortIntsSorted(Starts(bs));
    SortIntsSorted(Ends(bs));
    Dominates(bs, 0);
    SortedCountIndex(E, S[0], 0);
    assert 1 - CountLe(E, S[0]) <= m;
    var t := S[w];
    SortedCountIndex(S, t, w);
    LoadIsOverlap(bs, t);
    SortCount(Starts(bs), t);
    SortCount(Ends(bs), t);
    SweepUpper(bs, S, E, m, t);
  }

  /** The sweep of lines 38-50 over sorted starts and ends: it fails when
    * the end index reaches n before the start index does; otherwise, for
    * every k, the k + 1 smallest starts less the finishes up to the k-th
    * start are at most the result, which is 0 or reached at start w. */
  method Sweep(starts: array<int>, ends: array<int>, ghost S: seq<int>, ghost E: seq<int>) returns (r: Result<int>, ghost w: int)
    requires starts[..] == S && ends[..] == E && |S| == |E|
    requires SortedInts(S) && SortedInts(E)
    ensures r.Err? <==> |S| > 0 && E[|S| - 1] <= S[|S| - 1]
    ensures r.Err? ==> r.error == ArrayIndexOutOfBoundsException
    ensures r.Ok? ==> r.value >= 0
    ensures r.Ok? ==> forall k :: 0 <= k < |S| ==> k + 1 - CountLe(E, S[k]) <= r.value
    ensures r.Ok? ==> r.value == 0 || (0 <= w < |S| && r.value == w + 1 - CountLe(E, S[w]))
  {
    var n := starts.Length;
    var i, j, used, maxUsed := 0, 0, 0, 0;
    w := 0;
    while i < n
      invariant 0 <= i <= n && 0 <= j <= n && used == i - j
      invariant j > 0 && i < n ==> E[j - 1] <= S[i]
      invariant i > 0 && j < n ==> S[i - 1] < E[j]
      invariant i == n && n > 0 ==> j < n
      invariant forall k :: 0 <= k < i ==> k + 1 - CountLe(E, S[k]) <= maxUsed
      invariant maxUsed >= 0
      invariant maxUsed == 0 || (0 <= w < i && maxUsed == w + 1 - CountLe(E, S[w]))
      decreases (n - i) + (n - j)
    {
      if j >= n {
        assert E[n - 1] <= S[i] <= S[n - 1];
        return Err(ArrayIndexOutOfBoundsException), w;
      }
      if starts[i] < ends[j] {
        SortedCountAt(E, S[i], j);
        ghost var m0 := maxUsed;
        used := used + 1;
        if used > maxUsed {
          w, maxUsed := i, used;
        }
        StartBound(S, E, i, m0, maxUsed);
        i := i + 1;
      } else {
        used := used - 1;
        j := j + 1;
      }
    }
    if n > 0 {
      assert S[n - 1] < E[j] <= E[n - 1];
    }
    r := Ok(maxUsed);
  }

  /** Taking the start at i keeps every start up to i within the peak. */
  lemma StartBound(S: seq<int>, E: seq<int>, i: nat, m: int, m': int)
    requires i < |S|
    requires forall k :: 0 <= k < i ==> k + 1 - CountLe(E, S[k]) <= m
    requires m <= m' && i + 1 - CountLe(E, S[i]) <= m'
    ensures forall k :: 0 <= k < i + 1 ==> k + 1 - CountLe(E, S[k]) <= m'
  {
  }

  /** What the sweep's result over the sorted starts and finishes says about
    * the bookings themselves. */
  lemma SweepMeaning(bookings: seq<BookingRecord>, S: seq<int>, E: seq<int>, r: Result<int>, w: int)
    requires S == SortInts(Starts(bookings)) && E == SortInts(Ends(bookings))
    requires r.Err? <==> |S| > 0 && E[|S| - 1] <= S[|S| - 1]
    requires r.Err? ==> r.error == ArrayIndexOutOfBoundsException
    requires r.Ok? ==> r.value >= 0
    requires r.Ok? ==> forall k :: 0 <= k < |S| ==> k + 1 - CountLe(E, S[k]) <= r.value
    requires r.Ok? ==> r.value == 0 || (0 <= w < |S| && r.value == w + 1 - CountLe(E, S[w]))
    ensures r.Err? <==> StartsAfterAllFinish(bookings)
    ensures r.Err? ==> r.error == ArrayIndexOutOfBoundsException
    ensures Proper(bookings) ==> r.Ok? && 0 <= r.value <= |bookings|
    ensures Proper(bookings) ==> forall t :: Overlap(bookings, t) <= r.value
    ensures Proper(bookings) && |bookings| > 0 ==> exists t :: Overlap(bookings, t) == r.value
  {
    LastFinishMeaning(bookings, S, E, r.Err?);
    if Proper(bookings) {
      ProperNotAfterAll(bookings);
      BoundMeaning(bookings, S, E, r.value, w);
    }
  }

  /** The sweep's failure test, over the sorted starts and finishes, holds
    * exactly when some booking starts no earlier than every booking
    * finishes. */
  lemma LastFinishMeaning(bookings: seq<BookingRecord>, S: seq<int>, E: seq<int>, failed: bool)
    requires S == SortInts(Starts(bookings)) && E == SortInts(Ends(bookings))
    requires failed <==> |S| > 0 && E[|S| - 1] <= S[|S| - 1]
    ensures failed <==> StartsAfterAllFinish(bookings)
  {
    if |bookings| == 0 {
      assert |Starts(bookings)| == 0;
      assert !StartsAfterAllFinish(bookings);
    } else {
      SortIntsSorted(Starts(bookings));
      SortIntsSorted(Ends(bookings));
      LastFinishIff(bookings, S, E);
    }
  }

  /** The sweep's bound over the sorted starts and finishes is the largest
    * number of bookings in use at one instant. */
  lemma BoundMeaning(bookings: seq<BookingRecord>, S: seq<int>, E: seq<int>, m: int, w: int)
    requires Proper(bookings) && m >= 0
    requires S == SortInts(Starts(bookings)) && E == SortInts(Ends(bookings))
    requires forall k :: 0 <= k < |S| ==> k + 1 - CountLe(E, S[k]) <= m
    requires m == 0 || (0 <= w < |S| && m == w + 1 - CountLe(E, S[w]))
    ensures m <= |bookings|
    ensures forall t :: Overlap(bookings, t) <= m
    ensures |bookings| > 0 ==> exists t :: Overlap(bookings, t) == m
  {
    forall t
      ensures Overlap(bookings, t) <= m
    {
      SweepUpper(bookings, S, E, m, t);
    }
    if |bookings| > 0 {
      SweepAttained(bookings, S, E, m, w);
    }
  }

  /** `minCourtsNeeded`: copies the starts and ends into arrays, sorts both
    * and sweeps. It fails reading `ends` past its last index exactly when
    * some booking starts no earlier than every booking finishes; when every
    * booking starts before it finishes, the result is the largest number of
    * bookings in use at one instant. */
  method MinCourtsNeeded(bookings: seq<BookingRecord>) returns (r: Result<int>)
    ensures r.Err? <==> StartsAfterAllFinish(bookings)
    ensures r.Err? ==> r.error == ArrayIndexOutOfBoundsException
    ensures Proper(bookings) ==> r.Ok? && 0 <= r.value <= |bookings|
    ensures Proper(bookings) ==> forall t :: Overlap(bookings, t) <= r.value
    ensures Proper(bookings) && |bookings| > 0 ==> exists t :: Overlap(bookings, t) == r.value
  {
    ghost var S, E := SortInts(Starts(bookings)), SortInts(Ends(bookings));
    ghost var w;
    r, w := SweepBookings(bookings, S, E);
    SweepMeaning(bookings, S, E, r, w);
  }

  /** The two arrays minCourtsNeeded sweeps: the starts and the finishes,
    * each copied and sorted. */
  method SortedCopies(bookings: seq<BookingRecord>) returns (starts: array<int>, ends: array<int>)
    ensures fresh(starts) && fresh(ends)
    ensures starts[..] == SortInts(Starts(bookings)) && ends[..] == SortInts(Ends(bookings))
  {
    var n := |bookings|;
    starts := new int[n];
    ends := new int[n];
    for i := 0 to n
      invariant forall k :: 0 <= k < i ==> starts[k] == bookings[k].start && ends[k] == bookings[k].finish
    {
      starts[i] := bookings[i].start;
      ends[i] := bookings[i].finish;
    }
    assert starts[..] == Starts(bookings) && ends[..] == Ends(bookings);
    SortInPlace(starts);
    SortInPlace(ends);
  }

  /** The arrays of minCourtsNeeded: the starts and the finishes are copied,
    * sorted and swept. */
  method SweepBookings(bookings: seq<BookingRecord>, ghost S: seq<int>, ghost E: seq<int>) returns (r: Result<int>, ghost w: int)
    requires S == SortInts(Starts(bookings)) && E == SortInts(Ends(bookings))
    ensures r.Err? <==> |S| > 0 && E[|S| - 1] <= S[|S| - 1]
    ensures r.Err? ==> r.error == ArrayIndexOutOfBoundsException
    ensures r.Ok? ==> r.value >= 0
    ensures r.Ok? ==> forall k :: 0 <= k < |S| ==> k + 1 - CountLe(E, S[k]) <= r.value
    ensures r.Ok? ==> r.value == 0 || (0 <= w < |S| && r.value == w + 1 - CountLe(E, S[w]))
  {
    var starts, ends := SortedCopies(bookings);
    SortIntsSorted(Starts(bookings));
    SortIntsSorted(Ends(bookings));
    r, w := Sweep(starts, ends, S, E);
  }

  /** The largest number of bookings in use at one instant is unique. */
  lemma SameMaximum(bs: seq<BookingRecord>, m1: int, m2: int)
    requires forall t :: Overlap(bs, t) <= m1
    requires forall t :: Overlap(bs, t) <= m2
    requires exists t :: Overlap(bs, t) == m1
    requires exists t :: Overlap(bs, t) == m2
    ensures m1 == m2
  {
    var t1 :| Overlap(bs, t1) == m1;
    var t2 :| Overlap(bs, t2) == m2;
    assert Overlap(bs, t1) <= m2 && Overlap(bs, t2) <= m1;
  }

  /** The sweep and the court assignment of `assignCourts` agree: the
    * number of courts the assignment opens is the sweep's count. */
  method CountsAgree(bookings: seq<BookingRecord>) returns (needed: Result<int>, courts: int)
    requires Proper(bookings)
    ensures needed == Ok(courts)
  {
    needed := MinCourtsNeeded(bookings);
    var sorted, result := TennisAssign.AssignCourts(bookings);
    TennisAssign.AssignCourtsMinimal(bookings, sorted, result);
    courts := Issued(result);
    if |bookings| > 0 {
      SameMaximum(bookings, needed.value, courts);
    } else {
      assert result == [];
    }
  }

  /** The dry run's bookings, with starts 1, 2, 5, 8 and ends 4, 6, 7, 9:
    * at most two are in use at once, and two are at instant 2. */
  lemma DemoOverlap(t: int)
    ensures Overlap(TennisAssign.DemoBookings(), t) <= 2
    ensures Overlap(TennisAssign.DemoBookings(), 2) == 2
  {
    var d := TennisAssign.DemoBookings();
    assert d[..3][..2] == d[..2] && d[..2][..1] == d[..1] && d[..1][..0] == [];
    assert Overlap(d[..1], t) == (if 1 <= t < 4 then 1 else 0);
    assert Overlap(d[..2], t) == Overlap(d[..1], t) + (if 2 <= t < 6 then 1 else 0);
    assert Overlap(d[..3], t) == Overlap(d[..2], t) + (if 5 <= t < 7 then 1 else 0);
    assert Overlap(d, t) == Overlap(d[..3], t) + (if 8 <= t < 9 then 1 else 0);
    assert Overlap(d[..1], 2) == 1 && Overlap(d[..2], 2) == 2 && Overlap(d[..3], 2) == 2;
  }

  lemma DemoCount(m: int)
    requires forall t :: Overlap(TennisAssign.DemoBookings(), t) <= m
    requires exists t :: Overlap(TennisAssign.DemoBookings(), t) == m
    ensures m == 2
  {
    var t :| Overlap(TennisAssign.DemoBookings(), t) == m;
    DemoOverlap(t);
    assert Overlap(TennisAssign.DemoBookings(), 2) <= m;
  }

  /** Sweeping the dry run's starts and ends gives 2 courts. */
  method Example() returns (r: Result<int>)
    ensures r == Ok(2)
  {
    assert Proper(TennisAssign.DemoBookings());
    r := MinCourtsNeeded(TennisAssign.DemoBookings());
    DemoCount(r.value);
  }
}
