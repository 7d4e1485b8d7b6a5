/** A fixed on/off schedule between two dates and the check whether a
  * timestamp falls in one of its "on" intervals. Time is counted in
  * nanoseconds in UTC and a date by its day number, so the start of a day
  * is its number times the length of a day. */
module ScheduleInterval {
  import opened Wrappers

  const NANOS_PER_HOUR: int := 3_600_000_000_000
  const NANOS_PER_DAY: int := 24 * NANOS_PER_HOUR

  /** A closed interval of instants. */
  datatype Interval = Interval(st: int, en: int)

  /** `!ts.isBefore(iv.st) && !ts.isAfter(iv.en)`: both ends count. */
  predicate Contains(iv: Interval, ts: int) {
    iv.st <= ts <= iv.en
  }

  /** Some interval of the list contains ts. */
  ghost predicate Covered(ivs: seq<Interval>, ts: int) {
    exists i :: 0 <= i < |ivs| && Contains(ivs[i], ts)
  }

  /** Every interval is non-empty and ends before the next one starts. */
  ghost predicate Ordered(ivs: seq<Interval>) {
    (forall i :: 0 <= i < |ivs| ==> ivs[i].st <= ivs[i].en)
    && forall i, j :: 0 <= i < j < |ivs| ==> ivs[i].en < ivs[j].st
  }

  /** `atStartOfDay(UTC)` of a date. */
  function StartOfDay(day: int): int {
    day * NANOS_PER_DAY
  }

  /** The last nanosecond of a date. */
  function LastInstant(day: int): int {
    StartOfDay(day) + NANOS_PER_DAY - 1
  }

  /** The k-th "on" interval starts 2k periods after the first day begins. */
  function SlotStart(st: int, hours: int, k: int): int {
    StartOfDay(st) + 2 * k * (hours * NANOS_PER_HOUR)
  }

  /** The k-th "on" interval: one period long, cut at the end of the last
    * day. */
  function Slot(st: int, end: int, hours: int, k: int): Interval {
    var s := SlotStart(st, hours, k);
    var e := s + hours * NANOS_PER_HOUR;
    Interval(s, if e < LastInstant(end) then e else LastInstant(end))
  }

  lemma SlotStartMono(st: int, hours: int, k1: int, k2: int)
    requires hours > 0 && k1 <= k2
    ensures SlotStart(st, hours, k1) + 2 * (k2 - k1) * (hours * NANOS_PER_HOUR) == SlotStart(st, hours, k2)
    ensures SlotStart(st, hours, k1) <= SlotStart(st, hours, k2)
  {
    var p := hours * NANOS_PER_HOUR;
    assert 2 * k2 * p == 2 * k1 * p + 2 * (k2 - k1) * p;
    assert p > 0;
    assert (k2 - k1) * p >= 0;
  }

  /** ans is the schedule from st to end with the given period: its k-th
    * entry is the k-th slot, and it has exactly the slots that start
    * before the last instant of the end date. */
  ghost predicate IsSchedule(ans: seq<Interval>, st: int, end: int, hours: int) {
    (forall k :: 0 <= k < |ans| ==> ans[k] == Slot(st, end, hours, k))
    && forall k :: 0 <= k ==> (k < |ans| <==> SlotStart(st, hours, k) < LastInstant(end))
  }

  /** `createSchedule`: rejects a period of no hours and an end before the
    * start, otherwise alternates "on" and "off" periods from the start of
    * the first day to the last instant of the last, keeping the "on" ones. */
  method CreateSchedule(st: int, end: int, hours: int) returns (r: Result<seq<Interval>>)
    ensures hours <= 0 ==> r == Err(IllegalArgumentException)
    ensures hours > 0 && end < st ==> r == Err(IllegalArgumentException)
    ensures hours > 0 && end >= st ==> r.Ok? && IsSchedule(r.value, st, end, hours)
  {
    if hours <= 0 {
      return Err(IllegalArgumentException);
    }
    if end < st {
      return Err(IllegalArgumentException);
    }
    var ans: seq<Interval> := [];
    var stD := StartOfDay(st);
    var enD := LastInstant(end);
    var p := hours * NANOS_PER_HOUR;
    var isOn := true;
    while stD < enD
      invariant isOn ==> stD == SlotStart(st, hours, |ans|)
      invariant !isOn ==> |ans| > 0 && stD == SlotStart(st, hours, |ans| - 1) + p
      invariant |ans| > 0 ==> SlotStart(st, hours, |ans| - 1) < enD
      invariant forall k :: 0 <= k < |ans| ==> ans[k] == Slot(st, end, hours, k)
      decreases enD - stD
    {
      var next := stD + p;
      if isOn {
        var endInterval := if next < enD then next else enD;
        ans := ans + [Interval(stD, endInterval)];
        SlotStartMono(st, hours, |ans| - 1, |ans|);
      } else {
        SlotStartMono(st, hours, |ans| - 1, |ans|);
      }
      isOn := !isOn;
      stD := next;
    }
    SlotStartMono(st, hours, |ans| - 1, |ans|);
    ScheduleCount(ans, st, end, hours);
    return Ok(ans);
  }

  /** The slots that start before the last instant are exactly the first
    * |ans| ones, once the last kept one does and the next one does not. */
  lemma ScheduleCount(ans: seq<Interval>, st: int, end: int, hours: int)
    requires hours > 0
    requires |ans| > 0 ==> SlotStart(st, hours, |ans| - 1) < LastInstant(end)
    requires SlotStart(st, hours, |ans|) >= LastInstant(end)
    ensures forall k :: 0 <= k ==> (k < |ans| <==> SlotStart(st, hours, k) < LastInstant(end))
  {
    forall k | 0 <= k
      ensures k < |ans| <==> SlotStart(st, hours, k) < LastInstant(end)
    {
      if k < |ans| {
        SlotStartMono(st, hours, k, |ans| - 1);
      } else {
        SlotStartMono(st, hours, |ans|, k);
      }
    }
  }

  /** An "on" interval ends before the next one starts: an "off" period of
    * the same length lies between them. */
  lemma SlotsApart(st: int, end: int, hours: int, i: int, j: int)
    requires hours > 0 && i < j
    ensures Slot(st, end, hours, i).en < SlotStart(st, hours, j)
  {
    var p := hours * NANOS_PER_HOUR;
    SlotStartMono(st, hours, i, j);
    AtLeastOnce(j - i, p);
  }

  lemma AtLeastOnce(d: int, p: int)
    requires d >= 1 && p > 0
    ensures 2 * d * p > p
  {
  }

  /** A schedule is sorted and disjoint, and lies between the start of the
    * first day and the last instant of the last. */
  lemma ScheduleOrdered(ans: seq<Interval>, st: int, end: int, hours: int)
    requires hours > 0 && IsSchedule(ans, st, end, hours)
    ensures Ordered(ans)
    ensures forall k :: 0 <= k < |ans| ==> StartOfDay(st) <= ans[k].st && ans[k].en <= LastInstant(end)
  {
    forall i, j | 0 <= i < j < |ans|
      ensures ans[i].en < ans[j].st
    {
      SlotsApart(st, end, hours, i, j);
    }
    forall k | 0 <= k < |ans|
      ensures StartOfDay(st) <= ans[k].st <= ans[k].en <= LastInstant(end)
    {
      SlotStartMono(st, hours, 0, k);
    }
  }

  /** `isTimestampIncludedLinear`: scans every interval. */
  method IsTimestampIncludedLinear(ivs: seq<Interval>, ts: int) returns (b: bool)
    ensures b <==> Covered(ivs, ts)
  {
    for i := 0 to |ivs|
      invariant forall j :: 0 <= j < i ==> !Contains(ivs[j], ts)
    {
      if Contains(ivs[i], ts) {
        return true;
      }
    }
    return false;
  }

  /** `isTimestampIncluded`: binary search. A true answer is always right;
    * on sorted disjoint intervals the answer is exact, so it agrees with
    * the linear scan. */
  method IsTimestampIncluded(ivs: seq<Interval>, ts: int) returns (b: bool)
    ensures b ==> Covered(ivs, ts)
    ensures Ordered(ivs) ==> (b <==> Covered(ivs, ts))
  {
    var l, r := 0, |ivs| - 1;
    while l <= r
      invariant 0 <= l && r < |ivs|
      invariant Ordered(ivs) ==> forall j :: 0 <= j < |ivs| && (j < l || r < j) ==> !Contains(ivs[j], ts)
      decreases r - l
    {
      var mid := (l + r) / 2;
      var iv := ivs[mid];
      if Contains(iv, ts) {
        return true;
      }
      if ts < iv.st {
        r := mid - 1;
      } else {
        l := mid + 1;
      }
    }
    return false;
  }

  /** The demo: 2023-10-01 (day 19631) to 2023-10-03 with 9-hour periods
    * is on at 05:00 on the first day and 07:00 on the third, off at 12:00
    * on the first day and 01:00 on 2023-10-04. */
  method Example() returns (t1: bool, t2: bool, t3: bool, t4: bool)
    ensures t1 && !t2 && t3 && !t4
  {
    var r := CreateSchedule(19631, 19633, 9);
    var schedule := r.value;
    var s := StartOfDay(19631);
    var h := NANOS_PER_HOUR;
    ScheduleOrdered(schedule, 19631, 19633, 9);
    assert 3 < |schedule| by {
      assert SlotStart(19631, 9, 3) < LastInstant(19633);
    }
    assert |schedule| <= 4 by {
      assert SlotStart(19631, 9, 4) >= LastInstant(19633);
    }
    assert schedule[0] == Interval(s, s + 9 * h);
    assert schedule[1] == Interval(s + 18 * h, s + 27 * h);
    assert schedule[2] == Interval(s + 36 * h, s + 45 * h);
    assert schedule[3] == Interval(s + 54 * h, s + 63 * h);
    t1 := IsTimestampIncluded(schedule, s + 5 * h);
    t2 := IsTimestampIncluded(schedule, s + 12 * h);
    t3 := IsTimestampIncluded(schedule, s + 55 * h);
    t4 := IsTimestampIncluded(schedule, s + 73 * h);
  }
}
