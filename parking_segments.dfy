/** The optimised parking level: besides its spots it keeps the free spots
  * as an ordered map from the start of each free segment to its length, so a
  * run is found by looking at segments, not at spots. */
module ParkingSegments {
  import opened Wrappers
  import opened Parking
  import opened IntSets

  /** The segment starting at k holds index i. */
  ghost predicate InSegment(m: map<int, int>, k: int, i: int) {
    k in m && k <= i < k + m[k]
  }

  /** Index i lies in some free segment. */
  ghost predicate Covers(m: map<int, int>, i: int) {
    exists k :: InSegment(m, k, i)
  }

  /** The free segments of a level of n spots: each lies within [0, n) and is
    * non-empty (a level without spots has the one empty segment at 0), and
    * each ends strictly before the next begins. */
  ghost predicate Segments(m: map<int, int>, n: int) {
    (forall k :: k in m ==> 0 <= k && k + m[k] <= n && (1 <= m[k] || (n == 0 && m[k] == 0))) &&
    (forall a, b :: a in m && b in m && a < b ==> a + m[a] < b)
  }

  /** Distinct segments share no index. */
  lemma Apart(m: map<int, int>, n: int, a: int, b: int, i: int)
    requires Segments(m, n) && InSegment(m, a, i) && InSegment(m, b, i)
    ensures a == b
  {
  }

  /** `allocateSegment`: the segment at start gives up its first need spots;
    * a non-empty tail stays free from start + need. */
  function Allocate(m: map<int, int>, start: int, need: int): map<int, int>
    requires start in m
  {
    var remain := m[start] - need;
    var rest := m - {start};
    if remain > 0 then rest[start + need := remain] else rest
  }

  /** Allocating from a segment keeps the segments well formed and frees
    * exactly the allocated indices less. */
  lemma AllocateSpec(m: map<int, int>, n: int, start: int, need: int)
    requires Segments(m, n) && start in m && 1 <= need <= m[start]
    ensures Segments(Allocate(m, start, need), n)
    ensures forall i :: Covers(Allocate(m, start, need), i) <==> Covers(m, i) && !(start <= i < start + need)
  {
    var a := Allocate(m, start, need);
    forall i
      ensures Covers(a, i) <==> Covers(m, i) && !(start <= i < start + need)
    {
      if Covers(a, i) {
        var k :| InSegment(a, k, i);
        if k in m && k != start {
          assert InSegment(m, k, i);
          if start <= i < start + need {
            Apart(m, n, k, start, i);
          }
        } else {
          assert InSegment(m, start, i);
        }
      }
      if Covers(m, i) && !(start <= i < start + need) {
        var k :| InSegment(m, k, i);
        if k == start {
          assert InSegment(a, start + need, i);
        } else {
          assert InSegment(a, k, i);
        }
      }
    }
  }

  /** `TreeMap.lowerKey`: the greatest key below x. */
  ghost function Below(m: map<int, int>, x: int): (r: Option<int>)
    ensures r.Some? ==> r.value in m && r.value < x && forall k :: k in m && k < x ==> k <= r.value
    ensures r.None? ==> forall k :: k in m ==> x <= k
  {
    var c := set k | k in m && k < x;
    assert forall k :: k in m && k < x ==> k in c;
    if c == {} then None else Some(Max(c))
  }

  /** `TreeMap.higherKey`: the least key above x. */
  ghost function Above(m: map<int, int>, x: int): (r: Option<int>)
    ensures r.Some? ==> r.value in m && x < r.value && forall k :: k in m && x < k ==> r.value <= k
    ensures r.None? ==> forall k :: k in m ==> k <= x
  {
    var c := set k | k in m && x < k;
    assert forall k :: k in m && x < k ==> k in c;
    if c == {} then None else Some(Min(c))
  }

  /** The left neighbour of [start, start + len) ends exactly at start. */
  ghost predicate JoinsLeft(m: map<int, int>, start: int) {
    var lo := Below(m, start);
    lo.Some? && lo.value + m[lo.value] == start
  }

  /** The right neighbour of [start, start + len) begins exactly at its end. */
  ghost predicate JoinsRight(m: map<int, int>, start: int, len: int) {
    var hi := Above(m, start);
    hi.Some? && start + len == hi.value
  }

  /** Where the merged segment starts: at the left neighbour when it joins. */
  ghost function NewStart(m: map<int, int>, start: int): int
  {
    if JoinsLeft(m, start) then Below(m, start).value else start
  }

  /** How long the merged segment is: the range and the neighbours it joins. */
  ghost function NewLen(m: map<int, int>, start: int, len: int): int
  {
    len + (if JoinsLeft(m, start) then m[Below(m, start).value] else 0)
        + (if JoinsRight(m, start, len) then m[Above(m, start).value] else 0)
  }

  /** A segment the merge absorbs. */
  ghost predicate Absorbed(m: map<int, int>, start: int, len: int, k: int) {
    (JoinsLeft(m, start) && k == Below(m, start).value) || (JoinsRight(m, start, len) && k == Above(m, start).value)
  }

  /** `mergeFreeSegment`: the freed range [start, start + len) becomes one
    * free segment together with a left neighbour that ends at start and a
    * right neighbour that begins at its end. */
  ghost function Coalesce(m: map<int, int>, start: int, len: int): map<int, int>
  {
    var lo, hi := Below(m, start), Above(m, start);
    var m1 := if JoinsLeft(m, start) then m - {lo.value} else m;
    var m2 := if JoinsRight(m, start, len) then m1 - {hi.value} else m1;
    m2[NewStart(m, start) := NewLen(m, start, len)]
  }

  /** The merged map: the merged segment, and every other segment that was
    * not absorbed, unchanged. */
  lemma CoalesceShape(m: map<int, int>, start: int, len: int)
    requires start !in m
    ensures NewStart(m, start) in Coalesce(m, start, len)
    ensures Coalesce(m, start, len)[NewStart(m, start)] == NewLen(m, start, len)
    ensures forall k :: k in Coalesce(m, start, len) && k != NewStart(m, start) ==>
      k in m && !Absorbed(m, start, len, k) && Coalesce(m, start, len)[k] == m[k]
    ensures forall k :: k in m && !Absorbed(m, start, len, k) ==>
      k in Coalesce(m, start, len) && k != NewStart(m, start) && Coalesce(m, start, len)[k] == m[k]
  {
  }

  /** Where the neighbours of a freed range lie: the left one ends at or
    * before start, the right one begins at or after its end, and every other
    * segment lies beyond them. */
  lemma Neighbours(m: map<int, int>, n: int, start: int, len: int)
    requires Segments(m, n) && 0 <= start && 1 <= len && start + len <= n
    requires forall i :: start <= i < start + len ==> !Covers(m, i)
    ensures start !in m
    ensures Below(m, start).Some? ==> Below(m, start).value + m[Below(m, start).value] <= start
    ensures Above(m, start).Some? ==> start + len <= Above(m, start).value
  {
    if start in m {
      assert InSegment(m, start, start);
      assert Covers(m, start);
      assert false;
    }
    var lo := Below(m, start);
    if lo.Some? && lo.value + m[lo.value] > start {
      assert InSegment(m, lo.value, start);
      assert Covers(m, start);
      assert false;
    }
    var hi := Above(m, start);
    if hi.Some? && hi.value < start + len {
      assert InSegment(m, hi.value, hi.value);
      assert Covers(m, hi.value);
      assert false;
    }
  }

  /** Where the merged segment lies: within [0, n), non-empty, and clear
    * of every segment it did not absorb. */
  lemma MergedSegment(m: map<int, int>, n: int, start: int, len: int)
    requires Segments(m, n) && 0 <= start && 1 <= len && start + len <= n
    requires forall i :: start <= i < start + len ==> !Covers(m, i)
    ensures 0 <= NewStart(m, start) && NewStart(m, start) + NewLen(m, start, len) <= n && 1 <= NewLen(m, start, len)
    ensures forall k :: k in m && !Absorbed(m, start, len, k) && k < NewStart(m, start) ==> k + m[k] < NewStart(m, start)
    ensures forall k :: k in m && !Absorbed(m, start, len, k) && NewStart(m, start) < k ==>
      NewStart(m, start) + NewLen(m, start, len) < k
  {
    Neighbours(m, n, start, len);
  }

  /** Merging a freed range keeps the segments well formed. */
  lemma CoalesceSegments(m: map<int, int>, n: int, start: int, len: int)
    requires Segments(m, n) && 0 <= start && 1 <= len && start + len <= n
    requires forall i :: start <= i < start + len ==> !Covers(m, i)
    ensures Segments(Coalesce(m, start, len), n)
  {
    Neighbours(m, n, start, len);
    CoalesceShape(m, start, len);
    MergedSegment(m, n, start, len);
  }

  /** Merging a freed range adds exactly its indices to the free ones. */
  lemma CoalesceCovers(m: map<int, int>, n: int, start: int, len: int)
    requires Segments(m, n) && 0 <= start && 1 <= len && start + len <= n
    requires forall i :: start <= i < start + len ==> !Covers(m, i)
    ensures forall i :: Covers(Coalesce(m, start, len), i) <==> Covers(m, i) || start <= i < start + len
  {
    Neighbours(m, n, start, len);
    CoalesceShape(m, start, len);
    var c := Coalesce(m, start, len);
    var lo, hi := Below(m, start), Above(m, start);
    var ns := NewStart(m, start);
    forall i
      ensures Covers(c, i) <==> Covers(m, i) || start <= i < start + len
    {
      if Covers(c, i) {
        var k :| InSegment(c, k, i);
        if k == ns {
          if i < start {
            assert InSegment(m, lo.value, i);
          } else if start + len <= i {
            assert InSegment(m, hi.value, i);
          }
        } else {
          assert InSegment(m, k, i);
        }
      }
      if start <= i < start + len {
        assert InSegment(c, ns, i);
      } else if Covers(m, i) {
        var k :| InSegment(m, k, i);
        if Absorbed(m, start, len, k) {
          assert InSegment(c, ns, i);
        } else {
          assert InSegment(c, k, i);
        }
      }
    }
  }

  /** Two neighbouring free indices lie in the same segment. */
  lemma SameSegment(m: map<int, int>, n: int, k: int, j: int)
    requires Segments(m, n) && InSegment(m, k, j) && Covers(m, j + 1)
    ensures InSegment(m, k, j + 1)
  {
    var b :| InSegment(m, b, j + 1);
  }

  /** A run of free indices lies within the one segment holding its first. */
  lemma {:induction false} RunInOneSegment(m: map<int, int>, n: int, k: int, i: int, j: int)
    requires Segments(m, n) && InSegment(m, k, i) && i <= j
    requires forall x :: i <= x <= j ==> Covers(m, x)
    ensures InSegment(m, k, j)
    decreases j - i
  {
    if j > i {
      RunInOneSegment(m, n, k, i, j - 1);
      SameSegment(m, n, k, j - 1);
    }
  }

  /** The need indices from i on are all free. */
  ghost predicate FreeRun(m: map<int, int>, i: int, need: int) {
    forall j :: i <= j < i + need ==> Covers(m, j)
  }

  /** `findSegmentOfSize`: the first segment, in ascending order of start,
    * of at least need spots. */
  ghost function FirstFit(m: map<int, int>, need: int): (r: Option<int>)
    ensures r.Some? ==> r.value in m && need <= m[r.value] && forall k :: k in m && k < r.value ==> m[k] < need
    ensures r.None? ==> forall k :: k in m ==> m[k] < need
  {
    var c := set k | k in m && need <= m[k];
    assert forall k :: k in m && need <= m[k] ==> k in c;
    if c == {} then None else Some(Min(c))
  }

  /** The first fitting segment starts the lowest run of need free spots, and
    * there is none when no segment fits: looking at segments finds what a
    * scan over the spots would. */
  lemma FirstFitLowest(m: map<int, int>, n: int, need: int)
    requires Segments(m, n) && 1 <= need
    ensures FirstFit(m, need).Some? ==> FreeRun(m, FirstFit(m, need).value, need)
    ensures forall i :: FreeRun(m, i, need) ==> FirstFit(m, need).Some? && FirstFit(m, need).value <= i
  {
    var r := FirstFit(m, need);
    if r.Some? {
      forall j | r.value <= j < r.value + need ensures Covers(m, j) {
        assert InSegment(m, r.value, j);
      }
    }
    forall i | FreeRun(m, i, need) ensures r.Some? && r.value <= i {
      assert Covers(m, i);
      var k :| InSegment(m, k, i);
      RunInOneSegment(m, n, k, i, i + need - 1);
      assert need <= m[k];
    }
  }

  /** Freeing the spots just allocated from a segment gives the segments back
    * as they were. */
  lemma AllocateThenCoalesce(m: map<int, int>, n: int, start: int, need: int)
    requires Segments(m, n) && start in m && 1 <= need <= m[start]
    ensures Coalesce(Allocate(m, start, need), start, need) == m
  {
    var a := Allocate(m, start, need);
    CoalesceShape(a, start, need);
    var c := Coalesce(a, start, need);
    var lo, hi := Below(a, start), Above(a, start);
    if lo.Some? {
      assert lo.value in m && lo.value < start;
    }
    assert !JoinsLeft(a, start);
    if m[start] > need {
      assert start + need in a;
      assert hi.Some? && hi.value <= start + need;
      assert JoinsRight(a, start, need);
    } else {
      if hi.Some? {
        assert hi.value in m && start < hi.value;
      }
      assert !JoinsRight(a, start, need);
    }
    assert NewStart(a, start) == start && NewLen(a, start, need) == m[start];
    forall k | k in m ensures k in c && c[k] == m[k] {
      if k != start {
        assert k in a && a[k] == m[k];
        assert !Absorbed(a, start, need, k);
      }
    }
    forall k | k in c ensures k in m {
    }
  }

  /** `TreeMap.lowerKey`: the greatest key below x. */
  method LowerKey(m: map<int, int>, x: int) returns (r: Option<int>)
    ensures r == Below(m, x)
  {
    var keys := set k | k in m && k < x;
    if keys == {} {
      return None;
    }
    var k := LastKey(keys);
    return Some(k);
  }

  /** `TreeMap.higherKey`: the least key above x. */
  method HigherKey(m: map<int, int>, x: int) returns (r: Option<int>)
    ensures r == Above(m, x)
  {
    var keys := set k | k in m && x < k;
    if keys == {} {
      return None;
    }
    var k := FirstKey(keys);
    return Some(k);
  }

  /** The loop of `park` that assigns the vehicle to the spots of a run. */
  method AssignRun(spots: seq<ParkingSpot>, start: nat, need: nat, v: Vehicle) returns (allocation: seq<ParkingSpot>)
    requires start + need <= |spots|
    requires forall i, j :: 0 <= i < j < |spots| ==> spots[i] != spots[j]
    modifies spots
    ensures allocation == spots[start..start + need]
    ensures forall j :: 0 <= j < |spots| ==>
      spots[j].vehicle == if start <= j < start + need then Some(v) else old(spots[j].vehicle)
  {
    allocation := [];
    for i := 0 to need
      invariant allocation == spots[start..start + i]
      invariant forall j :: 0 <= j < |spots| ==>
        spots[j].vehicle == if start <= j < start + i then Some(v) else old(spots[j].vehicle)
    {
      var s := spots[start + i];
      s.Assign(v);
      allocation := allocation + [s];
    }
  }

  /** The loop of `freeSpots` that frees each spot of a run. */
  method FreeRunOf(spots: seq<ParkingSpot>, taken: seq<ParkingSpot>, start: nat)
    requires start + |taken| <= |spots| && taken == spots[start..start + |taken|]
    requires forall i, j :: 0 <= i < j < |spots| ==> spots[i] != spots[j]
    modifies spots
    ensures forall j :: 0 <= j < |spots| ==>
      spots[j].vehicle == if start <= j < start + |taken| then None else old(spots[j].vehicle)
  {
    for i := 0 to |taken|
      invariant forall j :: 0 <= j < |spots| ==>
        spots[j].vehicle == if start <= j < start + i then None else old(spots[j].vehicle)
    {
      assert taken[i] == spots[start + i];
      taken[i].Free();
    }
  }

  /** An optimised level: its spots, and the free ones as an ordered map of
    * segments (start to length). */
  class SegmentLevel {
    const levelNumber: int
    const spots: seq<ParkingSpot>
    var freeSegments: map<int, int>

    /** The spots are distinct and numbered by position, the segments are
      * well formed, and a spot is free exactly when a segment holds it. */
    ghost predicate Valid()
      reads this, spots
    {
      (forall i, j :: 0 <= i < j < |spots| ==> spots[i] != spots[j]) &&
      (forall i :: 0 <= i < |spots| ==> spots[i].id.index == i) &&
      Segments(freeSegments, |spots|) &&
      (forall i :: 0 <= i < |spots| ==> (spots[i].vehicle.None? <==> Covers(freeSegments, i)))
    }

    /** The need spots from i on are all free. */
    ghost predicate FreeRunAt(i: int, need: int)
      reads spots
    {
      0 <= i && i + need <= |spots| && forall j :: i <= j < i + need ==> spots[j].vehicle.None?
    }

    /** A new level starts with all its spots free, as one segment. */
    constructor (levelNumber: int, spots: seq<ParkingSpot>)
      requires forall i, j :: 0 <= i < j < |spots| ==> spots[i] != spots[j]
      requires forall i :: 0 <= i < |spots| ==> spots[i].id.index == i && spots[i].vehicle.None?
      ensures this.levelNumber == levelNumber && this.spots == spots
      ensures freeSegments == map[0 := |spots|]
      ensures Valid()
    {
      this.levelNumber := levelNumber;
      this.spots := spots;
      freeSegments := map[0 := |spots|];
      new;
      forall i | 0 <= i < |spots| ensures Covers(freeSegments, i) {
        assert InSegment(freeSegments, 0, i);
      }
    }

    /** On a valid level the first fitting segment is the lowest run of free
      * spots, and there is a fitting segment exactly when there is such a run. */
    lemma FirstFitIsLowestRun(need: int)
      requires Valid() && 1 <= need
      ensures FirstFit(freeSegments, need).Some? ==> FreeRunAt(FirstFit(freeSegments, need).value, need)
      ensures forall i :: FreeRunAt(i, need) ==> FirstFit(freeSegments, need).Some? && FirstFit(freeSegments, need).value <= i
    {
      var m := freeSegments;
      FirstFitLowest(m, |spots|, need);
      var r := FirstFit(m, need);
      if r.Some? {
        assert InSegment(m, r.value, r.value);
        assert 0 <= r.value && r.value + need <= |spots|;
      }
      forall i | FreeRunAt(i, need) ensures FreeRun(m, i, need) {
      }
    }

    /** `findSegmentOfSize`: walks the segments in ascending order of start. */
    method FindSegmentOfSize(need: int) returns (r: Option<int>)
      ensures r == FirstFit(freeSegments, need)
    {
      var rest := freeSegments.Keys;
      while rest != {}
        invariant rest <= freeSegments.Keys
        invariant forall k :: k in freeSegments && k !in rest ==> freeSegments[k] < need
        invariant forall k, j :: k in freeSegments && k !in rest && j in rest ==> k < j
        decreases |rest|
      {
        var k := FirstKey(rest);
        if freeSegments[k] >= need {
          return Some(k);
        }
        rest := rest - {k};
      }
      return None;
    }

    /** `allocateSegment`. */
    method AllocateSegment(start: int, need: int)
      requires start in freeSegments
      modifies this
      ensures freeSegments == Allocate(old(freeSegments), start, need)
    {
      var currentLen := freeSegments[start];
      freeSegments := freeSegments - {start};
      var remain := currentLen - need;
      if remain > 0 {
        freeSegments := freeSegments[start + need := remain];
      }
    }

    /** `park` on the optimised level: takes the first segment that fits and
      * assigns its first spots, whatever their type. */
    method Park(v: Vehicle) returns (r: Option<seq<ParkingSpot>>)
      requires Valid()
      modifies this, spots
      ensures Valid()
      ensures r.None? <==> old(FirstFit(freeSegments, SpotsNeeded(v))).None?
      ensures r.None? ==> freeSegments == old(freeSegments)
      ensures r.None? ==> forall i :: 0 <= i < |spots| ==> spots[i].vehicle == old(spots[i].vehicle)
      ensures r.Some? ==>
        var start := old(FirstFit(freeSegments, SpotsNeeded(v))).value;
        0 <= start && start + SpotsNeeded(v) <= |spots| &&
        r.value == spots[start..start + SpotsNeeded(v)] &&
        freeSegments == Allocate(old(freeSegments), start, SpotsNeeded(v)) &&
        forall i :: 0 <= i < |spots| ==>
          spots[i].vehicle == if start <= i < start + SpotsNeeded(v) then Some(v) else old(spots[i].vehicle)
    {
      var need := SpotsNeeded(v);
      var start := FindSegmentOfSize(need);
      if start.None? {
        return None;
      }
      var st := start.value;
      ghost var m := freeSegments;
      AllocateSpec(m, |spots|, st, need);
      AllocateSegment(st, need);
      var allocation := AssignRun(spots, st, need, v);
      forall j | 0 <= j < |spots| ensures spots[j].vehicle.None? <==> Covers(freeSegments, j) {
        assert old(spots[j].vehicle).None? <==> Covers(m, j);
      }
      return Some(allocation);
    }

    /** The spots of one earlier allocation: a run of occupied spots, the
      * first of which names where the run starts. */
    ghost predicate Allocation(taken: seq<ParkingSpot>)
      reads spots, taken
    {
      1 <= |taken| && 0 <= taken[0].id.index && taken[0].id.index + |taken| <= |spots| &&
      taken == spots[taken[0].id.index..taken[0].id.index + |taken|] &&
      forall j :: 0 <= j < |taken| ==> taken[j].vehicle.Some?
    }

    /** `freeSpots` on the optimised level: frees the spots and merges their
      * run into the free segments; an empty list fails on its first element. */
    method FreeSpots(taken: seq<ParkingSpot>) returns (r: Result<()>)
      requires Valid()
      requires taken != [] ==> Allocation(taken)
      modifies this, spots
      ensures Valid()
      ensures taken == [] ==> r == Err(IndexOutOfBoundsException) && freeSegments == old(freeSegments)
      ensures taken == [] ==> forall i :: 0 <= i < |spots| ==> spots[i].vehicle == old(spots[i].vehicle)
      ensures taken != [] ==> r == Ok(())
      ensures taken != [] ==> freeSegments == Coalesce(old(freeSegments), taken[0].id.index, |taken|)
      ensures taken != [] ==> forall i :: 0 <= i < |spots| ==>
        spots[i].vehicle == if taken[0].id.index <= i < taken[0].id.index + |taken| then None else old(spots[i].vehicle)
    {
      if taken == [] {
        return Err(IndexOutOfBoundsException);
      }
      var start := taken[0].id.index;
      var len := |taken|;
      ghost var m := freeSegments;
      assert forall i :: start <= i < start + len ==> !Covers(m, i) by {
        forall i | start <= i < start + len ensures !Covers(m, i) {
          assert spots[i] == taken[i - start];
        }
      }
      CoalesceSegments(m, |spots|, start, len);
      CoalesceCovers(m, |spots|, start, len);
      FreeRunOf(spots, taken, start);
      MergeFreeSegment(start, len);
      forall j | 0 <= j < |spots| ensures spots[j].vehicle.None? <==> Covers(freeSegments, j) {
        assert old(spots[j].vehicle).None? <==> Covers(m, j);
      }
      return Ok(());
    }

    /** `mergeFreeSegment`. */
    method MergeFreeSegment(start: int, len: int)
      modifies this
      ensures freeSegments == Coalesce(old(freeSegments), start, len)
    {
      var lower := LowerKey(freeSegments, start);
      var higher := HigherKey(freeSegments, start);
      var newStart, newLen := start, len;
      ghost var m := freeSegments;
      if lower.Some? {
        var lowerLen := freeSegments[lower.value];
        if lower.value + lowerLen == start {
          newStart := lower.value;
          newLen := newLen + lowerLen;
          freeSegments := freeSegments - {lower.value};
        }
      }
      if higher.Some? {
        var higherLen := freeSegments[higher.value];
        if start + len == higher.value {
          newLen := newLen + higherLen;
          freeSegments := freeSegments - {higher.value};
        }
      }
      freeSegments := freeSegments[newStart := newLen];
    }
  }

  /** Parking a vehicle on the optimised level and freeing its spots again
    * leaves the segments and every spot as they were. */
  method ParkThenFreeSegments(level: SegmentLevel, v: Vehicle) returns (parked: bool)
    requires level.Valid()
    modifies level, level.spots
    ensures level.Valid()
    ensures parked <==> old(FirstFit(level.freeSegments, SpotsNeeded(v))).Some?
    ensures level.freeSegments == old(level.freeSegments)
    ensures forall i :: 0 <= i < |level.spots| ==> level.spots[i].vehicle == old(level.spots[i].vehicle)
  {
    ghost var m := level.freeSegments;
    var r := level.Park(v);
    if r.None? {
      return false;
    }
    ghost var start := FirstFit(m, SpotsNeeded(v)).value;
    assert r.value[0] == level.spots[start];
    AllocateThenCoalesce(m, |level.spots|, start, SpotsNeeded(v));
    var freed := level.FreeSpots(r.value);
    return true;
  }
}
