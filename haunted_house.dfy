/** The haunted-house group size: person i joins a group of k people only when
  * low_i <= k - 1 <= high_i. The answer is the largest k with at least k
  * supporters. Three versions: a direct O(n^2) count, an event sweep over
  * sorted events, and a difference array with a prefix sum. */
module HauntedHouse {
  import opened Wrappers

  /** One person's constraint (low, high): at least `low` and at most `high`
    * other people. */
  type Constraint = (int, int)

  /** Person `c` is happy with a group of `k` people, the person included. */
  predicate Supports(c: Constraint, k: int) {
    c.0 + 1 <= k <= c.1 + 1
  }

  /** The number of people in `cs` happy with a group of `k`. */
  function Support(cs: seq<Constraint>, k: int): nat
  {
    if |cs| == 0 then 0
    else Support(cs[..|cs| - 1], k) + (if Supports(cs[|cs| - 1], k) then 1 else 0)
  }

  /** `Support(cs, k)` for k = 0 .. n. */
  function SupportTable(cs: seq<Constraint>, n: nat): (t: seq<int>)
    ensures |t| == n + 1
  {
    seq(n + 1, k => Support(cs, k))
  }

  /** The largest k in [1, top] with c[k] >= k, or 0 when there is none. */
  function LargestAtLeast(c: seq<int>, top: nat): (r: nat)
    requires top < |c|
    ensures r <= top
    ensures r > 0 ==> c[r] >= r
    ensures forall j :: r < j <= top ==> c[j] < j
  {
    if top == 0 then 0
    else if c[top] >= top then top
    else LargestAtLeast(c, top - 1)
  }

  /** The three clauses of `LargestAtLeast`'s contract pin its value down. */
  lemma LargestUnique(c: seq<int>, top: nat, r: nat)
    requires top < |c| && r <= top
    requires r > 0 ==> c[r] >= r
    requires forall j :: r < j <= top ==> c[j] < j
    ensures r == LargestAtLeast(c, top)
  {
  }

  /** Support over a prefix never exceeds support over the whole. */
  lemma {:induction false} SupportPrefix(cs: seq<Constraint>, i: nat, k: int)
    requires i <= |cs|
    ensures Support(cs[..i], k) <= Support(cs, k)
    decreases |cs|
  {
    if i < |cs| {
      assert cs[..|cs| - 1][..i] == cs[..i];
      SupportPrefix(cs[..|cs| - 1], i, k);
    } else {
      assert cs[..i] == cs;
    }
  }

  /** The O(n^2) count: for k from n down to 1, count the supporters of k and
    * return k as soon as the count reaches k. */
  method Solution(n: int, cs: seq<Constraint>) returns (r: int)
    requires 0 <= n <= |cs|
    ensures r == LargestAtLeast(SupportTable(cs[..n], n), n)
  {
    ghost var people := cs[..n];
    ghost var table := SupportTable(people, n);
    var k := n;
    while k >= 1
      invariant 0 <= k <= n
      invariant forall j :: k < j <= n ==> table[j] < j
    {
      var count := 0;
      var i := 0;
      while i < n
        invariant 0 <= i <= n
        invariant count == Support(people[..i], k)
        invariant count < k
      {
        var (l, h) := cs[i];
        if l + 1 <= k && k <= h + 1 {
          count := count + 1;
        }
        assert people[..i + 1][..i] == people[..i];
        if count == k {
          SupportPrefix(people, i + 1, k);
          LargestUnique(table, n, k);
          return k;
        }
        i := i + 1;
      }
      assert people[..i] == people;
      k := k - 1;
    }
    r := 0;
    LargestUnique(table, n, r);
  }

  /** The example of the write-up: six people, answer 3. */
  const Example: seq<Constraint> := [(1, 2), (1, 4), (0, 3), (0, 1), (3, 4), (0, 2)]

  lemma {:induction false} SupportStep(cs: seq<Constraint>, i: nat, k: int)
    requires i < |cs|
    ensures Support(cs[..i + 1], k) == Support(cs[..i], k) + (if Supports(cs[i], k) then 1 else 0)
  {
    assert cs[..i + 1][..i] == cs[..i];
  }

  /** The supporter counts of the example: 3, 5, 4, 3, 2 for k = 1 .. 5. */
  lemma ExampleSupport(k: int)
    ensures Support(Example, k) ==
      if k == 1 then 3 else if k == 2 then 5 else if k == 3 then 4
      else if k == 4 then 3 else if k == 5 then 2 else 0
  {
    assert Example[..0] == [];
    SupportStep(Example, 0, k);
    SupportStep(Example, 1, k);
    SupportStep(Example, 2, k);
    SupportStep(Example, 3, k);
    SupportStep(Example, 4, k);
    SupportStep(Example, 5, k);
    assert Example[..6] == Example;
  }

  lemma ExampleAnswer()
    ensures LargestAtLeast(SupportTable(Example, 6), 6) == 3
  {
    var t := SupportTable(Example, 6);
    ExampleSupport(3);
    ExampleSupport(4);
    ExampleSupport(5);
    ExampleSupport(6);
    LargestUnique(t, 6, 3);
  }

  // ----- the event sweep -----

  /** An event (position, delta): +1 where a person's range starts, -1 just
    * after it ends. */
  type Event = (int, int)

  /** Person `c`'s share of the running sum at step `k`. */
  function Contribution(c: Constraint, k: int): int {
    (if c.0 + 1 <= k then 1 else 0) - (if c.1 + 2 <= k then 1 else 0)
  }

  /** The number of ranges started at or before `k` minus the number ended
    * before `k`: what both the sweep and the prefix sum hold at step `k`. */
  function Net(cs: seq<Constraint>, k: int): int
  {
    if |cs| == 0 then 0
    else Net(cs[..|cs| - 1], k) + Contribution(cs[|cs| - 1], k)
  }

  /** `Net(cs, k)` for k = 0 .. n. */
  function NetTable(cs: seq<Constraint>, n: nat): (t: seq<int>)
    ensures |t| == n + 1
  {
    seq(n + 1, k => Net(cs, k))
  }

  /** Where every person has low <= high, the running sum counts the people
    * supporting k. */
  lemma {:induction false} NetIsSupport(cs: seq<Constraint>, k: int)
    requires forall i :: 0 <= i < |cs| ==> cs[i].0 <= cs[i].1
    ensures Net(cs, k) == Support(cs, k)
    decreases |cs|
  {
    if |cs| > 0 {
      NetIsSupport(cs[..|cs| - 1], k);
    }
  }

  /** So, on such inputs, the sweep and the prefix sum give the answer of
    * the direct count. */
  lemma NetAgreesWithSupport(cs: seq<Constraint>, n: nat)
    requires forall i :: 0 <= i < |cs| ==> cs[i].0 <= cs[i].1
    ensures LargestAtLeast(NetTable(cs, n), n) == LargestAtLeast(SupportTable(cs, n), n)
  {
    forall k | 0 <= k <= n
      ensures NetTable(cs, n)[k] == SupportTable(cs, n)[k]
    {
      NetIsSupport(cs, k);
    }
    assert NetTable(cs, n) == SupportTable(cs, n);
  }

  /** Sum of the deltas of the events at positions up to `k`. */
  function NetAt(es: seq<Event>, k: int): int
  {
    if |es| == 0 then 0
    else NetAt(es[..|es| - 1], k) + (if es[|es| - 1].0 <= k then es[|es| - 1].1 else 0)
  }

  /** Sum of all the deltas. */
  function SumDeltas(es: seq<Event>): int
  {
    if |es| == 0 then 0 else SumDeltas(es[..|es| - 1]) + es[|es| - 1].1
  }

  lemma SumDeltasStep(es: seq<Event>, i: nat)
    requires i < |es|
    ensures SumDeltas(es[..i + 1]) == SumDeltas(es[..i]) + es[i].1
  {
    assert es[..i + 1][..i] == es[..i];
  }

  lemma {:induction false} NetAtAppend(a: seq<Event>, b: seq<Event>, k: int)
    ensures NetAt(a + b, k) == NetAt(a, k) + NetAt(b, k)
    decreases |b|
  {
    if |b| > 0 {
      assert (a + b)[..|a + b| - 1] == a + b[..|b| - 1];
      NetAtAppend(a, b[..|b| - 1], k);
    } else {
      assert a + b == a;
    }
  }

  /** A person's two events hold that person's contribution. */
  lemma PairNet(c: Constraint, k: int)
    ensures NetAt([(c.0 + 1, 1), (c.1 + 2, -1)], k) == Contribution(c, k)
  {
    var pair: seq<Event> := [(c.0 + 1, 1), (c.1 + 2, -1)];
    assert pair[..1][..0] == pair[..0];
    assert NetAt(pair[..1], k) == (if c.0 + 1 <= k then 1 else 0);
  }

  /** Events all at positions >= 1. */
  predicate AllPositive(es: seq<Event>) {
    forall j :: 0 <= j < |es| ==> es[j].0 >= 1
  }

  predicate SortedByPosition(es: seq<Event>) {
    forall i, j :: 0 <= i < j < |es| ==> es[i].0 <= es[j].0
  }

  /** Inserts `e` before the first event at a position not below its own. */
  function Insert(e: Event, s: seq<Event>): (r: seq<Event>)
    ensures multiset(r) == multiset(s) + multiset{e}
    ensures |r| == |s| + 1
  {
    if |s| == 0 || e.0 <= s[0].0 then [e] + s
    else
      assert s == [s[0]] + s[1..];
      [s[0]] + Insert(e, s[1..])
  }

  /** Insertion keeps the events sorted. */
  lemma {:induction false} InsertSorted(e: Event, s: seq<Event>)
    requires SortedByPosition(s)
    ensures SortedByPosition(Insert(e, s))
    decreases |s|
  {
    if |s| > 0 && s[0].0 < e.0 {
      var rest := Insert(e, s[1..]);
      InsertSorted(e, s[1..]);
      forall j | 0 <= j < |rest|
        ensures s[0].0 <= rest[j].0
      {
        assert rest[j] in multiset(rest);
        if rest[j] != e {
          assert rest[j] in multiset(s[1..]);
          var i :| 0 <= i < |s[1..]| && s[1..][i] == rest[j];
          assert s[i + 1] == rest[j];
        }
      }
    }
  }

  /** Stable insertion sort by position; it stands for `List.sort` with a
    * comparator on the position. */
  function SortByPosition(es: seq<Event>): (r: seq<Event>)
    ensures multiset(r) == multiset(es)
  {
    if |es| == 0 then []
    else
      assert es == [es[0]] + es[1..];
      Insert(es[0], SortByPosition(es[1..]))
  }

  /** The sort's result is sorted by position. */
  lemma {:induction false} SortSorted(es: seq<Event>)
    ensures SortedByPosition(SortByPosition(es))
    decreases |es|
  {
    if |es| > 0 {
      SortSorted(es[1..]);
      InsertSorted(es[0], SortByPosition(es[1..]));
    }
  }

  lemma {:induction false} InsertNet(e: Event, s: seq<Event>, k: int)
    ensures NetAt(Insert(e, s), k) == NetAt([e], k) + NetAt(s, k)
    decreases |s|
  {
    if |s| == 0 || e.0 <= s[0].0 {
      NetAtAppend([e], s, k);
    } else {
      InsertNet(e, s[1..], k);
      NetAtAppend([s[0]], Insert(e, s[1..]), k);
      NetAtAppend([s[0]], s[1..], k);
      assert s == [s[0]] + s[1..];
    }
  }

  /** Sorting does not change the running sum at any position. */
  lemma {:induction false} SortNet(es: seq<Event>, k: int)
    ensures NetAt(SortByPosition(es), k) == NetAt(es, k)
    decreases |es|
  {
    if |es| > 0 {
      SortNet(es[1..], k);
      InsertNet(es[0], SortByPosition(es[1..]), k);
      NetAtAppend([es[0]], es[1..], k);
      assert es == [es[0]] + es[1..];
    }
  }

  lemma SortPositive(es: seq<Event>)
    requires AllPositive(es)
    ensures AllPositive(SortByPosition(es))
  {
    var s := SortByPosition(es);
    forall j | 0 <= j < |s|
      ensures s[j].0 >= 1
    {
      assert s[j] in multiset(s);
      assert s[j] in multiset(es);
      var i :| 0 <= i < |es| && es[i] == s[j];
    }
  }

  /** When the events before `idx` are exactly those at positions up to `k`,
    * their deltas add up to the running sum at `k`. */
  lemma {:induction false} NetAtPrefix(es: seq<Event>, idx: nat, k: int)
    requires idx <= |es|
    requires forall j :: 0 <= j < idx ==> es[j].0 <= k
    requires forall j :: idx <= j < |es| ==> es[j].0 > k
    ensures NetAt(es, k) == SumDeltas(es[..idx])
    decreases |es|
  {
    if |es| > idx {
      NetAtPrefix(es[..|es| - 1], idx, k);
      assert es[..|es| - 1][..idx] == es[..idx];
    } else if |es| > 0 {
      assert es[..idx] == es;
      NetAtPrefix(es[..|es| - 1], idx - 1, k);
      assert es[..|es| - 1][..idx - 1] == es[..idx - 1];
      assert es[..idx][..idx - 1] == es[..idx - 1];
    }
  }

  /** Appending person i's two events extends the running sums by that
    * person's contribution. */
  lemma AppendPerson(events: seq<Event>, next: seq<Event>, people: seq<Constraint>, i: nat)
    requires i < |people|
    requires next == events + [(people[i].0 + 1, 1), (people[i].1 + 2, -1)]
    requires forall k :: NetAt(events, k) == Net(people[..i], k)
    ensures forall k :: NetAt(next, k) == Net(people[..i + 1], k)
  {
    var c := people[i];
    assert people[..i + 1][..i] == people[..i];
    forall k
      ensures NetAt(next, k) == Net(people[..i + 1], k)
    {
      NetAtAppend(events, [(c.0 + 1, 1), (c.1 + 2, -1)], k);
      PairNet(c, k);
    }
  }

  /** What the sweep needs of the sorted events. */
  lemma SortedEvents(events: seq<Event>, people: seq<Constraint>)
    requires AllPositive(events)
    requires forall k :: NetAt(events, k) == Net(people, k)
    ensures SortedByPosition(SortByPosition(events))
    ensures AllPositive(SortByPosition(events))
    ensures forall k :: NetAt(SortByPosition(events), k) == Net(people, k)
  {
    SortPositive(events);
    SortSorted(events);
    forall k
      ensures NetAt(SortByPosition(events), k) == Net(people, k)
    {
      SortNet(events, k);
    }
  }

  /** After the events at position `k` of a sorted sequence are consumed,
    * the consumed deltas add up to the running sum at `k`, and every event
    * left lies beyond `k`. */
  lemma SweepSum(sorted: seq<Event>, idx: nat, k: int)
    requires SortedByPosition(sorted)
    requires idx <= |sorted|
    requires forall j :: 0 <= j < idx ==> sorted[j].0 <= k
    requires forall j :: idx <= j < |sorted| ==> sorted[j].0 >= k
    requires idx < |sorted| ==> sorted[idx].0 != k
    ensures forall j :: idx <= j < |sorted| ==> sorted[j].0 > k
    ensures SumDeltas(sorted[..idx]) == NetAt(sorted, k)
  {
    forall j | idx <= j < |sorted|
      ensures sorted[j].0 > k
    {
      assert sorted[idx].0 <= sorted[j].0;
    }
    NetAtPrefix(sorted, idx, k);
  }

  /** `NetAt(es, k)` for k = 0 .. n. */
  function NetAtTable(es: seq<Event>, n: nat): (t: seq<int>)
    ensures |t| == n + 1
  {
    seq(n + 1, k => NetAt(es, k))
  }

  /** The sweep over sorted events: for k = 1 .. n, consume the events at
    * position k into `active` and keep the last k with active >= k. */
  method SweepEvents(n: nat, sorted: seq<Event>) returns (maxK: int)
    requires SortedByPosition(sorted) && AllPositive(sorted)
    ensures maxK == LargestAtLeast(NetAtTable(sorted, n), n)
  {
    ghost var table := NetAtTable(sorted, n);
    var active := 0;
    var idx := 0;
    maxK := 0;
    var k := 1;
    while k <= n
      invariant 1 <= k <= n + 1
      invariant 0 <= idx <= |sorted|
      invariant forall j :: 0 <= j < idx ==> sorted[j].0 < k
      invariant forall j :: idx <= j < |sorted| ==> sorted[j].0 >= k
      invariant active == SumDeltas(sorted[..idx])
      invariant maxK == LargestAtLeast(table, k - 1)
    {
      while idx < |sorted| && sorted[idx].0 == k
        invariant 0 <= idx <= |sorted|
        invariant forall j :: 0 <= j < idx ==> sorted[j].0 <= k
        invariant forall j :: idx <= j < |sorted| ==> sorted[j].0 >= k
        invariant active == SumDeltas(sorted[..idx])
      {
        SumDeltasStep(sorted, idx);
        active := active + sorted[idx].1;
        idx := idx + 1;
      }
      SweepSum(sorted, idx, k);
      if active >= k {
        maxK := k;
      }
      k := k + 1;
    }
  }

  /** The sweep: events +1 at low + 1 and -1 at high + 2, sorted by position,
    * then swept by `SweepEvents`. */
  method SolutionThree(n: int, cs: seq<Constraint>) returns (maxK: int)
    requires 0 <= n <= |cs|
    requires forall i :: 0 <= i < n ==> 0 <= cs[i].0 && -1 <= cs[i].1
    ensures maxK == LargestAtLeast(NetTable(cs[..n], n), n)
  {
    ghost var people := cs[..n];
    var events: seq<Event> := [];
    var i := 0;
    while i < n
      invariant 0 <= i <= n
      invariant AllPositive(events)
      invariant forall k :: NetAt(events, k) == Net(people[..i], k)
    {
      var (l, h) := cs[i];
      ghost var before := events;
      events := events + [(l + 1, 1), (h + 2, -1)];
      AppendPerson(before, events, people, i);
      i := i + 1;
    }
    assert people[..n] == people;
    var sorted := SortByPosition(events);
    SortedEvents(events, people);
    maxK := SweepEvents(n, sorted);
    assert NetAtTable(sorted, n) == NetTable(people, n);
  }

  // ----- the difference array -----

  /** The difference-array entry at position `p`: ranges starting at `p`
    * minus ranges ending just before `p`. */
  function DiffAt(cs: seq<Constraint>, p: int): int
  {
    if |cs| == 0 then 0
    else
      var c := cs[|cs| - 1];
      DiffAt(cs[..|cs| - 1], p) + (if c.0 + 1 == p then 1 else 0) - (if c.1 + 2 == p then 1 else 0)
  }

  /** Each step of the prefix sum adds one difference-array entry. */
  lemma {:induction false} NetStep(cs: seq<Constraint>, k: int)
    ensures Net(cs, k) == Net(cs, k - 1) + DiffAt(cs, k)
    decreases |cs|
  {
    if |cs| > 0 {
      NetStep(cs[..|cs| - 1], k);
    }
  }

  /** With every range starting at 1 or later, nothing is active at 0. */
  lemma {:induction false} NetZero(cs: seq<Constraint>)
    requires forall i :: 0 <= i < |cs| ==> 0 <= cs[i].0 && -1 <= cs[i].1
    ensures Net(cs, 0) == 0
    decreases |cs|
  {
    if |cs| > 0 {
      NetZero(cs[..|cs| - 1]);
    }
  }

  /** Both of a person's difference-array indices, low + 1 and high + 2,
    * lie inside `diff` of size n + 3. */
  predicate InDiff(c: Constraint, n: int) {
    0 <= c.0 + 1 < n + 3 && 0 <= c.1 + 2 < n + 3
  }

  /** The prefix sum over `diff` of size n + 3. A missing person or an index
    * low + 1 or high + 2 outside `diff` throws. */
  method SolutionFour(n: int, cs: seq<Constraint>) returns (res: Result<int>)
    requires 0 <= n
    requires forall i :: 0 <= i < n && i < |cs| ==> cs[i].0 != -1 && cs[i].1 != -2
    ensures res.Err? <==> !(n <= |cs| && forall i :: 0 <= i < n ==> InDiff(cs[i], n))
    ensures res.Err? ==> res.error == ArrayIndexOutOfBoundsException
    ensures res.Ok? ==> n <= |cs| && res.value == LargestAtLeast(NetTable(cs[..n], n), n)
  {
    var diff := new int[n + 3](_ => 0);
    var i := 0;
    while i < n
      invariant 0 <= i <= n && i <= |cs|
      invariant forall j :: 0 <= j < i ==> InDiff(cs[j], n)
      invariant forall p :: 0 <= p < n + 3 ==> diff[p] == DiffAt(cs[..i], p)
    {
      if i >= |cs| {
        return Err(ArrayIndexOutOfBoundsException);
      }
      var (l, h) := cs[i];
      if !(0 <= l + 1 < n + 3) {
        return Err(ArrayIndexOutOfBoundsException);
      }
      diff[l + 1] := diff[l + 1] + 1;
      if !(0 <= h + 2 < n + 3) {
        return Err(ArrayIndexOutOfBoundsException);
      }
      diff[h + 2] := diff[h + 2] - 1;
      assert cs[..i + 1][..i] == cs[..i];
      i := i + 1;
    }
    var maxK := PrefixSweep(n, cs[..n], diff);
    return Ok(maxK);
  }

  /** The second loop: the running sum of `diff` from index 1. */
  method PrefixSweep(n: int, people: seq<Constraint>, diff: array<int>) returns (maxK: int)
    requires 0 <= n == |people| && diff.Length == n + 3
    requires forall i :: 0 <= i < n ==> 0 <= people[i].0 && -1 <= people[i].1
    requires forall p :: 0 <= p < n + 3 ==> diff[p] == DiffAt(people, p)
    ensures maxK == LargestAtLeast(NetTable(people, n), n)
  {
    NetZero(people);
    ghost var table := NetTable(people, n);
    var active := 0;
    maxK := 0;
    var k := 1;
    while k <= n
      invariant 1 <= k <= n + 1
      invariant active == Net(people, k - 1)
      invariant maxK == LargestAtLeast(table, k - 1)
    {
      active := active + diff[k];
      NetStep(people, k);
      if active >= k {
        maxK := k;
      }
      k := k + 1;
    }
  }

  /** The example of the write-up, for the two running-sum versions. */
  lemma ExampleNet()
    ensures LargestAtLeast(NetTable(Example, 6), 6) == 3
  {
    NetAgreesWithSupport(Example, 6);
    ExampleAnswer();
  }
}
