/**
 * The single-threaded ad click / impression aggregator (AdClickSystem):
 * deduplicated ingestion of ad events into per-ad, per-day counters, the
 * ordered daily history of an ad, and the rolling-window impression cap.
 *
 * Ad UUIDs are integers (only their equality matters), a LocalDate is a day
 * number and a LocalDateTime is a day number with a nanosecond-of-day.
 * The specification functions of this module are shared by the TTL and the
 * concurrent variants of the system.
 */
module AdClick {
  import opened Wrappers
  import opened IntSets

  type AdId = int
  type Date = int

  const ROLLING_WINDOW_LENGTH_DAYS: int := 3
  const IMPRESSION_LIMIT: int := 5

  datatype AdEventType = Impression | Click
  datatype Timestamp = Timestamp(date: Date, nanoOfDay: int)
  datatype AdEvent = AdEvent(adId: AdId, timestamp: Timestamp, eventType: AdEventType)
  /** The deduplication key of an event: its timestamp and type. */
  datatype SeenEvent = SeenEvent(timestamp: Timestamp, eventType: AdEventType)
  datatype DailyCounter = DailyCounter(impressions: nat, clicks: nat)
  datatype AdEventBucket = AdEventBucket(date: Date, impressions: nat, clicks: nat)

  type History = map<Date, DailyCounter>

  /** The two stores: eventStore (ad -> date -> counter) and seenStore (ad -> keys). */
  datatype Store = Store(events: map<AdId, History>, seen: map<AdId, set<SeenEvent>>)

  const Zero := DailyCounter(0, 0)
  const EmptyStore := Store(map[], map[])

  /** SeenEvent.equals: two keys are equal when timestamp and type are. */
  function SameSeenEvent(a: SeenEvent, b: SeenEvent): (r: bool)
    ensures r <==> a == b
  {
    a.timestamp == b.timestamp && a.eventType == b.eventType
  }

  function KeyOf(e: AdEvent): SeenEvent
  {
    SeenEvent(e.timestamp, e.eventType)
  }

  function Plus(a: DailyCounter, b: DailyCounter): DailyCounter
  {
    DailyCounter(a.impressions + b.impressions, a.clicks + b.clicks)
  }

  function Weight(c: DailyCounter): nat
  {
    c.impressions + c.clicks
  }

  /** The counter after one more event of type t. */
  function Increment(c: DailyCounter, t: AdEventType): DailyCounter
  {
    if t == Impression then c.(impressions := c.impressions + 1) else c.(clicks := c.clicks + 1)
  }

  function SeenOf(s: Store, ad: AdId): set<SeenEvent>
  {
    if ad in s.seen then s.seen[ad] else {}
  }

  function HistoryOf(s: Store, ad: AdId): History
  {
    if ad in s.events then s.events[ad] else map[]
  }

  /** A missing day counts as zero impressions and zero clicks. */
  function CounterAt(h: History, d: Date): DailyCounter
  {
    if d in h then h[d] else Zero
  }

  /** One iteration of consumeAdEvents: skip a known key, else record it and count it. */
  function Ingest(s: Store, e: AdEvent): Store
  {
    if KeyOf(e) in SeenOf(s, e.adId) then s
    else
      var h := HistoryOf(s, e.adId);
      var d := e.timestamp.date;
      Store(s.events[e.adId := h[d := Increment(CounterAt(h, d), e.eventType)]],
            s.seen[e.adId := SeenOf(s, e.adId) + {KeyOf(e)}])
  }

  /** A whole batch, in list order. */
  function IngestAll(s: Store, es: seq<AdEvent>): Store
    decreases |es|
  {
    if es == [] then s else Ingest(IngestAll(s, es[..|es| - 1]), es[|es| - 1])
  }

  // ---------------------------------------------------------------------------
  // Counting: what the counters mean

  /** The seen keys of day d and type t. */
  ghost function KeysOn(seen: set<SeenEvent>, d: Date, t: AdEventType): set<SeenEvent>
  {
    set k | k in seen && k.timestamp.date == d && k.eventType == t
  }

  ghost function Count(seen: set<SeenEvent>, d: Date, t: AdEventType): nat
  {
    |KeysOn(seen, d, t)|
  }

  ghost function Days(seen: set<SeenEvent>): set<Date>
  {
    set k | k in seen :: k.timestamp.date
  }

  /** Sum of all counters of a history, walking the days in ascending order. */
  ghost function Total(h: History): DailyCounter
    decreases |h.Keys|
  {
    if h == map[] then Zero
    else
      var d := Min(h.Keys);
      Plus(h[d], Total(h - {d}))
  }

  /**
   * The counters of an ad are exactly the numbers of distinct keys it has seen:
   * one bucket per day that has a key, and each counter the number of that
   * day's keys of its type.
   */
  ghost predicate Tallied(h: History, seen: set<SeenEvent>)
  {
    && h.Keys == Days(seen)
    && (forall d :: d in h ==> h[d] == DailyCounter(Count(seen, d, Impression), Count(seen, d, Click)))
  }

  /** The invariant of the two stores: same ads, and every ad's counters tally its keys. */
  ghost predicate Consistent(s: Store)
  {
    && s.events.Keys == s.seen.Keys
    && forall ad :: ad in s.events ==> Tallied(s.events[ad], s.seen[ad])
  }

  /** Taking any one day out of a history takes its counter out of the total. */
  lemma {:induction false} TotalRemove(h: History, d: Date)
    requires d in h
    ensures Total(h) == Plus(h[d], Total(h - {d}))
    decreases |h.Keys|
  {
    var m := Min(h.Keys);
    if m != d {
      var h1 := h - {m};
      var h2 := h - {d};
      assert (h1).Keys == h.Keys - {m};
      TotalRemove(h1, d);
      assert m in h2.Keys && h2.Keys <= h.Keys;
      assert Min(h2.Keys) == m;
      assert h2 - {m} == h1 - {d};
    }
  }

  lemma TotalPut(h: History, d: Date, c: DailyCounter)
    ensures Total(h[d := c]) == Plus(c, Total(h - {d}))
  {
    TotalRemove(h[d := c], d);
    assert h[d := c] - {d} == h - {d};
  }

  lemma CountInsert(seen: set<SeenEvent>, k: SeenEvent, d: Date, t: AdEventType)
    requires k !in seen
    ensures Count(seen + {k}, d, t) == Count(seen, d, t) + (if k.timestamp.date == d && k.eventType == t then 1 else 0)
  {
    if k.timestamp.date == d && k.eventType == t {
      assert KeysOn(seen + {k}, d, t) == KeysOn(seen, d, t) + {k};
    } else {
      assert KeysOn(seen + {k}, d, t) == KeysOn(seen, d, t);
    }
  }

  lemma CountOffDay(seen: set<SeenEvent>, d: Date, t: AdEventType)
    requires d !in Days(seen)
    ensures Count(seen, d, t) == 0
  {
    assert forall k :: k in seen ==> k.timestamp.date in Days(seen);
    assert KeysOn(seen, d, t) == {};
  }

  lemma CountPositive(seen: set<SeenEvent>, k: SeenEvent)
    requires k in seen
    ensures Count(seen, k.timestamp.date, k.eventType) >= 1
  {
    assert k in KeysOn(seen, k.timestamp.date, k.eventType);
  }

  /** The history after recording event e in it. */
  function Recorded(h: History, e: AdEvent): History
  {
    h[e.timestamp.date := Increment(CounterAt(h, e.timestamp.date), e.eventType)]
  }

  lemma DaysInsert(seen: set<SeenEvent>, k: SeenEvent)
    ensures Days(seen + {k}) == Days(seen) + {k.timestamp.date}
  {
    var seen' := seen + {k};
    assert k in seen';
    forall x | x in Days(seen') ensures x in Days(seen) + {k.timestamp.date} {
      var k' :| k' in seen' && k'.timestamp.date == x;
      if k' != k { assert k' in seen; }
    }
  }

  lemma CountsStep(h: History, seen: set<SeenEvent>, e: AdEvent)
    requires Tallied(h, seen)
    requires KeyOf(e) !in seen
    ensures forall d :: d in Recorded(h, e) ==>
      Recorded(h, e)[d] == DailyCounter(Count(seen + {KeyOf(e)}, d, Impression), Count(seen + {KeyOf(e)}, d, Click))
  {
    var d, k := e.timestamp.date, KeyOf(e);
    var h' := Recorded(h, e);
    if d !in h {
      CountOffDay(seen, d, Impression);
      CountOffDay(seen, d, Click);
    }
    forall d' | d' in h' ensures h'[d'] == DailyCounter(Count(seen + {k}, d', Impression), Count(seen + {k}, d', Click)) {
      CountInsert(seen, k, d', Impression);
      CountInsert(seen, k, d', Click);
    }
  }

  lemma TotalAbsent(h: History, d: Date)
    requires d !in h
    ensures Total(h - {d}) == Total(h)
  {
    assert h - {d} == h;
  }

  /** Recording a fresh key keeps the counters tallied. */
  lemma TalliedStep(h: History, seen: set<SeenEvent>, e: AdEvent)
    requires Tallied(h, seen)
    requires KeyOf(e) !in seen
    ensures Tallied(Recorded(h, e), seen + {KeyOf(e)})
  {
    var h', seen' := Recorded(h, e), seen + {KeyOf(e)};
    DaysInsert(seen, KeyOf(e));
    assert h'.Keys == h.Keys + {e.timestamp.date};
    assert h'.Keys == Days(seen');
    CountsStep(h, seen, e);
  }

  lemma DaysEmpty(seen: set<SeenEvent>)
    ensures Days(seen) == {} ==> seen == {}
  {
    if seen != {} {
      var k := Element(seen);
      assert k.timestamp.date in Days(seen);
    }
  }

  /** Dropping one day's keys from a tally drops that day's bucket. */
  lemma TalliedWithout(h: History, seen: set<SeenEvent>, m: Date)
    requires Tallied(h, seen)
    ensures Tallied(h - {m}, seen - set k | k in seen && k.timestamp.date == m)
  {
    var rest := seen - set k | k in seen && k.timestamp.date == m;
    forall x ensures x in Days(rest) <==> x in Days(seen) - {m} {
      if x in Days(seen) - {m} {
        var k :| k in seen && k.timestamp.date == x;
        assert k in rest;
      }
    }
    forall d, t | d != m ensures KeysOn(rest, d, t) == KeysOn(seen, d, t) {
    }
  }

  /** A day's keys are its impression keys and its click keys. */
  lemma DaySplit(seen: set<SeenEvent>, m: Date)
    ensures |set k | k in seen && k.timestamp.date == m| == Count(seen, m, Impression) + Count(seen, m, Click)
  {
    var day := set k | k in seen && k.timestamp.date == m;
    assert day == KeysOn(seen, m, Impression) + KeysOn(seen, m, Click);
    assert KeysOn(seen, m, Impression) !! KeysOn(seen, m, Click);
  }

  /** Peeling one day off a tally: the remaining keys tally the remaining days. */
  lemma TallyPeel(h: History, seen: set<SeenEvent>, m: Date) returns (rest: set<SeenEvent>)
    requires Tallied(h, seen) && m in h
    ensures Tallied(h - {m}, rest)
    ensures |seen| == Weight(h[m]) + |rest|
  {
    var day := set k | k in seen && k.timestamp.date == m;
    rest := seen - day;
    TalliedWithout(h, seen, m);
    DaySplit(seen, m);
    assert seen == day + rest && day !! rest;
  }

  /**
   * For every ad, impressions plus clicks over all its buckets equal the number
   * of distinct keys it has seen.
   */
  lemma {:induction false} TallyTotal(h: History, seen: set<SeenEvent>)
    requires Tallied(h, seen)
    ensures Weight(Total(h)) == |seen|
    decreases |h.Keys|
  {
    if h == map[] {
      DaysEmpty(seen);
    } else {
      var m := Min(h.Keys);
      var rest := TallyPeel(h, seen, m);
      TallyTotal(h - {m}, rest);
    }
  }

  /** Replacing one ad's entries by tallied ones keeps the stores consistent. */
  lemma ConsistentUpdate(s: Store, ad: AdId, h: History, seen: set<SeenEvent>)
    requires Consistent(s)
    requires Tallied(h, seen)
    ensures Consistent(Store(s.events[ad := h], s.seen[ad := seen]))
  {
    var s' := Store(s.events[ad := h], s.seen[ad := seen]);
    forall a | a in s'.events ensures Tallied(s'.events[a], s'.seen[a]) {
      if a != ad {
        assert a in s.events;
        assert s'.events[a] == s.events[a];
        assert s'.seen[a] == s.seen[a];
        assert Tallied(s.events[a], s.seen[a]);
      }
    }
  }

  /** consumeAdEvents keeps the stores consistent, one event at a time. */
  lemma IngestConsistent(s: Store, e: AdEvent)
    requires Consistent(s)
    ensures Consistent(Ingest(s, e))
  {
    var ad := e.adId;
    if KeyOf(e) !in SeenOf(s, ad) {
      if ad in s.events {
        TalliedStep(s.events[ad], s.seen[ad], e);
      } else {
        assert Days({}) == {};
        assert Tallied(map[], {});
        TalliedStep(map[], {}, e);
      }
      ConsistentUpdate(s, ad, Recorded(HistoryOf(s, ad), e), SeenOf(s, ad) + {KeyOf(e)});
    }
  }

  lemma {:induction false} IngestAllConsistent(s: Store, es: seq<AdEvent>)
    requires Consistent(s)
    ensures Consistent(IngestAll(s, es))
    decreases |es|
  {
    if es != [] {
      IngestAllConsistent(s, es[..|es| - 1]);
      IngestConsistent(IngestAll(s, es[..|es| - 1]), es[|es| - 1]);
    }
  }

  // ---------------------------------------------------------------------------
  // Deduplication

  /** A key already seen for its ad changes nothing (sol.java:80-84). */
  lemma DuplicateIsNoop(s: Store, e: AdEvent)
    requires KeyOf(e) in SeenOf(s, e.adId)
    ensures Ingest(s, e) == s
  {
  }

  /**
   * A fresh key is added to its ad's seen set, and exactly one counter changes:
   * the one of its ad, its date and its type, by one (sol.java:86-97).
   */
  lemma FreshCountsOnce(s: Store, e: AdEvent)
    requires KeyOf(e) !in SeenOf(s, e.adId)
    ensures SeenOf(Ingest(s, e), e.adId) == SeenOf(s, e.adId) + {KeyOf(e)}
    ensures forall ad :: ad != e.adId ==> SeenOf(Ingest(s, e), ad) == SeenOf(s, ad)
    ensures CounterAt(HistoryOf(Ingest(s, e), e.adId), e.timestamp.date)
         == Increment(CounterAt(HistoryOf(s, e.adId), e.timestamp.date), e.eventType)
    ensures forall ad, d :: ad != e.adId || d != e.timestamp.date ==>
      CounterAt(HistoryOf(Ingest(s, e), ad), d) == CounterAt(HistoryOf(s, ad), d)
    ensures Ingest(s, e).events.Keys == s.events.Keys + {e.adId}
  {
  }

  lemma IngestGrowsSeen(s: Store, e: AdEvent)
    ensures KeyOf(e) in SeenOf(Ingest(s, e), e.adId)
    ensures forall ad :: SeenOf(s, ad) <= SeenOf(Ingest(s, e), ad)
  {
  }

  lemma {:induction false} IngestAllGrowsSeen(s: Store, es: seq<AdEvent>)
    ensures forall ad :: SeenOf(s, ad) <= SeenOf(IngestAll(s, es), ad)
    ensures forall i :: 0 <= i < |es| ==> KeyOf(es[i]) in SeenOf(IngestAll(s, es), es[i].adId)
    decreases |es|
  {
    if es != [] {
      var init, last := es[..|es| - 1], es[|es| - 1];
      IngestAllGrowsSeen(s, init);
      IngestGrowsSeen(IngestAll(s, init), last);
      forall i | 0 <= i < |es| ensures KeyOf(es[i]) in SeenOf(IngestAll(s, es), es[i].adId) {
        if i < |es| - 1 { assert es[i] == init[i]; }
      }
    }
  }

  lemma {:induction false} IngestAllKnown(t: Store, es: seq<AdEvent>)
    requires forall i :: 0 <= i < |es| ==> KeyOf(es[i]) in SeenOf(t, es[i].adId)
    ensures IngestAll(t, es) == t
    decreases |es|
  {
    if es != [] {
      var init := es[..|es| - 1];
      forall i | 0 <= i < |init| ensures KeyOf(init[i]) in SeenOf(t, init[i].adId) {
        assert init[i] == es[i];
      }
      IngestAllKnown(t, init);
    }
  }

  /** Re-submitting a batch leaves every counter and every seen set unchanged. */
  lemma ResubmitIsNoop(s: Store, es: seq<AdEvent>)
    ensures IngestAll(IngestAll(s, es), es) == IngestAll(s, es)
  {
    IngestAllGrowsSeen(s, es);
    IngestAllKnown(IngestAll(s, es), es);
  }

  // ---------------------------------------------------------------------------
  // History

  function ToBucket(d: Date, c: DailyCounter): AdEventBucket
  {
    AdEventBucket(d, c.impressions, c.clicks)
  }

  /** The buckets of the given days, in the given order. */
  function ToBuckets(h: History, ds: seq<Date>): (r: seq<AdEventBucket>)
    requires forall d :: d in ds ==> d in h
    ensures |r| == |ds|
    ensures forall i :: 0 <= i < |ds| ==> r[i] == ToBucket(ds[i], h[ds[i]])
    decreases |ds|
  {
    if ds == [] then [] else ToBuckets(h, ds[..|ds| - 1]) + [ToBucket(ds[|ds| - 1], h[ds[|ds| - 1]])]
  }

  /** getDailyAdEventHistory's answer: the buckets of all stored days, oldest first. */
  ghost function HistoryBuckets(h: History): seq<AdEventBucket>
  {
    AscendingMembers(h.Keys);
    ToBuckets(h, Ascending(h.Keys))
  }

  /**
   * The history has one bucket per stored date, in strictly ascending date
   * order, each with the stored counts (sol.java:100-111).
   */
  lemma HistoryBucketsSpec(h: History)
    ensures |HistoryBuckets(h)| == |h.Keys|
    ensures forall i, j :: 0 <= i < j < |HistoryBuckets(h)| ==> HistoryBuckets(h)[i].date < HistoryBuckets(h)[j].date
    ensures forall i :: 0 <= i < |HistoryBuckets(h)| ==>
      HistoryBuckets(h)[i].date in h && HistoryBuckets(h)[i] == ToBucket(HistoryBuckets(h)[i].date, h[HistoryBuckets(h)[i].date])
    ensures forall d :: d in h ==> exists i :: 0 <= i < |HistoryBuckets(h)| && HistoryBuckets(h)[i].date == d
  {
    AscendingMembers(h.Keys);
    AscendingIncreasing(h.Keys);
    var ks := Ascending(h.Keys);
    var r := HistoryBuckets(h);
    forall d | d in h ensures exists i :: 0 <= i < |r| && r[i].date == d {
      var i :| 0 <= i < |ks| && ks[i] == d;
      assert r[i].date == d;
    }
  }

  // ---------------------------------------------------------------------------
  // Rolling-window cap

  /** Counters summed over the closed day range [lo, hi]; missing days count zero. */
  function WindowSum(h: History, lo: Date, hi: Date): DailyCounter
    decreases hi - lo
  {
    if hi < lo then Zero else Plus(WindowSum(h, lo, hi - 1), CounterAt(h, hi))
  }

  function WindowStart(date: Date): Date
  {
    date - (ROLLING_WINDOW_LENGTH_DAYS - 1)
  }

  /** At least IMPRESSION_LIMIT impressions and no click in the window ending at date. */
  function CappedAt(h: History, date: Date): bool
  {
    var w := WindowSum(h, WindowStart(date), date);
    w.impressions >= IMPRESSION_LIMIT && w.clicks == 0
  }

  /** Every day of the range contributes its counter hi the window sum. */
  lemma {:induction false} WindowCovers(h: History, lo: Date, hi: Date, d: Date)
    requires lo <= d <= hi
    ensures WindowSum(h, lo, hi).clicks >= CounterAt(h, d).clicks
    ensures WindowSum(h, lo, hi).impressions >= CounterAt(h, d).impressions
    decreases hi - d
  {
    if d < hi {
      WindowCovers(h, lo, hi - 1, d);
    }
  }

  /** h2 has at least the impressions of h1 on every day and the same clicks. */
  ghost predicate MoreImpressions(h1: History, h2: History)
  {
    forall d :: CounterAt(h2, d).impressions >= CounterAt(h1, d).impressions && CounterAt(h2, d).clicks == CounterAt(h1, d).clicks
  }

  lemma {:induction false} WindowMonotone(h1: History, h2: History, lo: Date, hi: Date)
    requires MoreImpressions(h1, h2)
    ensures WindowSum(h2, lo, hi).impressions >= WindowSum(h1, lo, hi).impressions
    ensures WindowSum(h2, lo, hi).clicks == WindowSum(h1, lo, hi).clicks
    decreases hi - lo
  {
    if lo <= hi {
      WindowMonotone(h1, h2, lo, hi - 1);
    }
  }

  lemma {:induction false} ImpressionsOnlyGrow(s: Store, es: seq<AdEvent>, ad: AdId)
    requires forall i :: 0 <= i < |es| ==> es[i].eventType == Impression
    ensures MoreImpressions(HistoryOf(s, ad), HistoryOf(IngestAll(s, es), ad))
    ensures ad in s.events ==> ad in IngestAll(s, es).events
    decreases |es|
  {
    if es != [] {
      var init := es[..|es| - 1];
      assert forall i :: 0 <= i < |init| ==> init[i] == es[i];
      ImpressionsOnlyGrow(s, init, ad);
    }
  }

  /** Impression-only events can flip the cap only from false to true (sol.java:121-128). */
  lemma ImpressionsKeepCap(s: Store, es: seq<AdEvent>, ad: AdId, date: Date)
    requires forall i :: 0 <= i < |es| ==> es[i].eventType == Impression
    requires ad in s.events && CappedAt(s.events[ad], date)
    ensures ad in IngestAll(s, es).events && CappedAt(IngestAll(s, es).events[ad], date)
  {
    ImpressionsOnlyGrow(s, es, ad);
    WindowMonotone(s.events[ad], IngestAll(s, es).events[ad], WindowStart(date), date);
  }

  /** A click of the ad dated inside the window leaves the ad uncapped (sol.java:121-128). */
  lemma ClickInWindowUncaps(s: Store, es: seq<AdEvent>, i: nat, date: Date)
    requires Consistent(s)
    requires i < |es| && es[i].eventType == Click
    requires WindowStart(date) <= es[i].timestamp.date <= date
    ensures es[i].adId in IngestAll(s, es).events
    ensures !CappedAt(IngestAll(s, es).events[es[i].adId], date)
  {
    var t := IngestAll(s, es);
    var e := es[i];
    IngestAllConsistent(s, es);
    IngestAllGrowsSeen(s, es);
    assert KeyOf(e) in SeenOf(t, e.adId);
    var seen := t.seen[e.adId];
    var h := t.events[e.adId];
    CountPositive(seen, KeyOf(e));
    assert e.timestamp.date in Days(seen);
    WindowCovers(h, WindowStart(date), date, e.timestamp.date);
  }

  // ---------------------------------------------------------------------------
  // The stateful class

  class AdClickSystem {
    var eventStore: map<AdId, History>
    var seenStore: map<AdId, set<SeenEvent>>

    function State(): Store
      reads this
    {
      Store(eventStore, seenStore)
    }

    ghost predicate Valid()
      reads this
    {
      Consistent(State())
    }

    constructor ()
      ensures Valid() && State() == EmptyStore
    {
      eventStore := map[];
      seenStore := map[];
      new;
      assert Consistent(EmptyStore);
    }

    /** Ingests a batch with per-ad deduplication on (timestamp, type) (sol.java:75-99). */
    method ConsumeAdEvents(events: seq<AdEvent>)
      requires Valid()
      modifies this
      ensures Valid()
      ensures State() == IngestAll(old(State()), events)
    {
      for i := 0 to |events|
        invariant State() == IngestAll(old(State()), events[..i])
      {
        var e := events[i];
        ghost var before := State();
        assert events[..i + 1][..i] == events[..i];
        assert IngestAll(old(State()), events[..i + 1]) == Ingest(before, e);
        // putIfAbsent followed by an update of the stored set or map: as values,
        // the stored entry (or a fresh empty one) is read, then written back once.
        var seen := if e.adId in seenStore then seenStore[e.adId] else {};
        var key := SeenEvent(e.timestamp, e.eventType);
        if key in seen {
          continue;
        }
        seenStore := seenStore[e.adId := seen + {key}];
        var history := if e.adId in eventStore then eventStore[e.adId] else map[];
        var date := e.timestamp.date;
        var dc := if date in history then history[date] else DailyCounter(0, 0);
        if e.eventType == Impression {
          dc := dc.(impressions := dc.impressions + 1);
        } else {
          dc := dc.(clicks := dc.clicks + 1);
        }
        eventStore := eventStore[e.adId := history[date := dc]];
      }
      assert events[..|events|] == events;
      IngestAllConsistent(old(State()), events);
    }

    /** The ad's buckets, oldest first; an unknown ad is an IllegalArgumentException (sol.java:100-111). */
    method GetDailyAdEventHistory(adId: AdId) returns (r: Result<seq<AdEventBucket>>)
      ensures adId !in eventStore ==> r == Err(IllegalArgumentException)
      ensures adId in eventStore ==> r == Ok(HistoryBuckets(eventStore[adId]))
    {
      if adId !in eventStore {
        return Err(IllegalArgumentException);
      }
      var history := eventStore[adId];
      var result: seq<AdEventBucket> := [];
      var rest := history.Keys;
      ghost var done: seq<Date> := [];
      while rest != {}
        invariant rest <= history.Keys
        invariant forall d :: d in done ==> d in history
        invariant Ascending(history.Keys) == done + Ascending(rest)
        invariant |result| == |done|
        invariant forall i :: 0 <= i < |done| ==> result[i] == ToBucket(done[i], history[done[i]])
        decreases |rest|
      {
        ghost var w := Element(rest);
        var day :| day in rest && forall y :: y in rest ==> day <= y;
        assert day == Min(rest);
        result := result + [ToBucket(day, history[day])];
        done := done + [day];
        rest := rest - {day};
      }
      assert done == Ascending(history.Keys);
      ghost var spec := ToBuckets(history, done);
      assert result == spec;
      return Ok(result);
    }

    /** Sums the window [date-(W-1), date] day by day (sol.java:112-129). */
    method IsAdCappedAtDate(adId: AdId, date: Date) returns (r: Result<bool>)
      ensures adId !in eventStore ==> r == Err(IllegalArgumentException)
      ensures adId in eventStore ==> r == Ok(CappedAt(eventStore[adId], date))
    {
      if adId !in eventStore {
        return Err(IllegalArgumentException);
      }
      var history := eventStore[adId];
      var start := date - (ROLLING_WINDOW_LENGTH_DAYS - 1);
      var impressions, clicks := SumWindow(history, start, date);
      return Ok(impressions >= IMPRESSION_LIMIT && clicks == 0);
    }
  }

  /** The day-by-day loop of isAdCappedAtDate (sol.java:117-127): a missing day adds nothing. */
  method SumWindow(history: History, start: Date, date: Date) returns (impressions: nat, clicks: nat)
    requires start <= date + 1
    ensures DailyCounter(impressions, clicks) == WindowSum(history, start, date)
  {
    impressions, clicks := 0, 0;
    var d := start;
    while d <= date
      invariant start <= d <= date + 1
      invariant DailyCounter(impressions, clicks) == WindowSum(history, start, d - 1)
      decreases date - d
    {
      if d in history {
        var dc := history[d];
        impressions := impressions + dc.impressions;
        clicks := clicks + dc.clicks;
      }
      d := d + 1;
    }
  }
}
