/**
 * The ad click aggregator with a retention horizon (TTL.java): before each
 * batch, every bucket dated before today - RETENTION_DAYS is removed from the
 * in-memory store and appended to a persistence log, and an ad left without
 * buckets is forgotten altogether (its history and its deduplication keys).
 *
 * The specification functions here are shared with the concurrent variant.
 */
module AdClickTtl {
  import opened IntSets
  import opened AdClick

  const RETENTION_DAYS: int := 30

  /** One line of the persistence log: the ad, the day and the counter removed. */
  datatype PersistRecord = PersistRecord(adId: AdId, date: Date, counter: DailyCounter)

  // ---------------------------------------------------------------------------
  // Which buckets expire

  /** The longest prefix of xs lying before cutoff: a sorted scan that stops at the first day >= cutoff. */
  function TakeBefore(xs: seq<Date>, cutoff: Date): (r: seq<Date>)
    ensures |r| <= |xs| && r == xs[..|r|]
    ensures forall i :: 0 <= i < |r| ==> r[i] < cutoff
    ensures |r| < |xs| ==> xs[|r|] >= cutoff
    decreases |xs|
  {
    if xs == [] || xs[0] >= cutoff then [] else [xs[0]] + TakeBefore(xs[1..], cutoff)
  }

  /** The days of h before cutoff, in the order a sorted-map scan removes them. */
  ghost function ExpiredDays(h: History, cutoff: Date): (ds: seq<Date>)
    ensures forall d :: d in ds ==> d in h
  {
    AscendingMembers(h.Keys);
    TakeBefore(Ascending(h.Keys), cutoff)
  }

  /** On a strictly increasing list, the scan takes exactly the elements before the cutoff. */
  lemma TakeBeforeSpec(xs: seq<Date>, cutoff: Date)
    requires StrictlyIncreasing(xs)
    ensures StrictlyIncreasing(TakeBefore(xs, cutoff))
    ensures forall d :: d in TakeBefore(xs, cutoff) <==> d in xs && d < cutoff
  {
    var r := TakeBefore(xs, cutoff);
    forall i | 0 <= i < |xs| && xs[i] < cutoff ensures i < |r| {
    }
  }

  /** What the scan leaves behind is exactly the elements from the cutoff on, still increasing. */
  lemma DropBeforeSpec(xs: seq<Date>, cutoff: Date)
    requires StrictlyIncreasing(xs)
    ensures StrictlyIncreasing(xs[|TakeBefore(xs, cutoff)|..])
    ensures forall d :: d in xs[|TakeBefore(xs, cutoff)|..] <==> d in xs && d >= cutoff
  {
    var n := |TakeBefore(xs, cutoff)|;
    var rest := xs[n..];
    forall j | 0 <= j < |rest| ensures rest[j] >= cutoff {
      assert rest[j] == xs[n + j];
      assert xs[n] >= cutoff;
    }
    forall i | 0 <= i < |xs| && xs[i] >= cutoff ensures xs[i] in rest {
      assert i >= n;
      assert xs[i] == rest[i - n];
    }
  }

  /** The expired days are exactly the stored days before the cutoff, oldest first, each once. */
  lemma ExpiredDaysSpec(h: History, cutoff: Date)
    ensures StrictlyIncreasing(ExpiredDays(h, cutoff))
    ensures forall d :: d in ExpiredDays(h, cutoff) <==> d in h && d < cutoff
  {
    AscendingMembers(h.Keys);
    AscendingIncreasing(h.Keys);
    TakeBeforeSpec(Ascending(h.Keys), cutoff);
  }

  /** The days of h from the cutoff on, with their counters. */
  function Kept(h: History, cutoff: Date): History
  {
    map d | d in h && d >= cutoff :: h[d]
  }

  /** The log lines for the given days of ad's history, in the given order. */
  function Records(ad: AdId, h: History, ds: seq<Date>): (r: seq<PersistRecord>)
    requires forall i :: 0 <= i < |ds| ==> ds[i] in h
    ensures |r| == |ds|
    ensures forall i :: 0 <= i < |ds| ==> r[i] == PersistRecord(ad, ds[i], h[ds[i]])
    decreases |ds|
  {
    if ds == [] then [] else Records(ad, h, ds[..|ds| - 1]) + [PersistRecord(ad, ds[|ds| - 1], h[ds[|ds| - 1]])]
  }

  /** What purging one ad appends to the log. */
  ghost function ExpiredRecords(ad: AdId, h: History, cutoff: Date): seq<PersistRecord>
  {
    Records(ad, h, ExpiredDays(h, cutoff))
  }

  // ---------------------------------------------------------------------------
  // Purge, one ad at a time and as a whole

  /**
   * One iteration of purgeOldData: drop the ad's buckets before the cutoff, and
   * forget the ad (both stores) when no bucket is left.
   */
  function PurgeAd(s: Store, ad: AdId, cutoff: Date): Store
  {
    if ad !in s.events then s
    else
      var k := Kept(s.events[ad], cutoff);
      if k == map[] then Store(s.events - {ad}, s.seen - {ad})
      else Store(s.events[ad := k], s.seen)
  }

  /** The ads in the given order (the order of the key snapshot). */
  function PurgeAds(s: Store, ad: seq<AdId>, cutoff: Date): Store
    decreases |ad|
  {
    if ad == [] then s else PurgeAd(PurgeAds(s, ad[..|ad| - 1], cutoff), ad[|ad| - 1], cutoff)
  }

  /** The log lines the purge of the given ads appends, in that order. */
  ghost function PurgeLog(events: map<AdId, History>, ads: seq<AdId>, cutoff: Date): seq<PersistRecord>
    decreases |ads|
  {
    if ads == [] then []
    else
      var ad := ads[|ads| - 1];
      PurgeLog(events, ads[..|ads| - 1], cutoff) + (if ad in events then ExpiredRecords(ad, events[ad], cutoff) else [])
  }

  /** The ads that a purge of the set A forgets. */
  function Emptied(s: Store, A: set<AdId>, cutoff: Date): set<AdId>
  {
    set ad | ad in A && ad in s.events && Kept(s.events[ad], cutoff) == map[]
  }

  /** The purge of a set of ads, independent of any order. */
  function PurgeSet(s: Store, A: set<AdId>, cutoff: Date): Store
  {
    var gone := Emptied(s, A, cutoff);
    Store(map ad | ad in s.events && ad !in gone :: if ad in A then Kept(s.events[ad], cutoff) else s.events[ad],
          map ad | ad in s.seen && ad !in gone :: s.seen[ad])
  }

  /** purgeOldData(cutoff): every ad of the event store. */
  function Purge(s: Store, cutoff: Date): Store
  {
    PurgeSet(s, s.events.Keys, cutoff)
  }

  predicate Distinct(ads: seq<AdId>)
  {
    forall i, j :: 0 <= i < j < |ads| ==> ads[i] != ads[j]
  }

  /** Purging one more ad extends the purged set by that ad. */
  lemma PurgeSetStep(s: Store, A: set<AdId>, ad: AdId, cutoff: Date)
    requires ad !in A
    ensures PurgeAd(PurgeSet(s, A, cutoff), ad, cutoff) == PurgeSet(s, A + {ad}, cutoff)
  {
    var p := PurgeSet(s, A, cutoff);
    var q := PurgeSet(s, A + {ad}, cutoff);
    if ad in s.events {
      assert ad in p.events && p.events[ad] == s.events[ad];
      var k := Kept(s.events[ad], cutoff);
      if k == map[] {
        assert Emptied(s, A + {ad}, cutoff) == Emptied(s, A, cutoff) + {ad};
        assert q.events == p.events - {ad};
        assert q.seen == p.seen - {ad};
      } else {
        assert Emptied(s, A + {ad}, cutoff) == Emptied(s, A, cutoff);
        assert q.events == p.events[ad := k];
        assert q.seen == p.seen;
      }
    } else {
      assert Emptied(s, A + {ad}, cutoff) == Emptied(s, A, cutoff);
      assert q.events == p.events;
      assert q.seen == p.seen;
    }
  }

  /**
   * Purging ads one by one, in any order without repetition, is the purge of
   * their set: the result does not depend on the key snapshot's order.
   */
  lemma {:induction false} PurgeAdsIsPurgeSet(s: Store, ads: seq<AdId>, cutoff: Date)
    requires Distinct(ads)
    ensures PurgeAds(s, ads, cutoff) == PurgeSet(s, (set a | a in ads), cutoff)
    decreases |ads|
  {
    if ads == [] {
      var p := PurgeSet(s, {}, cutoff);
      assert Emptied(s, {}, cutoff) == {};
      assert p.events == s.events;
      assert p.seen == s.seen;
    } else {
      var init, ad := ads[..|ads| - 1], ads[|ads| - 1];
      PurgeAdsIsPurgeSet(s, init, cutoff);
      assert (set a | a in ads) == (set a | a in init) + {ad};
      assert ad !in init;
      PurgeSetStep(s, (set a | a in init), ad, cutoff);
    }
  }

  // ---------------------------------------------------------------------------
  // What the purge guarantees

  /**
   * After a purge no bucket lies before the cutoff, no history is empty, and
   * every bucket from the cutoff on keeps its counts.
   */
  lemma PurgeSafety(s: Store, cutoff: Date)
    ensures forall ad, d :: ad in Purge(s, cutoff).events && d in Purge(s, cutoff).events[ad] ==> d >= cutoff
    ensures forall ad :: ad in Purge(s, cutoff).events ==> Purge(s, cutoff).events[ad] != map[]
    ensures forall ad, d :: d >= cutoff ==> CounterAt(HistoryOf(Purge(s, cutoff), ad), d) == CounterAt(HistoryOf(s, ad), d)
  {
    var p := Purge(s, cutoff);
    forall ad, d | d >= cutoff ensures CounterAt(HistoryOf(p, ad), d) == CounterAt(HistoryOf(s, ad), d) {
      if ad in s.events && ad !in p.events {
        assert Kept(s.events[ad], cutoff) == map[];
        assert d !in Kept(s.events[ad], cutoff);
        assert d !in s.events[ad];
      }
    }
  }

  /** An ad is forgotten exactly when none of its buckets reaches the cutoff; its keys go with it. */
  lemma PurgeForgets(s: Store, cutoff: Date, ad: AdId)
    requires s.events.Keys == s.seen.Keys
    ensures ad in Purge(s, cutoff).events <==> ad in s.events && exists d :: d in s.events[ad] && d >= cutoff
    ensures ad in Purge(s, cutoff).seen <==> ad in Purge(s, cutoff).events
  {
    if ad in s.events {
      var h := s.events[ad];
      if Kept(h, cutoff) != map[] {
        var d := Element(Kept(h, cutoff).Keys);
        assert d in h && d >= cutoff;
      } else {
        assert forall d :: d in h && d >= cutoff ==> d in Kept(h, cutoff);
      }
    }
  }

  /** An ad with nothing before the cutoff is left exactly as it was. */
  lemma PurgeKeepsFresh(s: Store, cutoff: Date, ad: AdId)
    requires ad in s.events && s.events[ad] != map[]
    requires forall d :: d in s.events[ad] ==> d >= cutoff
    ensures ad in Purge(s, cutoff).events && Purge(s, cutoff).events[ad] == s.events[ad]
    ensures SeenOf(Purge(s, cutoff), ad) == SeenOf(s, ad)
  {
    var h := s.events[ad];
    assert Kept(h, cutoff) == h;
    assert ad !in Emptied(s, s.events.Keys, cutoff);
  }

  function SumCounters(rs: seq<PersistRecord>): DailyCounter
    decreases |rs|
  {
    if rs == [] then Zero else Plus(SumCounters(rs[..|rs| - 1]), rs[|rs| - 1].counter)
  }

  lemma PlusComm(a: DailyCounter, b: DailyCounter)
    ensures Plus(a, b) == Plus(b, a)
  {
  }

  lemma PlusAssoc(a: DailyCounter, b: DailyCounter, c: DailyCounter)
    ensures Plus(a, Plus(b, c)) == Plus(Plus(a, b), c)
  {
  }

  /** Summing the buckets of a strictly ascending day list, in order. */
  function SumDays(h: History, ds: seq<Date>): DailyCounter
    decreases |ds|
  {
    if ds == [] then Zero else Plus(CounterAt(h, ds[0]), SumDays(h, ds[1..]))
  }

  lemma {:induction false} SumRecordsDays(ad: AdId, h: History, ds: seq<Date>)
    requires forall i :: 0 <= i < |ds| ==> ds[i] in h
    ensures SumCounters(Records(ad, h, ds)) == SumDays(h, ds)
    decreases |ds|
  {
    if ds != [] {
      var last := ds[|ds| - 1];
      var init := ds[..|ds| - 1];
      SumRecordsDays(ad, h, init);
      assert Records(ad, h, ds)[..|ds| - 1] == Records(ad, h, init);
      SumDaysLast(h, ds);
    }
  }

  lemma {:induction false} SumDaysLast(h: History, ds: seq<Date>)
    requires ds != []
    ensures SumDays(h, ds) == Plus(SumDays(h, ds[..|ds| - 1]), CounterAt(h, ds[|ds| - 1]))
    decreases |ds|
  {
    if |ds| > 1 {
      SumDaysLast(h, ds[1..]);
      assert ds[1..][..|ds| - 2] == ds[..|ds| - 1][1..];
    }
  }

  /** The total of a history is the sum of its buckets walked in ascending order. */
  lemma {:induction false} TotalAscending(h: History)
    ensures SumDays(h, Ascending(h.Keys)) == Total(h)
    decreases |h.Keys|
  {
    AscendingMembers(h.Keys);
    if h != map[] {
      var m := Min(h.Keys);
      var h' := h - {m};
      assert h'.Keys == h.Keys - {m};
      TotalAscending(h');
      AscendingMembers(h'.Keys);
      var xs := Ascending(h.Keys);
      assert xs == [m] + Ascending(h'.Keys);
      assert xs[1..] == Ascending(h'.Keys);
      SumDaysAgree(h, h', xs[1..]);
    }
  }

  lemma {:induction false} SumDaysAgree(h1: History, h2: History, ds: seq<Date>)
    requires forall d :: d in ds ==> CounterAt(h1, d) == CounterAt(h2, d)
    ensures SumDays(h1, ds) == SumDays(h2, ds)
    decreases |ds|
  {
    if ds != [] {
      SumDaysAgree(h1, h2, ds[1..]);
    }
  }

  lemma {:induction false} SumDaysAppend(h: History, xs: seq<Date>, ys: seq<Date>)
    ensures SumDays(h, xs + ys) == Plus(SumDays(h, xs), SumDays(h, ys))
    decreases |xs|
  {
    if xs != [] {
      assert (xs + ys)[1..] == xs[1..] + ys;
      SumDaysAppend(h, xs[1..], ys);
      PlusAssoc(CounterAt(h, xs[0]), SumDays(h, xs[1..]), SumDays(h, ys));
    } else {
      assert xs + ys == ys;
    }
  }

  /** The days a purge keeps, walked in ascending order, sum to the kept history's total. */
  lemma KeptSum(h: History, cutoff: Date)
    ensures var xs := Ascending(h.Keys);
      SumDays(h, xs[|TakeBefore(xs, cutoff)|..]) == Total(Kept(h, cutoff))
  {
    var k := Kept(h, cutoff);
    var xs := Ascending(h.Keys);
    var rest := xs[|TakeBefore(xs, cutoff)|..];
    AscendingMembers(h.Keys);
    AscendingIncreasing(h.Keys);
    DropBeforeSpec(xs, cutoff);
    AscendingMembers(k.Keys);
    AscendingIncreasing(k.Keys);
    IncreasingUnique(rest, Ascending(k.Keys));
    TotalAscending(k);
    SumDaysAgree(h, k, rest);
  }

  /** A day list sums to the sum of its expired prefix plus the sum of the rest. */
  lemma SplitSum(h: History, xs: seq<Date>, cutoff: Date)
    ensures var n := |TakeBefore(xs, cutoff)|;
      SumDays(h, xs) == Plus(SumDays(h, xs[..n]), SumDays(h, xs[n..]))
  {
    var n := |TakeBefore(xs, cutoff)|;
    assert xs == xs[..n] + xs[n..];
    SumDaysAppend(h, xs[..n], xs[n..]);
  }

  /** The log lines of one ad sum to the expired days' counters. */
  lemma ExpiredSum(ad: AdId, h: History, cutoff: Date)
    ensures var xs := Ascending(h.Keys);
      SumCounters(ExpiredRecords(ad, h, cutoff)) == SumDays(h, xs[..|TakeBefore(xs, cutoff)|])
  {
    var xs := Ascending(h.Keys);
    var r := TakeBefore(xs, cutoff);
    assert ExpiredRecords(ad, h, cutoff) == Records(ad, h, r);
    SumRecordsDays(ad, h, r);
  }

  /**
   * Conservation for one ad: what the purge keeps plus what it logs adds up
   * to what the ad had before.
   */
  lemma Conservation(ad: AdId, h: History, cutoff: Date)
    ensures Plus(Total(Kept(h, cutoff)), SumCounters(ExpiredRecords(ad, h, cutoff))) == Total(h)
  {
    var xs := Ascending(h.Keys);
    var n := |TakeBefore(xs, cutoff)|;
    TotalAscending(h);
    SplitSum(h, xs, cutoff);
    KeptSum(h, cutoff);
    ExpiredSum(ad, h, cutoff);
    PlusComm(SumDays(h, xs[..n]), SumDays(h, xs[n..]));
  }

  // ---------------------------------------------------------------------------
  // The persistence log

  /** The log lines of one ad, in log order. */
  function RecordsOf(log: seq<PersistRecord>, ad: AdId): seq<PersistRecord>
    decreases |log|
  {
    if log == [] then []
    else RecordsOf(log[..|log| - 1], ad) + (if log[|log| - 1].adId == ad then [log[|log| - 1]] else [])
  }

  lemma {:induction false} RecordsOfAppend(x: seq<PersistRecord>, y: seq<PersistRecord>, ad: AdId)
    ensures RecordsOf(x + y, ad) == RecordsOf(x, ad) + RecordsOf(y, ad)
    decreases |y|
  {
    if y == [] {
      assert x + y == x;
    } else {
      var y' := y[..|y| - 1];
      assert (x + y)[..|x + y| - 1] == x + y';
      RecordsOfAppend(x, y', ad);
    }
  }

  lemma {:induction false} RecordsOfOneAd(rs: seq<PersistRecord>, a: AdId, ad: AdId)
    requires forall i :: 0 <= i < |rs| ==> rs[i].adId == a
    ensures RecordsOf(rs, ad) == if a == ad then rs else []
    decreases |rs|
  {
    if rs != [] {
      RecordsOfOneAd(rs[..|rs| - 1], a, ad);
      assert rs[..|rs| - 1] + [rs[|rs| - 1]] == rs;
    }
  }

  /**
   * What the purge of one ad logs: one line per expired day, oldest first,
   * carrying the ad, the day and that day's counter.
   */
  lemma ExpiredRecordsSpec(ad: AdId, h: History, cutoff: Date)
    ensures var rs := ExpiredRecords(ad, h, cutoff);
      && (forall i :: 0 <= i < |rs| ==> rs[i].adId == ad && rs[i].date in h && rs[i].counter == h[rs[i].date])
      && (forall i, j :: 0 <= i < j < |rs| ==> rs[i].date < rs[j].date)
      && (forall d :: d in h && d < cutoff <==> exists i :: 0 <= i < |rs| && rs[i].date == d)
  {
    var ds := ExpiredDays(h, cutoff);
    var rs := ExpiredRecords(ad, h, cutoff);
    ExpiredDaysSpec(h, cutoff);
    forall d ensures d in h && d < cutoff <==> exists i :: 0 <= i < |rs| && rs[i].date == d {
      if d in h && d < cutoff {
        assert d in ds;
        var i :| 0 <= i < |ds| && ds[i] == d;
        assert rs[i].date == d;
      }
    }
  }

  /**
   * Each ad's lines in the log of a purge are exactly its expired buckets,
   * oldest first: every removed bucket is logged once, and no other ad's
   * purge logs anything for it.
   */
  lemma {:induction false} PurgeLogOfAd(events: map<AdId, History>, ads: seq<AdId>, cutoff: Date, ad: AdId)
    requires Distinct(ads)
    ensures RecordsOf(PurgeLog(events, ads, cutoff), ad)
         == if ad in ads && ad in events then ExpiredRecords(ad, events[ad], cutoff) else []
    decreases |ads|
  {
    if ads != [] {
      var init, last := ads[..|ads| - 1], ads[|ads| - 1];
      PurgeLogOfAd(events, init, cutoff, ad);
      var tail := if last in events then ExpiredRecords(last, events[last], cutoff) else [];
      RecordsOfAppend(PurgeLog(events, init, cutoff), tail, ad);
      if last in events {
        ExpiredRecordsSpec(last, events[last], cutoff);
        RecordsOfOneAd(tail, last, ad);
      }
      assert ad in ads <==> ad in init || ad == last;
      assert last !in init;
    }
  }

  // ---------------------------------------------------------------------------
  // Ingestion after a purge

  /** Both stores know the same ads. */
  ghost predicate SameAds(s: Store)
  {
    s.events.Keys == s.seen.Keys
  }

  lemma IngestSameAds(s: Store, e: AdEvent)
    requires SameAds(s)
    ensures SameAds(Ingest(s, e))
  {
  }

  lemma {:induction false} IngestAllSameAds(s: Store, es: seq<AdEvent>)
    requires SameAds(s)
    ensures SameAds(IngestAll(s, es))
    decreases |es|
  {
    if es != [] {
      IngestAllSameAds(s, es[..|es| - 1]);
      IngestSameAds(IngestAll(s, es[..|es| - 1]), es[|es| - 1]);
    }
  }

  lemma PurgeSameAds(s: Store, cutoff: Date)
    requires SameAds(s)
    ensures SameAds(Purge(s, cutoff))
  {
  }

  /**
   * Forgetting an ad forgets its deduplication keys: an event that was a
   * duplicate before the purge is counted again after it.
   */
  lemma ReplayAfterPurgeCounts(s: Store, cutoff: Date, e: AdEvent)
    requires e.adId in s.events
    requires forall d :: d in s.events[e.adId] ==> d < cutoff
    requires KeyOf(e) in SeenOf(s, e.adId)
    ensures Ingest(s, e) == s
    ensures e.adId !in Purge(s, cutoff).events && e.adId !in Purge(s, cutoff).seen
    ensures CounterAt(HistoryOf(Ingest(Purge(s, cutoff), e), e.adId), e.timestamp.date) == Increment(Zero, e.eventType)
  {
    assert Kept(s.events[e.adId], cutoff) == map[];
    assert e.adId in Emptied(s, s.events.Keys, cutoff);
  }

  /** An ad not yet visited by the purge loop still has its original entries. */
  lemma {:induction false} PurgeAdsUntouched(s: Store, ads: seq<AdId>, cutoff: Date, ad: AdId)
    requires ad !in ads
    ensures ad in PurgeAds(s, ads, cutoff).events <==> ad in s.events
    ensures ad in s.events ==> PurgeAds(s, ads, cutoff).events[ad] == s.events[ad]
    ensures SeenOf(PurgeAds(s, ads, cutoff), ad) == SeenOf(s, ad)
    decreases |ads|
  {
    if ads != [] {
      PurgeAdsUntouched(s, ads[..|ads| - 1], cutoff, ad);
    }
  }

  /** One more ad in the purge order: its purge step and its log lines come last. */
  lemma PurgeStep(s: Store, ads: seq<AdId>, cutoff: Date, ad: AdId)
    ensures PurgeAds(s, ads + [ad], cutoff) == PurgeAd(PurgeAds(s, ads, cutoff), ad, cutoff)
    ensures PurgeLog(s.events, ads + [ad], cutoff)
         == PurgeLog(s.events, ads, cutoff) + (if ad in s.events then ExpiredRecords(ad, s.events[ad], cutoff) else [])
  {
    assert (ads + [ad])[..|ads|] == ads;
  }

  /**
   * The loop invariant of purgeOldData: the ads visited so far (order) and
   * those still to visit (ads) split the snapshot, and the state and the log
   * are those of purging the visited ads in order.
   */
  ghost predicate PurgeProgress(s0: Store, log0: seq<PersistRecord>, cutoff: Date, order: seq<AdId>,
                                ads: set<AdId>, st: Store, log: seq<PersistRecord>)
  {
    && (forall a :: a in order <==> a in s0.events && a !in ads)
    && ads <= s0.events.Keys
    && Distinct(order)
    && st == PurgeAds(s0, order, cutoff)
    && log == log0 + PurgeLog(s0.events, order, cutoff)
  }

  lemma PurgeProgressNext(s0: Store, log0: seq<PersistRecord>, cutoff: Date, order: seq<AdId>,
                          ads: set<AdId>, st: Store, log: seq<PersistRecord>, ad: AdId)
    requires PurgeProgress(s0, log0, cutoff, order, ads, st, log) && ad in ads
    ensures ad in st.events && st.events[ad] == s0.events[ad]
  {
    PurgeAdsUntouched(s0, order, cutoff, ad);
  }

  lemma PurgeProgressStep(s0: Store, log0: seq<PersistRecord>, cutoff: Date, order: seq<AdId>,
                          ads: set<AdId>, st: Store, log: seq<PersistRecord>, ad: AdId,
                          st': Store, log': seq<PersistRecord>)
    requires PurgeProgress(s0, log0, cutoff, order, ads, st, log) && ad in ads
    requires st' == PurgeAd(st, ad, cutoff)
    requires ad in st.events && log' == log + ExpiredRecords(ad, st.events[ad], cutoff)
    ensures PurgeProgress(s0, log0, cutoff, order + [ad], ads - {ad}, st', log')
  {
    VisitNext(s0.events.Keys, order, ads, ad);
    PurgeAdsUntouched(s0, order, cutoff, ad);
    PurgeStep(s0, order, cutoff, ad);
    LogNext(log0, PurgeLog(s0.events, order, cutoff), ExpiredRecords(ad, s0.events[ad], cutoff));
  }

  /** Moving one ad from the ads still to visit to the visited ones keeps the split. */
  lemma VisitNext(keys: set<AdId>, order: seq<AdId>, ads: set<AdId>, ad: AdId)
    requires forall a :: a in order <==> a in keys && a !in ads
    requires ads <= keys && Distinct(order) && ad in ads
    ensures forall a :: a in order + [ad] <==> a in keys && a !in ads - {ad}
    ensures ads - {ad} <= keys && Distinct(order + [ad])
  {
    assert ad !in order;
  }

  lemma LogNext(log0: seq<PersistRecord>, logged: seq<PersistRecord>, more: seq<PersistRecord>)
    ensures (log0 + logged) + more == log0 + (logged + more)
  {
  }

  lemma PurgeProgressDone(s0: Store, log0: seq<PersistRecord>, cutoff: Date, order: seq<AdId>,
                          st: Store, log: seq<PersistRecord>)
    requires PurgeProgress(s0, log0, cutoff, order, {}, st, log)
    ensures Distinct(order) && (set a | a in order) == s0.events.Keys
    ensures st == Purge(s0, cutoff)
    ensures log == log0 + PurgeLog(s0.events, order, cutoff)
  {
    assert forall a :: a in order <==> a in s0.events;
    assert (set a | a in order) == s0.events.Keys;
    PurgeAdsIsPurgeSet(s0, order, cutoff);
  }

  lemma TakeBeforeCons(x: Date, xs: seq<Date>, cutoff: Date)
    requires x < cutoff
    ensures TakeBefore([x] + xs, cutoff) == [x] + TakeBefore(xs, cutoff)
  {
    assert ([x] + xs)[1..] == xs;
  }

  // ---------------------------------------------------------------------------
  // The system with a retention horizon

  /**
   * The scan of purgeOldData: walk the days of a history from the oldest,
   * collecting them while they lie before the cutoff, stopping at the first
   * day that does not.
   */
  method CollectExpiredDays(history: History, cutoff: Date) returns (toRemove: seq<Date>)
    ensures toRemove == ExpiredDays(history, cutoff)
  {
    toRemove := [];
    var days := history.Keys;
    while days != {}
      invariant ExpiredDays(history, cutoff) == toRemove + TakeBefore(Ascending(days), cutoff)
      decreases |days|
    {
      ghost var w := Element(days);
      var day :| day in days && forall y :: y in days ==> day <= y;
      assert day == Min(days);
      assert Ascending(days) == [day] + Ascending(days - {day});
      if day < cutoff {
        TakeBeforeCons(day, Ascending(days - {day}), cutoff);
        toRemove := toRemove + [day];
        days := days - {day};
      } else {
        break;
      }
    }
  }

  class AdClickSystemTtl {
    var eventStore: map<AdId, History>
    var seenStore: map<AdId, set<SeenEvent>>
    /** The mock persistent DB: every purged bucket, in the order purged. */
    var persistentStore: seq<PersistRecord>

    function State(): Store
      reads this
    {
      Store(eventStore, seenStore)
    }

    ghost predicate Valid()
      reads this
    {
      SameAds(State())
    }

    constructor ()
      ensures Valid() && State() == EmptyStore && persistentStore == []
    {
      eventStore := map[];
      seenStore := map[];
      persistentStore := [];
    }

    /** Simulated persistence write: one line appended to the log (TTL.java:69-72). */
    method DumpExpiredDataToPersistentStore(ad: AdId, date: Date, dc: DailyCounter)
      modifies this
      ensures persistentStore == old(persistentStore) + [PersistRecord(ad, date, dc)]
      ensures eventStore == old(eventStore) && seenStore == old(seenStore)
    {
      persistentStore := persistentStore + [PersistRecord(ad, date, dc)];
    }

    /**
     * The removal loop of purgeOldData for one ad: each listed day is removed
     * from the history and its counter dumped, in list order.
     */
    method RemoveAndPersist(ad: AdId, history: History, toRemove: seq<Date>) returns (rest: History)
      requires forall i :: 0 <= i < |toRemove| ==> toRemove[i] in history
      requires forall i, j :: 0 <= i < j < |toRemove| ==> toRemove[i] != toRemove[j]
      modifies this
      ensures rest == map d | d in history && d !in toRemove :: history[d]
      ensures persistentStore == old(persistentStore) + Records(ad, history, toRemove)
      ensures State() == old(State())
    {
      rest := history;
      for j := 0 to |toRemove|
        invariant rest == map d | d in history && d !in toRemove[..j] :: history[d]
        invariant persistentStore == old(persistentStore) + Records(ad, history, toRemove[..j])
        invariant State() == old(State())
      {
        var day := toRemove[j];
        assert day !in toRemove[..j];
        var dc := rest[day];
        rest := rest - {day};
        DumpExpiredDataToPersistentStore(ad, day, dc);
        assert toRemove[..j + 1] == toRemove[..j] + [day];
      }
      assert toRemove[..|toRemove|] == toRemove;
    }

    /**
     * One iteration of purgeOldData's loop: collect the ad's days before the
     * cutoff, remove and dump them, and forget the ad if nothing is left.
     */
    method PurgeAdData(ad: AdId, cutoff: Date)
      requires ad in eventStore
      modifies this
      ensures State() == PurgeAd(old(State()), ad, cutoff)
      ensures persistentStore == old(persistentStore) + ExpiredRecords(ad, old(eventStore)[ad], cutoff)
    {
      var history := eventStore[ad];
      var toRemove := CollectExpiredDays(history, cutoff);
      ExpiredDaysSpec(history, cutoff);
      history := RemoveAndPersist(ad, history, toRemove);
      assert history == Kept(old(eventStore)[ad], cutoff);
      if history == map[] {
        eventStore := eventStore - {ad};
        seenStore := seenStore - {ad};
      } else {
        eventStore := eventStore[ad := history];
      }
    }

    /**
     * Removes every bucket dated before the cutoff, logging each, and forgets
     * ads left empty. The ads are visited in the (unspecified) order of a
     * snapshot of the key set; order reports that order.
     */
    method PurgeOldData(cutoff: Date) returns (ghost order: seq<AdId>)
      modifies this
      ensures Distinct(order) && (set a | a in order) == old(eventStore).Keys
      ensures State() == Purge(old(State()), cutoff)
      ensures persistentStore == old(persistentStore) + PurgeLog(old(eventStore), order, cutoff)
    {
      ghost var s0, log0 := State(), persistentStore;
      var ads := eventStore.Keys;
      order := [];
      while ads != {}
        invariant PurgeProgress(s0, log0, cutoff, order, ads, State(), persistentStore)
        decreases |ads|
      {
        ghost var w := Element(ads);
        var ad :| ad in ads;
        ghost var st, log := State(), persistentStore;
        PurgeProgressNext(s0, log0, cutoff, order, ads, st, log, ad);
        PurgeAdData(ad, cutoff);
        PurgeProgressStep(s0, log0, cutoff, order, ads, st, log, ad, State(), persistentStore);
        order := order + [ad];
        ads := ads - {ad};
      }
      PurgeProgressDone(s0, log0, cutoff, order, State(), persistentStore);
    }

    /**
     * Ingest a batch after purging everything older than RETENTION_DAYS before
     * today (TTL.java:7-35); today, read from the clock in the source, is a
     * parameter here. The ads are purged in the snapshot order returned as order.
     */
    method ConsumeAdEvents(events: seq<AdEvent>, today: Date) returns (ghost order: seq<AdId>)
      requires Valid()
      modifies this
      ensures Valid()
      ensures State() == IngestAll(Purge(old(State()), today - RETENTION_DAYS), events)
      ensures Distinct(order) && (set a | a in order) == old(eventStore).Keys
      ensures persistentStore == old(persistentStore) + PurgeLog(old(eventStore), order, today - RETENTION_DAYS)
    {
      var cutoff := today - RETENTION_DAYS;
      PurgeSameAds(State(), cutoff);
      order := PurgeOldData(cutoff);
      IngestBatch(events);
    }

    /** The deduplicating ingest loop of consumeAdEvents (TTL.java:14-34); the log is untouched. */
    method IngestBatch(events: seq<AdEvent>)
      requires Valid()
      modifies this
      ensures Valid()
      ensures State() == IngestAll(old(State()), events)
      ensures persistentStore == old(persistentStore)
    {
      for i := 0 to |events|
        invariant State() == IngestAll(old(State()), events[..i])
        invariant persistentStore == old(persistentStore)
      {
        var e := events[i];
        ghost var before := State();
        assert events[..i + 1][..i] == events[..i];
        assert IngestAll(old(State()), events[..i + 1]) == Ingest(before, e);
        var seen := if e.adId in seenStore then seenStore[e.adId] else {};
        var key := SeenEvent(e.timestamp, e.eventType);
        if key in seen {
          continue;
        }
        seenStore := seenStore[e.adId := seen + {key}];
        var history := if e.adId in eventStore then eventStore[e.adId] else map[];
        var date := e.timestamp.date;
        var dc := if date in history then history[date] else DailyCounter(0, 0);
        if e.eventType == Impression {
          dc := dc.(impressions := dc.impressions + 1);
        } else {
          dc := dc.(clicks := dc.clicks + 1);
        }
        eventStore := eventStore[e.adId := history[date := dc]];
      }
      assert events[..|events|] == events;
      IngestAllSameAds(old(State()), events);
    }
  }
}
