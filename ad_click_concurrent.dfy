/**
 * The multi-threaded ad click aggregator (ConcurrentCode.java), with every
 * public method taken as one atomic step. Concurrent maps become plain maps,
 * LongAdder counters plain naturals, the per-ad lock table a set of ad ids.
 * Ingestion, history and cap are specified by the same functions as the
 * single-threaded aggregator; purge by the same functions as the TTL variant.
 */
module AdClickConcurrent {
  import opened Wrappers
  import opened IntSets
  import opened AdClick
  import opened AdClickTtl

  /** The lock table after visiting the ads in visited: a visited ad holds a lock iff it survived. */
  function LocksAfter(locks0: set<AdId>, visited: set<AdId>, st: Store): set<AdId>
  {
    (locks0 - visited) + (visited * st.events.Keys)
  }

  /** No bucket of h lies in the closed day range [lo, hi]. */
  ghost predicate NoDays(h: History, lo: Date, hi: Date)
  {
    forall d :: d in h ==> !(lo <= d <= hi)
  }

  lemma PlusZero(c: DailyCounter)
    ensures Plus(c, Zero) == c
  {
  }

  /** Skipping days that hold no bucket leaves the window sum unchanged. */
  lemma {:induction false} WindowSkip(h: History, lo: Date, mid: Date, hi: Date)
    requires lo <= mid <= hi + 1
    requires NoDays(h, mid, hi)
    ensures WindowSum(h, lo, hi) == WindowSum(h, lo, mid - 1)
    decreases hi - mid
  {
    if mid <= hi {
      WindowSkip(h, lo, mid, hi - 1);
      var w := WindowSum(h, lo, hi - 1);
      assert CounterAt(h, hi) == Zero;
      assert WindowSum(h, lo, hi) == Plus(w, Zero);
      PlusZero(w);
    }
  }

  /** The least stored day of the rest of the window adds its counter to the sum so far. */
  lemma WindowPick(h: History, lo: Date, next: Date, day: Date)
    requires lo <= next <= day && day in h
    requires NoDays(h, next, day - 1)
    ensures WindowSum(h, lo, day) == Plus(WindowSum(h, lo, next - 1), h[day])
  {
    WindowSkip(h, lo, next, day - 1);
  }

  /** The days left to walk are the stored days of [next, hi]. */
  ghost predicate WindowLeft(window: set<Date>, h: History, next: Date, hi: Date)
  {
    forall d :: d in window <==> d in h && next <= d <= hi
  }

  /** Taking the least day left adds its counter and moves the cursor past it. */
  lemma SubMapStep(h: History, lo: Date, next: Date, hi: Date, window: set<Date>, day: Date)
    requires lo <= next && WindowLeft(window, h, next, hi)
    requires day in window && forall y :: y in window ==> day <= y
    ensures day in h && next <= day <= hi
    ensures WindowLeft(window - {day}, h, day + 1, hi)
    ensures WindowSum(h, lo, day) == Plus(WindowSum(h, lo, next - 1), h[day])
  {
    assert NoDays(h, next, day - 1);
    WindowPick(h, lo, next, day);
  }

  lemma AddCounter(a: DailyCounter, impressions: nat, clicks: nat, b: DailyCounter)
    requires a == DailyCounter(impressions, clicks)
    ensures Plus(a, b) == DailyCounter(impressions + b.impressions, clicks + b.clicks)
  {
  }

  /** A history with nothing before the cutoff keeps every bucket and logs nothing. */
  lemma NothingExpired(h: History, cutoff: Date)
    requires ExpiredDays(h, cutoff) == []
    ensures Kept(h, cutoff) == h
  {
    ExpiredDaysSpec(h, cutoff);
    assert forall d :: d in h ==> d >= cutoff;
  }

  lemma EmptyHistoryExpires(cutoff: Date)
    ensures ExpiredDays(map[], cutoff) == []
    ensures Kept(map[], cutoff) == map[]
  {
    var h: History := map[];
    assert h.Keys == {};
  }

  /** An ad with an empty history is dropped and logs nothing (ConcurrentCode.java:244-250). */
  lemma PurgeEmptyAd(s: Store, ad: AdId, cutoff: Date)
    requires ad in s.events && s.events[ad] == map[]
    ensures PurgeAd(s, ad, cutoff) == Store(s.events - {ad}, s.seen - {ad})
    ensures ExpiredRecords(ad, s.events[ad], cutoff) == []
  {
    EmptyHistoryExpires(cutoff);
  }

  /** An ad whose scan finds nothing before the cutoff is left as it is. */
  lemma PurgeUnexpiredAd(s: Store, ad: AdId, cutoff: Date)
    requires ad in s.events && s.events[ad] != map[] && ExpiredDays(s.events[ad], cutoff) == []
    ensures PurgeAd(s, ad, cutoff) == s
    ensures ExpiredRecords(ad, s.events[ad], cutoff) == []
  {
    NothingExpired(s.events[ad], cutoff);
  }

  /** Purging an ad that has nothing before the cutoff changes nothing (ConcurrentCode.java:253-254). */
  lemma FreshAdUnchanged(s: Store, ad: AdId, cutoff: Date)
    requires ad in s.events && s.events[ad] != map[]
    requires forall d :: d in s.events[ad] ==> d >= cutoff
    ensures PurgeAd(s, ad, cutoff) == s
    ensures ExpiredRecords(ad, s.events[ad], cutoff) == []
  {
    var h := s.events[ad];
    assert Kept(h, cutoff) == h;
    ExpiredDaysSpec(h, cutoff);
  }

  /** The lock table while purging: the snapshot ads still to visit are ads, the others are visited. */
  ghost predicate LockProgress(s0: Store, locks0: set<AdId>, ads: set<AdId>, st: Store, locks: set<AdId>)
  {
    ads <= s0.events.Keys && locks == LocksAfter(locks0, s0.events.Keys - ads, st)
  }

  /** One more ad visited: the lock table follows the survival of that ad alone. */
  lemma LockProgressStep(s0: Store, locks0: set<AdId>, cutoff: Date, ads: set<AdId>, st: Store, locks: set<AdId>, ad: AdId)
    requires LockProgress(s0, locks0, ads, st, locks) && ad in ads && ad in st.events
    ensures var st' := PurgeAd(st, ad, cutoff);
      LockProgress(s0, locks0, ads - {ad}, st', if ad in st'.events then locks + {ad} else locks - {ad})
  {
    var st' := PurgeAd(st, ad, cutoff);
    var visited := s0.events.Keys - ads;
    assert s0.events.Keys - (ads - {ad}) == visited + {ad};
    assert st'.events.Keys == st.events.Keys || st'.events.Keys == st.events.Keys - {ad};
    assert visited * st'.events.Keys == visited * st.events.Keys;
  }

  /** Once every ad is visited, the lock table is exactly the set of surviving ads. */
  lemma LockProgressDone(s0: Store, locks0: set<AdId>, cutoff: Date, locks: set<AdId>)
    requires locks0 <= s0.events.Keys && LockProgress(s0, locks0, {}, Purge(s0, cutoff), locks)
    ensures locks == Purge(s0, cutoff).events.Keys
  {
    assert s0.events.Keys - {} == s0.events.Keys;
    assert Purge(s0, cutoff).events.Keys <= s0.events.Keys;
  }

  class ConcurrentAdClickSystem {
    var eventStore: map<AdId, History>
    var seenStore: map<AdId, set<SeenEvent>>
    /** The ads holding a purge lock (ConcurrentCode.java:127). */
    var adLocks: set<AdId>
    var persistentStore: seq<PersistRecord>

    function State(): Store
      reads this
    {
      Store(eventStore, seenStore)
    }

    /** Both stores know the same ads, and a lock exists only for a stored ad. */
    ghost predicate Valid()
      reads this
    {
      SameAds(State()) && adLocks <= eventStore.Keys
    }

    constructor ()
      ensures Valid() && State() == EmptyStore && adLocks == {} && persistentStore == []
    {
      eventStore := map[];
      seenStore := map[];
      adLocks := {};
      persistentStore := [];
    }

    /**
     * The batch loop of consumeAdEvents (ConcurrentCode.java:155-180): the same
     * effect as the single-threaded ingestion, and no lock is touched.
     */
    method ConsumeAdEvents(events: seq<AdEvent>)
      requires Valid()
      modifies this
      ensures Valid()
      ensures State() == IngestAll(old(State()), events)
      ensures adLocks == old(adLocks) && persistentStore == old(persistentStore)
    {
      for i := 0 to |events|
        invariant Valid()
        invariant State() == IngestAll(old(State()), events[..i])
        invariant adLocks == old(adLocks) && persistentStore == old(persistentStore)
      {
        assert events[..i + 1][..i] == events[..i];
        IngestSameAds(State(), events[i]);
        ConsumeAdEvent(events[i]);
      }
      assert events[..|events|] == events;
    }

    /**
     * One event: computeIfAbsent on the seen set and an atomic add; a new key
     * then gets computeIfAbsent on the history and on the day's counter, and
     * one increment (ConcurrentCode.java:160-178).
     */
    method ConsumeAdEvent(e: AdEvent)
      modifies this
      ensures State() == Ingest(old(State()), e)
      ensures adLocks == old(adLocks) && persistentStore == old(persistentStore)
    {
      var seenSet := if e.adId in seenStore then seenStore[e.adId] else {};
      var key := SeenEvent(e.timestamp, e.eventType);
      var isNew := key !in seenSet;
      seenStore := seenStore[e.adId := seenSet + {key}];
      if !isNew {
        assert seenSet + {key} == seenSet;
        return;
      }
      var history := if e.adId in eventStore then eventStore[e.adId] else map[];
      var date := e.timestamp.date;
      var dc := if date in history then history[date] else DailyCounter(0, 0);
      if e.eventType == Impression {
        dc := dc.(impressions := dc.impressions + 1);
      } else {
        dc := dc.(clicks := dc.clicks + 1);
      }
      eventStore := eventStore[e.adId := history[date := dc]];
    }

    /** The ad's buckets, oldest first; an unknown ad is an IllegalArgumentException (ConcurrentCode.java:186-199). */
    method GetDailyAdEventHistory(adId: AdId) returns (r: Result<seq<AdEventBucket>>)
      ensures adId !in eventStore ==> r == Err(IllegalArgumentException)
      ensures adId in eventStore ==> r == Ok(HistoryBuckets(eventStore[adId]))
    {
      if adId !in eventStore {
        return Err(IllegalArgumentException);
      }
      var history := eventStore[adId];
      var result: seq<AdEventBucket> := [];
      var rest := history.Keys;
      ghost var done: seq<Date> := [];
      while rest != {}
        invariant rest <= history.Keys
        invariant forall d :: d in done ==> d in history
        invariant Ascending(history.Keys) == done + Ascending(rest)
        invariant |result| == |done|
        invariant forall i :: 0 <= i < |done| ==> result[i] == ToBucket(done[i], history[done[i]])
        decreases |rest|
      {
        ghost var w := Element(rest);
        var day :| day in rest && forall y :: y in rest ==> day <= y;
        assert day == Min(rest);
        assert Ascending(rest) == [day] + Ascending(rest - {day});
        var dc := history[day];
        result := result + [AdEventBucket(day, dc.impressions, dc.clicks)];
        done := done + [day];
        rest := rest - {day};
      }
      assert done == Ascending(history.Keys);
      ghost var spec := ToBuckets(history, done);
      assert result == spec;
      return Ok(result);
    }

    /**
     * The cap over the stored days of subMap(start, true, date, true), walked in
     * ascending order (ConcurrentCode.java:205-223).
     */
    method IsAdCappedAtDate(adId: AdId, date: Date) returns (r: Result<bool>)
      ensures adId !in eventStore ==> r == Err(IllegalArgumentException)
      ensures adId in eventStore ==> r == Ok(CappedAt(eventStore[adId], date))
    {
      if adId !in eventStore {
        return Err(IllegalArgumentException);
      }
      var history := eventStore[adId];
      var start := date - (ROLLING_WINDOW_LENGTH_DAYS - 1);
      var impressions, clicks := SumSubMap(history, start, date);
      return Ok(impressions >= IMPRESSION_LIMIT && clicks == 0);
    }

    /** The walk over subMap(start, true, date, true) in ascending day order (ConcurrentCode.java:212-220). */
    static method SumSubMap(history: History, start: Date, date: Date) returns (impressions: nat, clicks: nat)
      requires start <= date + 1
      ensures DailyCounter(impressions, clicks) == WindowSum(history, start, date)
    {
      impressions, clicks := 0, 0;
      var window := set d | d in history && start <= d <= date;
      ghost var next := start;
      while window != {}
        invariant start <= next <= date + 1
        invariant WindowLeft(window, history, next, date)
        invariant DailyCounter(impressions, clicks) == WindowSum(history, start, next - 1)
        decreases |window|
      {
        ghost var least := Min(window);
        var day :| day in window && forall y :: y in window ==> day <= y;
        var dc := history[day];
        SubMapStep(history, start, next, date, window, day);
        AddCounter(WindowSum(history, start, next - 1), impressions, clicks, dc);
        impressions := impressions + dc.impressions;
        clicks := clicks + dc.clicks;
        window := window - {day};
        next := day + 1;
        assert DailyCounter(impressions, clicks) == WindowSum(history, start, day);
      }
      assert NoDays(history, next, date);
      WindowSkip(history, start, next, date);
    }

    /** The removal loop of one ad: each listed day is removed, then its counter dumped (ConcurrentCode.java:259-264). */
    method RemoveAndPersist(ad: AdId, history: History, toRemove: seq<Date>) returns (rest: History)
      requires forall i :: 0 <= i < |toRemove| ==> toRemove[i] in history
      requires forall i, j :: 0 <= i < j < |toRemove| ==> toRemove[i] != toRemove[j]
      modifies this
      ensures rest == map d | d in history && d !in toRemove :: history[d]
      ensures persistentStore == old(persistentStore) + Records(ad, history, toRemove)
      ensures State() == old(State()) && adLocks == old(adLocks)
    {
      rest := history;
      for j := 0 to |toRemove|
        invariant rest == map d | d in history && d !in toRemove[..j] :: history[d]
        invariant persistentStore == old(persistentStore) + Records(ad, history, toRemove[..j])
        invariant State() == old(State()) && adLocks == old(adLocks)
      {
        var day := toRemove[j];
        RemoveNext(ad, history, toRemove, j, rest);
        var dc: Option<DailyCounter> := if day in rest then Some(rest[day]) else None;
        rest := rest - {day};
        if dc.Some? {
          persistentStore := persistentStore + [PersistRecord(ad, day, dc.value)];
        }
      }
      assert toRemove[..|toRemove|] == toRemove;
    }

    /** Removing the expired days leaves the kept ones. */
    static lemma RestIsKept(h: History, cutoff: Date)
      ensures (map d | d in h && d !in ExpiredDays(h, cutoff) :: h[d]) == Kept(h, cutoff)
    {
      ExpiredDaysSpec(h, cutoff);
    }

    /** One step of RemoveAndPersist: the next day is still in the rest,
      * and removing it extends the removed days and the records by one. */
    static lemma RemoveNext(ad: AdId, history: History, toRemove: seq<Date>, j: nat,
      rest: History)
      requires j < |toRemove| && forall i :: 0 <= i < |toRemove| ==> toRemove[i] in history
      requires forall i :: 0 <= i < j ==> toRemove[i] != toRemove[j]
      requires rest == map d | d in history && d !in toRemove[..j] :: history[d]
      ensures toRemove[j] in rest && rest[toRemove[j]] == history[toRemove[j]]
      ensures rest - {toRemove[j]} == map d | d in history && d !in toRemove[..j + 1] :: history[d]
      ensures Records(ad, history, toRemove[..j + 1]) ==
        Records(ad, history, toRemove[..j]) + [PersistRecord(ad, toRemove[j], history[toRemove[j]])]
    {
      assert toRemove[..j + 1] == toRemove[..j] + [toRemove[j]];
      assert toRemove[..j + 1][..j] == toRemove[..j];
    }

    /**
     * One iteration of purgeOldData (ConcurrentCode.java:240-273): take the
     * ad's lock, drop an ad with an empty history, leave alone an ad with
     * nothing before the cutoff, otherwise remove and dump its expired days and
     * drop the ad, with its lock, when nothing is left.
     */
    method PurgeAdData(ad: AdId, cutoff: Date)
      requires ad in eventStore
      modifies this
      ensures State() == PurgeAd(old(State()), ad, cutoff)
      ensures adLocks == if ad in eventStore then old(adLocks) + {ad} else old(adLocks) - {ad}
      ensures persistentStore == old(persistentStore) + ExpiredRecords(ad, old(eventStore)[ad], cutoff)
    {
      adLocks := adLocks + {ad};
      var history := eventStore[ad];
      if history == map[] {
        PurgeEmptyAd(State(), ad, cutoff);
        DropAd(ad);
        return;
      }
      var toRemove := CollectExpiredDays(history, cutoff);
      if toRemove == [] {
        PurgeUnexpiredAd(State(), ad, cutoff);
        return;
      }
      ExpireDays(ad, cutoff, toRemove);
    }

    /** eventStore, seenStore and adLocks all forget the ad (ConcurrentCode.java:246-248,267-269). */
    method DropAd(ad: AdId)
      modifies this
      ensures State() == Store(old(eventStore) - {ad}, old(seenStore) - {ad})
      ensures adLocks == old(adLocks) - {ad} && persistentStore == old(persistentStore)
    {
      eventStore := eventStore - {ad};
      seenStore := seenStore - {ad};
      adLocks := adLocks - {ad};
    }

    /** Remove and dump the expired days of an ad, then drop the ad if nothing is left (ConcurrentCode.java:257-270). */
    method ExpireDays(ad: AdId, cutoff: Date, toRemove: seq<Date>)
      requires ad in eventStore && toRemove == ExpiredDays(eventStore[ad], cutoff)
      modifies this
      ensures State() == PurgeAd(old(State()), ad, cutoff)
      ensures adLocks == if ad in eventStore then old(adLocks) else old(adLocks) - {ad}
      ensures persistentStore == old(persistentStore) + ExpiredRecords(ad, old(eventStore)[ad], cutoff)
    {
      var history := eventStore[ad];
      ExpiredDaysSpec(history, cutoff);
      RestIsKept(history, cutoff);
      history := RemoveAndPersist(ad, history, toRemove);
      if history == map[] {
        DropAd(ad);
      } else {
        eventStore := eventStore[ad := history];
      }
    }

    /**
     * Purge over a snapshot of the ad keys (ConcurrentCode.java:235-275); the
     * snapshot order is not determined and is returned as order.
     */
    method PurgeOldData(cutoff: Date) returns (ghost order: seq<AdId>)
      requires Valid()
      modifies this
      ensures Valid()
      ensures Distinct(order) && (set a | a in order) == old(eventStore).Keys
      ensures State() == Purge(old(State()), cutoff)
      ensures adLocks == Purge(old(State()), cutoff).events.Keys
      ensures persistentStore == old(persistentStore) + PurgeLog(old(eventStore), order, cutoff)
    {
      ghost var s0, log0, locks0 := State(), persistentStore, adLocks;
      PurgeSameAds(s0, cutoff);
      var ads := eventStore.Keys;
      order := [];
      while ads != {}
        invariant PurgeProgress(s0, log0, cutoff, order, ads, State(), persistentStore)
        invariant LockProgress(s0, locks0, ads, State(), adLocks)
        decreases |ads|
      {
        ghost var w := Element(ads);
        var ad :| ad in ads;
        ghost var st, log := State(), persistentStore;
        PurgeProgressNext(s0, log0, cutoff, order, ads, st, log, ad);
        LockProgressStep(s0, locks0, cutoff, ads, st, adLocks, ad);
        PurgeAdData(ad, cutoff);
        PurgeProgressStep(s0, log0, cutoff, order, ads, st, log, ad, State(), persistentStore);
        order := order + [ad];
        ads := ads - {ad};
      }
      PurgeProgressDone(s0, log0, cutoff, order, State(), persistentStore);
      LockProgressDone(s0, locks0, cutoff, adLocks);
    }

    /** The scheduled purge run: cutoff = today - RETENTION_DAYS (ConcurrentCode.java:139-146; the same RETENTION_DAYS), today a parameter. */
    method ScheduledPurge(today: Date) returns (ghost order: seq<AdId>)
      requires Valid()
      modifies this
      ensures Valid()
      ensures State() == Purge(old(State()), today - RETENTION_DAYS)
      ensures adLocks == State().events.Keys
      ensures persistentStore == old(persistentStore) + PurgeLog(old(eventStore), order, today - RETENTION_DAYS)
    {
      order := PurgeOldData(today - RETENTION_DAYS);
    }
  }
}
