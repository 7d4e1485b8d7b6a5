/** Running commodity price: a price per timestamp (re-upserting a timestamp
  * replaces its price) and the maximum current price. The first version keeps
  * a count per price in a sorted map and reads the largest key; the second
  * keeps the counts in a hash map together with a running maximum that is
  * rescanned only when the last holder of the maximum changes price. */
module CommodityPricing {
  import opened IntSets

  const MIN_INT: int := -0x8000_0000
  const MAX_INT: int := 0x7fff_ffff

  /** The timestamps whose current price is p. */
  ghost function Holders(ts: map<int, int>, p: int): set<int> {
    set t | t in ts && ts[t] == p
  }

  /** The number of timestamps whose current price is p. */
  ghost function Count(ts: map<int, int>, p: int): nat {
    |Holders(ts, p)|
  }

  /** Taking a timestamp out drops one from the count of its price only. */
  lemma RemoveCount(ts: map<int, int>, t: int, p: int)
    ensures Count(ts - {t}, p) == Count(ts, p) - (if t in ts && ts[t] == p then 1 else 0)
  {
    var h, h' := Holders(ts, p), Holders(ts - {t}, p);
    assert h' == h - {t};
    if t in ts && ts[t] == p {
      assert h == h' + {t};
    } else {
      assert h' == h;
    }
  }

  /** Giving a fresh timestamp price np adds one to the count of np only. */
  lemma AddCount(ts: map<int, int>, t: int, np: int, p: int)
    requires t !in ts
    ensures Count(ts[t := np], p) == Count(ts, p) + (if np == p then 1 else 0)
  {
    var h, h' := Holders(ts, p), Holders(ts[t := np], p);
    if np == p {
      assert h' == h + {t};
    } else {
      assert h' == h;
    }
  }

  /** Every price count is positive and equals the number of timestamps at
    * that price, and every current price has a count. */
  ghost predicate Tally(ts: map<int, int>, freq: map<int, int>) {
    (forall p :: p in freq ==> freq[p] == Count(ts, p) && freq[p] >= 1)
    && (forall t :: t in ts ==> ts[t] in freq)
  }

  /** The counts are determined by the prices. */
  lemma TallyDetermined(ts: map<int, int>, f1: map<int, int>, f2: map<int, int>)
    requires Tally(ts, f1) && Tally(ts, f2)
    ensures f1 == f2
  {
    forall p | p in f1
      ensures p in f2
    {
      var t := Element(Holders(ts, p));
      assert ts[t] == p;
    }
    forall p | p in f2
      ensures p in f1
    {
      var t := Element(Holders(ts, p));
      assert ts[t] == p;
    }
    assert f1.Keys == f2.Keys;
    assert forall p :: p in f1 ==> f1[p] == f2[p];
  }

  /** The price counts after the timestamp's old price (if any) gave up one
    * occurrence, dropping a count that reaches 0: a tally of the other
    * timestamps. */
  lemma TallyRemove(ts: map<int, int>, freq: map<int, int>, t: int, freq': map<int, int>)
    requires Tally(ts, freq)
    requires t !in ts ==> freq' == freq
    requires t in ts ==>
      freq' == if freq[ts[t]] == 1 then freq - {ts[t]} else freq[ts[t] := freq[ts[t]] - 1]
    ensures Tally(ts - {t}, freq')
  {
    forall p | p in freq'
      ensures freq'[p] == Count(ts - {t}, p) && freq'[p] >= 1
    {
      RemoveCount(ts, t, p);
    }
    forall x | x in ts - {t}
      ensures ts[x] in freq'
    {
      RemoveCount(ts, t, ts[x]);
      assert x in Holders(ts - {t}, ts[x]);
    }
  }

  /** Adding one occurrence of the new price restores the tally. */
  lemma TallyAdd(rest: map<int, int>, freq: map<int, int>, t: int, price: int)
    requires t !in rest && Tally(rest, freq)
    ensures Tally(rest[t := price], freq[price := (if price in freq then freq[price] else 0) + 1])
  {
    var freq' := freq[price := (if price in freq then freq[price] else 0) + 1];
    forall p | p in freq'
      ensures freq'[p] == Count(rest[t := price], p)
    {
      AddCount(rest, t, price, p);
      if p == price && price !in freq {
        assert Count(rest, p) == 0 by {
          if Holders(rest, p) != {} {
            var x := Element(Holders(rest, p));
            assert false;
          }
        }
      }
    }
  }

  class RunningCommodityPrice {
    /** timestamp -> its latest price */
    var tsToPrice: map<int, int>
    /** price -> how many timestamps have it, kept sorted by key */
    var priceFreq: map<int, int>

    ghost predicate Valid()
      reads this
    {
      Tally(tsToPrice, priceFreq)
    }

    constructor ()
      ensures Valid() && tsToPrice == map[] && priceFreq == map[]
    {
      tsToPrice := map[];
      priceFreq := map[];
    }

    /** Takes one occurrence off the timestamp's old price, then records
      * the new price and counts it. */
    method UpsertCommodityPrice(timestamp: int, price: int)
      requires Valid()
      modifies this
      ensures Valid() && tsToPrice == old(tsToPrice)[timestamp := price]
    {
      ghost var ts, before := tsToPrice, priceFreq;
      if timestamp in tsToPrice {
        var oldPrice := tsToPrice[timestamp];
        var freq := priceFreq[oldPrice];
        if freq == 1 {
          priceFreq := priceFreq - {oldPrice};
        } else {
          priceFreq := priceFreq[oldPrice := freq - 1];
        }
      }
      TallyRemove(ts, before, timestamp, priceFreq);
      ghost var rest := ts - {timestamp};
      TallyAdd(rest, priceFreq, timestamp, price);
      assert rest[timestamp := price] == ts[timestamp := price];
      tsToPrice := tsToPrice[timestamp := price];
      priceFreq := priceFreq[price := (if price in priceFreq then priceFreq[price] else 0) + 1];
    }

    /** -1 when nothing is stored, otherwise the largest current price. */
    method GetMaxCommodityPrice() returns (r: int)
      requires Valid()
      ensures tsToPrice == map[] ==> r == -1
      ensures tsToPrice != map[] ==>
        (exists t :: t in tsToPrice && tsToPrice[t] == r)
        && forall t :: t in tsToPrice ==> tsToPrice[t] <= r
    {
      if priceFreq == map[] {
        assert forall t :: t !in tsToPrice;
        return -1;
      }
      r := LastKey(priceFreq.Keys);
      var t := Element(Holders(tsToPrice, r));
    }
  }

  /** The sample run: (4, 27), (6, 26), (9, 27) give 27; re-pricing
    * timestamp 4 at 28 gives 28. */
  method Example() returns (first: int, second: int)
    ensures first == 27 && second == 28
  {
    var c := new RunningCommodityPrice();
    c.UpsertCommodityPrice(4, 27);
    c.UpsertCommodityPrice(6, 26);
    c.UpsertCommodityPrice(9, 27);
    assert c.tsToPrice == map[4 := 27, 6 := 26, 9 := 27];
    first := c.GetMaxCommodityPrice();
    assert c.tsToPrice[4] <= first;
    c.UpsertCommodityPrice(4, 28);
    assert c.tsToPrice == map[4 := 28, 6 := 26, 9 := 27];
    second := c.GetMaxCommodityPrice();
    assert c.tsToPrice[4] <= second;
  }

  /** Every current price fits a Java int. */
  ghost predicate JavaPrices(ts: map<int, int>) {
    forall t :: t in ts ==> MIN_INT <= ts[t] <= MAX_INT
  }

  /** m is the running maximum: the largest current price, or
    * `Integer.MIN_VALUE` when nothing is stored. */
  ghost predicate MaxOf(ts: map<int, int>, m: int) {
    (ts == map[] ==> m == MIN_INT)
    && (ts != map[] ==> (exists t :: t in ts && ts[t] == m) && forall t :: t in ts ==> ts[t] <= m)
  }

  /** Counts that match the prices, where a count may have dropped to 0 and
    * stayed. */
  ghost predicate Counts(ts: map<int, int>, freq: map<int, int>) {
    (forall p :: p in freq ==> freq[p] == Count(ts, p))
    && (forall t :: t in ts ==> ts[t] in freq)
  }

  /** A price has a positive count exactly when some timestamp holds it. */
  lemma PositiveCount(ts: map<int, int>, freq: map<int, int>, p: int)
    requires Counts(ts, freq)
    ensures (p in freq && freq[p] > 0) <==> exists t :: t in ts && ts[t] == p
  {
    if p in freq && freq[p] > 0 {
      var t := Element(Holders(ts, p));
      assert ts[t] == p;
    }
    if exists t :: t in ts && ts[t] == p {
      var t :| t in ts && ts[t] == p;
      assert t in Holders(ts, p);
    }
  }

  /** Decrementing the old price's count gives the counts of the other
    * timestamps. */
  lemma CountsRemove(ts: map<int, int>, freq: map<int, int>, t: int)
    requires Counts(ts, freq) && t in ts
    ensures Counts(ts - {t}, freq[ts[t] := freq[ts[t]] - 1])
  {
    var freq' := freq[ts[t] := freq[ts[t]] - 1];
    forall p | p in freq'
      ensures freq'[p] == Count(ts - {t}, p)
    {
      RemoveCount(ts, t, p);
    }
  }

  /** Adding one occurrence of the new price restores the counts. */
  lemma CountsAdd(rest: map<int, int>, freq: map<int, int>, t: int, price: int)
    requires t !in rest && Counts(rest, freq)
    ensures Counts(rest[t := price], freq[price := (if price in freq then freq[price] else 0) + 1])
  {
    var freq' := freq[price := (if price in freq then freq[price] else 0) + 1];
    forall p | p in freq'
      ensures freq'[p] == Count(rest[t := price], p)
    {
      AddCount(rest, t, price, p);
      if p == price && price !in freq {
        assert Count(rest, p) == 0 by {
          if Holders(rest, p) != {} {
            var x := Element(Holders(rest, p));
            assert false;
          }
        }
      }
    }
  }

  /** When the timestamp leaves, the maximum stays right unless the
    * timestamp held the last occurrence of it. */
  lemma MaxAfterRemove(ts: map<int, int>, freq: map<int, int>, t: int, m: int)
    requires t in ts && MaxOf(ts, m) && Counts(ts - {t}, freq) && ts[t] in freq
    requires ts[t] != m || freq[ts[t]] != 0
    ensures MaxOf(ts - {t}, m)
  {
    var rest := ts - {t};
    var w :| w in ts && ts[w] == m;
    if w == t {
      PositiveCount(rest, freq, m);
      var u :| u in rest && rest[u] == m;
      assert rest != map[];
    } else {
      assert w in rest;
    }
  }

  /** Taking the larger of the running maximum and the new price gives the
    * maximum once the new price is stored. */
  lemma MaxAfterInsert(rest: map<int, int>, t: int, price: int, m: int)
    requires t !in rest && MaxOf(rest, m) && MIN_INT <= price
    ensures MaxOf(rest[t := price], if price > m then price else m)
  {
    var ts := rest[t := price];
    var m' := if price > m then price else m;
    assert t in ts && ts[t] == price;
    if m' != price {
      var w :| w in rest && rest[w] == m;
      assert w in ts && ts[w] == m';
    }
  }

  class RunningCommodityPriceOptimized {
    var tsToPrice: map<int, int>
    var priceFreq: map<int, int>
    var maxPrice: int

    ghost predicate Valid()
      reads this
    {
      Counts(tsToPrice, priceFreq) && JavaPrices(tsToPrice) && MaxOf(tsToPrice, maxPrice)
    }

    constructor ()
      ensures Valid() && tsToPrice == map[] && priceFreq == map[] && maxPrice == MIN_INT
    {
      tsToPrice := map[];
      priceFreq := map[];
      maxPrice := MIN_INT;
    }

    /** Records the new price after the old one has been taken out, and
      * raises the maximum when the new price is larger. */
    method UpsertCommodityPrice(timestamp: int, price: int)
      requires Valid() && MIN_INT <= price <= MAX_INT
      modifies this
      ensures Valid() && tsToPrice == old(tsToPrice)[timestamp := price]
    {
      ghost var ts := tsToPrice;
      RemoveOldPrice(timestamp);
      ghost var rest := ts - {timestamp};
      CountsAdd(rest, priceFreq, timestamp, price);
      MaxAfterInsert(rest, timestamp, price, maxPrice);
      assert rest[timestamp := price] == ts[timestamp := price];
      tsToPrice := tsToPrice[timestamp := price];
      priceFreq := priceFreq[price := (if price in priceFreq then priceFreq[price] else 0) + 1];
      if price > maxPrice {
        maxPrice := price;
      }
    }

    /** Decrements the old price's count, rescanning the counts when that
      * removed the last occurrence of the maximum. The prices themselves are
      * not changed yet: the counts and the maximum now describe the other
      * timestamps. */
    method RemoveOldPrice(timestamp: int)
      requires Valid()
      modifies this
      ensures tsToPrice == old(tsToPrice)
      ensures Counts(tsToPrice - {timestamp}, priceFreq) && JavaPrices(tsToPrice)
      ensures MaxOf(tsToPrice - {timestamp}, maxPrice)
    {
      ghost var ts := tsToPrice;
      if timestamp in tsToPrice {
        var oldPrice := tsToPrice[timestamp];
        CountsRemove(tsToPrice, priceFreq, timestamp);
        priceFreq := priceFreq[oldPrice := priceFreq[oldPrice] - 1];
        if oldPrice == maxPrice && priceFreq[oldPrice] == 0 {
          maxPrice := RecomputeMaxPrice();
          RecomputedIsMax(ts - {timestamp}, priceFreq, maxPrice);
        } else {
          MaxAfterRemove(ts, priceFreq, timestamp, maxPrice);
        }
      } else {
        assert ts - {timestamp} == ts;
      }
    }

    /** The largest price with a positive count, or `Integer.MIN_VALUE`. */
    method RecomputeMaxPrice() returns (newMax: int)
      ensures MIN_INT <= newMax
      ensures newMax == MIN_INT || (newMax in priceFreq && priceFreq[newMax] > 0)
      ensures forall p :: p in priceFreq && priceFreq[p] > 0 ==> p <= newMax
    {
      newMax := MIN_INT;
      var keys := priceFreq.Keys;
      while keys != {}
        invariant keys <= priceFreq.Keys
        invariant MIN_INT <= newMax
        invariant newMax == MIN_INT || (newMax in priceFreq && priceFreq[newMax] > 0)
        invariant forall p :: p in priceFreq && p !in keys && priceFreq[p] > 0 ==> p <= newMax
        decreases keys
      {
        ghost var w := Element(keys);
        var p :| p in keys;
        if priceFreq[p] > 0 && p > newMax {
          newMax := p;
        }
        keys := keys - {p};
      }
    }

    /** -1 when nothing is stored, otherwise the largest current price. */
    method GetMaxCommodityPrice() returns (r: int)
      requires Valid()
      ensures tsToPrice == map[] ==> r == -1
      ensures tsToPrice != map[] ==>
        (exists t :: t in tsToPrice && tsToPrice[t] == r)
        && forall t :: t in tsToPrice ==> tsToPrice[t] <= r
    {
      if tsToPrice == map[] {
        return -1;
      }
      return maxPrice;
    }
  }

  /** A rescan of counts that match the prices yields the running maximum. */
  lemma RecomputedIsMax(ts: map<int, int>, freq: map<int, int>, m: int)
    requires Counts(ts, freq) && JavaPrices(ts) && MIN_INT <= m
    requires m == MIN_INT || (m in freq && freq[m] > 0)
    requires forall p :: p in freq && freq[p] > 0 ==> p <= m
    ensures MaxOf(ts, m)
  {
    forall t | t in ts
      ensures ts[t] <= m
    {
      PositiveCount(ts, freq, ts[t]);
    }
    if ts != map[] {
      if m in freq && freq[m] > 0 {
        PositiveCount(ts, freq, m);
      } else {
        var t := Element(ts.Keys);
        PositiveCount(ts, freq, ts[t]);
        assert ts[t] == m;
      }
    } else if m != MIN_INT {
      PositiveCount(ts, freq, m);
    }
  }
}
