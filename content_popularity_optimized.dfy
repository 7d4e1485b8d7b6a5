/** Content popularity with O(1) reads: besides the id -> popularity map
  * and the buckets, a count of ids per popularity and the current maximum
  * popularity are kept. Only positive popularities are stored; the maximum
  * is rescanned from the counts when the bucket of the old maximum empties. */
module ContentPopularityOptimized {
  import opened IntSets
  import opened ContentPopularity

  /** The popularity map after `id` changes by `delta`: a positive value is
    * stored, anything else removes the entry. */
  function BumpPositive(pop: map<int, int>, id: int, delta: int): (r: map<int, int>)
    ensures id in r <==> Get(pop, id) + delta > 0
    ensures id in r ==> r[id] == Get(pop, id) + delta
    ensures forall other :: other != id ==> (other in r <==> other in pop)
    ensures forall other :: other != id && other in r ==> r[other] == pop[other]
  {
    var newPop := Get(pop, id) + delta;
    if newPop > 0 then pop[id := newPop] else pop - {id}
  }

  /** Every stored popularity is at least 1. */
  ghost predicate Positive(pop: map<int, int>) {
    forall id :: id in pop ==> pop[id] >= 1
  }

  /** freq[p] is the size of bucket p, and both have the same keys. */
  ghost predicate Counted(freq: map<int, int>, buckets: map<int, set<int>>) {
    freq.Keys == buckets.Keys && forall p :: p in freq ==> freq[p] == |buckets[p]|
  }

  /** cm is the largest key of freq, or 0 when there is no positive key. */
  ghost predicate IsMax(cm: int, freq: map<int, int>) {
    cm >= 0 && (cm > 0 ==> cm in freq) && forall p :: p in freq ==> p <= cm
  }

  /** With positive popularities, the maximum is 0 exactly when nothing is
    * stored, and otherwise it is the largest popularity of any id. */
  lemma MaxMeaning(pop: map<int, int>, buckets: map<int, set<int>>, freq: map<int, int>, cm: int)
    requires Positive(pop) && Buckets(pop, buckets) && Counted(freq, buckets) && IsMax(cm, freq)
    ensures cm == 0 <==> pop == map[]
    ensures cm > 0 ==> (exists id :: id in pop && pop[id] == cm) && forall id :: id in pop ==> pop[id] <= cm
  {
    if pop != map[] {
      var id := Element(pop.Keys);
      assert pop[id] in freq;
    }
    if cm > 0 {
      var id := Element(buckets[cm]);
      assert id in pop && pop[id] == cm;
      forall x | x in pop
        ensures pop[x] <= cm
      {
        assert pop[x] in freq;
      }
    }
  }

  /** The rule for the new maximum when no rescan happens: a larger new
    * popularity takes over; otherwise, unless the old maximum's key is
    * gone, the maximum stays. */
  lemma MaxStep(cm: int, f0: map<int, int>, f1: map<int, int>, oldPop: int, newPop: int)
    requires IsMax(cm, f0)
    requires forall p :: p in f1 ==> p in f0 || p == newPop
    requires forall p :: p in f0 && p != oldPop ==> p in f1
    requires newPop > 0 ==> newPop in f1
    ensures newPop > cm ==> IsMax(newPop, f1)
    ensures newPop <= cm && !(oldPop == cm && oldPop !in f1) ==> IsMax(cm, f1)
  {
  }

  /** Taking an id out of bucket `oldPop`: the count drops by one, and the
    * count reaches 0 exactly when the bucket empties, when both entries
    * go. */
  lemma CountDetach(freq: map<int, int>, buckets: map<int, set<int>>, id: int, oldPop: int)
    requires Counted(freq, buckets) && oldPop in buckets && id in buckets[oldPop]
    ensures var f := freq[oldPop := freq[oldPop] - 1];
      var b := buckets[oldPop := buckets[oldPop] - {id}];
      (f[oldPop] == 0 <==> buckets[oldPop] - {id} == {})
      && Counted(if f[oldPop] == 0 then f - {oldPop} else f, if f[oldPop] == 0 then b - {oldPop} else b)
  {
    assert |buckets[oldPop] - {id}| == |buckets[oldPop]| - 1;
  }

  /** Putting an id that is in no bucket into bucket `newPop`. */
  lemma CountAttach(freq: map<int, int>, buckets: map<int, set<int>>, id: int, newPop: int)
    requires Counted(freq, buckets) && (newPop in buckets ==> id !in buckets[newPop])
    ensures Counted(freq[newPop := (if newPop in freq then freq[newPop] else 0) + 1],
                    buckets[newPop := (if newPop in buckets then buckets[newPop] else {}) + {id}])
  {
  }

  /** The first two steps of an update, on the three maps as values: the
    * id leaves the bucket and count of its old popularity (both entries go
    * when the count reaches 0), then joins those of the new popularity if
    * it is positive and is removed otherwise. */
  method MoveId(pop: map<int, int>, freq: map<int, int>, buckets: map<int, set<int>>, contentId: int, delta: int)
    returns (pop': map<int, int>, freq': map<int, int>, buckets': map<int, set<int>>)
    requires Positive(pop) && Buckets(pop, buckets) && Counted(freq, buckets)
    ensures pop' == BumpPositive(pop, contentId, delta)
    ensures Positive(pop') && Buckets(pop', buckets') && Counted(freq', buckets')
    ensures forall p :: p in freq' ==> p in freq || p == Get(pop, contentId) + delta
    ensures forall p :: p in freq && p != Get(pop, contentId) ==> p in freq'
    ensures Get(pop, contentId) + delta > 0 ==> Get(pop, contentId) + delta in freq'
  {
    var oldPop := Get(pop, contentId);
    var newPop := oldPop + delta;
    freq', buckets' := freq, buckets;
    if oldPop != 0 {
      CountDetach(freq', buckets', contentId, oldPop);
      freq' := freq'[oldPop := freq'[oldPop] - 1];
      buckets' := buckets'[oldPop := buckets'[oldPop] - {contentId}];
      if freq'[oldPop] == 0 {
        freq' := freq' - {oldPop};
        buckets' := buckets' - {oldPop};
      }
    }
    Detach(pop, buckets, buckets', contentId);
    ghost var detached := buckets';

    if newPop > 0 {
      CountAttach(freq', buckets', contentId, newPop);
      pop' := pop[contentId := newPop];
      var count := if newPop in freq' then freq'[newPop] else 0;
      freq' := freq'[newPop := count + 1];
      var bucket := if newPop in buckets' then buckets'[newPop] else {};
      buckets' := buckets'[newPop := bucket + {contentId}];
    } else {
      pop' := pop - {contentId};
    }
    Attach(pop, detached, buckets', contentId, if newPop > 0 then newPop else 0);
  }

  class PopularContentOptimized {
    /** contentId -> popularity, only positive values stored. */
    var contentToPopularity: map<int, int>
    /** popularity -> number of ids having it. */
    var popularityFreq: map<int, int>
    /** popularity -> the ids having it. */
    var popularityToIds: map<int, set<int>>
    var currentMax: int

    ghost predicate Valid()
      reads this
    {
      Positive(contentToPopularity) && Buckets(contentToPopularity, popularityToIds)
      && Counted(popularityFreq, popularityToIds) && IsMax(currentMax, popularityFreq)
    }

    constructor ()
      ensures Valid() && contentToPopularity == map[] && currentMax == 0
    {
      contentToPopularity := map[];
      popularityFreq := map[];
      popularityToIds := map[];
      currentMax := 0;
    }

    method IncreasePopularity(contentId: int)
      requires Valid()
      modifies this
      ensures Valid() && contentToPopularity == BumpPositive(old(contentToPopularity), contentId, 1)
    {
      Update(contentId, 1);
    }

    method DecreasePopularity(contentId: int)
      requires Valid()
      modifies this
      ensures Valid() && contentToPopularity == BumpPositive(old(contentToPopularity), contentId, -1)
    {
      Update(contentId, -1);
    }

    /** Takes the id out of its old bucket and count, puts it in the new
      * one when the new popularity is positive (removing it otherwise), and
      * updates the maximum. The three maps are updated as values and stored
      * back before the maximum is recomputed. */
    method Update(contentId: int, delta: int)
      requires Valid()
      modifies this
      ensures Valid() && contentToPopularity == BumpPositive(old(contentToPopularity), contentId, delta)
    {
      var oldPop := Get(contentToPopularity, contentId);
      var newPop := oldPop + delta;
      var pop, freq, buckets := MoveId(contentToPopularity, popularityFreq, popularityToIds, contentId, delta);
      MaxStep(currentMax, popularityFreq, freq, oldPop, newPop);
      contentToPopularity, popularityFreq, popularityToIds := pop, freq, buckets;

      if newPop > currentMax {
        currentMax := newPop;
      } else if oldPop == currentMax && oldPop !in popularityFreq {
        currentMax := RecomputeMax();
      }
    }

    /** The largest key of the counts, or 0: a scan over the key set. */
    method RecomputeMax() returns (max: int)
      ensures IsMax(max, popularityFreq)
    {
      max := 0;
      var rest := popularityFreq.Keys;
      while rest != {}
        invariant rest <= popularityFreq.Keys
        invariant max >= 0 && (max > 0 ==> max in popularityFreq)
        invariant forall p :: p in popularityFreq && p !in rest ==> p <= max
        decreases |rest|
      {
        ghost var u := Element(rest);
        var p :| p in rest;
        if p > max {
          max := p;
        }
        rest := rest - {p};
      }
    }

    /** -1 when the maximum is not positive; otherwise an id of maximum
      * popularity. */
    method GetMostPopular() returns (r: int)
      requires Valid()
      ensures contentToPopularity == map[] ==> r == -1
      ensures contentToPopularity != map[] ==>
        r in contentToPopularity
        && forall id :: id in contentToPopularity ==> contentToPopularity[id] <= contentToPopularity[r]
    {
      MaxMeaning(contentToPopularity, popularityToIds, popularityFreq, currentMax);
      if currentMax <= 0 {
        return -1;
      }
      var bucket := popularityToIds[currentMax];
      ghost var w := Element(bucket);
      r :| r in bucket;
    }
  }

  /** The sample run: +10, +20, +10 gives 10; -10, -10 gives 20; -20
    * gives -1. */
  method Example() returns (first: int, second: int, third: int)
    ensures first == 10 && second == 20 && third == -1
  {
    var p;
    p, first := ExampleRise();
    second := ExampleFall(p);
    p.DecreasePopularity(20);
    assert p.contentToPopularity == map[];
    third := p.GetMostPopular();
  }

  /** +10, +20, +10: content 10 leads with 2. */
  method ExampleRise() returns (p: PopularContentOptimized, first: int)
    ensures fresh(p) && p.Valid() && p.contentToPopularity == map[10 := 2, 20 := 1] && first == 10
  {
    p := new PopularContentOptimized();
    p.IncreasePopularity(10);
    assert p.contentToPopularity == map[10 := 1];
    p.IncreasePopularity(20);
    assert p.contentToPopularity == map[10 := 1, 20 := 1];
    p.IncreasePopularity(10);
    assert p.contentToPopularity == map[10 := 2, 20 := 1];
    first := p.GetMostPopular();
    assert first == 10 by {
      assert first in {10, 20};
    }
  }

  /** -10, -10: content 10 drops out and 20 is left alone. */
  method ExampleFall(p: PopularContentOptimized) returns (second: int)
    requires p.Valid() && p.contentToPopularity == map[10 := 2, 20 := 1]
    modifies p
    ensures p.Valid() && p.contentToPopularity == map[20 := 1] && second == 20
  {
    p.DecreasePopularity(10);
    assert p.contentToPopularity == map[10 := 1, 20 := 1];
    p.DecreasePopularity(10);
    assert p.contentToPopularity == map[20 := 1];
    second := p.GetMostPopular();
  }
}
