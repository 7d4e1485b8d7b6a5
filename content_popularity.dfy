/** Content popularity with a bucket per popularity value: ids move between
  * buckets as their popularity goes up and down by one, and the most
  * popular id is read from the bucket of the largest key of a sorted map.
  * Popularities may go negative; a popularity of 0 is not stored. */
module ContentPopularity {
  import opened IntSets

  /** `getOrDefault(id, 0)`. */
  function Get(pop: map<int, int>, id: int): int {
    if id in pop then pop[id] else 0
  }

  /** The popularity map after `id` changes by `delta`: the new value is
    * stored when it is non-zero and the entry is removed when it is 0. */
  function Bump(pop: map<int, int>, id: int, delta: int): (r: map<int, int>)
    ensures id in r <==> Get(pop, id) + delta != 0
    ensures id in r ==> r[id] == Get(pop, id) + delta
    ensures forall other :: other != id ==> (other in r <==> other in pop)
    ensures forall other :: other != id && other in r ==> r[other] == pop[other]
  {
    var newPop := Get(pop, id) + delta;
    if newPop == 0 then pop - {id} else pop[id := newPop]
  }

  /** The buckets agree with the popularity map: an id is in bucket p
    * exactly when its popularity is p, 0 is never stored, and no bucket is
    * empty. */
  ghost predicate Buckets(pop: map<int, int>, buckets: map<int, set<int>>) {
    (forall id :: id in pop ==> pop[id] != 0 && pop[id] in buckets && id in buckets[pop[id]])
    && (forall p, id :: p in buckets && id in buckets[p] ==> id in pop && pop[id] == p)
    && (forall p :: p in buckets ==> buckets[p] != {})
  }

  /** The buckets are determined by the popularity map. */
  lemma BucketsDetermined(pop: map<int, int>, b1: map<int, set<int>>, b2: map<int, set<int>>)
    requires Buckets(pop, b1) && Buckets(pop, b2)
    ensures b1 == b2
  {
    forall p | p in b1
      ensures p in b2 && b1[p] == b2[p]
    {
      var id := Element(b1[p]);
      assert pop[id] == p;
      forall x
        ensures x in b1[p] <==> x in b2[p]
      {
        if x in b1[p] {
          assert pop[x] == p;
        }
        if x in b2[p] {
          assert pop[x] == p;
        }
      }
    }
    forall p | p in b2
      ensures p in b1
    {
      var id := Element(b2[p]);
      assert pop[id] == p;
    }
  }

  /** Bucket p holds exactly the ids whose popularity is p. */
  lemma BucketIsPreimage(pop: map<int, int>, buckets: map<int, set<int>>, p: int)
    requires Buckets(pop, buckets) && p in buckets
    ensures buckets[p] == set id | id in pop && pop[id] == p
  {
    var having := set id | id in pop && pop[id] == p;
    assert forall id :: id in having ==> id in buckets[p];
    assert forall id :: id in buckets[p] ==> id in having;
  }

  /** The bucket keys are exactly the stored popularities. */
  lemma BucketKeys(pop: map<int, int>, buckets: map<int, set<int>>, p: int)
    requires Buckets(pop, buckets)
    ensures p in buckets <==> exists id :: id in pop && pop[id] == p
  {
    if p in buckets {
      var id := Element(buckets[p]);
      assert id in pop && pop[id] == p;
    }
  }

  /** The buckets once `id` has left its own: every other id is in the
    * bucket of its popularity, no bucket holds `id`, none is empty. */
  ghost predicate Detached(pop: map<int, int>, buckets: map<int, set<int>>, id: int) {
    (forall x :: x in pop && x != id ==> pop[x] != 0 && pop[x] in buckets && x in buckets[pop[x]])
    && (forall p, x :: p in buckets && x in buckets[p] ==> x != id && x in pop && pop[x] == p)
    && (forall p :: p in buckets ==> buckets[p] != {})
  }

  /** Removing the id from the bucket of its old popularity, and dropping
    * that bucket once empty, detaches it. */
  lemma Detach(pop: map<int, int>, before: map<int, set<int>>, after: map<int, set<int>>, id: int)
    requires Buckets(pop, before)
    requires Get(pop, id) == 0 ==> after == before
    requires Get(pop, id) != 0 ==>
      var b := before[Get(pop, id)] - {id};
      after == if b == {} then before - {Get(pop, id)} else before[Get(pop, id) := b]
    ensures Detached(pop, after, id)
  {
    var old' := Get(pop, id);
    forall x | x in pop && x != id
      ensures pop[x] in after && x in after[pop[x]]
    {
      if old' != 0 && pop[x] == old' {
        assert x in before[old'] - {id};
      }
    }
  }

  /** Adding the id to the bucket of its new popularity, unless that is 0,
    * restores the bucket invariant for the updated popularity map. */
  lemma Attach(pop: map<int, int>, before: map<int, set<int>>, after: map<int, set<int>>, id: int, newPop: int)
    requires Detached(pop, before, id)
    requires newPop == 0 ==> after == before
    requires newPop != 0 ==>
      after == before[newPop := (if newPop in before then before[newPop] else {}) + {id}]
    ensures Buckets(if newPop == 0 then pop - {id} else pop[id := newPop], after)
  {
    var pop' := if newPop == 0 then pop - {id} else pop[id := newPop];
    forall x | x in pop'
      ensures pop'[x] != 0 && pop'[x] in after && x in after[pop'[x]]
    {
      if x != id {
        assert pop'[x] == pop[x] && x in before[pop[x]];
      }
    }
    forall p, x | p in after && x in after[p]
      ensures x in pop' && pop'[x] == p
    {
      if newPop != 0 && p == newPop {
        assert x == id || (newPop in before && x in before[newPop]);
      } else {
        assert p in before && x in before[p];
      }
    }
  }

  class PopularContent {
    /** contentId -> popularity, 0 not stored. */
    var contentToPopularity: map<int, int>
    /** popularity -> the ids having it, kept sorted by key. */
    var popularityToIds: map<int, set<int>>

    ghost predicate Valid()
      reads this
    {
      Buckets(contentToPopularity, popularityToIds)
    }

    constructor ()
      ensures Valid() && contentToPopularity == map[] && popularityToIds == map[]
    {
      contentToPopularity := map[];
      popularityToIds := map[];
    }

    method IncreasePopularity(contentId: int)
      requires Valid()
      modifies this
      ensures Valid() && contentToPopularity == Bump(old(contentToPopularity), contentId, 1)
    {
      Update(contentId, 1);
    }

    method DecreasePopularity(contentId: int)
      requires Valid()
      modifies this
      ensures Valid() && contentToPopularity == Bump(old(contentToPopularity), contentId, -1)
    {
      Update(contentId, -1);
    }

    /** Moves the id from its old bucket (dropping the bucket once empty) to
      * the bucket of its new popularity, unless that is 0. */
    method Update(contentId: int, delta: int)
      requires Valid()
      modifies this
      ensures Valid() && contentToPopularity == Bump(old(contentToPopularity), contentId, delta)
    {
      var oldPop := Get(contentToPopularity, contentId);
      var newPop := oldPop + delta;
      ghost var pop, before := contentToPopularity, popularityToIds;

      if oldPop != 0 {
        var bucket := popularityToIds[oldPop];
        bucket := bucket - {contentId};
        if bucket == {} {
          popularityToIds := popularityToIds - {oldPop};
        } else {
          popularityToIds := popularityToIds[oldPop := bucket];
        }
      }
      Detach(pop, before, popularityToIds, contentId);
      ghost var detached := popularityToIds;

      if newPop != 0 {
        var bucket := if newPop in popularityToIds then popularityToIds[newPop] else {};
        popularityToIds := popularityToIds[newPop := bucket + {contentId}];
      }

      if newPop == 0 {
        contentToPopularity := contentToPopularity - {contentId};
      } else {
        contentToPopularity := contentToPopularity[contentId := newPop];
      }
      Attach(pop, detached, popularityToIds, contentId, newPop);
    }

    /** -1 when there are no buckets or the largest popularity is not
      * positive; otherwise an id of the largest popularity. */
    method GetMostPopular() returns (r: int)
      requires Valid()
      ensures (forall id :: id in contentToPopularity ==> contentToPopularity[id] <= 0) ==> r == -1
      ensures (exists id :: id in contentToPopularity && contentToPopularity[id] > 0) ==>
        r in contentToPopularity && contentToPopularity[r] > 0
        && forall id :: id in contentToPopularity ==> contentToPopularity[id] <= contentToPopularity[r]
    {
      if popularityToIds == map[] {
        return -1;
      }
      var maxPopularity := LastKey(popularityToIds.Keys);
      if maxPopularity <= 0 {
        return -1;
      }
      var bucket := popularityToIds[maxPopularity];
      ghost var w := Element(bucket);
      r :| r in bucket;
      assert contentToPopularity[r] == maxPopularity;
    }
  }

  /** The sample run: +10, +20, +10 gives 10; -10, -10 gives 20; -20
    * gives -1. */
  method Example() returns (first: int, second: int, third: int)
    ensures first == 10 && second == 20 && third == -1
  {
    var p := new PopularContent();
    p.IncreasePopularity(10);
    assert p.contentToPopularity == map[10 := 1];
    p.IncreasePopularity(20);
    assert p.contentToPopularity == map[10 := 1, 20 := 1];
    p.IncreasePopularity(10);
    assert p.contentToPopularity == map[10 := 2, 20 := 1];
    first := p.GetMostPopular();
    assert first == 10 by {
      assert first in {10, 20};
    }
    p.DecreasePopularity(10);
    assert p.contentToPopularity == map[10 := 1, 20 := 1];
    p.DecreasePopularity(10);
    assert p.contentToPopularity == map[20 := 1];
    second := p.GetMostPopular();
    p.DecreasePopularity(20);
    assert p.contentToPopularity == map[];
    third := p.GetMostPopular();
  }
}
