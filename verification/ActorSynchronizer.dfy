/**
 `ActorSynchronizer`: 256 buckets of actor ids with lazily recomputed hashes, and the three messages by
 which two nodes come to know the same actors (headers/chain/actor_filter.h).
*/
module ActorSynchronization {
  import opened OrderedSets
  import opened Transactions
  import opened ActorBuckets

  /** `std::sort`: unlike a set it keeps equal elements. */
  function SortInsert(s: seq<ActorId>, x: ActorId): seq<ActorId> {
    if |s| > 0 && IdLess(s[0], x) then [s[0]] + SortInsert(s[1..], x) else [x] + s
  }

  function Sort(xs: seq<ActorId>): seq<ActorId> {
    if |xs| == 0 then [] else SortInsert(Sort(xs[..|xs| - 1]), xs[|xs| - 1])
  }

  lemma {:induction false} SortInsertNew(s: seq<ActorId>, x: ActorId)
    requires x !in s
    ensures SortInsert(s, x) == Insert(s, x, IdLess)
  {
    IdLessIsStrictTotalOrder();
    hide IdLess;
    if |s| > 0 && IdLess(s[0], x) {
      SortInsertNew(s[1..], x);
    }
  }

  ghost predicate Distinct(xs: seq<ActorId>) {
    forall i, j | 0 <= i < j < |xs| :: xs[i] != xs[j]
  }

  lemma {:induction false} SortDistinct(xs: seq<ActorId>)
    requires Distinct(xs)
    ensures Increasing(Sort(xs), IdLess)
    ensures forall a :: a in Sort(xs) <==> a in xs
  {
    IdLessIsStrictTotalOrder();
    hide IdLess;
    if |xs| > 0 {
      var before, last := xs[..|xs| - 1], xs[|xs| - 1];
      SortDistinct(before);
      SortInsertNew(Sort(before), last);
      InsertAddsOne(Sort(before), last, IdLess);
      assert xs == before + [last];
    }
  }

  /** All actors of the buckets. */
  ghost function AllOf(buckets: seq<seq<ActorId>>): set<ActorId> {
    set i, a | 0 <= i < |buckets| && a in buckets[i] :: a
  }

  /** Every actor is in the bucket its hash selects, and buckets are ordered sets. */
  ghost predicate WellSorted(buckets: seq<seq<ActorId>>) {
    && |buckets| == BUCKET_COUNT
    && (forall i | 0 <= i < BUCKET_COUNT :: Increasing(buckets[i], IdLess))
    && forall i, a | 0 <= i < BUCKET_COUNT && a in buckets[i] :: BucketIndex(a) == i
  }

  lemma BucketsOfAll(buckets: seq<seq<ActorId>>)
    requires WellSorted(buckets)
    ensures forall i | 0 <= i < BUCKET_COUNT :: IsBucket(AllOf(buckets), i, buckets[i])
    ensures HasBuckets(AllOf(buckets))
  {
    hide BucketIndex, IdLess;
    forall i: nat | i < BUCKET_COUNT
      ensures IsBucket(AllOf(buckets), i, buckets[i]) && HasBucket(AllOf(buckets), i)
    {
    }
  }

  /** A cached hash may only be wrong while its bucket is marked. */
  ghost predicate FreshWhereClean(buckets: seq<seq<ActorId>>, hashes: seq<bv64>, dirty: seq<bool>) {
    && |buckets| == |hashes| == |dirty| == BUCKET_COUNT
    && forall i | 0 <= i < BUCKET_COUNT && !dirty[i] :: hashes[i] == BucketHash(buckets[i])
  }

  lemma InsertedActor(buckets: seq<seq<ActorId>>, hashes: seq<bv64>, dirty: seq<bool>, a: ActorId)
    requires WellSorted(buckets) && FreshWhereClean(buckets, hashes, dirty)
    ensures
      var i := BucketIndex(a);
      var after := buckets[i := Insert(buckets[i], a, IdLess)];
      && WellSorted(after) && AllOf(after) == AllOf(buckets) + {a}
      && (a in buckets[i] ==> after == buckets)
      && FreshWhereClean(after, hashes, if a in buckets[i] then dirty else dirty[i := true])
  {
    IdLessIsStrictTotalOrder();
    hide BucketIndex, IdLess, BucketHash;
    var i := BucketIndex(a);
    InsertAddsOne(buckets[i], a, IdLess);
    var after := buckets[i := Insert(buckets[i], a, IdLess)];
    forall b
      ensures b in AllOf(after) <==> b in AllOf(buckets) || b == a
    {
      if b in AllOf(buckets) {
        var j :| 0 <= j < |buckets| && b in buckets[j];
        assert b in after[j];
      }
      if b == a {
        assert b in after[i];
      }
    }
  }

  class ActorSynchronizer {
    var actorsByBucket: array<seq<ActorId>>
    var cachedHashes: array<bv64>
    var dirtyBuckets: array<bool>

    ghost predicate Valid()
      reads this, actorsByBucket, cachedHashes, dirtyBuckets
    {
      && (actorsByBucket as object) != cachedHashes && (actorsByBucket as object) != dirtyBuckets
      && (cachedHashes as object) != dirtyBuckets
      && actorsByBucket.Length == cachedHashes.Length == dirtyBuckets.Length == BUCKET_COUNT
      && WellSorted(actorsByBucket[..])
      && FreshWhereClean(actorsByBucket[..], cachedHashes[..], dirtyBuckets[..])
    }

    ghost function Repr(): set<object>
      reads this
    {
      {this, actorsByBucket, cachedHashes, dirtyBuckets}
    }

    ghost function Actors(): set<ActorId>
      reads this, actorsByBucket
    {
      AllOf(actorsByBucket[..])
    }

    constructor ()
      ensures Valid() && Actors() == {}
      ensures fresh(actorsByBucket) && fresh(cachedHashes) && fresh(dirtyBuckets)
    {
      actorsByBucket := new seq<ActorId>[BUCKET_COUNT](_ => []);
      cachedHashes := new bv64[BUCKET_COUNT](_ => 0);
      dirtyBuckets := new bool[BUCKET_COUNT](_ => true);
    }

    method ApplyReceivedIds(receivedIds: seq<ActorId>)
      requires Valid()
      modifies actorsByBucket, dirtyBuckets
      ensures Valid() && Actors() == old(Actors()) + set a | a in receivedIds
    {
      hide IdLess, BucketIndex, BucketHash;
      for k := 0 to |receivedIds|
        invariant Valid() && Actors() == old(Actors()) + set a | a in receivedIds[..k]
      {
        var actor := receivedIds[k];
        assert receivedIds[..k + 1] == receivedIds[..k] + [actor];
        ghost var buckets, dirty := actorsByBucket[..], dirtyBuckets[..];
        InsertedActor(buckets, cachedHashes[..], dirty, actor);
        var bucket := BucketIndex(actor);
        var inserted := actor !in actorsByBucket[bucket];
        actorsByBucket[bucket] := Insert(actorsByBucket[bucket], actor, IdLess);
        assert actorsByBucket[..] == buckets[bucket := Insert(buckets[bucket], actor, IdLess)];
        if inserted {
          dirtyBuckets[bucket] := true;
          assert dirtyBuckets[..] == dirty[bucket := true];
        }
      }
      assert receivedIds[..|receivedIds|] == receivedIds;
    }

    /** Replaces everything by a new synchronizer that knows just these actors. */
    method SetActors(actors: seq<ActorId>)
      requires Valid()
      modifies this
      ensures Valid() && Actors() == set a | a in actors
      ensures fresh(actorsByBucket) && fresh(cachedHashes) && fresh(dirtyBuckets)
    {
      var replacement := new ActorSynchronizer();
      replacement.ApplyReceivedIds(actors);
      actorsByBucket := replacement.actorsByBucket;
      cachedHashes := replacement.cachedHashes;
      dirtyBuckets := replacement.dirtyBuckets;
    }

    /** `create_bucket_hashes`: only marked buckets are hashed, yet every hash handed out is up to date. */
    method CreateBucketHashes() returns (hashes: seq<bv64>)
      requires Valid()
      modifies cachedHashes, dirtyBuckets
      ensures Valid() && Actors() == old(Actors()) && actorsByBucket[..] == old(actorsByBucket[..])
      ensures |hashes| == BUCKET_COUNT
      ensures forall i | 0 <= i < BUCKET_COUNT :: hashes[i] == BucketHash(actorsByBucket[i])
      ensures IsRequestOf(Actors(), hashes)
    {
      hide IdLess, BucketIndex, BucketHash, IsBucket;
      ghost var buckets := actorsByBucket[..];
      for i := 0 to BUCKET_COUNT
        invariant actorsByBucket[..] == buckets
        invariant FreshWhereClean(buckets, cachedHashes[..], dirtyBuckets[..])
        invariant forall j | 0 <= j < i :: !dirtyBuckets[j]
      {
        if dirtyBuckets[i] {
          ghost var hashed, dirty := cachedHashes[..], dirtyBuckets[..];
          cachedHashes[i] := BucketHash(actorsByBucket[i]);
          dirtyBuckets[i] := false;
          assert actorsByBucket[i] == buckets[i];
          assert cachedHashes[..] == hashed[i := BucketHash(buckets[i])] && dirtyBuckets[..] == dirty[i := false];
        }
      }
      hashes := cachedHashes[..];
      BucketsOfAll(buckets);
      forall i: nat, items | i < BUCKET_COUNT && IsBucket(Actors(), i, items)
        ensures hashes[i] == BucketHash(items)
      {
        OneBucket(Actors(), i, items, buckets[i]);
      }
    }

    method FindDifferentBuckets(local: seq<bv64>, remote: seq<bv64>) returns (different: seq<nat>)
      requires |local| == |remote| == BUCKET_COUNT
      ensures forall i :: i in different <==> 0 <= i < BUCKET_COUNT && local[i] != remote[i]
    {
      different := [];
      for i := 0 to BUCKET_COUNT
        invariant forall j :: j in different <==> 0 <= j < i && local[j] != remote[j]
      {
        if local[i] != remote[i] {
          different := different + [i];
        }
      }
    }

    /** Sorted and without duplicates, whatever indices are repeated. */
    method GetActorsFromBuckets(indices: seq<nat>) returns (result: seq<ActorId>)
      requires Valid() && forall i | i in indices :: i < BUCKET_COUNT
      ensures Increasing(result, IdLess)
      ensures forall a :: a in result <==> a in Actors() && BucketIndex(a) in indices
    {
      hide IdLess, BucketIndex, BucketHash;
      var selected: seq<ActorId> := [];
      var added := new bool[BUCKET_COUNT](_ => false);
      BucketsOfAll(actorsByBucket[..]);
      for k := 0 to |indices|
        invariant forall i: nat | i < BUCKET_COUNT :: added[i] <==> i in indices[..k]
        invariant forall a :: a in selected <==> a in Actors() && BucketIndex(a) in indices[..k]
        invariant Distinct(selected)
      {
        var index := indices[k];
        assert index in indices;
        assert indices[..k + 1] == indices[..k] + [index];
        if added[index] {
          continue;
        }
        added[index] := true;
        var bucket := actorsByBucket[index];
        AppendDistinct(selected, bucket, Actors(), index, indices[..k]);
        selected := selected + bucket;
      }
      assert indices[..|indices|] == indices;
      SortDistinct(selected);
      result := Sort(selected);
    }

    /** The request carries the hashes of all buckets. */
    method CreateSyncRequest() returns (request: seq<bv64>)
      requires Valid()
      modifies cachedHashes, dirtyBuckets
      ensures Valid() && Actors() == old(Actors()) && IsRequestOf(Actors(), request)
    {
      request := CreateBucketHashes();
    }

    /** The actors of all buckets that hash differently; hashes missing from a short request read as 0. */
    method ProcessSyncRequest(requestData: seq<bv64>) returns (ids: seq<ActorId>)
      requires Valid()
      modifies cachedHashes, dirtyBuckets
      ensures Valid() && Actors() == old(Actors())
      ensures Increasing(ids, IdLess)
      ensures forall a :: a in ids <==> InReply(Actors(), Deserialized(requestData), a)
    {
      hide IdLess, BucketIndex, BucketHash;
      var remote := Deserialized(requestData);
      var local := CreateBucketHashes();
      var different := FindDifferentBuckets(local, remote);
      ids := GetActorsFromBuckets(different);
      BucketsOfAll(actorsByBucket[..]);
      forall a | a in Actors()
        ensures InReply(Actors(), remote, a) <==> BucketIndex(a) in different
      {
        var i := BucketIndex(a);
        assert IsBucket(Actors(), i, actorsByBucket[i]);
        forall items | IsBucket(Actors(), i, items)
          ensures items == actorsByBucket[i]
        {
          OneBucket(Actors(), i, items, actorsByBucket[i]);
        }
      }
    }
  }

  function Deserialized(data: seq<bv64>): (r: seq<bv64>)
    ensures |r| == BUCKET_COUNT
  {
    seq(BUCKET_COUNT, i requires 0 <= i => if i < |data| then data[i] else 0)
  }

  lemma AppendDistinct(selected: seq<ActorId>, bucket: seq<ActorId>, actors: set<ActorId>, index: nat, seen: seq<nat>)
    requires Distinct(selected) && IsBucket(actors, index, bucket) && index !in seen
    requires forall a :: a in selected <==> a in actors && BucketIndex(a) in seen
    ensures Distinct(selected + bucket)
    ensures forall a :: a in selected + bucket <==> a in actors && BucketIndex(a) in seen + [index]
  {
    IdLessIsStrictTotalOrder();
    hide IdLess, BucketIndex;
    var all := selected + bucket;
    forall i, j | 0 <= i < j < |all|
      ensures all[i] != all[j]
    {
      assert i < |selected| ==> all[i] in selected;
      assert j >= |selected| ==> all[j] in bucket;
      if i >= |selected| {
        assert IdLess(bucket[i - |selected|], bucket[j - |selected|]);
      }
    }
  }

  /** One exchange: the requester asks, the responder replies, the requester applies the reply. */
  method Exchange(requester: ActorSynchronizer, responder: ActorSynchronizer, ghost inputs: set<string>)
    returns (ids: seq<ActorId>)
    requires requester.Valid() && responder.Valid()
    requires requester.Repr() !! responder.Repr()
    requires Distinguishes(inputs) && RecordsBuckets(requester.Actors(), inputs)
      && RecordsBuckets(responder.Actors(), inputs)
    modifies requester.actorsByBucket, requester.cachedHashes, requester.dirtyBuckets
    modifies responder.cachedHashes, responder.dirtyBuckets
    ensures requester.Valid() && responder.Valid()
    ensures responder.Actors() == old(responder.Actors())
    ensures requester.Actors() == old(requester.Actors()) + old(responder.Actors())
    ensures old(requester.Actors()) == old(responder.Actors()) ==> ids == []
  {
    hide IdLess, BucketIndex, BucketHash, RecordsBuckets, Distinguishes, IsRequestOf, IsBucket;
    ghost var mine, theirs := requester.Actors(), responder.Actors();
    BucketsOfAll(requester.actorsByBucket[..]);
    BucketsOfAll(responder.actorsByBucket[..]);
    var request := requester.CreateSyncRequest();
    ids := responder.ProcessSyncRequest(request);
    RequestIsComplete(mine, request);
    ReplyCompletes(mine, theirs, request, inputs);
    assert |ids| > 0 ==> ids[0] in ids;
    requester.ApplyReceivedIds(ids);
    assert requester.Actors() == mine + theirs;
  }

  lemma RequestIsComplete(actors: set<ActorId>, request: seq<bv64>)
    requires IsRequestOf(actors, request)
    ensures |request| == BUCKET_COUNT && Deserialized(request) == request
  {
    hide BucketHash, BucketIndex;
  }

  /**
   Reconciliation converges: one exchange in each direction makes two nodes know the same actors, all of
   either's, and a further exchange transfers nothing.
  */
  method Reconcile(a: ActorSynchronizer, b: ActorSynchronizer, ghost inputs: set<string>)
    returns (further: seq<ActorId>)
    requires a.Valid() && b.Valid() && a.Repr() !! b.Repr()
    requires Distinguishes(inputs)
    requires RecordsBuckets(a.Actors(), inputs) && RecordsBuckets(b.Actors(), inputs)
    requires RecordsBuckets(a.Actors() + b.Actors(), inputs)
    modifies a.actorsByBucket, a.cachedHashes, a.dirtyBuckets
    modifies b.actorsByBucket, b.cachedHashes, b.dirtyBuckets
    ensures a.Valid() && b.Valid()
    ensures a.Actors() == b.Actors() == old(a.Actors()) + old(b.Actors())
    ensures further == []
  {
    hide RecordsBuckets, Distinguishes;
    var _ := Exchange(a, b, inputs);
    assert b.Actors() + a.Actors() == old(a.Actors()) + old(b.Actors());
    var _ := Exchange(b, a, inputs);
    further := Exchange(a, b, inputs);
  }
}
