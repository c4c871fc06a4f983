/**
 The buckets that two nodes compare to find the actors one of them lacks (headers/chain/actor_filter.h):
 which bucket an actor belongs to, the hash of a bucket, and what comparing hashes finds.
*/
module ActorBuckets {
  import opened OrderedSets
  import opened Transactions

  const BUCKET_COUNT := 256
  const FNV_PRIME: bv64 := 1099511628211
  const FNV_OFFSET_BASIS: bv64 := 14695981039346656037

  /** `ActorId::operator<`. */
  predicate IdLess(a: ActorId, b: ActorId) { StringLess(a, b) }

  lemma IdLessIsStrictTotalOrder()
    ensures StrictTotalOrder(IdLess)
  {
    StringLessIsStrictTotalOrder();
  }

  /** FNV-1a, 64 bits wide. */
  function HashActor(s: string): bv64 {
    if |s| == 0 then FNV_OFFSET_BASIS
    else (HashActor(s[..|s| - 1]) ^ (s[|s| - 1] as int as bv64)) * FNV_PRIME
  }

  /** Known values of the function. */
  lemma KnownHashes()
    ensures HashActor("") == 0xcbf29ce484222325
    ensures HashActor("a") == 0xaf63dc4c8601ec8c
  {
    assert "a"[..0] == "";
    assert 'a' as int as bv64 == 97;
  }

  function BucketIndex(actor: ActorId): (i: nat)
    ensures i < BUCKET_COUNT
  {
    HashActor(actor) as int % BUCKET_COUNT
  }

  function Join(items: seq<ActorId>): (s: string)
    ensures |s| == ACTOR_SIZE * |items|
  {
    if |items| == 0 then "" else Join(items[..|items| - 1]) + items[|items| - 1]
  }

  /** `compute_bucket_hash`: sorted, duplicates dropped, joined, hashed; 0 for an empty bucket. */
  function BucketHash(items: seq<ActorId>): bv64 {
    if |items| == 0 then 0 else HashActor(Join(InsertAll([], items, IdLess)))
  }

  lemma {:induction false} JoinInjective(a: seq<ActorId>, b: seq<ActorId>)
    requires Join(a) == Join(b)
    ensures a == b
  {
    if |a| == 0 || |b| == 0 {
      assert |a| == |b|;
    } else {
      var s, n := Join(a), |Join(a)| - ACTOR_SIZE;
      assert s[..n] == Join(a[..|a| - 1]) && s[n..] == a[|a| - 1];
      assert s[..n] == Join(b[..|b| - 1]) && s[n..] == b[|b| - 1];
      JoinInjective(a[..|a| - 1], b[..|b| - 1]);
      assert a == a[..|a| - 1] + [a[|a| - 1]] && b == b[..|b| - 1] + [b[|b| - 1]];
    }
  }

  lemma SortingSorted(items: seq<ActorId>)
    requires Increasing(items, IdLess)
    ensures InsertAll([], items, IdLess) == items
  {
    IdLessIsStrictTotalOrder();
    hide IdLess;
    InsertAllAdds([], items, IdLess);
    SameElementsSameSequence(InsertAll([], items, IdLess), items, IdLess);
  }

  /** The hash of a bucket is that of the set it holds: order and repetition do not matter. */
  lemma SameItemsSameHash(xs: seq<ActorId>, ys: seq<ActorId>)
    requires forall a :: a in xs <==> a in ys
    ensures BucketHash(xs) == BucketHash(ys)
    ensures xs == [] ==> BucketHash(xs) == 0
  {
    IdLessIsStrictTotalOrder();
    hide IdLess, HashActor;
    assert |xs| > 0 ==> xs[0] in ys;
    assert |ys| > 0 ==> ys[0] in xs;
    InsertAllAdds([], xs, IdLess);
    InsertAllAdds([], ys, IdLess);
    SameElementsSameSequence(InsertAll([], xs, IdLess), InsertAll([], ys, IdLess), IdLess);
  }

  /** Bucket i of a node that knows `actors`. */
  ghost predicate IsBucket(actors: set<ActorId>, i: nat, items: seq<ActorId>) {
    && Increasing(items, IdLess)
    && forall a :: a in items <==> a in actors && BucketIndex(a) == i
  }

  /** The hash function neither collides on these strings nor gives the 0 that stands for an empty bucket. */
  ghost predicate Distinguishes(inputs: set<string>) {
    && (forall x | x in inputs :: HashActor(x) != 0)
    && forall x, y | x in inputs && y in inputs && HashActor(x) == HashActor(y) :: x == y
  }

  /** `inputs` holds what the buckets of a node are joined to. */
  ghost predicate RecordsBuckets(actors: set<ActorId>, inputs: set<string>) {
    forall i: nat, items | IsBucket(actors, i, items) && |items| > 0 :: Join(items) in inputs
  }

  /** Equal bucket hashes, short of a collision, mean equal buckets - and the other way round in any case. */
  lemma EqualHashEqualBucket(
    a: set<ActorId>, b: set<ActorId>, i: nat, xs: seq<ActorId>, ys: seq<ActorId>, inputs: set<string>)
    requires Distinguishes(inputs) && RecordsBuckets(a, inputs) && RecordsBuckets(b, inputs)
    requires IsBucket(a, i, xs) && IsBucket(b, i, ys)
    ensures BucketHash(xs) == BucketHash(ys) <==> xs == ys
  {
    hide HashActor, BucketIndex, IdLess;
    SortingSorted(xs);
    SortingSorted(ys);
    if |xs| > 0 && |ys| > 0 && BucketHash(xs) == BucketHash(ys) {
      assert Join(xs) in inputs && Join(ys) in inputs;
      JoinInjective(xs, ys);
    }
  }

  /** The actors of a node that lie in buckets whose hash differs from a request's. */
  ghost predicate InReply(actors: set<ActorId>, request: seq<bv64>, a: ActorId)
    requires |request| == BUCKET_COUNT
  {
    a in actors && exists items ::
      IsBucket(actors, BucketIndex(a), items) && BucketHash(items) != request[BucketIndex(a)]
  }

  ghost predicate IsRequestOf(actors: set<ActorId>, request: seq<bv64>) {
    && |request| == BUCKET_COUNT
    && forall i: nat, items | i < BUCKET_COUNT && IsBucket(actors, i, items) :: request[i] == BucketHash(items)
  }

  ghost predicate HasBucket(actors: set<ActorId>, i: nat) {
    exists items :: IsBucket(actors, i, items)
  }

  ghost predicate HasBuckets(actors: set<ActorId>) {
    forall i: nat | i < BUCKET_COUNT :: HasBucket(actors, i)
  }

  lemma OneBucket(actors: set<ActorId>, i: nat, xs: seq<ActorId>, ys: seq<ActorId>)
    requires IsBucket(actors, i, xs) && IsBucket(actors, i, ys)
    ensures xs == ys
  {
    IdLessIsStrictTotalOrder();
    hide IdLess, BucketIndex;
    SameElementsSameSequence(xs, ys, IdLess);
  }

  /** What a node replies supplies the requester with everything it lacks, and a node equal to it replies nothing. */
  lemma ReplyCompletes(requester: set<ActorId>, responder: set<ActorId>, request: seq<bv64>, inputs: set<string>)
    requires Distinguishes(inputs) && RecordsBuckets(requester, inputs) && RecordsBuckets(responder, inputs)
    requires HasBuckets(requester) && HasBuckets(responder)
    requires IsRequestOf(requester, request)
    ensures forall a | a in responder && a !in requester :: InReply(responder, request, a)
    ensures requester == responder ==> forall a :: !InReply(responder, request, a)
  {
    hide HashActor, BucketHash, Distinguishes, RecordsBuckets;
    forall a | a in responder && a !in requester
      ensures InReply(responder, request, a)
    {
      var i := BucketIndex(a);
      assert HasBucket(requester, i) && HasBucket(responder, i);
      var xs :| IsBucket(requester, i, xs);
      var ys :| IsBucket(responder, i, ys);
      assert a in ys && a !in xs;
      EqualHashEqualBucket(requester, responder, i, xs, ys, inputs);
    }
    if requester == responder {
      forall a
        ensures !InReply(responder, request, a)
      {
      }
    }
  }
}
