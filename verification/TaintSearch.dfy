/**
 The bounded breadth-first search in `mint_analysis_log` (sources/chain/dag.cpp): which actors can hold
 minted tokens after at most 10 transfers.
*/
module TaintSearch {
  import opened Transactions

  const MAX_DEPTH := 10

  datatype Transfer = Transfer(from: ActorId, to: ActorId, token: ActorId)

  type Receivers = map<(ActorId, ActorId), seq<ActorId>>

  function ToSet(actors: seq<ActorId>): set<ActorId> {
    set a | a in actors
  }

  ghost predicate Moves(transfers: seq<Transfer>, token: ActorId, a: ActorId, b: ActorId) {
    Transfer(a, b, token) in transfers
  }

  /** A chain of transfers of the token. */
  ghost predicate IsPath(transfers: seq<Transfer>, token: ActorId, path: seq<ActorId>) {
    |path| > 0 && forall k | 0 <= k < |path| - 1 :: Moves(transfers, token, path[k], path[k + 1])
  }

  /** `b` receives the token from one of `sources` over at most `depth` transfers. */
  ghost predicate ReachedWithin(
    transfers: seq<Transfer>, token: ActorId, sources: set<ActorId>, depth: nat, b: ActorId) {
    exists path :: IsPath(transfers, token, path) && path[0] in sources && path[|path| - 1] == b && |path| <= depth + 1
  }

  ghost predicate Reached(transfers: seq<Transfer>, token: ActorId, sources: set<ActorId>, b: ActorId) {
    exists path :: IsPath(transfers, token, path) && path[0] in sources && path[|path| - 1] == b
  }

  /** The actors reached step by step. */
  ghost function Layer(transfers: seq<Transfer>, token: ActorId, sources: set<ActorId>, depth: nat): set<ActorId> {
    if depth == 0 then sources
    else
      var before := Layer(transfers, token, sources, depth - 1);
      before + set t | t in transfers && t.token == token && t.from in before :: t.to
  }

  lemma {:induction false} LayerIsReachedWithin(
    transfers: seq<Transfer>, token: ActorId, sources: set<ActorId>, depth: nat, b: ActorId)
    ensures b in Layer(transfers, token, sources, depth) <==> ReachedWithin(transfers, token, sources, depth, b)
  {
    if b in Layer(transfers, token, sources, depth) {
      var path := PathTo(transfers, token, sources, depth, b);
    }
    if ReachedWithin(transfers, token, sources, depth, b) {
      var path :| IsPath(transfers, token, path) && path[0] in sources && path[|path| - 1] == b && |path| <= depth + 1;
      PathStaysInLayers(transfers, token, sources, depth, path);
    }
  }

  lemma {:induction false} PathTo(
    transfers: seq<Transfer>, token: ActorId, sources: set<ActorId>, depth: nat, b: ActorId)
    returns (path: seq<ActorId>)
    requires b in Layer(transfers, token, sources, depth)
    ensures IsPath(transfers, token, path) && path[0] in sources && path[|path| - 1] == b && |path| <= depth + 1
  {
    if depth == 0 {
      path := [b];
    } else if b in Layer(transfers, token, sources, depth - 1) {
      path := PathTo(transfers, token, sources, depth - 1, b);
    } else {
      var t :| t in transfers && t.token == token && t.from in Layer(transfers, token, sources, depth - 1) && t.to == b;
      var before := PathTo(transfers, token, sources, depth - 1, t.from);
      path := before + [b];
      forall k | 0 <= k < |path| - 1
        ensures Moves(transfers, token, path[k], path[k + 1])
      {
        if k < |before| - 1 {
          assert Moves(transfers, token, before[k], before[k + 1]);
        } else {
          assert t == Transfer(path[k], path[k + 1], token);
        }
      }
    }
  }

  lemma {:induction false} LayersGrow(transfers: seq<Transfer>, token: ActorId, sources: set<ActorId>, i: nat, j: nat)
    requires i <= j
    ensures Layer(transfers, token, sources, i) <= Layer(transfers, token, sources, j)
  {
    if i < j {
      LayersGrow(transfers, token, sources, i, j - 1);
    }
  }

  lemma {:induction false} PathStaysInLayers(
    transfers: seq<Transfer>, token: ActorId, sources: set<ActorId>, depth: nat, path: seq<ActorId>)
    requires IsPath(transfers, token, path) && path[0] in sources && |path| <= depth + 1
    ensures path[|path| - 1] in Layer(transfers, token, sources, depth)
    decreases |path|
  {
    if |path| == 1 {
      LayersGrow(transfers, token, sources, 0, depth);
    } else {
      var n := |path| - 1;
      var before := path[..n];
      assert forall k | 0 <= k < |before| - 1 :: Moves(transfers, token, path[k], path[k + 1]);
      PathStaysInLayers(transfers, token, sources, depth - 1, before);
      assert Moves(transfers, token, path[n - 1], path[n]);
    }
  }

  lemma SameLayerSameNext(transfers: seq<Transfer>, token: ActorId, sources: set<ActorId>, i: nat, j: nat)
    requires Layer(transfers, token, sources, i) == Layer(transfers, token, sources, j)
    ensures Layer(transfers, token, sources, i + 1) == Layer(transfers, token, sources, j + 1)
  {
  }

  /** Once nothing new is reached, nothing ever will be. */
  lemma {:induction false} LayersSettle(transfers: seq<Transfer>, token: ActorId, sources: set<ActorId>, i: nat, j: nat)
    requires i <= j && Layer(transfers, token, sources, i + 1) == Layer(transfers, token, sources, i)
    ensures Layer(transfers, token, sources, j) == Layer(transfers, token, sources, i)
  {
    if i < j {
      LayersSettle(transfers, token, sources, i, j - 1);
      SameLayerSameNext(transfers, token, sources, i, j - 1);
      hide Layer;
    }
  }

  lemma SettledIsClosure(transfers: seq<Transfer>, token: ActorId, sources: set<ActorId>, i: nat, b: ActorId)
    requires Layer(transfers, token, sources, i + 1) == Layer(transfers, token, sources, i)
    ensures b in Layer(transfers, token, sources, i) <==> Reached(transfers, token, sources, b)
  {
    if b in Layer(transfers, token, sources, i) {
      LayerIsReachedWithin(transfers, token, sources, i, b);
    }
    if Reached(transfers, token, sources, b) {
      var path :| IsPath(transfers, token, path) && path[0] in sources && path[|path| - 1] == b;
      var far := i + |path|;
      PathStaysInLayers(transfers, token, sources, far, path);
      LayersSettle(transfers, token, sources, i, far);
    }
  }

  /** The index of receivers by sender and token. */
  ghost predicate IsIndexOf(index: Receivers, transfers: seq<Transfer>) {
    forall a, token, b :: ((a, token) in index && b in index[(a, token)]) <==> Transfer(a, b, token) in transfers
  }

  method BuildIndex(transfers: seq<Transfer>) returns (index: Receivers)
    ensures IsIndexOf(index, transfers)
  {
    index := map[];
    for k := 0 to |transfers|
      invariant IsIndexOf(index, transfers[..k])
    {
      var t := transfers[k];
      assert transfers[..k + 1] == transfers[..k] + [t];
      var key := (t.from, t.token);
      index := index[key := (if key in index then index[key] else []) + [t.to]];
    }
    assert transfers[..|transfers|] == transfers;
  }

  /**
   The search for one token: exactly the actors reached from the minted ones over at most 10 transfers, and
   all that are ever reached if the queue runs empty.
  */
  method FindTainted(index: Receivers, token: ActorId, minted: seq<ActorId>, ghost transfers: seq<Transfer>)
    returns (tainted: set<ActorId>, exhausted: bool)
    requires IsIndexOf(index, transfers)
    ensures forall b :: b in tainted <==> ReachedWithin(transfers, token, ToSet(minted), 10, b)
    ensures exhausted ==> forall b :: b in tainted <==> Reached(transfers, token, ToSet(minted), b)
  {
    ghost var sources := ToSet(minted);
    tainted := ToSet(minted);
    var queue, depth := minted, 0;
    while depth < MAX_DEPTH && |queue| > 0
      invariant 0 <= depth <= MAX_DEPTH
      invariant tainted == Layer(transfers, token, sources, depth)
      invariant forall a | a in queue :: a in tainted
      invariant forall a, b | a in tainted && a !in queue && Moves(transfers, token, a, b) :: b in tainted
    {
      tainted, queue := NextLayer(index, token, tainted, queue, transfers);
      depth := depth + 1;
    }
    exhausted := |queue| == 0;
    if exhausted {
      assert Layer(transfers, token, sources, depth + 1) == tainted by {
        forall t | t in transfers && t.token == token && t.from in tainted
          ensures t.to in tainted
        {
          assert Moves(transfers, token, t.from, t.to);
        }
      }
      LayersSettle(transfers, token, sources, depth, MAX_DEPTH);
      forall b {
        SettledIsClosure(transfers, token, sources, depth, b);
      }
    }
    forall b {
      LayerIsReachedWithin(transfers, token, sources, MAX_DEPTH, b);
    }
  }

  /** One level: the receivers of everyone in the queue; the new ones make the next queue. */
  method NextLayer(
    index: Receivers, token: ActorId, tainted: set<ActorId>, queue: seq<ActorId>, ghost transfers: seq<Transfer>)
    returns (actors: set<ActorId>, next: seq<ActorId>)
    requires IsIndexOf(index, transfers)
    requires forall a | a in queue :: a in tainted
    requires forall a, b | a in tainted && a !in queue && Moves(transfers, token, a, b) :: b in tainted
    ensures actors == tainted + set t | t in transfers && t.token == token && t.from in tainted :: t.to
    ensures forall a | a in next :: a in actors
    ensures forall a, b | a in actors && a !in next && Moves(transfers, token, a, b) :: b in actors
  {
    actors, next := tainted, [];
    for k := 0 to |queue|
      invariant tainted <= actors && actors == tainted + ToSet(next)
      invariant forall b | b in actors :: b in tainted || exists a :: a in queue[..k] && Moves(transfers, token, a, b)
      invariant forall a, b | a in queue[..k] && Moves(transfers, token, a, b) :: b in actors
    {
      var actor := queue[k];
      assert queue[..k + 1] == queue[..k] + [actor];
      var receivers := if (actor, token) in index then index[(actor, token)] else [];
      for m := 0 to |receivers|
        invariant tainted <= actors && actors == tainted + ToSet(next)
        invariant forall b | b in actors ::
          b in tainted || exists a :: a in queue[..k + 1] && Moves(transfers, token, a, b)
        invariant forall a, b | a in queue[..k] && Moves(transfers, token, a, b) :: b in actors
        invariant forall j | 0 <= j < m :: receivers[j] in actors
      {
        var receiver := receivers[m];
        if receiver !in actors {
          assert Moves(transfers, token, actor, receiver);
          actors := actors + {receiver};
          next := next + [receiver];
        }
      }
    }
    assert queue[..|queue|] == queue;
  }
}
