/**
 Balances as the chain computes them: the effect of one transaction, the balance that the cache hands
 out, and the pass that the validator makes over the current section (sources/chain/dag_cache.cpp,
 sources/chain/dag.cpp).
*/
module Balances {
  import opened Wrappers
  import opened Hashing
  import opened OrderedSets
  import opened Transactions
  import opened ControlChain
  import opened DagState

  /** Actor and token to balance; a missing entry reads as zero. */
  type BalanceMap = map<(ActorId, ActorId), real>

  function Get(balances: BalanceMap, actor: ActorId, token: ActorId): real {
    if (actor, token) in balances then balances[(actor, token)] else 0.0
  }

  function Add(balances: BalanceMap, actor: ActorId, token: ActorId, amount: real): (r: BalanceMap)
    ensures forall a, t :: Get(r, a, t) == Get(balances, a, t) + Credit((actor, token) == (a, t), amount)
    ensures r.Keys == balances.Keys + {(actor, token)}
  {
    balances[(actor, token) := Get(balances, actor, token) + amount]
  }

  /** What a node looks up outside its chain. */
  datatype Env = Env(
    networkId: ActorId,
    knows: ActorId -> bool,                     // an actor's public data is stored
    verifies: Transaction -> bool,              // the sender's key accepts the signature
    computedHash: Transaction -> Digest,
    tokenOf: string -> Option<ActorId>,         // `TokenId::create`
    cachedBalances: BalanceMap,                 // the balances up to the cached section
    frozen: (ActorId, ActorId) -> Option<real>) // actor, token: the minted amount that may not be spent

  function Credit(yes: bool, amount: real): real { if yes then amount else 0.0 }

  /** What `process_transaction` adds to the balance of an actor in a token. */
  function Effect(env: Env, tx: Transaction, actor: ActorId, token: ActorId): real {
    var hasSender, hasReceiver, hasToken := tx.sender != ZERO_ACTOR, tx.receiver != ZERO_ACTOR, tx.token != ZERO_ACTOR;
    var sends, receives := (tx.sender, tx.token) == (actor, token), (tx.receiver, tx.token) == (actor, token);
    if tx.kind == Unknown then 0.0
    else if tx.kind == Minting && hasReceiver && hasToken then Credit(receives, tx.amount)
    else if tx.kind == Reward && hasSender then Credit(sends, tx.amount)
    else if tx.kind == InitContract && hasSender && hasToken then Credit(sends, tx.amount)
    else if tx.kind == Conversion && hasSender then
      var from := if tx.meta.Some? then env.tokenOf(tx.meta.value) else None;
      if from.None? then 0.0
      else Credit(sends, tx.amount) - Credit((tx.sender, from.value) == (actor, token), tx.amount)
    else Credit(hasReceiver && hasToken && receives, tx.amount) - Credit(hasSender && hasToken && sends, tx.amount)
  }

  function SumEffect(env: Env, txs: seq<Transaction>, actor: ActorId, token: ActorId): real {
    if |txs| == 0 then 0.0
    else SumEffect(env, txs[..|txs| - 1], actor, token) + Effect(env, txs[|txs| - 1], actor, token)
  }

  /** The effects of sections from .. to; sections below 0 are passed over. */
  function SectionsEffect(env: Env, st: Store, from: int, to: int, actor: ActorId, token: ActorId): real
    decreases 1 + to - from
  {
    if from > to then 0.0
    else
      SectionsEffect(env, st, from, to - 1, actor, token)
      + if to < 0 then 0.0 else SumEffect(env, TransactionsAt(st, to), actor, token)
  }

  /** `calculate_balances` up to a section, that section included. */
  function Calculated(env: Env, n: Node, actor: ActorId, token: ActorId, to: int): real {
    if n.current == -1 then 0.0
    else if n.cached != -1
      then Get(env.cachedBalances, actor, token) + SectionsEffect(env, n.sections, n.cached + 1, to, actor, token)
    else SectionsEffect(env, n.sections, n.firstSaved, to, actor, token)
  }

  /** What the validator adds for one transaction of the section, for a sender and a token. */
  function FoldEffect(env: Env, c: Transaction, sender: ActorId, token: ActorId, hash: Digest): real {
    if c.hash == hash || c.token != token then 0.0
    else if c.kind == Reward && c.sender == sender then c.amount
    else if c.kind == InitContract && c.sender == sender then c.amount
    else if c.kind == Conversion && c.sender == sender then
      if c.meta.None? then 0.0
      else c.amount - Credit(env.tokenOf(c.meta.value) == Some(token), c.amount)
    else Credit(c.receiver == sender, c.amount) - Credit(c.sender == sender, c.amount)
  }

  function SectionFold(env: Env, txs: seq<Transaction>, sender: ActorId, token: ActorId, hash: Digest): real {
    if |txs| == 0 then 0.0
    else
      SectionFold(env, txs[..|txs| - 1], sender, token, hash)
      + FoldEffect(env, txs[|txs| - 1], sender, token, hash)
  }

  lemma NotInvolved(env: Env, tx: Transaction, actor: ActorId)
    requires tx.sender != actor && tx.receiver != actor
    ensures forall token :: Effect(env, tx, actor, token) == 0.0
  {
  }

  lemma {:induction false} SumEffectSplits(
    env: Env, xs: seq<Transaction>, ys: seq<Transaction>, actor: ActorId, token: ActorId)
    ensures SumEffect(env, xs + ys, actor, token) == SumEffect(env, xs, actor, token) + SumEffect(env, ys, actor, token)
  {
    hide Effect;
    if |ys| == 0 {
      assert xs + ys == xs;
    } else {
      SumEffectSplits(env, xs, ys[..|ys| - 1], actor, token);
      assert (xs + ys)[..|xs + ys| - 1] == xs + ys[..|ys| - 1];
    }
  }

  /** The order in which a section holds its transactions does not matter to balances. */
  lemma {:induction false} InsertedEffect(
    env: Env, txs: seq<Transaction>, tx: Transaction, actor: ActorId, token: ActorId)
    requires Increasing(txs, Less)
    ensures SumEffect(env, Insert(txs, tx, Less), actor, token) ==
      SumEffect(env, txs, actor, token) + if tx in txs then 0.0 else Effect(env, tx, actor, token)
  {
    LessIsStrictTotalOrder();
    hide Effect, Less;
    InsertAddsOne(txs, tx, Less);
    if |txs| == 0 {
      assert Insert(txs, tx, Less) == [tx];
      assert [tx][..0] == [];
    } else if Less(txs[0], tx) {
      InsertedEffect(env, txs[1..], tx, actor, token);
      SumEffectSplits(env, [txs[0]], txs[1..], actor, token);
      SumEffectSplits(env, [txs[0]], Insert(txs[1..], tx, Less), actor, token);
      assert [txs[0]] + txs[1..] == txs;
      assert tx in txs <==> tx in txs[1..];
    } else if Less(tx, txs[0]) {
      SumEffectSplits(env, [tx], txs, actor, token);
      assert [tx][..0] == [];
      FirstIsLeast(tx, txs, Less);
    }
  }
}
