/**
 Who receives and who pays what with each type of transaction, what that does to the total of a token, and
 where the validator's own pass over a section reckons differently (sources/chain/dag_cache.cpp,
 sources/chain/dag.cpp).
*/
module Ledger {
  import opened Wrappers
  import opened Hashing
  import opened OrderedSets
  import opened Transactions
  import opened ControlChain
  import opened DagState
  import opened Balances
  import opened Acceptance
  import opened Verdicts

  /** Transfers and mintings go to the receiver, the others to the sender itself. */
  function Beneficiary(tx: Transaction): Option<ActorId> {
    match tx.kind
    case Regular | Repeatable | Minting => Some(tx.receiver)
    case Reward | InitContract | Conversion => Some(tx.sender)
    case _ => None
  }

  /** The token that the sender pays in, if it pays. */
  function PaidIn(env: Env, tx: Transaction): Option<ActorId> {
    match tx.kind
    case Regular | Repeatable | Burn => Some(tx.token)
    case Conversion => if tx.meta.Some? then env.tokenOf(tx.meta.value) else None
    case _ => None
  }

  /** The zero token exists for rewards and conversions only. */
  predicate HasToken(tx: Transaction) {
    tx.token != ZERO_ACTOR || tx.kind == TransactionType.Reward || tx.kind == Conversion
  }

  function Received(tx: Transaction, actor: ActorId, token: ActorId): real {
    if HasToken(tx) && token == tx.token && Beneficiary(tx) == Some(actor) then tx.amount else 0.0
  }

  function Paid(env: Env, tx: Transaction, actor: ActorId, token: ActorId): real {
    if HasToken(tx) && actor == tx.sender && PaidIn(env, tx) == Some(token) then tx.amount else 0.0
  }

  /** An accepted transaction moves balances by what is received and paid, and by nothing else. */
  lemma AcceptedEffectIs(env: Env, n: Node, tx: Transaction, actor: ActorId, token: ActorId)
    requires Prove(env, n, tx) == NoError && tx.kind !in {Genesis, TransactionType.Balance, Unknown}
    ensures Effect(env, tx, actor, token) == Received(tx, actor, token) - Paid(env, tx, actor, token)
  {
    AcceptedIff(env, n, tx);
    hide Prove, FindsDuplicate, Covered;
  }

  /** Genesis and Balance transactions move balances as a transfer would; an unknown type moves none. */
  lemma OpeningsAreTransfers(env: Env, tx: Transaction, actor: ActorId, token: ActorId)
    ensures tx.kind in {Genesis, TransactionType.Balance} ==>
      Effect(env, tx, actor, token) == Effect(env, tx.(kind := Regular), actor, token)
    ensures tx.kind == Unknown ==> Effect(env, tx, actor, token) == 0.0
  {
  }

  /** And so do the balances that are calculated once it is stored. */
  lemma AcceptedMovesBalances(env: Env, n: Node, tx: Transaction, actor: ActorId, token: ActorId, to: int)
    requires Prove(env, n, tx) == NoError && tx.kind !in {Genesis, TransactionType.Balance, Unknown}
    requires Increasing(TransactionsAt(n.sections, tx.section), Less) && tx !in TransactionsAt(n.sections, tx.section)
    ensures Calculated(env, With(n, tx), actor, token, to) == Calculated(env, n, actor, token, to)
      + if Counts(n, tx.section) && tx.section <= to
        then Received(tx, actor, token) - Paid(env, tx, actor, token) else 0.0
  {
    hide Calculated, Prove, Effect, Less, With, Received, Paid, Counts;
    AcceptedEffectIs(env, n, tx, actor, token);
    BalanceMoves(env, n, tx, actor, token, to);
  }

  /** What a transaction adds to the total of a token. */
  function Issued(env: Env, tx: Transaction, token: ActorId): real {
    if !HasToken(tx) then 0.0
    else
      (if Beneficiary(tx).Some? && token == tx.token then tx.amount else 0.0)
      - (if PaidIn(env, tx) == Some(token) then tx.amount else 0.0)
  }

  /** The actors whose balances a transaction may move. */
  predicate Includes(actors: set<ActorId>, tx: Transaction) {
    tx.sender in actors && (Beneficiary(tx).Some? ==> Beneficiary(tx).value in actors)
  }

  lemma {:induction false} TotalOfOthers(env: Env, n: Node, tx: Transaction, actors: set<ActorId>, token: ActorId)
    requires Prove(env, n, tx) == NoError && tx.kind !in {Genesis, TransactionType.Balance, Unknown}
    requires Increasing(TransactionsAt(n.sections, tx.section), Less) && tx !in TransactionsAt(n.sections, tx.section)
    requires tx.sender !in actors && (Beneficiary(tx).Some? ==> Beneficiary(tx).value !in actors)
    ensures Total(env, With(n, tx), actors, token, tx.section) == Total(env, n, actors, token, tx.section)
    decreases actors
  {
    hide Calculated, Less, With, Prove, Counts;
    if actors != {} {
      var actor :| actor in actors;
      TotalSplits(env, n, actors, token, tx.section, actor);
      TotalSplits(env, With(n, tx), actors, token, tx.section, actor);
      AcceptedMovesBalances(env, n, tx, actor, token, tx.section);
      TotalOfOthers(env, n, tx, actors - {actor}, token);
    }
  }

  /**
   Transfers leave every total as it was.  Rewards, mintings and new contracts raise that of their token,
   burning lowers it, and a conversion moves an amount from one token to another.
  */
  lemma AcceptedChangesTotal(env: Env, n: Node, tx: Transaction, actors: set<ActorId>, token: ActorId)
    requires Prove(env, n, tx) == NoError && tx.kind !in {Genesis, TransactionType.Balance, Unknown}
    requires Increasing(TransactionsAt(n.sections, tx.section), Less) && tx !in TransactionsAt(n.sections, tx.section)
    requires Includes(actors, tx)
    ensures Total(env, With(n, tx), actors, token, tx.section) == Total(env, n, actors, token, tx.section)
      + if Counts(n, tx.section) then Issued(env, tx, token) else 0.0
  {
    hide Calculated, Less, With, Prove, Counts;
    var m, s, rest := With(n, tx), tx.section, actors - {tx.sender};
    TotalSplits(env, n, actors, token, s, tx.sender);
    TotalSplits(env, m, actors, token, s, tx.sender);
    AcceptedMovesBalances(env, n, tx, tx.sender, token, s);
    if Beneficiary(tx).Some? && Beneficiary(tx).value != tx.sender {
      var other := Beneficiary(tx).value;
      TotalSplits(env, n, rest, token, s, other);
      TotalSplits(env, m, rest, token, s, other);
      AcceptedMovesBalances(env, n, tx, other, token, s);
      TotalOfOthers(env, n, tx, rest - {other}, token);
    } else {
      TotalOfOthers(env, n, tx, rest, token);
    }
  }

  // The validator's own pass over a section.

  /** A transaction that the pass reckons otherwise than the balances do, for one actor and token. */
  predicate Misjudged(env: Env, c: Transaction, actor: ActorId, token: ActorId) {
    if c.token != token then c.kind == Conversion && c.sender == actor && PaidIn(env, c) == Some(token)
    else if c.kind == Unknown then c.sender == actor <==> c.receiver != actor
    else if c.kind == Minting then c.sender == actor && c.receiver != ZERO_ACTOR
    else if c.kind == InitContract || c.kind == TransactionType.Reward then
      c.sender != ZERO_ACTOR && c.sender != actor && c.receiver == actor
    else if c.kind == Conversion then
      if c.sender == actor then c.meta.Some? && env.tokenOf(c.meta.value).None?
      else c.sender != ZERO_ACTOR && c.receiver == actor
    else false
  }

  lemma FoldIsEffectIff(env: Env, c: Transaction, actor: ActorId, token: ActorId, hash: Digest)
    requires c.hash != hash && c.amount != 0.0 && actor != ZERO_ACTOR && token != ZERO_ACTOR
    ensures FoldEffect(env, c, actor, token, hash) == Effect(env, c, actor, token) <==> !Misjudged(env, c, actor, token)
  {
  }

  /** Of what is accepted it misjudges conversions away from the token, mintings by the actor and contracts for it. */
  lemma AcceptedIsMisjudgedIff(env: Env, n: Node, c: Transaction, actor: ActorId, token: ActorId)
    requires Prove(env, n, c) == NoError && c.kind !in {Genesis, TransactionType.Balance, Unknown}
    ensures Misjudged(env, c, actor, token) <==>
      ((c.kind == Conversion && c.sender == actor && PaidIn(env, c) == Some(token))
       || (c.kind == Minting && c.sender == actor && c.token == token)
       || (c.kind == InitContract && c.receiver == actor && c.token == token))
  {
    AcceptedIff(env, n, c);
    hide Prove, FindsDuplicate, Covered;
  }

  /** Where nothing in the section is misjudged, the pass adds its effects once more. */
  lemma {:induction false} FoldIsSum(env: Env, txs: seq<Transaction>, actor: ActorId, token: ActorId, hash: Digest)
    requires actor != ZERO_ACTOR && token != ZERO_ACTOR
    requires forall c | c in txs :: c.hash != hash && c.amount != 0.0 && !Misjudged(env, c, actor, token)
    ensures SectionFold(env, txs, actor, token, hash) == SumEffect(env, txs, actor, token)
  {
    hide FoldEffect, Effect, Misjudged;
    if |txs| > 0 {
      FoldIsSum(env, txs[..|txs| - 1], actor, token, hash);
      FoldIsEffectIff(env, txs[|txs| - 1], actor, token, hash);
    }
  }
}
