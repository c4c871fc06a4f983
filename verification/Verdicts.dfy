/**
 What the validator's verdict means (`prove_transaction`, sources/chain/dag.cpp): the requirements that an
 accepted transaction meets, and the error that one is refused with.
*/
module Verdicts {
  import opened Wrappers
  import opened Hashing
  import opened Transactions
  import opened DagState
  import opened Balances
  import opened Acceptance

  /** Where the network has an id, Genesis and Balance are its own or go to their own sender. */
  predicate IsOwn(env: Env, tx: Transaction) {
    env.networkId == ZERO_ACTOR || tx.sender == tx.receiver || tx.sender == env.networkId
  }

  /** Sender and receiver are the same actor. */
  predicate ToItself(kind: TransactionType) {
    kind == TransactionType.Reward || kind == Conversion
  }

  predicate ReceiverIsRight(env: Env, tx: Transaction) {
    if tx.kind == Burn then tx.receiver == ZERO_ACTOR
    else tx.receiver != ZERO_ACTOR && env.knows(tx.receiver) && (tx.sender == tx.receiver <==> ToItself(tx.kind))
  }

  predicate MintingIsRight(tx: Transaction) {
    tx.kind == Minting ==> tx.sender == MINTING_OWNER && tx.token == MINTING_TOKEN
  }

  /** Burn and Minting go without the test that there is a signature at all. */
  predicate IsSigned(env: Env, tx: Transaction) {
    env.verifies(tx) && (|tx.signature| == 0 ==> tx.kind == Burn || tx.kind == Minting)
  }

  predicate AmountIsRight(env: Env, n: Node, tx: Transaction) {
    && tx.amount > 0.0
    && (tx.kind == TransactionType.Reward ==> tx.amount <= 3.0)
    && (tx.kind == InitContract ==> tx.amount < 1000000000000.0)
    && (Weighed(tx) ==> Covered(env, n, tx))
  }

  predicate ConversionIsRight(env: Env, tx: Transaction) {
    tx.kind == Conversion ==>
      tx.meta.Some? && env.tokenOf(tx.meta.value).Some? && env.tokenOf(tx.meta.value).value != tx.token
  }

  /** All that is required of a transaction, in no order. */
  ghost predicate MeetsRequirements(env: Env, n: Node, tx: Transaction) {
    && -15 <= n.current - tx.section <= 15
    && tx.hash == env.computedHash(tx) && !FindsDuplicate(n, tx.hash)
    && tx.sender != ZERO_ACTOR && env.knows(tx.sender)
    && ReceiverIsRight(env, tx) && MintingIsRight(tx) && IsSigned(env, tx)
    && AmountIsRight(env, n, tx) && ConversionIsRight(env, tx)
  }

  /** A transaction is accepted exactly if it meets its requirements. */
  lemma AcceptedIff(env: Env, n: Node, tx: Transaction)
    ensures Prove(env, n, tx) == NoError <==>
      if tx.kind == Genesis then tx.section == 0 && tx.amount == 0.0 && IsOwn(env, tx)
      else if tx.kind == TransactionType.Balance then tx.section == 1 && IsOwn(env, tx)
      else MeetsRequirements(env, n, tx)
  {
    hide Covered, FindsDuplicate;
  }

  /** Along every run of acceptances every transaction did, when its turn came. */
  lemma AcceptedRunMeetsRequirements(
    h: Hasher, envs: seq<Env>, states: seq<Node>, txs: seq<Transaction>, i: nat)
    requires IsAcceptRun(h, envs, states, txs) && i < |txs|
    requires txs[i].kind != Genesis && txs[i].kind != TransactionType.Balance
    ensures MeetsRequirements(envs[i], states[i], txs[i])
  {
    hide Prove, Save, MeetsRequirements;
    AcceptedIff(envs[i], states[i], txs[i]);
  }

  // Which error a refusal names.

  datatype Check = Check(error: ProveError, fails: bool)

  function FirstFrom(checks: seq<Check>, k: nat): ProveError
    requires k <= |checks|
    decreases |checks| - k
  {
    if k == |checks| then NoError else if checks[k].fails then checks[k].error else FirstFrom(checks, k + 1)
  }

  function FirstFailing(checks: seq<Check>): ProveError {
    FirstFrom(checks, 0)
  }

  /** What is checked of every transaction but Genesis and Balance, in order. */
  ghost function GeneralChecks(env: Env, n: Node, tx: Transaction): seq<Check> {
    [Check(TooSectionDiff, n.current - tx.section > 15 || tx.section - n.current > 15),
     Check(AmountZero, tx.amount == 0.0),
     Check(AmountLessZero, tx.amount < 0.0),
     Check(WrongHash, tx.hash != env.computedHash(tx)),
     Check(Duplicate, FindsDuplicate(n, tx.hash)),
     Check(SenderZero, tx.sender == ZERO_ACTOR),
     Check(SenderNotExists, !env.knows(tx.sender))]
  }

  function BurnChecks(env: Env, tx: Transaction): seq<Check> {
    [Check(BurnIncorrectReceiver, tx.receiver != ZERO_ACTOR), Check(InvalidSignature, !env.verifies(tx))]
  }

  function ReceiverChecks(env: Env, tx: Transaction): seq<Check> {
    [Check(ReceiverZero, tx.receiver == ZERO_ACTOR), Check(ReceiverNotExists, !env.knows(tx.receiver))]
  }

  function MintingChecks(env: Env, tx: Transaction): seq<Check> {
    [Check(InvalidSignature, tx.sender != MINTING_OWNER),
     Check(RewardInvalidToken, tx.token != MINTING_TOKEN),
     Check(IdenticalSenderReceiver, tx.sender == tx.receiver),
     Check(InvalidSignature, !env.verifies(tx))]
  }

  function SignedChecks(env: Env, n: Node, tx: Transaction): seq<Check> {
    var from := if tx.meta.Some? then env.tokenOf(tx.meta.value) else None;
    [Check(NotIdenticalSenderReceiver, ToItself(tx.kind) && tx.sender != tx.receiver),
     Check(IdenticalSenderReceiver, !ToItself(tx.kind) && tx.sender == tx.receiver),
     Check(MissingSignature, |tx.signature| == 0),
     Check(InvalidSignature, !env.verifies(tx)),
     Check(BigReward, tx.kind == TransactionType.Reward && tx.amount > 3.0),
     Check(InvalidTokenCount, tx.kind == InitContract && tx.amount >= 1000000000000.0),
     Check(ConversionIncorrectFromToken, tx.kind == Conversion && from.None?),
     Check(ConversionEqualToken, tx.kind == Conversion && from == Some(tx.token)),
     Check(SenderBalanceBelowZero, Weighed(tx) && !Covered(env, n, tx))]
  }

  ghost function Checks(env: Env, n: Node, tx: Transaction): seq<Check> {
    GeneralChecks(env, n, tx)
    + if tx.kind == Burn then BurnChecks(env, tx)
      else ReceiverChecks(env, tx) + if tx.kind == Minting then MintingChecks(env, tx) else SignedChecks(env, n, tx)
  }

  lemma {:induction false} FirstOfSecond(a: seq<Check>, b: seq<Check>, k: nat)
    requires k <= |b|
    ensures FirstFrom(a + b, |a| + k) == FirstFrom(b, k)
    decreases |b| - k
  {
    if k < |b| {
      FirstOfSecond(a, b, k + 1);
    }
  }

  lemma {:induction false} FirstOfBothFrom(a: seq<Check>, b: seq<Check>, k: nat)
    requires k <= |a| && forall c | c in a :: c.error != NoError
    ensures FirstFrom(a + b, k) == if FirstFrom(a, k) == NoError then FirstFrom(b, 0) else FirstFrom(a, k)
    decreases |a| - k
  {
    if k < |a| {
      FirstOfBothFrom(a, b, k + 1);
      assert a[k] in a;
    } else {
      FirstOfSecond(a, b, 0);
    }
  }

  lemma FirstOfBoth(a: seq<Check>, b: seq<Check>)
    requires forall c | c in a :: c.error != NoError
    ensures FirstFailing(a + b) == if FirstFailing(a) == NoError then FirstFailing(b) else FirstFailing(a)
  {
    FirstOfBothFrom(a, b, 0);
  }

  /** Check k passes or names its error. */
  lemma At(checks: seq<Check>, k: nat)
    requires k < |checks|
    ensures FirstFrom(checks, k) == if checks[k].fails then checks[k].error else FirstFrom(checks, k + 1)
    ensures FirstFrom(checks, |checks|) == NoError
  {
  }

  lemma GeneralIs(env: Env, n: Node, tx: Transaction)
    requires tx.kind != Genesis && tx.kind != TransactionType.Balance
    ensures
      var first := FirstFailing(GeneralChecks(env, n, tx));
      if first != NoError then Prove(env, n, tx) == first
      else
        && Prove(env, n, tx) == ProveParties(env, n, tx)
        && tx.sender != ZERO_ACTOR && env.knows(tx.sender) && tx.amount > 0.0
  {
    var checks := GeneralChecks(env, n, tx);
    At(checks, 0);
    At(checks, 1);
    At(checks, 2);
    At(checks, 3);
    At(checks, 4);
    At(checks, 5);
    At(checks, 6);
    hide FindsDuplicate, ProveParties, FirstFrom;
  }

  lemma PartiesOfBurn(env: Env, n: Node, tx: Transaction)
    requires tx.sender != ZERO_ACTOR && env.knows(tx.sender) && tx.kind == Burn
    ensures ProveParties(env, n, tx) == FirstFailing(BurnChecks(env, tx))
  {
    var checks := BurnChecks(env, tx);
    At(checks, 0);
    At(checks, 1);
    hide FirstFrom, ProveAmount;
  }

  lemma PartiesOfMinting(env: Env, n: Node, tx: Transaction)
    requires tx.sender != ZERO_ACTOR && env.knows(tx.sender) && tx.kind == Minting
    ensures ProveParties(env, n, tx) == FirstFailing(ReceiverChecks(env, tx) + MintingChecks(env, tx))
  {
    var receiver, checks := ReceiverChecks(env, tx), MintingChecks(env, tx);
    At(receiver, 0);
    At(receiver, 1);
    At(checks, 0);
    At(checks, 1);
    At(checks, 2);
    At(checks, 3);
    FirstOfBoth(receiver, checks);
    hide FirstFrom, ProveAmount;
  }

  lemma PartiesOfOthers(env: Env, n: Node, tx: Transaction)
    requires tx.sender != ZERO_ACTOR && env.knows(tx.sender) && tx.amount > 0.0
    requires tx.kind !in {Genesis, TransactionType.Balance, Burn, Minting}
    ensures ProveParties(env, n, tx) == FirstFailing(ReceiverChecks(env, tx) + SignedChecks(env, n, tx))
  {
    var receiver, checks := ReceiverChecks(env, tx), SignedChecks(env, n, tx);
    At(receiver, 0);
    At(receiver, 1);
    At(checks, 0);
    At(checks, 1);
    At(checks, 2);
    At(checks, 3);
    FirstOfBoth(receiver, checks);
    AmountIs(env, n, tx);
    hide FirstFrom, ProveAmount;
  }

  lemma AmountIs(env: Env, n: Node, tx: Transaction)
    requires tx.amount > 0.0 && tx.kind !in {Genesis, TransactionType.Balance, Burn, Minting}
    ensures ProveAmount(env, n, tx) == FirstFrom(SignedChecks(env, n, tx), 4)
  {
    var checks := SignedChecks(env, n, tx);
    At(checks, 4);
    At(checks, 5);
    At(checks, 6);
    At(checks, 7);
    At(checks, 8);
    hide FirstFrom, Covered;
  }

  /** A refusal names the first check that fails. */
  lemma RefusalNamesFirst(env: Env, n: Node, tx: Transaction)
    requires tx.kind != Genesis && tx.kind != TransactionType.Balance
    ensures Prove(env, n, tx) == FirstFailing(Checks(env, n, tx))
  {
    hide Covered, FindsDuplicate;
    var general := GeneralChecks(env, n, tx);
    GeneralIs(env, n, tx);
    if FirstFailing(general) == NoError {
      if tx.kind == Burn {
        PartiesOfBurn(env, n, tx);
      } else if tx.kind == Minting {
        PartiesOfMinting(env, n, tx);
      } else {
        PartiesOfOthers(env, n, tx);
      }
    }
    assert forall c | c in general :: c.error != NoError;
    hide ProveParties, Prove;
    var rest :=
      if tx.kind == Burn then BurnChecks(env, tx)
      else ReceiverChecks(env, tx) + if tx.kind == Minting then MintingChecks(env, tx) else SignedChecks(env, n, tx);
    FirstOfBoth(general, rest);
    hide GeneralChecks, BurnChecks, ReceiverChecks, MintingChecks, SignedChecks;
  }
}
