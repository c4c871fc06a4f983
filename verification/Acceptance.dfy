/**
 Which transactions a node accepts (`prove_transaction`, sources/chain/dag.cpp), and what acceptance
 promises: no transaction twice, and balances that do not go below zero - the latter under a condition.
*/
module Acceptance {
  import opened Wrappers
  import opened Hashing
  import opened OrderedSets
  import opened Transactions
  import opened ControlChain
  import opened DagState
  import opened ReadyRuns
  import opened SectionStorage
  import opened Balances

  datatype ProveError =
    | NoError | Duplicate | WrongHash | AmountZero | AmountLessZero
    | IdenticalSenderReceiver | NotIdenticalSenderReceiver
    | SenderZero | ReceiverZero | SenderNotExists | ReceiverNotExists | SenderBalanceBelowZero
    | MissingSignature | InvalidSignature | RewardInvalidToken | InvalidTokenCount | BurnIncorrectReceiver
    | ConversionIncorrectFromToken | ConversionEqualToken
    | GenesisOnlyZeroSection | BalanceOnlyFirstSection | TooSectionDiff | BigReward

  const MAX_TOKEN_COUNT := 1000000000000.0
  const SEARCH_DEPTH := 100
  const MINTING_OWNER: ActorId := "46710a2d823c23db9fc2ac01e0f84212a8128373"
  const MINTING_TOKEN: ActorId := "468faf2f1be6504a9a26f7f027f7e43380b0d77d"

  // The search for a duplicate.

  /** Sections with transactions among low .. high; sections below 0 do not count. */
  function NonEmpty(st: Store, low: int, high: int): nat
    decreases 1 + high - low
  {
    if low > high then 0
    else (if low >= 0 && |TransactionsAt(st, low)| > 0 then 1 else 0) + NonEmpty(st, low + 1, high)
  }

  /** The downward search from the section after the current one looks at section i; depth 0 means no limit. */
  predicate Searched(n: Node, i: int, depth: nat) {
    0 <= i <= n.current + 1 && n.firstSaved <= i && (depth == 0 || NonEmpty(n.sections, i + 1, n.current + 1) <= depth)
  }

  ghost predicate HoldsHash(st: Store, i: int, hash: Digest) {
    exists tx :: tx in TransactionsAt(st, i) && tx.hash == hash
  }

  ghost predicate FindsHash(n: Node, hash: Digest, depth: nat) {
    exists i :: Searched(n, i, depth) && HoldsHash(n.sections, i, hash)
  }

  ghost predicate FindsDuplicate(n: Node, hash: Digest) {
    FindsHash(n, hash, SEARCH_DEPTH)
  }

  // The verdict.

  function SenderBalance(env: Env, n: Node, tx: Transaction): real {
    Calculated(env, n, tx.sender, tx.token, tx.section)
    + SectionFold(env, TransactionsAt(n.sections, tx.section), tx.sender, tx.token, tx.hash)
  }

  predicate Covered(env: Env, n: Node, tx: Transaction) {
    var balance := SenderBalance(env, n, tx);
    var frozen := if env.networkId == ZERO_ACTOR then None else env.frozen(tx.sender, tx.token);
    balance >= tx.amount && (tx.kind == Regular && frozen.Some? ==> balance - frozen.value >= tx.amount)
  }

  ghost function Prove(env: Env, n: Node, tx: Transaction): ProveError {
    var foreign := env.networkId != ZERO_ACTOR && tx.sender != tx.receiver && tx.sender != env.networkId;
    if tx.kind == Genesis then
      if tx.section != 0 || tx.amount != 0.0 || foreign then GenesisOnlyZeroSection else NoError
    else if tx.kind == Balance then
      if tx.section != 1 then BalanceOnlyFirstSection else if foreign then GenesisOnlyZeroSection else NoError
    else if !InWindow(n, tx) then TooSectionDiff
    else if tx.amount == 0.0 then AmountZero
    else if tx.amount < 0.0 then AmountLessZero
    else if tx.hash != env.computedHash(tx) then WrongHash
    else if FindsDuplicate(n, tx.hash) then Duplicate
    else ProveParties(env, n, tx)
  }

  function ProveParties(env: Env, n: Node, tx: Transaction): ProveError {
    if tx.sender == ZERO_ACTOR then SenderZero
    else if !env.knows(tx.sender) then SenderNotExists
    else if tx.kind == Burn then
      if tx.receiver != ZERO_ACTOR then BurnIncorrectReceiver
      else if !env.verifies(tx) then InvalidSignature else NoError
    else if tx.receiver == ZERO_ACTOR then ReceiverZero
    else if !env.knows(tx.receiver) then ReceiverNotExists
    else if tx.kind == Minting then
      if tx.sender != MINTING_OWNER then InvalidSignature
      else if tx.token != MINTING_TOKEN then RewardInvalidToken
      else if tx.sender == tx.receiver then IdenticalSenderReceiver
      else if !env.verifies(tx) then InvalidSignature else NoError
    else if (tx.kind == Reward || tx.kind == Conversion) && tx.sender != tx.receiver then NotIdenticalSenderReceiver
    else if tx.kind != Reward && tx.kind != Conversion && tx.sender == tx.receiver then IdenticalSenderReceiver
    else if |tx.signature| == 0 then MissingSignature
    else if !env.verifies(tx) then InvalidSignature
    else ProveAmount(env, n, tx)
  }

  function ProveAmount(env: Env, n: Node, tx: Transaction): ProveError {
    if tx.kind == Reward then
      if tx.amount > 3.0 then BigReward else NoError
    else if tx.kind == InitContract then
      if tx.amount < 0.0 || tx.amount >= MAX_TOKEN_COUNT then InvalidTokenCount else NoError
    else if tx.kind == Conversion then
      var from := if tx.meta.Some? then env.tokenOf(tx.meta.value) else None;
      if from.None? then ConversionIncorrectFromToken
      else if from.value == tx.token then ConversionEqualToken
      else NoError
    else if Covered(env, n, tx) then NoError
    else SenderBalanceBelowZero
  }

  // No transaction twice.

  lemma {:induction false} FewNonEmpty(st: Store, low: int, high: int)
    ensures low <= high + 1 ==> NonEmpty(st, low, high) <= high - low + 1
    decreases 1 + high - low
  {
    if low <= high {
      FewNonEmpty(st, low + 1, high);
    }
  }

  lemma {:induction false} NonEmptyGrows(st: Store, lower: int, low: int, high: int)
    requires lower <= low
    ensures NonEmpty(st, low, high) <= NonEmpty(st, lower, high)
    decreases low - lower
  {
    if lower < low {
      NonEmptyGrows(st, lower + 1, low, high);
    }
  }

  /**
   A transaction whose hash is stored already, in the section that it names, is found by the search
   exactly if that section is neither negative nor below the first saved one: within the window of 15
   sections the limit of 101 sections with transactions never cuts the search short.
  */
  lemma StoredHashIsFoundIff(n: Node, tx: Transaction)
    requires InWindow(n, tx) && tx.section <= n.current
    requires HoldsHash(n.sections, tx.section, tx.hash)
    requires forall i | HoldsHash(n.sections, i, tx.hash) :: i == tx.section
    ensures FindsDuplicate(n, tx.hash) <==> 0 <= tx.section && n.firstSaved <= tx.section
  {
    FewNonEmpty(n.sections, tx.section + 1, n.current + 1);
    assert 0 <= tx.section && n.firstSaved <= tx.section ==> Searched(n, tx.section, SEARCH_DEPTH);
  }

  /** Without the window it is the 100 sections with transactions above that limit the search. */
  lemma StoredHashIsReachedIff(n: Node, s: int, hash: Digest)
    requires s <= n.current + 1 && HoldsHash(n.sections, s, hash)
    requires forall i | HoldsHash(n.sections, i, hash) :: i == s
    ensures FindsDuplicate(n, hash) <==>
      0 <= s && n.firstSaved <= s && NonEmpty(n.sections, s + 1, n.current + 1) <= 100
    ensures FindsHash(n, hash, 0) <==> 0 <= s && n.firstSaved <= s
  {
    assert Searched(n, s, SEARCH_DEPTH) ==> FindsDuplicate(n, hash);
    assert Searched(n, s, 0) ==> FindsHash(n, hash, 0);
  }

  /** One approved transaction after the other, each saved; the environment may change in between. */
  ghost predicate IsAcceptRun(h: Hasher, envs: seq<Env>, states: seq<Node>, txs: seq<Transaction>) {
    && |states| == |txs| + 1 && |envs| == |txs|
    && forall i | 0 <= i < |txs| ::
      Prove(envs[i], states[i], txs[i]) == NoError
      && states[i + 1] == Save(h, states[i], txs[i])
  }

  lemma SaveStores(h: Hasher, n: Node, tx: Transaction)
    requires StoredBelow(n)
    ensures
      var m := Save(h, n, tx);
      && StoredBelow(m)
      && (forall i, hash | HoldsHash(n.sections, i, hash) :: HoldsHash(m.sections, i, hash))
      && HoldsHash(m.sections, tx.section, tx.hash)
  {
    hide Save, TransactionsAt, Insert, Less, ContentsOf;
    SaveAddsOne(h, n, tx);
    var m := Save(h, n, tx);
    LessIsStrictTotalOrder();
    InsertMembers(TransactionsAt(n.sections, tx.section), tx, Less);
    ContentsAt(n, tx.section);
    ContentsAt(m, tx.section);
    assert tx in TransactionsAt(m.sections, tx.section);
    forall i, hash | HoldsHash(n.sections, i, hash)
      ensures HoldsHash(m.sections, i, hash)
    {
      ContentsAt(n, i);
      ContentsAt(m, i);
      var held :| held in TransactionsAt(n.sections, i) && held.hash == hash;
      assert held in TransactionsAt(m.sections, i);
    }
  }

  lemma {:induction false} AcceptedStaysStored(
    h: Hasher, envs: seq<Env>, states: seq<Node>, txs: seq<Transaction>, i: nat, j: nat)
    requires IsAcceptRun(h, envs, states, txs) && StoredBelow(states[0])
    requires i <= j <= |txs|
    ensures StoredBelow(states[j])
    ensures i < j ==> HoldsHash(states[j].sections, txs[i].section, txs[i].hash)
    decreases j
  {
    hide Save, Prove, StoredBelow, HoldsHash;
    if j > 0 {
      AcceptedStaysStored(h, envs, states, txs, if i < j then i else j - 1, j - 1);
      assert states[j] == Save(h, states[j - 1], txs[j - 1]);
      SaveStores(h, states[j - 1], txs[j - 1]);
    }
  }

  /**
   Over every run of acceptances, a hash that is accepted a second time for its section is for a section
   that is negative or below the first saved one.  (Genesis and Balance transactions are not looked up.)
  */
  lemma NoHashIsAcceptedTwice(h: Hasher, envs: seq<Env>, states: seq<Node>, txs: seq<Transaction>, i: nat, j: nat)
    requires IsAcceptRun(h, envs, states, txs) && StoredBelow(states[0])
    requires i < j < |txs|
    requires txs[j].kind != Genesis && txs[j].kind != Balance
    requires txs[i].section == txs[j].section && txs[i].hash == txs[j].hash
    ensures txs[j].section < 0 || txs[j].section < states[j].firstSaved
  {
    hide Save, ProveParties;
    AcceptedStaysStored(h, envs, states, txs, i, j);
    var n, tx := states[j], txs[j];
    FewNonEmpty(n.sections, tx.section + 1, n.current + 1);
    assert Prove(envs[j], n, tx) == NoError;
    assert HoldsHash(n.sections, tx.section, txs[i].hash);
    assert tx.section in n.sections;
    assert tx.section < 0 || tx.section < n.firstSaved || Searched(n, tx.section, SEARCH_DEPTH);
  }

  lemma {:induction false} SameNonEmpty(a: Store, b: Store, low: int, high: int)
    requires forall i | i >= low && i >= 0 :: TransactionsAt(a, i) == TransactionsAt(b, i)
    ensures NonEmpty(a, low, high) == NonEmpty(b, low, high)
    decreases 1 + high - low
  {
    hide TransactionsAt;
    if low <= high {
      SameNonEmpty(a, b, low + 1, high);
    }
  }

  lemma {:induction false} FoldSplits(
    env: Env, xs: seq<Transaction>, ys: seq<Transaction>, sender: ActorId, token: ActorId, hash: Digest)
    ensures SectionFold(env, xs + ys, sender, token, hash)
      == SectionFold(env, xs, sender, token, hash) + SectionFold(env, ys, sender, token, hash)
  {
    hide FoldEffect;
    if |ys| == 0 {
      assert xs + ys == xs;
    } else {
      FoldSplits(env, xs, ys[..|ys| - 1], sender, token, hash);
      assert (xs + ys)[..|xs + ys| - 1] == xs + ys[..|ys| - 1];
    }
  }

  /** The validator's pass does not see the transaction itself. */
  lemma {:induction false} FoldIgnoresItself(env: Env, txs: seq<Transaction>, tx: Transaction)
    ensures SectionFold(env, Insert(txs, tx, Less), tx.sender, tx.token, tx.hash)
      == SectionFold(env, txs, tx.sender, tx.token, tx.hash)
  {
    hide Less;
    assert [tx][..0] == [];
    if |txs| == 0 {
      assert Insert(txs, tx, Less) == [tx];
    } else if Less(txs[0], tx) {
      FoldIgnoresItself(env, txs[1..], tx);
      FoldSplits(env, [txs[0]], txs[1..], tx.sender, tx.token, tx.hash);
      FoldSplits(env, [txs[0]], Insert(txs[1..], tx, Less), tx.sender, tx.token, tx.hash);
      assert [txs[0]] + txs[1..] == txs;
    } else if Less(tx, txs[0]) {
      FoldSplits(env, [tx], txs, tx.sender, tx.token, tx.hash);
    }
  }

  /** Is the transaction weighed against its sender's balance? */
  predicate Weighed(tx: Transaction) {
    tx.kind == Regular || tx.kind == Repeatable || tx.kind == Unknown
  }

  /**
   The search for duplicates does not look into negative sections, which are within reach while the chain is
   short, nor below the first saved one.  What is accepted there is accepted again, unless it is weighed
   against a balance that has changed by it.
  */
  lemma UnsearchedIsAcceptedAgain(h: Hasher, env: Env, n: Node, tx: Transaction)
    requires Prove(env, n, tx) == NoError && tx.section <= n.current
    requires tx.section < 0 || tx.section < n.firstSaved
    requires Weighed(tx) ==> CacheTarget(n).None? && !Counts(n, tx.section)
    ensures Prove(env, Save(h, n, tx), tx) == NoError
  {
    hide ProveParties, Less, Insert, SectionsEffect, CacheTarget, Save, FindsDuplicate;
    var s, m := tx.section, Save(h, n, tx);
    SavedAt(h, n, tx);
    StillNotFound(n, m, s, tx.hash);
    if tx.kind != Genesis && tx.kind != TransactionType.Balance {
      if Weighed(tx) {
        FoldIgnoresItself(env, TransactionsAt(n.sections, s), tx);
        UncountedBalance(env, n, m, tx.sender, tx.token, s);
      }
      SamePartiesVerdict(env, n, m, tx);
    }
  }

  lemma StillNotFound(n: Node, m: Node, s: int, hash: Digest)
    requires n.current == m.current && n.firstSaved == m.firstSaved && (s < 0 || s < n.firstSaved)
    requires forall i | i != s :: TransactionsAt(m.sections, i) == TransactionsAt(n.sections, i)
    ensures FindsDuplicate(m, hash) ==> FindsDuplicate(n, hash)
  {
    hide TransactionsAt;
    if FindsDuplicate(m, hash) {
      var i :| Searched(m, i, SEARCH_DEPTH) && HoldsHash(m.sections, i, hash);
      SameNonEmpty(m.sections, n.sections, i + 1, n.current + 1);
      assert Searched(n, i, SEARCH_DEPTH) && HoldsHash(n.sections, i, hash);
    }
  }

  /** What a save for a section that the node is past leaves of the bounds and of the sections. */
  lemma SavedAt(h: Hasher, n: Node, tx: Transaction)
    requires tx.section <= n.current && (tx.section < 0 || tx.section < n.firstSaved)
    ensures
      var m := Save(h, n, tx);
      && m.current == n.current && m.firstSaved == n.firstSaved
      && (CacheTarget(n).None? ==> m.cached == n.cached)
      && (forall i | i != tx.section :: TransactionsAt(m.sections, i) == TransactionsAt(n.sections, i))
      && TransactionsAt(m.sections, tx.section) == Insert(TransactionsAt(n.sections, tx.section), tx, Less)
  {
    hide Less, Insert, GenerateFrom, CacheTarget;
    if CacheTarget(n).Some? {
      var moved := n.(cached := CacheTarget(n).value);
      GenerateKeepsRest(h, moved, CacheStart(n), false);
      GenerationKeepsTransactions(h, moved, CacheStart(n), false);
    }
  }

  /** Where balances are not computed through a section, they are not computed from it. */
  lemma UncountedBalance(env: Env, n: Node, m: Node, actor: ActorId, token: ActorId, s: int)
    requires n.current == m.current && n.firstSaved == m.firstSaved && n.cached == m.cached && !Counts(n, s)
    requires forall i | i != s :: TransactionsAt(m.sections, i) == TransactionsAt(n.sections, i)
    ensures Calculated(env, m, actor, token, s) == Calculated(env, n, actor, token, s)
  {
    hide SumEffect, TransactionsAt;
    EarlierSections(env, n.sections, m.sections, n.cached + 1, s - 1, actor, token);
    EarlierSections(env, n.sections, m.sections, n.firstSaved, s - 1, actor, token);
  }

  /** The chain enters into the checks after the duplicate search only through the sender's balance. */
  lemma SamePartiesVerdict(env: Env, n: Node, m: Node, tx: Transaction)
    requires tx.kind != Genesis && tx.kind != TransactionType.Balance
    requires Weighed(tx) ==> SenderBalance(env, m, tx) == SenderBalance(env, n, tx)
    ensures ProveParties(env, m, tx) == ProveParties(env, n, tx)
  {
    hide SenderBalance;
  }

  // Balances at the end of a section, while transactions for it arrive.

  predicate Transfers(tx: Transaction) {
    tx.kind == Regular || tx.kind == Repeatable
  }

  predicate Pays(tx: Transaction) {
    Transfers(tx) || tx.kind == Reward || tx.kind == InitContract
  }

  /** Balances are computed through this section: it is after the cached one and not before the first saved one. */
  predicate Counts(n: Node, s: int) {
    n.current != -1 && 0 <= s && (if n.cached != -1 then n.cached < s else n.firstSaved <= s)
  }

  ghost predicate NonNegative(env: Env, n: Node, s: int) {
    forall actor, token :: Calculated(env, n, actor, token, s) >= 0.0
  }

  /** The same node with one more transaction; opening balances stay as they are. */
  function With(n: Node, tx: Transaction): Node {
    n.(sections := n.sections[tx.section := Section(Insert(TransactionsAt(n.sections, tx.section), tx, Less), None)])
  }

  lemma {:induction false} EarlierSections(
    env: Env, a: Store, b: Store, from: int, to: int, actor: ActorId, token: ActorId)
    requires forall i | i <= to :: TransactionsAt(a, i) == TransactionsAt(b, i)
    ensures SectionsEffect(env, a, from, to, actor, token) == SectionsEffect(env, b, from, to, actor, token)
    decreases 1 + to - from
  {
    hide SumEffect, TransactionsAt;
    if from <= to {
      EarlierSections(env, a, b, from, to - 1, actor, token);
    }
  }

  lemma {:induction false} SectionsEffectMoves(
    env: Env, n: Node, tx: Transaction, from: int, to: int, actor: ActorId, token: ActorId)
    requires Increasing(TransactionsAt(n.sections, tx.section), Less) && tx !in TransactionsAt(n.sections, tx.section)
    ensures SectionsEffect(env, With(n, tx).sections, from, to, actor, token) ==
      SectionsEffect(env, n.sections, from, to, actor, token)
      + if from <= tx.section <= to && tx.section >= 0 then Effect(env, tx, actor, token) else 0.0
    decreases 1 + to - from
  {
    hide SumEffect, Effect, Insert, Less;
    if from <= to {
      SectionsEffectMoves(env, n, tx, from, to - 1, actor, token);
      InsertedEffect(env, TransactionsAt(n.sections, tx.section), tx, actor, token);
    }
  }

  /** One more transaction changes each balance by its effect, if balances are computed through its section. */
  lemma BalanceMoves(env: Env, n: Node, tx: Transaction, actor: ActorId, token: ActorId, to: int)
    requires Increasing(TransactionsAt(n.sections, tx.section), Less) && tx !in TransactionsAt(n.sections, tx.section)
    ensures Calculated(env, With(n, tx), actor, token, to) ==
      Calculated(env, n, actor, token, to)
      + if Counts(n, tx.section) && tx.section <= to then Effect(env, tx, actor, token) else 0.0
  {
    hide Effect, SectionsEffect;
    SectionsEffectMoves(env, n, tx, n.cached + 1, to, actor, token);
    SectionsEffectMoves(env, n, tx, n.firstSaved, to, actor, token);
  }

  /**
   So a transaction that the window admits takes effect exactly if its section is after the cached one,
   which the lowest section of the window need not be - or if it has no effect in the first place.
  */
  lemma AdmittedMovesBalanceIff(env: Env, n: Node, tx: Transaction, actor: ActorId, token: ActorId, to: int)
    requires Shape(n) && InWindow(n, tx) && tx.section <= to
    requires Increasing(TransactionsAt(n.sections, tx.section), Less) && tx !in TransactionsAt(n.sections, tx.section)
    ensures Calculated(env, With(n, tx), actor, token, to)
      == Calculated(env, n, actor, token, to) + Effect(env, tx, actor, token)
      <==> tx.section > n.cached || Effect(env, tx, actor, token) == 0.0
    ensures 0 <= tx.section <= n.cached ==> tx.section == n.cached
  {
    hide Effect, Calculated, Less;
    BalanceMoves(env, n, tx, actor, token, to);
  }

  /** The cache has moved to `target` and took the balances along. */
  ghost predicate CarriedOver(env: Env, n: Node, env': Env, target: int) {
    && n.cached < target && env'.tokenOf == env.tokenOf
    && forall actor, token :: Get(env'.cachedBalances, actor, token) == Calculated(env, n, actor, token, target)
  }

  /** Then balances are what they were before. */
  lemma CarryingOverKeepsBalances(
    env: Env, n: Node, env': Env, target: int, actor: ActorId, token: ActorId, to: int)
    requires CarriedOver(env, n, env', target) && n.current != -1 && target <= to
    requires -1 <= n.cached && (n.cached == -1 ==> 0 <= n.firstSaved <= target + 1)
    ensures Calculated(env', n.(cached := target), actor, token, to) == Calculated(env, n, actor, token, to)
  {
    hide SectionsEffect;
    var from := if n.cached != -1 then n.cached + 1 else n.firstSaved;
    EffectSplits(env, n.sections, from, target, to, actor, token);
    SameEffects(env, env', n.sections, target + 1, to, actor, token);
  }

  lemma {:induction false} EffectSplits(
    env: Env, st: Store, from: int, mid: int, to: int, actor: ActorId, token: ActorId)
    requires from <= mid + 1 && mid <= to
    ensures SectionsEffect(env, st, from, to, actor, token) ==
      SectionsEffect(env, st, from, mid, actor, token) + SectionsEffect(env, st, mid + 1, to, actor, token)
    decreases 1 + to - mid
  {
    hide SumEffect;
    if mid < to {
      EffectSplits(env, st, from, mid, to - 1, actor, token);
    }
  }

  /** What came too late for the cache is not made up for when the cache moves on: no balance ever shows it. */
  lemma LatePaymentIsNeverCounted(
    env: Env, n: Node, tx: Transaction, without: Env, withIt: Env, target: int, actor: ActorId, token: ActorId, to: int)
    requires 0 <= n.current && 0 <= n.cached && tx.section <= n.cached
    requires Increasing(TransactionsAt(n.sections, tx.section), Less) && tx !in TransactionsAt(n.sections, tx.section)
    requires CarriedOver(env, n, without, target) && CarriedOver(env, With(n, tx), withIt, target)
    ensures Calculated(withIt, With(n, tx).(cached := target), actor, token, to)
      == Calculated(without, n.(cached := target), actor, token, to)
  {
    hide Effect, SectionsEffect;
    BalanceMoves(env, n, tx, actor, token, target);
    SectionsEffectMoves(without, n, tx, target + 1, to, actor, token);
    SameEffects(without, withIt, With(n, tx).sections, target + 1, to, actor, token);
  }

  lemma {:induction false} SameEffects(
    a: Env, b: Env, st: Store, from: int, to: int, actor: ActorId, token: ActorId)
    requires a.tokenOf == b.tokenOf
    ensures SectionsEffect(a, st, from, to, actor, token) == SectionsEffect(b, st, from, to, actor, token)
    decreases 1 + to - from
  {
    hide SumEffect;
    if from <= to {
      SameEffects(a, b, st, from, to - 1, actor, token);
      SameSum(a, b, TransactionsAt(st, to), actor, token);
    }
  }

  lemma {:induction false} SameSum(a: Env, b: Env, txs: seq<Transaction>, actor: ActorId, token: ActorId)
    requires a.tokenOf == b.tokenOf
    ensures SumEffect(a, txs, actor, token) == SumEffect(b, txs, actor, token)
  {
    if |txs| > 0 {
      SameSum(a, b, txs[..|txs| - 1], actor, token);
    }
  }

  /** The balances at hand after a step: those from before, or carried over to where the cache has moved. */
  ghost predicate Follows(env: Env, n: Node, env': Env, m: Node) {
    if m.cached == n.cached then env'.tokenOf == env.tokenOf && env'.cachedBalances == env.cachedBalances
    else CarriedOver(env, n, env', m.cached)
  }

  lemma SavedWithin(h: Hasher, n: Node, tx: Transaction)
    requires Shape(n) && InWindow(n, tx)
    ensures
      var m := Save(h, n, tx);
      && Shape(m) && -1 <= n.cached <= m.cached
      && (m.cached != n.cached ==> 0 <= m.cached <= tx.section)
      && (forall i :: TransactionsAt(m.sections, i) == TransactionsAt(With(n, tx).sections, i))
  {
    hide Insert, Less, GenerateFrom, Save, CacheTarget, ContentsOf;
    CacheFollows(n, tx);
    SaveWrites(h, n, tx);
    SaveAddsOne(h, n, tx);
    SaveTransactionsAt(h, n, tx);
  }

  /**
   A save does to balances what adding the one transaction does, also when it moves the cache - except for a
   transaction for the very section that the cache moves to, which comes too late for it.
  */
  lemma SavedBalances(
    h: Hasher, env: Env, env': Env, n: Node, tx: Transaction, actor: ActorId, token: ActorId, to: int)
    requires Shape(n) && InWindow(n, tx) && Follows(env, n, env', Save(h, n, tx))
    requires Increasing(TransactionsAt(n.sections, tx.section), Less)
    requires tx.section <= to
    ensures
      var m := Save(h, n, tx);
      Calculated(env', m, actor, token, to) ==
        Calculated(env, if m.cached != n.cached && tx.section == m.cached then n else With(n, tx), actor, token, to)
  {
    hide SectionsEffect, Effect, Save, Insert, Less, With, CarriedOver, Calculated;
    var m, w := Save(h, n, tx), With(n, tx);
    SavedWithin(h, n, tx);
    WithKeepsBounds(n, tx);
    SameBalances(env', m, w.(cached := m.cached), actor, token, to);
    if m.cached == n.cached {
      assert w.(cached := m.cached) == w;
      SameEnvBalances(env, env', w, actor, token, to);
    } else if tx.section == m.cached {
      CarryingOverKeepsBalances(env, n, env', m.cached, actor, token, to);
      LaterSections(env', n, tx, actor, token, to);
    } else {
      CarriedOverWith(env, n, tx, env', m.cached);
      CarryingOverKeepsBalances(env, w, env', m.cached, actor, token, to);
    }
  }

  lemma SameEnvBalances(a: Env, b: Env, n: Node, actor: ActorId, token: ActorId, to: int)
    requires a.tokenOf == b.tokenOf && a.cachedBalances == b.cachedBalances
    ensures Calculated(a, n, actor, token, to) == Calculated(b, n, actor, token, to)
  {
    hide SectionsEffect;
    SameEffects(a, b, n.sections, n.cached + 1, to, actor, token);
    SameEffects(a, b, n.sections, n.firstSaved, to, actor, token);
  }

  lemma WithKeepsBounds(n: Node, tx: Transaction)
    ensures With(n, tx).current == n.current && With(n, tx).cached == n.cached && With(n, tx).firstSaved == n.firstSaved
  {
  }

  /** From the section after its own on, a transaction is not among the effects. */
  lemma LaterSections(env: Env, n: Node, tx: Transaction, actor: ActorId, token: ActorId, to: int)
    requires Shape(n) && tx.section >= 0
    ensures Calculated(env, With(n, tx).(cached := tx.section), actor, token, to)
      == Calculated(env, n.(cached := tx.section), actor, token, to)
  {
    hide SumEffect, Insert, Less;
    SectionsAfter(env, n.sections, With(n, tx).sections, tx.section + 1, to, actor, token);
  }

  lemma {:induction false} SectionsAfter(
    env: Env, a: Store, b: Store, from: int, to: int, actor: ActorId, token: ActorId)
    requires forall i | from <= i :: TransactionsAt(a, i) == TransactionsAt(b, i)
    ensures SectionsEffect(env, a, from, to, actor, token) == SectionsEffect(env, b, from, to, actor, token)
    decreases 1 + to - from
  {
    hide SumEffect, TransactionsAt;
    if from <= to {
      SectionsAfter(env, a, b, from, to - 1, actor, token);
    }
  }

  lemma CarriedOverWith(env: Env, n: Node, tx: Transaction, env': Env, target: int)
    requires CarriedOver(env, n, env', target) && target < tx.section
    requires Increasing(TransactionsAt(n.sections, tx.section), Less)
    ensures CarriedOver(env, With(n, tx), env', target)
  {
    hide SectionsEffect, Insert, Less;
    forall actor, token
      ensures Calculated(env, With(n, tx), actor, token, target) == Calculated(env, n, actor, token, target)
    {
      EarlierSections(env, n.sections, With(n, tx).sections, n.cached + 1, target, actor, token);
      EarlierSections(env, n.sections, With(n, tx).sections, n.firstSaved, target, actor, token);
    }
  }

  lemma SameBalances(env: Env, n: Node, m: Node, actor: ActorId, token: ActorId, to: int)
    requires forall i :: TransactionsAt(n.sections, i) == TransactionsAt(m.sections, i)
    requires n.cached == m.cached && n.firstSaved == m.firstSaved && (n.current == -1 <==> m.current == -1)
    ensures Calculated(env, n, actor, token, to) == Calculated(env, m, actor, token, to)
  {
    hide SectionsEffect;
    EarlierSections(env, n.sections, m.sections, n.cached + 1, to, actor, token);
    EarlierSections(env, n.sections, m.sections, n.firstSaved, to, actor, token);
  }

  /** So what is saved takes effect exactly if its section is after the cached one - as that is after the save. */
  lemma SavedMovesBalanceIff(
    h: Hasher, env: Env, env': Env, n: Node, tx: Transaction, actor: ActorId, token: ActorId, to: int)
    requires Shape(n) && InWindow(n, tx) && Follows(env, n, env', Save(h, n, tx)) && tx.section <= to
    requires Increasing(TransactionsAt(n.sections, tx.section), Less) && tx !in TransactionsAt(n.sections, tx.section)
    ensures Calculated(env', Save(h, n, tx), actor, token, to)
      == Calculated(env, n, actor, token, to) + Effect(env, tx, actor, token)
      <==> tx.section > Save(h, n, tx).cached || Effect(env, tx, actor, token) == 0.0
  {
    hide Effect, Calculated, Less, Save, CarriedOver, With;
    SavedBalances(h, env, env', n, tx, actor, token, to);
    SavedWithin(h, n, tx);
    AdmittedMovesBalanceIff(env, n, tx, actor, token, to);
  }

  /**
   What the validator compares a transfer with: the balance through the section, which counts the
   section's transactions, plus its own pass over the same transactions - the section counts twice.
  */
  lemma AcceptedTransferIsCovered(env: Env, n: Node, tx: Transaction)
    requires Transfers(tx) && Prove(env, n, tx) == NoError
    ensures 0.0 < tx.amount && tx.sender != tx.receiver && tx.sender != ZERO_ACTOR && tx.receiver != ZERO_ACTOR
    ensures tx.amount <= Calculated(env, n, tx.sender, tx.token, tx.section)
      + SectionFold(env, TransactionsAt(n.sections, tx.section), tx.sender, tx.token, tx.hash) - Held(env, tx)
  {
    hide Calculated, SectionFold, FindsDuplicate;
  }

  /**
   Storing an accepted transfer keeps all balances non-negative exactly if the balance through the section
   covers it, or it moves no balance at all.
  */
  lemma TransferKeepsNonNegativeIff(env: Env, n: Node, tx: Transaction)
    requires Transfers(tx) && Prove(env, n, tx) == NoError && NonNegative(env, n, tx.section)
    requires Increasing(TransactionsAt(n.sections, tx.section), Less) && tx !in TransactionsAt(n.sections, tx.section)
    ensures NonNegative(env, With(n, tx), tx.section) <==>
      (tx.amount <= Calculated(env, n, tx.sender, tx.token, tx.section)
       || tx.token == ZERO_ACTOR || !Counts(n, tx.section))
  {
    hide Calculated, SectionFold, FindsDuplicate, With, Less, Counts;
    AcceptedTransferIsCovered(env, n, tx);
    var m, s := With(n, tx), tx.section;
    forall actor, token
      ensures Calculated(env, m, actor, token, s) ==
        Calculated(env, n, actor, token, s) + if Counts(n, s) then Effect(env, tx, actor, token) else 0.0
    {
      BalanceMoves(env, n, tx, actor, token, s);
    }
    if tx.amount <= Calculated(env, n, tx.sender, tx.token, s) || tx.token == ZERO_ACTOR || !Counts(n, s) {
      forall actor, token
        ensures Calculated(env, m, actor, token, s) >= 0.0
      {
        assert Calculated(env, n, actor, token, s) >= 0.0;
      }
    } else {
      assert Calculated(env, m, tx.sender, tx.token, s) < 0.0;
    }
  }

  /** The part of the sender's balance that the validator keeps back from a transfer. */
  function Held(env: Env, tx: Transaction): real {
    var frozen := if env.networkId == ZERO_ACTOR then None else env.frozen(tx.sender, tx.token);
    if tx.kind == Regular && frozen.Some? && frozen.value > 0.0 then frozen.value else 0.0
  }

  /** What is frozen binds regular transfers, on a network, and no other type. */
  lemma FrozenBindsRegularOnly(env: Env, n: Node, tx: Transaction)
    ensures tx.kind != Regular || env.networkId == ZERO_ACTOR || env.frozen(tx.sender, tx.token).None? ==>
      (Covered(env, n, tx) <==> tx.amount <= SenderBalance(env, n, tx))
    ensures tx.kind == Regular && env.networkId != ZERO_ACTOR && env.frozen(tx.sender, tx.token).Some? ==>
      (Covered(env, n, tx) <==>
       tx.amount <= SenderBalance(env, n, tx)
       && tx.amount + env.frozen(tx.sender, tx.token).value <= SenderBalance(env, n, tx))
  {
    hide SenderBalance;
  }

  /** The same transaction for another amount. */
  function ForAmount(tx: Transaction, amount: real): Transaction {
    tx.(amount := amount)
  }

  /**
   A condition to check before the call.  Whatever the amount, the validator lets no transfer through
   that its sender's balance does not cover, if and only if the transactions already in the section do not,
   on balance, credit the sender in that token with more than is kept back.
  */
  lemma ValidatorIsSoundIff(env: Env, n: Node, tx: Transaction)
    requires Transfers(tx) && Calculated(env, n, tx.sender, tx.token, tx.section) >= 0.0
    ensures (forall amount: real | amount > 0.0 && Covered(env, n, ForAmount(tx, amount)) ::
        amount <= Calculated(env, n, tx.sender, tx.token, tx.section))
      <==> NoNetCredit(env, n, tx)
  {
    hide Calculated, SectionFold;
    var balance := Calculated(env, n, tx.sender, tx.token, tx.section);
    var fold := SectionFold(env, TransactionsAt(n.sections, tx.section), tx.sender, tx.token, tx.hash);
    var all := balance + fold - Held(env, tx);
    assert all > 0.0 ==> Covered(env, n, ForAmount(tx, all));
  }

  /** It refuses none that is covered if and only if they credit at least what is kept back, or it has nothing. */
  lemma ValidatorIsCompleteIff(env: Env, n: Node, tx: Transaction)
    requires Transfers(tx) && Calculated(env, n, tx.sender, tx.token, tx.section) >= 0.0
    ensures (forall amount: real | amount > 0.0 && amount <= Calculated(env, n, tx.sender, tx.token, tx.section) ::
        Covered(env, n, ForAmount(tx, amount)))
      <==>
      (SectionFold(env, TransactionsAt(n.sections, tx.section), tx.sender, tx.token, tx.hash) >= Held(env, tx)
       || Calculated(env, n, tx.sender, tx.token, tx.section) == 0.0)
  {
    hide Calculated, SectionFold;
    var balance := Calculated(env, n, tx.sender, tx.token, tx.section);
    assert Covered(env, n, ForAmount(tx, balance)) <==>
      SectionFold(env, TransactionsAt(n.sections, tx.section), tx.sender, tx.token, tx.hash) >= Held(env, tx);
  }

  ghost predicate NoNetCredit(env: Env, n: Node, tx: Transaction) {
    SectionFold(env, TransactionsAt(n.sections, tx.section), tx.sender, tx.token, tx.hash) <= Held(env, tx)
  }

  /**
   Transfers, rewards and contract initialisations accepted into one section, in whatever order they arrive;
   `envs` has one more entry, for the state that they end in.
  */
  ghost predicate IsSectionRun(h: Hasher, envs: seq<Env>, states: seq<Node>, txs: seq<Transaction>, s: int) {
    && |envs| == |txs| + 1 && IsAcceptRun(h, envs[..|txs|], states, txs)
    && forall i | 0 <= i < |txs| ::
      txs[i].section == s && Pays(txs[i]) && Follows(envs[i], states[i], envs[i + 1], states[i + 1])
  }

  lemma PaymentKeepsNonNegative(env: Env, n: Node, tx: Transaction)
    requires Pays(tx) && Prove(env, n, tx) == NoError && NonNegative(env, n, tx.section)
    requires Transfers(tx) && Counts(n, tx.section) ==> NoNetCredit(env, n, tx)
    requires Increasing(TransactionsAt(n.sections, tx.section), Less)
    ensures NonNegative(env, With(n, tx), tx.section)
    ensures Increasing(TransactionsAt(With(n, tx).sections, tx.section), Less)
  {
    hide Calculated, SectionFold, FindsDuplicate, Less;
    LessIsStrictTotalOrder();
    var txs := TransactionsAt(n.sections, tx.section);
    InsertAddsOne(txs, tx, Less);
    if tx in txs {
      SameTransactionsSameBalances(env, n, With(n, tx), tx.section);
    } else if Transfers(tx) {
      AcceptedTransferIsCovered(env, n, tx);
      TransferKeepsNonNegativeIff(env, n, tx);
    } else {
      forall actor, token
        ensures Calculated(env, With(n, tx), actor, token, tx.section) >= 0.0
      {
        BalanceMoves(env, n, tx, actor, token, tx.section);
      }
    }
  }

  lemma SameTransactionsSameBalances(env: Env, n: Node, m: Node, s: int)
    requires forall i :: TransactionsAt(n.sections, i) == TransactionsAt(m.sections, i)
    requires n.current == m.current && n.cached == m.cached && n.firstSaved == m.firstSaved
    ensures NonNegative(env, n, s) ==> NonNegative(env, m, s)
  {
    forall actor, token
      ensures Calculated(env, n, actor, token, s) == Calculated(env, m, actor, token, s)
    {
      EarlierSections(env, n.sections, m.sections, n.cached + 1, s, actor, token);
      EarlierSections(env, n.sections, m.sections, n.firstSaved, s, actor, token);
    }
  }

  lemma SavedPaymentKeepsNonNegative(h: Hasher, env: Env, env': Env, n: Node, tx: Transaction)
    requires Pays(tx) && Prove(env, n, tx) == NoError && NonNegative(env, n, tx.section)
    requires Shape(n) && Follows(env, n, env', Save(h, n, tx))
    requires Transfers(tx) && Counts(n, tx.section) ==> NoNetCredit(env, n, tx)
    requires Increasing(TransactionsAt(n.sections, tx.section), Less)
    ensures
      var m := Save(h, n, tx);
      Shape(m) && NonNegative(env', m, tx.section) && Increasing(TransactionsAt(m.sections, tx.section), Less)
  {
    assert InWindow(n, tx);
    hide Prove, Save, Less, Counts, NoNetCredit, Calculated, Follows, With, Shape;
    var m, s := Save(h, n, tx), tx.section;
    SavedWithin(h, n, tx);
    PaymentKeepsNonNegative(env, n, tx);
    forall actor, token
      ensures Calculated(env', m, actor, token, s) >= 0.0
    {
      SavedBalances(h, env, env', n, tx, actor, token, s);
      assert Calculated(env, n, actor, token, s) >= 0.0 && Calculated(env, With(n, tx), actor, token, s) >= 0.0;
    }
  }

  /**
   Over every run of payments into one section, cache moves included, no balance goes below zero if no
   transfer's sender has a net credit in the section.  (Where balances are not computed through the section
   none moves in the first place.)
  */
  lemma {:induction false} SectionRunKeepsNonNegative(
    h: Hasher, envs: seq<Env>, states: seq<Node>, txs: seq<Transaction>, s: int, i: nat)
    requires IsSectionRun(h, envs, states, txs, s) && i < |states|
    requires Shape(states[0]) && NonNegative(envs[0], states[0], s)
    requires Increasing(TransactionsAt(states[0].sections, s), Less)
    requires forall j | 0 <= j < |txs| && Transfers(txs[j]) && Counts(states[j], s) ::
      NoNetCredit(envs[j], states[j], txs[j])
    ensures Shape(states[i]) && NonNegative(envs[i], states[i], s)
    ensures Increasing(TransactionsAt(states[i].sections, s), Less)
  {
    hide Prove, NonNegative, NoNetCredit, Counts, Save, TransactionsAt, Less, Shape, Follows;
    if i > 0 {
      SectionRunKeepsNonNegative(h, envs, states, txs, s, i - 1);
      assert envs[..|txs|][i - 1] == envs[i - 1] && states[i] == Save(h, states[i - 1], txs[i - 1]);
      SavedPaymentKeepsNonNegative(h, envs[i - 1], envs[i], states[i - 1], txs[i - 1]);
    }
  }

  /**
   Without the condition it fails: a sender whose section holds one transfer to it, and who has nothing
   else, is let through with up to twice that amount, and its balance goes below zero.
  */
  lemma DoubleCountingOverdraws(env: Env, n: Node, credit: Transaction, tx: Transaction)
    requires Counts(n, tx.section) && TransactionsAt(n.sections, tx.section) == [credit]
    requires credit.kind == Regular && credit.receiver == tx.sender && credit.sender != tx.sender
    requires Held(env, tx) < credit.amount == Calculated(env, n, tx.sender, tx.token, tx.section)
    requires Transfers(tx) && tx.token == credit.token != ZERO_ACTOR && tx.hash != credit.hash
    requires tx.receiver != tx.sender && tx.sender != ZERO_ACTOR
    requires tx.amount == 2.0 * credit.amount - Held(env, tx)
    ensures Covered(env, n, tx)
    ensures Calculated(env, With(n, tx), tx.sender, tx.token, tx.section) == Held(env, tx) - credit.amount < 0.0
  {
    hide Calculated, Less;
    assert [credit][..0] == [];
    assert SectionFold(env, [credit], tx.sender, tx.token, tx.hash) == credit.amount;
    BalanceMoves(env, n, tx, tx.sender, tx.token, tx.section);
  }

  // Conservation.

  ghost function Total(env: Env, n: Node, actors: set<ActorId>, token: ActorId, s: int): real {
    if actors == {} then 0.0
    else
      var actor :| actor in actors;
      Calculated(env, n, actor, token, s) + Total(env, n, actors - {actor}, token, s)
  }

  lemma {:induction false} TotalSplits(env: Env, n: Node, actors: set<ActorId>, token: ActorId, s: int, actor: ActorId)
    requires actor in actors
    ensures Total(env, n, actors, token, s)
      == Calculated(env, n, actor, token, s) + Total(env, n, actors - {actor}, token, s)
    decreases actors
  {
    hide Calculated;
    var first :| first in actors && Total(env, n, actors, token, s)
      == Calculated(env, n, first, token, s) + Total(env, n, actors - {first}, token, s);
    if first != actor {
      TotalSplits(env, n, actors - {first}, token, s, actor);
      TotalSplits(env, n, actors - {actor}, token, s, first);
      assert actors - {first} - {actor} == actors - {actor} - {first};
    }
  }

  lemma {:induction false} UntouchedTotal(env: Env, n: Node, tx: Transaction, actors: set<ActorId>, token: ActorId)
    requires Transfers(tx)
    requires Increasing(TransactionsAt(n.sections, tx.section), Less) && tx !in TransactionsAt(n.sections, tx.section)
    requires tx.sender !in actors && tx.receiver !in actors
    ensures Total(env, With(n, tx), actors, token, tx.section) == Total(env, n, actors, token, tx.section)
    decreases actors
  {
    hide Calculated, Less, With;
    if actors != {} {
      var actor :| actor in actors;
      TotalSplits(env, n, actors, token, tx.section, actor);
      TotalSplits(env, With(n, tx), actors, token, tx.section, actor);
      BalanceMoves(env, n, tx, actor, token, tx.section);
      UntouchedTotal(env, n, tx, actors - {actor}, token);
    }
  }

  /**
   An accepted transfer leaves the total of every token unchanged, over any actors that include both parties:
   it moves from one balance to the other or, in a section that does not count, not at all.
  */
  lemma TransferConserves(env: Env, n: Node, tx: Transaction, actors: set<ActorId>, token: ActorId)
    requires Transfers(tx) && Prove(env, n, tx) == NoError
    requires Increasing(TransactionsAt(n.sections, tx.section), Less) && tx !in TransactionsAt(n.sections, tx.section)
    requires tx.sender in actors && tx.receiver in actors
    ensures Total(env, With(n, tx), actors, token, tx.section) == Total(env, n, actors, token, tx.section)
  {
    hide Calculated, Less, With, FindsDuplicate, SectionFold;
    AcceptedTransferIsCovered(env, n, tx);
    var m, s, rest := With(n, tx), tx.section, actors - {tx.sender};
    TotalSplits(env, n, actors, token, s, tx.sender);
    TotalSplits(env, m, actors, token, s, tx.sender);
    TotalSplits(env, n, rest, token, s, tx.receiver);
    TotalSplits(env, m, rest, token, s, tx.receiver);
    UntouchedTotal(env, n, tx, rest - {tx.receiver}, token);
    BalanceMoves(env, n, tx, tx.sender, token, s);
    BalanceMoves(env, n, tx, tx.receiver, token, s);
  }
}
