/**
 Runs of accepted transactions, from the empty chain on, in which the code does not do what it is for.
*/
module Instances {
  import opened Wrappers
  import opened Hashing
  import opened OrderedSets
  import opened Transactions
  import opened ControlChain
  import opened DagState
  import opened ReadyRuns
  import opened SectionStorage
  import opened Balances
  import opened Acceptance
  import opened DagObject
  import opened Resync
  import opened ResyncTheorems

  // What runs are built from.

  predicate IsEmptyChain(n: Node) {
    n.sections == map[] && n.current == -1 && n.firstSaved == -1 && n.cached == -1
  }

  function GenesisOf(who: ActorId, token: ActorId, hash: Digest): Transaction {
    Transaction(0, 0, hash, who, who, 0.0, token, None, Genesis, [], [])
  }

  function RewardFor(section: int, who: ActorId, token: ActorId, hash: Digest): Transaction {
    Transaction(section, 0, hash, who, who, 1.0, token, None, TransactionType.Reward, [], [0])
  }

  function Payment(section: int, from: ActorId, to: ActorId, amount: real, token: ActorId, hash: Digest): Transaction {
    Transaction(section, 0, hash, from, to, amount, token, None, Regular, [], [0])
  }

  /** The actors are known, the signature is right and so is the hash. */
  predicate WellFormed(env: Env, tx: Transaction) {
    && tx.sender != ZERO_ACTOR && tx.receiver != ZERO_ACTOR && env.knows(tx.sender) && env.knows(tx.receiver)
    && env.verifies(tx) && env.computedHash(tx) == tx.hash
  }

  ghost predicate HashesIn(n: Node, txs: seq<Transaction>) {
    forall i, tx | tx in TransactionsAt(n.sections, i) :: tx in txs
  }

  ghost predicate NewHash(txs: seq<Transaction>, hash: Digest) {
    forall tx | tx in txs :: tx.hash != hash
  }

  lemma NewHashIsNoDuplicate(n: Node, txs: seq<Transaction>, hash: Digest)
    requires HashesIn(n, txs) && NewHash(txs, hash)
    ensures !FindsDuplicate(n, hash)
  {
  }

  lemma RewardIsAccepted(env: Env, n: Node, txs: seq<Transaction>, tx: Transaction)
    requires InWindow(n, tx) && HashesIn(n, txs) && NewHash(txs, tx.hash)
    requires tx.kind == TransactionType.Reward && tx.sender == tx.receiver && |tx.signature| > 0
    requires 0.0 < tx.amount <= 3.0 && WellFormed(env, tx)
    ensures Prove(env, n, tx) == NoError
  {
    hide FindsDuplicate;
    NewHashIsNoDuplicate(n, txs, tx.hash);
  }

  lemma PaymentIsAccepted(env: Env, n: Node, txs: seq<Transaction>, tx: Transaction)
    requires InWindow(n, tx) && HashesIn(n, txs) && NewHash(txs, tx.hash)
    requires tx.kind == Regular && tx.sender != tx.receiver && |tx.signature| > 0
    requires 0.0 < tx.amount && WellFormed(env, tx) && Covered(env, n, tx)
    ensures Prove(env, n, tx) == NoError
  {
    hide FindsDuplicate, Covered;
    NewHashIsNoDuplicate(n, txs, tx.hash);
  }

  /** One save that crosses no gap: what becomes of the transactions and of the controls. */
  lemma SaveStep(h: Hasher, n: Node, tx: Transaction)
    requires Inv(h, n) && InWindow(n, tx) && !Crosses(n, tx)
    ensures
      var m := Save(h, n, tx);
      && Inv(h, m) && m.current == RaiseCurrent(n, tx.section).current
      && m.cached == (if Advances(n, tx) then CacheFor(m.current) else n.cached)
      && (forall i :: TransactionsAt(m.sections, i) ==
           if i == tx.section then Insert(TransactionsAt(n.sections, i), tx, Less) else TransactionsAt(n.sections, i))
    ensures
      var m := Save(h, n, tx);
      && ControlAt(m.sections, tx.section).None?
      && (forall i | i != tx.section && ControlAt(n.sections, i).Some? :: ControlAt(m.sections, i).Some?)
      && (!Advances(n, tx) ==>
           forall i | i != tx.section :: ControlAt(m.sections, i) == ControlAt(n.sections, i))
      && (Advances(n, tx) && n.cached >= 0 && ControlAt(n.sections, n.cached).Some? && tx.section != m.cached ==>
           ControlAt(m.sections, m.cached).Some?)
      && (Advances(n, tx) && n.cached == -1 && tx.section != 0 ==> ControlAt(m.sections, 0).Some?)
  {
    hide Control, Save, GenerateFrom, UpdateCache, LastControl, Prepared, Insert, Less, CacheTarget, CacheFor;
    hide ControlsCorrect, Unbroken, Settled;
    CacheFollows(n, tx);
    SaveWrites(h, n, tx);
    SaveKeepsControls(h, n, tx);
    SaveTransactionsAt(h, n, tx);
    if Advances(n, tx) && Gap(n) {
      GeneratedAndDropped(h, n, tx);
    } else if Advances(n, tx) {
      AdvanceKeepsControls(h, n, tx);
    } else {
      PreparedWithoutAdvance(h, n, tx);
    }
  }

  function Always(env: Env, k: nat): seq<Env> {
    seq(k, _ => env)
  }

  lemma AcceptRunGrows(h: Hasher, env: Env, states: seq<Node>, txs: seq<Transaction>, tx: Transaction)
    requires |states| == |txs| + 1 && IsAcceptRun(h, Always(env, |txs|), states, txs)
    requires Prove(env, states[|txs|], tx) == NoError
    ensures IsAcceptRun(h, Always(env, |txs| + 1), states + [Save(h, states[|txs|], tx)], txs + [tx])
  {
    hide Prove, Save;
    var states', txs' := states + [Save(h, states[|txs|], tx)], txs + [tx];
    forall i | 0 <= i < |txs'|
      ensures Prove(env, states'[i], txs'[i]) == NoError
      ensures states'[i + 1] == Save(h, states'[i], txs'[i])
    {
      if i < |txs| {
        assert Always(env, |txs|)[i] == env;
        assert states'[i] == states[i] && states'[i + 1] == states[i + 1] && txs'[i] == txs[i];
      }
    }
  }

  // Chains that grow by one reward at a time.

  predicate IsGenesis(tx: Transaction) {
    tx.kind == Genesis && tx.section == 0 && tx.amount == 0.0 && tx.sender == tx.receiver
  }

  predicate IsReward(tx: Transaction) {
    && tx.kind == TransactionType.Reward && tx.sender == tx.receiver && |tx.signature| > 0
    && 0.0 < tx.amount <= 3.0
  }

  ghost predicate DistinctHashes(txs: seq<Transaction>) {
    forall i, j | 0 <= i < j < |txs| :: txs[i].hash != txs[j].hash
  }

  /** The genesis transaction and then rewards, each at most 15 sections after the one before. */
  ghost predicate Ladder(txs: seq<Transaction>) {
    && |txs| > 0 && IsGenesis(txs[0]) && DistinctHashes(txs)
    && forall k | 0 < k < |txs| ::
         IsReward(txs[k]) && txs[k - 1].section < txs[k].section <= txs[k - 1].section + 15
  }

  function Placed(txs: seq<Transaction>, i: int): seq<Transaction> {
    if |txs| == 0 then []
    else if txs[|txs| - 1].section == i then [txs[|txs| - 1]]
    else Placed(txs[..|txs| - 1], i)
  }

  lemma {:induction false} PlacedHolds(txs: seq<Transaction>, i: int)
    ensures forall tx | tx in Placed(txs, i) :: tx in txs && tx.section == i
  {
    if |txs| > 0 && txs[|txs| - 1].section != i {
      PlacedHolds(txs[..|txs| - 1], i);
    }
  }

  lemma {:induction false} NotPlaced(txs: seq<Transaction>, i: int)
    requires forall tx | tx in txs :: tx.section != i
    ensures Placed(txs, i) == []
  {
    if |txs| > 0 {
      NotPlaced(txs[..|txs| - 1], i);
    }
  }

  lemma {:induction false} PlacedAt(txs: seq<Transaction>, k: nat)
    requires k < |txs| && forall j | k < j < |txs| :: txs[j].section != txs[k].section
    ensures Placed(txs, txs[k].section) == [txs[k]]
    decreases |txs|
  {
    if k < |txs| - 1 {
      PlacedAt(txs[..|txs| - 1], k);
    }
  }

  /** Up to date, no control missing, and in each section just what the ladder puts there. */
  ghost predicate OnLadder(h: Hasher, n: Node, txs: seq<Transaction>)
    requires |txs| > 0
  {
    && Inv(h, n) && n.current == txs[|txs| - 1].section && n.cached == CacheFor(n.current)
    && (n.cached >= 0 ==> ControlAt(n.sections, n.cached).Some?)
    && forall i :: TransactionsAt(n.sections, i) == Placed(txs, i)
  }

  lemma OnLadderHolds(h: Hasher, n: Node, txs: seq<Transaction>)
    requires |txs| > 0 && OnLadder(h, n, txs)
    ensures HashesIn(n, txs)
  {
    hide Inv, TransactionsAt, Placed;
    forall i, tx | tx in TransactionsAt(n.sections, i)
      ensures tx in txs
    {
      PlacedHolds(txs, i);
    }
  }

  /** The transactions are accepted one after the other, from the empty chain on. */
  ghost predicate RunsFromEmpty(h: Hasher, env: Env, states: seq<Node>, txs: seq<Transaction>) {
    |states| == |txs| + 1 && IsAcceptRun(h, Always(env, |txs|), states, txs) && IsEmptyChain(states[0])
  }

  lemma RunGrows(h: Hasher, env: Env, states: seq<Node>, txs: seq<Transaction>, tx: Transaction)
    requires |states| == |txs| + 1 && RunsFromEmpty(h, env, states, txs)
    requires Prove(env, states[|txs|], tx) == NoError
    ensures RunsFromEmpty(h, env, states + [Save(h, states[|txs|], tx)], txs + [tx])
  {
    hide Prove, Save, IsAcceptRun, Always;
    AcceptRunGrows(h, env, states, txs, tx);
  }

  lemma {:induction false} Climb(h: Hasher, env: Env, txs: seq<Transaction>) returns (states: seq<Node>)
    requires Ladder(txs) && forall k | 0 <= k < |txs| :: WellFormed(env, txs[k])
    ensures |states| == |txs| + 1 && RunsFromEmpty(h, env, states, txs)
    ensures OnLadder(h, states[|txs|], txs)
  {
    hide WellFormed, Prove, Save, OnLadder, RunsFromEmpty;
    if |txs| == 1 {
      states := FirstRung(h, env, txs);
    } else {
      var k := |txs| - 1;
      var before, tx := txs[..k], txs[k];
      LadderPrefix(txs);
      assert txs == before + [tx];
      hide Ladder;
      states := Climb(h, env, before);
      NextRung(h, env, states[k], before, tx);
      RunGrows(h, env, states, before, tx);
      states := states + [Save(h, states[k], tx)];
    }
  }

  lemma LadderPrefix(txs: seq<Transaction>)
    requires Ladder(txs) && |txs| > 1
    ensures Ladder(txs[..|txs| - 1])
  {
  }

  lemma FirstRung(h: Hasher, env: Env, txs: seq<Transaction>) returns (states: seq<Node>)
    requires |txs| == 1 && IsGenesis(txs[0])
    ensures |states| == 2 && RunsFromEmpty(h, env, states, txs) && OnLadder(h, states[1], txs)
  {
    RunsStartRight(h, txs[0]);
    states := [Node(map[], -1, -1, -1), GenesisNode(txs[0])];
    assert Save(h, states[0], txs[0]) == states[1];
    hide Save;
    forall i
      ensures TransactionsAt(states[1].sections, i) == Placed(txs, i)
    {
      assert Placed(txs[..0], i) == [];
    }
  }

  lemma NextRung(h: Hasher, env: Env, n: Node, txs: seq<Transaction>, tx: Transaction)
    requires |txs| > 0 && OnLadder(h, n, txs) && Ladder(txs + [tx]) && WellFormed(env, tx)
    ensures Prove(env, n, tx) == NoError
    ensures OnLadder(h, Save(h, n, tx), txs + [tx])
  {
    hide Inv, TransactionsAt, Prove, Save, Insert, Less, CacheTarget, Placed, WellFormed;
    var all, m := txs + [tx], Save(h, n, tx);
    assert all[|all| - 1] == tx && all[..|all| - 1] == txs;
    OnLadderHolds(h, n, txs);
    LadderFacts(txs, tx);
    hide Ladder, NewHash, HashesIn;
    RewardIsAccepted(env, n, txs, tx);
    InvHasShape(h, n);
    hide Shape, IsReward;
    CacheFollows(n, tx);
    SaveStep(h, n, tx);
    NotPlaced(txs, tx.section);
    InsertIntoNone(tx);
    forall i
      ensures TransactionsAt(m.sections, i) == Placed(all, i)
    {
      PlacedNext(txs, tx, i);
    }
  }

  lemma PlacedNext(txs: seq<Transaction>, tx: Transaction, i: int)
    ensures Placed(txs + [tx], i) == if tx.section == i then [tx] else Placed(txs, i)
  {
    assert (txs + [tx])[..|txs|] == txs;
  }

  lemma InsertIntoNone(tx: Transaction)
    ensures Insert([], tx, Less) == [tx]
  {
  }

  lemma InvHasShape(h: Hasher, n: Node)
    requires Inv(h, n)
    ensures Shape(n)
  {
  }

  lemma {:induction false} LadderFacts(txs: seq<Transaction>, tx: Transaction)
    requires |txs| > 0 && Ladder(txs + [tx])
    ensures NewHash(txs, tx.hash) && IsReward(tx)
    ensures txs[|txs| - 1].section < tx.section <= txs[|txs| - 1].section + 15
    ensures forall t | t in txs :: 0 <= t.section < tx.section
  {
    var all := txs + [tx];
    assert all[|txs|] == tx && all[|txs| - 1] == txs[|txs| - 1];
    forall t | t in txs
      ensures t.hash != tx.hash
    {
      var i :| 0 <= i < |txs| && txs[i] == t;
      assert all[i] == t;
    }
    if |txs| == 1 {
      assert all[0] == txs[0];
    } else {
      var before, last := txs[..|txs| - 1], txs[|txs| - 1];
      assert before + [last] == txs && all[..|all| - 1] == txs;
      LadderPrefix(all);
      LadderFacts(before, last);
    }
  }

  // The control chain goes wrong.

  /** Sections 15, 30 and 35, then one late transaction for section 20, then sections 50 and 55. */
  ghost predicate LeavesGap(txs: seq<Transaction>) {
    && |txs| == 7 && Ladder(txs[..4]) && DistinctHashes(txs)
    && (forall k | 4 <= k < 7 :: IsReward(txs[k]))
    && txs[1].section == 15 && txs[2].section == 30 && txs[3].section == 35
    && txs[4].section == 20 && txs[5].section == 50 && txs[6].section == 55
  }

  lemma NewHashAt(txs: seq<Transaction>, k: nat)
    requires k < |txs| && DistinctHashes(txs)
    ensures NewHash(txs[..k], txs[k].hash)
  {
  }

  /** The first six of them: a late transaction drops the control at section 20. */
  lemma GapArises(h: Hasher, env: Env, txs: seq<Transaction>) returns (states: seq<Node>)
    requires LeavesGap(txs) && forall k | 0 <= k < 7 :: WellFormed(env, txs[k])
    ensures |states| == 7 && IsAcceptRun(h, Always(env, 6), states, txs[..6]) && IsEmptyChain(states[0])
    ensures Inv(h, states[6]) && HashesIn(states[6], txs[..6])
    ensures states[6].current == 50 && states[6].cached == 20 && Gap(states[6])
  {
    hide Inv, Prove, Save, IsAcceptRun, Always, TransactionsAt, CacheTarget, WellFormed, HashesIn, NewHash, IsReward;
    assert forall k | 0 <= k < 4 :: txs[..4][k] == txs[k];
    states := Climb(h, env, txs[..4]);
    OnLadderHolds(h, states[4], txs[..4]);
    FirstControlIsThere(h, states[4]);
    NewHashAt(txs, 4);
    NewHashAt(txs, 5);
    hide Ladder, DistinctHashes;
    states := NextReward(h, env, states, txs, 4);
    InvHasShape(h, states[5]);
    CacheFollows(states[5], txs[5]);
    states := NextReward(h, env, states, txs, 5);
  }

  /** Every one of the seven is accepted; with the last the cache crosses the gap, and a wrong control is stored. */
  lemma GapIsReachable(h: Hasher, env: Env, txs: seq<Transaction>) returns (states: seq<Node>)
    requires LeavesGap(txs) && forall k | 0 <= k < 7 :: WellFormed(env, txs[k])
    ensures |states| == 8 && IsAcceptRun(h, Always(env, 7), states, txs) && IsEmptyChain(states[0])
    ensures Inv(h, states[6]) && Crosses(states[6], txs[6])
    ensures forall inputs | NoCollision(h, inputs) && RecordsResumption(h, states[6], inputs) ::
      !ControlsCorrect(h, states[7].sections)
  {
    hide Inv, Prove, Save, IsAcceptRun, Always, Records, NoCollision, CacheTarget, HashesIn, Ladder, ControlAt;
    states := GapArises(h, env, txs);
    var n, tx := states[6], txs[6];
    InvHasShape(h, n);
    CacheFollows(n, tx);
    NewHashAt(txs, 6);
    RewardIsAccepted(env, n, txs[..6], tx);
    AcceptRunGrows(h, env, states, txs[..6], tx);
    states := states + [Save(h, n, tx)];
    assert txs[..6] + [tx] == txs;
    forall inputs | NoCollision(h, inputs) && RecordsResumption(h, n, inputs)
      ensures !ControlsCorrect(h, Save(h, n, tx).sections)
    {
      MisresumedControlIsWrong(h, n, tx, inputs);
    }
  }

  lemma MisresumedControlIsWrong(h: Hasher, n: Node, tx: Transaction, inputs: set<string>)
    requires Inv(h, n) && InWindow(n, tx) && Crosses(n, tx)
    requires NoCollision(h, inputs) && RecordsResumption(h, n, inputs)
    ensures !ControlsCorrect(h, Save(h, n, tx).sections)
  {
    hide Save, Control, Records, NoCollision;
    GapMisresumes(h, n, tx, inputs);
  }

  function GapTransactions(who: ActorId, token: ActorId, d: seq<Digest>): seq<Transaction>
    requires |d| == 7
  {
    [GenesisOf(who, token, d[0]), RewardFor(15, who, token, d[1]), RewardFor(30, who, token, d[2]),
     RewardFor(35, who, token, d[3]), RewardFor(20, who, token, d[4]), RewardFor(50, who, token, d[5]),
     RewardFor(55, who, token, d[6])]
  }

  predicate Different(d: seq<Digest>) {
    forall i, j | 0 <= i < j < |d| :: d[i] != d[j]
  }

  lemma HashesAreDistinct(txs: seq<Transaction>, d: seq<Digest>)
    requires Different(d) && |txs| <= |d| && forall k | 0 <= k < |txs| :: txs[k].hash == d[k]
    ensures DistinctHashes(txs)
  {
  }

  /** There are such transactions, whatever seven hashes they have. */
  lemma SuchTransactions(who: ActorId, token: ActorId, d: seq<Digest>)
    requires |d| == 7 && Different(d)
    ensures LeavesGap(GapTransactions(who, token, d))
  {
    var txs := GapTransactions(who, token, d);
    var ladder := [txs[0], txs[1], txs[2], txs[3]];
    assert txs[..4] == ladder;
    HashesAreDistinct(txs, d);
    HashesAreDistinct(ladder, d);
    LadderOfFour(txs[0], txs[1], txs[2], txs[3]);
    hide DistinctHashes, Different, Ladder;
  }

  lemma FirstControlIsThere(h: Hasher, n: Node)
    requires Inv(h, n) && n.cached >= 0 && ControlAt(n.sections, n.cached).Some?
    ensures ControlAt(n.sections, 0).Some?
  {
  }

  /** The next reward of a run that crosses no gap. */
  lemma NextReward(h: Hasher, env: Env, states: seq<Node>, txs: seq<Transaction>, k: nat) returns (more: seq<Node>)
    requires k < |txs| && IsAcceptRun(h, Always(env, k), states, txs[..k]) && |states| == k + 1
    requires Inv(h, states[k]) && HashesIn(states[k], txs[..k]) && NewHash(txs[..k], txs[k].hash)
    requires IsReward(txs[k]) && WellFormed(env, txs[k]) && InWindow(states[k], txs[k]) && !Crosses(states[k], txs[k])
    ensures |more| == k + 2 && more[..k + 1] == states
    ensures IsAcceptRun(h, Always(env, k + 1), more, txs[..k + 1])
    ensures more[k + 1] == Save(h, states[k], txs[k])
    ensures Inv(h, more[k + 1]) && HashesIn(more[k + 1], txs[..k + 1])
    ensures more[k + 1].current == RaiseCurrent(states[k], txs[k].section).current
    ensures more[k + 1].cached ==
      if CacheFor(more[k + 1].current) > states[k].cached then CacheFor(more[k + 1].current) else states[k].cached
    ensures ControlAt(more[k + 1].sections, txs[k].section).None?
    ensures more[k + 1].cached == states[k].cached ==> forall i | i != txs[k].section ::
      ControlAt(more[k + 1].sections, i) == ControlAt(states[k].sections, i)
  {
    hide Inv, Prove, Save, Insert, Less, IsAcceptRun, Always, TransactionsAt, CacheTarget;
    var n, tx := states[k], txs[k];
    InvHasShape(h, n);
    CacheFollows(n, tx);
    RewardIsAccepted(env, n, txs[..k], tx);
    SaveStep(h, n, tx);
    AcceptRunGrows(h, env, states, txs[..k], tx);
    more := states + [Save(h, n, tx)];
    assert txs[..k + 1] == txs[..k] + [tx];
    SavedHashes(h, n, txs[..k], tx);
  }

  lemma SavedHashes(h: Hasher, n: Node, txs: seq<Transaction>, tx: Transaction)
    requires Shape(n) && InWindow(n, tx) && HashesIn(n, txs)
    ensures HashesIn(Save(h, n, tx), txs + [tx])
  {
    hide Save, Insert, Less, TransactionsAt, CacheTarget;
    SaveTransactionsAt(h, n, tx);
    LessIsStrictTotalOrder();
    InsertMembers(TransactionsAt(n.sections, tx.section), tx, Less);
  }

  // A difference that no resynchronisation finds.

  lemma {:induction false} LadderAscends(txs: seq<Transaction>)
    requires Ladder(txs)
    ensures forall i, j | 0 <= i < j < |txs| :: txs[i].section < txs[j].section
  {
    if |txs| > 1 {
      var before, last := txs[..|txs| - 1], txs[|txs| - 1];
      LadderPrefix(txs);
      LadderAscends(before);
      assert last.section > txs[|txs| - 2].section;
      hide Ladder;
      forall i, j | 0 <= i < j < |txs|
        ensures txs[i].section < txs[j].section
      {
        assert before[i] == txs[i];
        assert j < |before| ==> before[j] == txs[j];
        assert i < |before| - 1 ==> before[i].section < before[|before| - 1].section;
      }
    }
  }

  /** `extra` comes as the second transaction after genesis, and for section 20. */
  function Inserted(txs: seq<Transaction>, extra: Transaction): seq<Transaction>
    requires |txs| > 2
  {
    txs[..2] + [extra] + txs[2..]
  }

  ghost predicate BlindLadders(txs: seq<Transaction>, extra: Transaction) {
    && |txs| > 2 && extra.section == 20 && Ladder(txs) && Ladder(Inserted(txs, extra))
    && CacheFor(txs[|txs| - 1].section) >= 20 && FirstOfWindow(CacheFor(txs[|txs| - 1].section), 20)
  }

  lemma BlindSections(txs: seq<Transaction>, extra: Transaction)
    requires BlindLadders(txs, extra)
    ensures Placed(txs, 0) == Placed(Inserted(txs, extra), 0)
    ensures Placed(txs, 20) == [] && Placed(Inserted(txs, extra), 20) == [extra]
  {
    var more := Inserted(txs, extra);
    LadderAscends(txs);
    LadderAscends(more);
    assert txs[0].section == 0 && more[0] == txs[0] && more[2] == extra;
    PlacedAt(txs, 0);
    PlacedAt(more, 0);
    PlacedAt(more, 2);
    forall tx | tx in txs
      ensures tx.section != 20
    {
      var k :| 0 <= k < |txs| && txs[k] == tx;
      assert more[if k < 2 then k else k + 1] == tx;
    }
    NotPlaced(txs, 20);
  }

  /**
   Two nodes accept the same transactions but for one, which only the second one gets.  From the first
   control on at which they differ everything differs, and yet the whole synchronisation removes nothing.
  */
  lemma BlindSpot(h: Hasher, env: Env, txs: seq<Transaction>, extra: Transaction)
    returns (states: seq<Node>, others: seq<Node>)
    requires BlindLadders(txs, extra)
    requires WellFormed(env, extra) && forall k | 0 <= k < |txs| :: WellFormed(env, txs[k])
    ensures |states| == |txs| + 1 && RunsFromEmpty(h, env, states, txs)
    ensures |others| == |txs| + 2 && RunsFromEmpty(h, env, others, Inserted(txs, extra))
    ensures StaysBlind(h, states[|txs|], others[|txs| + 1], CacheFor(txs[|txs| - 1].section))
  {
    hide WellFormed, RunsFromEmpty, StaysBlind, OnLadder;
    var more := Inserted(txs, extra);
    assert forall k | 0 <= k < |more| :: more[k] == extra || more[k] in txs;
    states := Climb(h, env, txs);
    others := Climb(h, env, more);
    BlindPair(h, states[|txs|], others[|more|], txs, extra);
  }

  /** Short of a collision the two differ at section 20 first, and still do after the whole resynchronisation. */
  ghost predicate StaysBlind(h: Hasher, n: Node, p: Node, hi: int) {
    && 0 <= hi && hi % CONTROL_INTERVAL == 0 && HoldsControls(p.sections, 0, hi)
    && forall inputs | NoCollision(h, inputs)
         && Records(h, n.sections, hi / CONTROL_INTERVAL, inputs)
         && Records(h, p.sections, hi / CONTROL_INTERVAL, inputs) ::
         (Comparable(h, n, p, hi, inputs) && FirstDifference(n, p, hi, 20)
          && !SameHashes(Resynchronise(n, p, hi).sections, p.sections, 0, 20))
  }

  lemma BlindPair(h: Hasher, n: Node, p: Node, txs: seq<Transaction>, extra: Transaction)
    requires BlindLadders(txs, extra) && OnLadder(h, n, txs) && OnLadder(h, p, Inserted(txs, extra))
    ensures StaysBlind(h, n, p, CacheFor(txs[|txs| - 1].section))
  {
    var hi, more := CacheFor(txs[|txs| - 1].section), Inserted(txs, extra);
    assert more[|more| - 1] == txs[|txs| - 1];
    CacheForIs(txs[|txs| - 1].section);
    HoldsAllControls(h, p);
    hide Records, NoCollision, Comparable, FirstDifference, Resynchronise, OnLadder, BlindLadders, HoldsControls;
    hide Inserted, CacheFor, SameHashes;
    forall inputs | NoCollision(h, inputs)
      && Records(h, n.sections, hi / CONTROL_INTERVAL, inputs) && Records(h, p.sections, hi / CONTROL_INTERVAL, inputs)
      ensures Comparable(h, n, p, hi, inputs) && FirstDifference(n, p, hi, 20)
      ensures !SameHashes(Resynchronise(n, p, hi).sections, p.sections, 0, 20)
    {
      BlindDifference(h, n, p, txs, extra, inputs);
    }
  }

  lemma HoldsAllControls(h: Hasher, n: Node)
    requires Inv(h, n) && n.cached >= 0 && ControlAt(n.sections, n.cached).Some?
    ensures HoldsControls(n.sections, 0, n.cached)
  {
  }

  lemma BlindDifference(h: Hasher, n: Node, p: Node, txs: seq<Transaction>, extra: Transaction, inputs: set<string>)
    requires BlindLadders(txs, extra) && OnLadder(h, n, txs) && OnLadder(h, p, Inserted(txs, extra))
    requires NoCollision(h, inputs)
    requires Records(h, n.sections, CacheFor(txs[|txs| - 1].section) / CONTROL_INTERVAL, inputs)
    requires Records(h, p.sections, CacheFor(txs[|txs| - 1].section) / CONTROL_INTERVAL, inputs)
    ensures
      var hi := CacheFor(txs[|txs| - 1].section);
      && 0 <= hi && hi % CONTROL_INTERVAL == 0 && HoldsControls(p.sections, 0, hi)
      && Comparable(h, n, p, hi, inputs) && FirstDifference(n, p, hi, 20)
      && !SameHashes(Resynchronise(n, p, hi).sections, p.sections, 0, 20)
  {
    hide Inv, Records, NoCollision, Ladder, Placed, Resynchronise, Comparable, FirstOfWindow;
    var hi, more := n.cached, Inserted(txs, extra);
    assert more[|more| - 1] == txs[|txs| - 1];
    RightRunsAreComparable(h, n, p, hi, inputs);
    BlindSections(txs, extra);
    EqualControlMeansAgreement(h, n, p, hi, inputs, 0);
    EqualControlMeansAgreement(h, n, p, hi, inputs, 20);
    assert HashList(n.sections, 0) == HashList(p.sections, 0);
    assert HashList(n.sections, 20) != HashList(p.sections, 20);
    assert FirstDifference(n, p, hi, 20) by {
      assert hi % CONTROL_INTERVAL == 0;
      assert forall i | 0 <= i < 20 && i % CONTROL_INTERVAL == 0 :: i == 0;
    }
    ResyncRepairsIff(h, n, p, hi, inputs, 20);
  }

  lemma InsertedAt(txs: seq<Transaction>, extra: Transaction)
    requires |txs| > 2
    ensures |Inserted(txs, extra)| == |txs| + 1
    ensures forall k | 0 <= k <= |txs| ::
      Inserted(txs, extra)[k] == if k < 2 then txs[k] else if k == 2 then extra else txs[k - 1]
  {
  }

  lemma InsertedDistinct(txs: seq<Transaction>, extra: Transaction)
    requires |txs| > 2 && DistinctHashes(txs) && NewHash(txs, extra.hash)
    ensures DistinctHashes(Inserted(txs, extra))
  {
    InsertedAt(txs, extra);
    hide Inserted;
    assert forall k | 0 <= k < |txs| :: txs[k] in txs;
  }

  lemma InsertedLadder(txs: seq<Transaction>, extra: Transaction)
    requires |txs| > 2 && Ladder(txs) && IsReward(extra) && NewHash(txs, extra.hash)
    requires txs[1].section < extra.section < txs[2].section
    ensures Ladder(Inserted(txs, extra))
  {
    InsertedAt(txs, extra);
    InsertedDistinct(txs, extra);
    hide DistinctHashes, IsReward, NewHash, Inserted, IsGenesis;
  }

  /** One transaction in every 15th section up to 345. */
  function Steps15(who: ActorId, token: ActorId, d: seq<Digest>): seq<Transaction>
    requires |d| == 25
  {
    [GenesisOf(who, token, d[0])]
    + seq(23, k requires 0 <= k < 23 => RewardFor(15 * k + 15, who, token, d[k + 1]))
  }

  lemma Steps15At(who: ActorId, token: ActorId, d: seq<Digest>)
    requires |d| == 25
    ensures
      var txs := Steps15(who, token, d);
      && |txs| == 24 && IsGenesis(txs[0]) && txs[0].hash == d[0]
      && forall k | 0 < k < 24 :: IsReward(txs[k]) && txs[k].section == 15 * k && txs[k].hash == d[k]
  {
    var txs := Steps15(who, token, d);
    assert forall k | 0 < k < 24 :: txs[k] == RewardFor(15 * k, who, token, d[k]);
  }

  lemma Steps15IsLadder(who: ActorId, token: ActorId, d: seq<Digest>)
    requires |d| == 25 && Different(d)
    ensures Ladder(Steps15(who, token, d)) && NewHash(Steps15(who, token, d), d[24])
  {
    Steps15At(who, token, d);
    var txs := Steps15(who, token, d);
    HashesAreDistinct(txs, d);
    hide Steps15, DistinctHashes, IsReward;
  }

  /** There are such ladders, whatever 25 hashes their transactions have. */
  lemma SuchLadders(who: ActorId, token: ActorId, d: seq<Digest>)
    requires |d| == 25 && Different(d)
    ensures BlindLadders(Steps15(who, token, d), RewardFor(20, who, token, d[24]))
  {
    Steps15IsLadder(who, token, d);
    Steps15Sections(who, token, d);
    var txs, extra := Steps15(who, token, d), RewardFor(20, who, token, d[24]);
    hide Steps15, NewHash, Different;
    InsertedLadder(txs, extra);
    hide Ladder, Inserted;
    assert CacheFor(345) == 320 && FirstOfWindow(320, 20);
  }

  lemma Steps15Sections(who: ActorId, token: ActorId, d: seq<Digest>)
    requires |d| == 25
    ensures
      var txs := Steps15(who, token, d);
      |txs| == 24 && txs[1].section == 15 && txs[2].section == 30 && txs[23].section == 345
  {
    Steps15At(who, token, d);
    hide Steps15;
  }

  // Balances go wrong.

  lemma {:induction false} SkipEmpty(env: Env, st: Store, from: int, mid: int, to: int, actor: ActorId, token: ActorId)
    requires mid <= to && forall i | mid < i <= to :: TransactionsAt(st, i) == []
    ensures SectionsEffect(env, st, from, to, actor, token) == SectionsEffect(env, st, from, mid, actor, token)
    decreases 1 + to - mid
  {
    if mid < to {
      SkipEmpty(env, st, from, mid, to - 1, actor, token);
      assert TransactionsAt(st, to) == [];
    }
  }

  lemma {:induction false} Uninvolved(env: Env, st: Store, from: int, to: int, actor: ActorId, token: ActorId)
    requires forall i, tx | from <= i <= to && tx in TransactionsAt(st, i) :: tx.sender != actor && tx.receiver != actor
    ensures SectionsEffect(env, st, from, to, actor, token) == 0.0
    decreases 1 + to - from
  {
    hide Effect;
    if from <= to {
      Uninvolved(env, st, from, to - 1, actor, token);
      UninvolvedSum(env, TransactionsAt(st, to), actor, token);
    }
  }

  lemma {:induction false} UninvolvedSum(env: Env, txs: seq<Transaction>, actor: ActorId, token: ActorId)
    requires forall tx | tx in txs :: tx.sender != actor && tx.receiver != actor
    ensures SumEffect(env, txs, actor, token) == 0.0
  {
    if |txs| > 0 {
      UninvolvedSum(env, txs[..|txs| - 1], actor, token);
      NotInvolved(env, txs[|txs| - 1], actor);
    }
  }

  lemma SumOfOne(env: Env, tx: Transaction, actor: ActorId, token: ActorId)
    ensures SumEffect(env, [tx], actor, token) == Effect(env, tx, actor, token)
  {
    assert [tx][..0] == [];
  }

  predicate NothingFrozen(env: Env, actor: ActorId, token: ActorId) {
    env.networkId == ZERO_ACTOR || env.frozen(actor, token).None?
  }

  /** A reward for `from` in section 15, which it pays to `via` in section 20, which pays on twice as much. */
  function OverdraftTransactions(
    from: ActorId, via: ActorId, to: ActorId, token: ActorId, d: seq<Digest>): seq<Transaction>
    requires |d| == 4
  {
    [GenesisOf(from, token, d[0]), RewardFor(15, from, token, d[1]),
     Payment(20, from, via, 1.0, token, d[2]), Payment(20, via, to, 2.0, token, d[3])]
  }

  /** The balances through section 20 of a chain with only a reward, in section 15, between the cached one and that. */
  lemma BalanceAt20(env: Env, n: Node, reward: Transaction, pays: seq<Transaction>, actor: ActorId, token: ActorId)
    requires n.current >= 0 && n.cached == 0 && env.cachedBalances == map[]
    requires forall i | 0 < i < 20 :: TransactionsAt(n.sections, i) == if i == 15 then [reward] else []
    requires TransactionsAt(n.sections, 20) == pays
    ensures Calculated(env, n, actor, token, 20)
      == Effect(env, reward, actor, token) + SumEffect(env, pays, actor, token)
  {
    hide Effect, SumEffect, TransactionsAt;
    SkipEmpty(env, n.sections, 1, 15, 19, actor, token);
    SkipEmpty(env, n.sections, 1, 0, 14, actor, token);
    SumOfOne(env, reward, actor, token);
  }

  lemma PlacedTwo(a: Transaction, b: Transaction)
    requires a.section != b.section
    ensures forall i :: Placed([a, b], i) == if i == b.section then [b] else if i == a.section then [a] else []
  {
    assert [a, b][..1] == [a] && [a][..0] == [];
    assert forall i :: Placed([a], i) == if i == a.section then [a] else [];
    assert forall i :: Placed([a, b], i) == if i == b.section then [b] else Placed([a], i);
  }

  lemma LadderOfTwo(a: Transaction, b: Transaction)
    requires IsGenesis(a) && IsReward(b) && 0 < b.section <= 15 && a.hash != b.hash
    ensures Ladder([a, b])
  {
  }

  lemma NothingSums(env: Env, actor: ActorId, token: ActorId, hash: Digest)
    ensures SumEffect(env, [], actor, token) == 0.0 && SectionFold(env, [], actor, token, hash) == 0.0
  {
  }

  /** Three of the four are accepted, and all balances are as they should be. */
  lemma OverdraftArises(h: Hasher, env: Env, from: ActorId, via: ActorId, to: ActorId, token: ActorId, d: seq<Digest>)
    returns (states: seq<Node>)
    requires |d| == 4 && Different(d) && from != via && ZERO_ACTOR !in {from, via, token}
    requires env.cachedBalances == map[] && NothingFrozen(env, from, token)
    requires forall k | 0 <= k < 3 :: WellFormed(env, OverdraftTransactions(from, via, to, token, d)[k])
    ensures
      var txs := OverdraftTransactions(from, via, to, token, d);
      && |states| == 4 && IsAcceptRun(h, Always(env, 3), states, txs[..3]) && IsEmptyChain(states[0])
      && Inv(h, states[3]) && HashesIn(states[3], txs[..3]) && states[3].current == 20 && states[3].cached == 0
      && TransactionsAt(states[3].sections, 20) == [txs[2]]
      && forall a, t :: Calculated(env, states[3], a, t, 20) == Credit((a, t) == (via, token), 1.0)
  {
    hide Inv, Prove, Save, IsAcceptRun, Always, TransactionsAt, CacheTarget, HashesIn, Insert, Less, SumEffect;
    hide Calculated;
    var txs := OverdraftTransactions(from, via, to, token, d);
    var first := [txs[0], txs[1]];
    assert txs[..2] == first;
    LadderOfTwo(txs[0], txs[1]);
    PlacedTwo(txs[0], txs[1]);
    states := Climb(h, env, first);
    var n, tx := states[2], txs[2];
    OnLadderHolds(h, n, first);
    InvHasShape(h, n);
    BalanceAt20(env, n, txs[1], [], from, token);
    NothingSums(env, from, token, tx.hash);
    assert NewHash(first, tx.hash);
    CacheFollows(n, tx);
    hide Different, Ladder, Placed, NewHash, OnLadder;
    states := NextPayment(h, env, states, first, tx);
    assert first + [tx] == txs[..3];
    forall a, t
      ensures Calculated(env, states[3], a, t, 20) == Credit((a, t) == (via, token), 1.0)
    {
      BalanceAt20(env, states[3], txs[1], [tx], a, t);
      SumOfOne(env, tx, a, t);
    }
  }

  /**
   All four are accepted, on a network or off it, and the balance of `via` goes below zero: the validator
   sees the one unit that it received in the section twice.
  */
  lemma OverdraftIsAccepted(
    h: Hasher, env: Env, from: ActorId, via: ActorId, to: ActorId, token: ActorId, d: seq<Digest>)
    returns (states: seq<Node>)
    requires |d| == 4 && Different(d) && from != via && via != to && ZERO_ACTOR !in {from, via, to, token}
    requires env.cachedBalances == map[] && NothingFrozen(env, from, token) && NothingFrozen(env, via, token)
    requires forall k | 0 <= k < 4 :: WellFormed(env, OverdraftTransactions(from, via, to, token, d)[k])
    ensures |states| == 5 && IsEmptyChain(states[0])
    ensures IsAcceptRun(h, Always(env, 4), states, OverdraftTransactions(from, via, to, token, d))
    ensures NonNegative(env, states[3], 20)
    ensures Calculated(env, states[4], via, token, 20) == -1.0
  {
    hide Inv, Prove, Save, IsAcceptRun, Always, TransactionsAt, CacheTarget, HashesIn, Insert, Less, SumEffect;
    hide Calculated;
    hide WellFormed, SectionFold;
    var txs := OverdraftTransactions(from, via, to, token, d);
    states := OverdraftArises(h, env, from, via, to, token, d);
    var n, tx := states[3], txs[3];
    InvHasShape(h, n);
    CacheFollows(n, tx);
    assert NewHash(txs[..3], tx.hash);
    DoubleCountingOverdraws(env, n, txs[2], tx);
    PaymentIsAccepted(env, n, txs[..3], tx);
    AcceptRunGrows(h, env, states, txs[..3], tx);
    SaveStep(h, n, tx);
    SavedBalances(h, env, env, n, tx, via, token, 20);
    states := states + [Save(h, n, tx)];
    assert txs[..3] + [tx] == txs;
  }

  /** A transaction for section -1, twice: it is accepted both times. */
  lemma NegativeTwice(h: Hasher, env: Env, genesis: Transaction, tx: Transaction) returns (states: seq<Node>)
    requires IsGenesis(genesis) && IsReward(tx) && tx.section == -1 && tx.hash != genesis.hash && WellFormed(env, tx)
    ensures |states| == 4 && IsEmptyChain(states[0])
    ensures IsAcceptRun(h, Always(env, 3), states, [genesis, tx, tx])
  {
    hide Save, IsAcceptRun, Always, OnLadder, Inv, HashesIn, Prove, CacheTarget;
    var first := [genesis];
    states := FirstRung(h, env, first);
    var n := states[1];
    assert Inv(h, n) && n.current == 0 && HashesIn(n, first) by {
      OnLadderEnd(h, n, first);
    }
    InvHasShape(h, n);
    CacheFollows(n, tx);
    RewardIsAccepted(env, n, first, tx);
    AcceptRunGrows(h, env, states, first, tx);
    states := states + [Save(h, n, tx)];
    UnsearchedIsAcceptedAgain(h, env, n, tx);
    SaveStep(h, n, tx);
    InvHasShape(h, states[2]);
    CacheFollows(states[2], tx);
    AcceptRunGrows(h, env, states, first + [tx], tx);
    states := states + [Save(h, states[2], tx)];
    assert first + [tx] + [tx] == [genesis, tx, tx];
  }

  /** On a node whose chain begins at section 5, a transaction for section 3, twice: again it is accepted both times. */
  lemma BelowFirstTwice(h: Hasher, env: Env, first: Transaction, tx: Transaction) returns (states: seq<Node>)
    requires IsReward(first) && first.section == 5 && IsReward(tx) && tx.section == 3 && tx.hash != first.hash
    requires WellFormed(env, first) && WellFormed(env, tx)
    ensures |states| == 4 && IsEmptyChain(states[0])
    ensures IsAcceptRun(h, Always(env, 3), states, [first, tx, tx])
  {
    hide IsAcceptRun, Always, Prove;
    states := [Node(map[], -1, -1, -1)];
    RewardIsAccepted(env, states[0], [], first);
    EmptyRun(h, env, states[0]);
    AcceptRunGrows(h, env, states, [], first);
    var n := Node(map[5 := Section([first], None)], 5, 5, -1);
    FirstSaved(h, states[0], first);
    hide Save;
    states := states + [n];
    assert [] + [first] == [first];
    RewardIsAccepted(env, n, [first], tx);
    AcceptRunGrows(h, env, states, [first], tx);
    UnsearchedIsAcceptedAgain(h, env, n, tx);
    states := states + [Save(h, n, tx)];
    AcceptRunGrows(h, env, states, [first] + [tx], tx);
    states := states + [Save(h, states[2], tx)];
    assert [first] + [tx] + [tx] == [first, tx, tx];
  }

  lemma EmptyRun(h: Hasher, env: Env, n: Node)
    ensures IsAcceptRun(h, Always(env, 0), [n], [])
  {
  }

  lemma FirstSaved(h: Hasher, n: Node, tx: Transaction)
    requires IsEmptyChain(n) && 0 <= tx.section < 15
    ensures Save(h, n, tx) == Node(map[tx.section := Section([tx], None)], tx.section, tx.section, -1)
  {
    hide Less;
  }

  /** A batch for sections -1 and 5, saved into an empty chain: the lower bound returned is 5. */
  method LowerBoundIsWrong(h: Hasher, low: Transaction, high: Transaction) returns (bounds: Option<(int, int)>)
    requires low.section == -1 && high.section == 5
    ensures bounds == Some((5, 5))
  {
    assert Increasing([low, high], Less);
    var dag := new Dag(h);
    bounds := dag.SaveTransactions([low, high]);
    assert [low, high][0] == low && [low, high][1] == high;
  }

  lemma OnLadderEnd(h: Hasher, n: Node, txs: seq<Transaction>)
    requires |txs| > 0 && OnLadder(h, n, txs)
    ensures Inv(h, n) && n.current == txs[|txs| - 1].section && HashesIn(n, txs)
  {
    hide Inv;
    OnLadderHolds(h, n, txs);
  }

  /** Rewards for `from` in sections 15, 30 and 35, then it pays one unit in section 20 and one in section 21. */
  function SpentTransactions(
    from: ActorId, first: ActorId, second: ActorId, token: ActorId, d: seq<Digest>): seq<Transaction>
    requires |d| == 6
  {
    [GenesisOf(from, token, d[0]), RewardFor(15, from, token, d[1]), RewardFor(30, from, token, d[2]),
     RewardFor(35, from, token, d[3]), Payment(20, from, first, 1.0, token, d[4]),
     Payment(21, from, second, 1.0, token, d[5])]
  }

  /** Sections 0 to 35 of that chain before the payments. */
  ghost predicate BeforePayments(n: Node, txs: seq<Transaction>)
    requires |txs| == 6
  {
    forall i :: TransactionsAt(n.sections, i) ==
                if i == 0 then [txs[0]] else if i == 15 then [txs[1]] else if i == 30 then [txs[2]]
                else if i == 35 then [txs[3]] else []
  }

  lemma PlacedFour(a: Transaction, b: Transaction, c: Transaction, e: Transaction)
    requires a.section < b.section < c.section < e.section
    ensures forall i :: Placed([a, b, c, e], i) ==
                        if i == e.section then [e] else if i == c.section then [c]
                        else if i == b.section then [b] else if i == a.section then [a] else []
  {
    PlacedTwo(a, b);
    assert [a, b, c][..2] == [a, b];
    assert forall i :: Placed([a, b, c], i) == if i == c.section then [c] else Placed([a, b], i);
    assert [a, b, c, e][..3] == [a, b, c];
  }

  lemma LadderOfFour(a: Transaction, b: Transaction, c: Transaction, e: Transaction)
    requires IsGenesis(a) && IsReward(b) && IsReward(c) && IsReward(e) && DistinctHashes([a, b, c, e])
    requires b.section == 15 && c.section == 30 && e.section == 35
    ensures Ladder([a, b, c, e])
  {
  }

  lemma SpentBegins(
    h: Hasher, env: Env, from: ActorId, first: ActorId, second: ActorId, token: ActorId, d: seq<Digest>)
    returns (states: seq<Node>)
    requires |d| == 6 && Different(d)
    requires forall k | 0 <= k < 4 :: WellFormed(env, SpentTransactions(from, first, second, token, d)[k])
    ensures
      var txs := SpentTransactions(from, first, second, token, d);
      && |states| == 5 && IsAcceptRun(h, Always(env, 4), states, txs[..4]) && IsEmptyChain(states[0])
      && Inv(h, states[4]) && HashesIn(states[4], txs[..4]) && states[4].current == 35 && states[4].cached == 20
      && BeforePayments(states[4], txs)
  {
    hide Inv, IsAcceptRun, Always, TransactionsAt, HashesIn, WellFormed, Placed;
    var txs := SpentTransactions(from, first, second, token, d);
    var ladder := [txs[0], txs[1], txs[2], txs[3]];
    assert txs[..4] == ladder;
    HashesAreDistinct(ladder, d);
    LadderOfFour(txs[0], txs[1], txs[2], txs[3]);
    PlacedFour(txs[0], txs[1], txs[2], txs[3]);
    hide Ladder, DistinctHashes, Different;
    states := Climb(h, env, ladder);
    OnLadderHolds(h, states[4], ladder);
  }

  /** What the cache holds is what the chain says: `from` has its first reward. */
  lemma CacheIsRight(
    env: Env, n: Node, txs: seq<Transaction>, from: ActorId, token: ActorId, actor: ActorId, t: ActorId)
    requires |txs| == 6 && BeforePayments(n, txs) && ZERO_ACTOR !in {from, token}
    requires IsGenesis(txs[0]) && IsReward(txs[1]) && txs[1].sender == from && txs[1].token == token
      && txs[1].amount == 1.0
    ensures SectionsEffect(env, n.sections, 0, 20, actor, t) == Credit((actor, t) == (from, token), 1.0)
  {
    assert Effect(env, txs[0], actor, t) == 0.0;
    assert Effect(env, txs[1], actor, t) == Credit((actor, t) == (from, token), 1.0);
    assert forall i | 15 < i <= 20 || 0 < i <= 14 :: TransactionsAt(n.sections, i) == [];
    assert TransactionsAt(n.sections, 0) == [txs[0]] && TransactionsAt(n.sections, 15) == [txs[1]];
    hide TransactionsAt, SumEffect, Effect, BeforePayments, IsGenesis, IsReward;
    SkipEmpty(env, n.sections, 0, 15, 20, actor, t);
    SkipEmpty(env, n.sections, 0, 0, 14, actor, t);
    SumOfOne(env, txs[1], actor, t);
    SumOfOne(env, txs[0], actor, t);
    assert SectionsEffect(env, n.sections, 0, -1, actor, t) == 0.0;
    assert SectionsEffect(env, n.sections, 0, 0, actor, t) == Effect(env, txs[0], actor, t);
  }

  /** A payment, within the window and without a cache move, by an actor that has the unit it pays. */
  lemma NextPayment(h: Hasher, env: Env, states: seq<Node>, txs: seq<Transaction>, tx: Transaction)
    returns (more: seq<Node>)
    requires |states| == |txs| + 1 && IsAcceptRun(h, Always(env, |txs|), states, txs)
    requires
      var n := states[|txs|];
      && Inv(h, n) && HashesIn(n, txs) && InWindow(n, tx) && !Advances(n, tx)
        && TransactionsAt(n.sections, tx.section) == []
      && Calculated(env, n, tx.sender, tx.token, tx.section) == 1.0
    requires NewHash(txs, tx.hash) && WellFormed(env, tx) && NothingFrozen(env, tx.sender, tx.token)
    requires tx.kind == Regular && tx.sender != tx.receiver && |tx.signature| > 0 && tx.amount == 1.0
    ensures
      var n := states[|txs|];
      && |more| == |states| + 1 && more[..|states|] == states
      && IsAcceptRun(h, Always(env, |txs| + 1), more, txs + [tx])
      && Inv(h, more[|states|]) && HashesIn(more[|states|], txs + [tx])
      && more[|states|].current == RaiseCurrent(n, tx.section).current && more[|states|].cached == n.cached
      && forall i :: TransactionsAt(more[|states|].sections, i) ==
                     if i == tx.section then [tx] else TransactionsAt(n.sections, i)
  {
    hide Inv, Prove, Save, IsAcceptRun, Always, TransactionsAt, CacheTarget, HashesIn, Insert, Less, SumEffect;
    hide Calculated;
    hide WellFormed, NewHash;
    var n := states[|txs|];
    InvHasShape(h, n);
    NothingSums(env, tx.sender, tx.token, tx.hash);
    PaymentIsAccepted(env, n, txs, tx);
    CacheFollows(n, tx);
    SaveStep(h, n, tx);
    SavedHashes(h, n, txs, tx);
    AcceptRunGrows(h, env, states, txs, tx);
    InsertIntoNone(tx);
    more := states + [Save(h, n, tx)];
  }

  /**
   Both payments are accepted though `from` has one unit at either section: the cached section is the
   lowest one that the window admits, and what comes late for it moves no balance.
  */
  lemma SpentTwice(h: Hasher, env: Env, from: ActorId, first: ActorId, second: ActorId, token: ActorId, d: seq<Digest>)
    returns (states: seq<Node>)
    requires |d| == 6 && Different(d)
    requires from !in {first, second} && first != second && ZERO_ACTOR !in {from, first, second, token}
    requires env.cachedBalances == map[(from, token) := 1.0] && NothingFrozen(env, from, token)
    requires forall k | 0 <= k < 6 :: WellFormed(env, SpentTransactions(from, first, second, token, d)[k])
    ensures |states| == 7 && IsEmptyChain(states[0])
    ensures IsAcceptRun(h, Always(env, 6), states, SpentTransactions(from, first, second, token, d))
    ensures forall a, t :: Get(env.cachedBalances, a, t) == SectionsEffect(env, states[4].sections, 0, 20, a, t)
    ensures Calculated(env, states[4], from, token, 20) == Calculated(env, states[5], from, token, 21) == 1.0
    ensures Calculated(env, states[6], first, token, 35) == 0.0
  {
    hide Inv, IsAcceptRun, Always, TransactionsAt, HashesIn, WellFormed, CacheTarget, Effect, SumEffect, Calculated;
    hide Different, NewHash, SectionsEffect;
    var txs := SpentTransactions(from, first, second, token, d);
    states := SpentBegins(h, env, from, first, second, token, d);
    var n := states[4];
    forall a, t
      ensures Get(env.cachedBalances, a, t) == SectionsEffect(env, n.sections, 0, 20, a, t)
    {
      CacheIsRight(env, n, txs, from, token, a, t);
    }
    SpentHashesAreNew(from, first, second, token, d);
    StaysWithinCache(h, n, txs[4]);
    CachedBalance(env, n, from, token, 20);
    states := NextPayment(h, env, states, txs[..4], txs[4]);
    assert txs[..4] + [txs[4]] == txs[..5];
    StaysWithinCache(h, states[5], txs[5]);
    CachedBalance(env, states[5], from, token, 21);
    states := NextPayment(h, env, states, txs[..5], txs[5]);
    assert txs[..5] + [txs[5]] == txs;
    FirstGetsNothing(env, states[6], txs, first, token);
  }

  lemma SpentHashesAreNew(from: ActorId, first: ActorId, second: ActorId, token: ActorId, d: seq<Digest>)
    requires |d| == 6 && Different(d)
    ensures
      var txs := SpentTransactions(from, first, second, token, d);
      NewHash(txs[..4], txs[4].hash) && NewHash(txs[..5], txs[5].hash)
  {
  }

  lemma StaysWithinCache(h: Hasher, n: Node, tx: Transaction)
    requires Inv(h, n) && n.current == 35 && n.cached == 20 && tx.section in {20, 21}
    ensures InWindow(n, tx) && !Advances(n, tx)
  {
    hide Inv;
    InvHasShape(h, n);
    CacheFollows(n, tx);
  }

  lemma CachedBalance(env: Env, n: Node, actor: ActorId, token: ActorId, s: int)
    requires n.current == 35 && n.cached == 20 && (s == 20 || (s == 21 && TransactionsAt(n.sections, 21) == []))
    ensures Calculated(env, n, actor, token, s) == Get(env.cachedBalances, actor, token)
  {
    hide TransactionsAt, SumEffect;
    NothingSums(env, actor, token, seq(DIGEST_LENGTH, _ => '0'));
    assert SectionsEffect(env, n.sections, 21, 20, actor, token) == 0.0;
  }

  lemma FirstGetsNothing(env: Env, n: Node, txs: seq<Transaction>, first: ActorId, token: ActorId)
    requires |txs| == 6 && n.current == 35 && n.cached == 20 && Get(env.cachedBalances, first, token) == 0.0
    requires forall i | 21 <= i <= 35 ::
      TransactionsAt(n.sections, i) ==
      if i == 21 then [txs[5]] else if i == 30 then [txs[2]] else if i == 35 then [txs[3]] else []
    requires forall k | k in {2, 3, 5} :: txs[k].sender != first && txs[k].receiver != first
    ensures Calculated(env, n, first, token, 35) == 0.0
  {
    hide SectionsEffect, TransactionsAt;
    Uninvolved(env, n.sections, 21, 35, first, token);
  }
}
