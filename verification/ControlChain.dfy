/**
 Sections and the chain of control hashes over them (sources/chain/dag.cpp, headers/chain/dag.h).

 Every 20th section may carry a control.  The control at 0 hashes section 0; the control at 20k
 hashes the control at 20(k-1) followed by the interval hash of sections 20k-19 .. 20k.
*/
module ControlChain {
  import opened Wrappers
  import opened Hashing
  import opened Transactions

  const CONTROL_INTERVAL := 20

  datatype Section = Section(transactions: seq<Transaction>, control: Option<Digest>)

  type Store = map<int, Section>

  /** What reading a section shows of its transactions; a missing section shows none. */
  function TransactionsAt(st: Store, i: int): seq<Transaction> {
    if i in st then st[i].transactions else []
  }

  function ControlAt(st: Store, i: int): Option<Digest> {
    if i in st then st[i].control else None
  }

  function Hashes(txs: seq<Transaction>): seq<Digest> {
    seq(|txs|, j requires 0 <= j < |txs| => txs[j].hash)
  }

  function HashList(st: Store, i: int): (r: seq<Digest>)
    ensures |r| == |TransactionsAt(st, i)|
  {
    Hashes(TransactionsAt(st, i))
  }

  /** What is hashed for one section; an absent and an empty section are hashed alike. */
  function LeafInput(h: Hasher, st: Store, i: int): string {
    if |TransactionsAt(st, i)| == 0 then h.decimal(i)
    else h.decimal(i) + h.digest(Concat(HashList(st, i)))
  }

  function Leaf(h: Hasher, st: Store, i: int): Digest {
    h.digest(LeafInput(h, st, i))
  }

  function Leaves(h: Hasher, st: Store, from: int, to: int): (r: seq<Digest>)
    ensures |r| == (if from <= to then to - from + 1 else 0)
    decreases 1 + to - from
  {
    if from > to then [] else Leaves(h, st, from, to - 1) + [Leaf(h, st, to)]
  }

  lemma AppendLeaf(h: Hasher, st: Store, from: int, to: int)
    requires from <= to
    ensures IntervalInput(h, st, from, to) == IntervalInput(h, st, from, to - 1) + Leaf(h, st, to)
  {
    var ds := Leaves(h, st, from, to);
    assert ds[..|ds| - 1] == Leaves(h, st, from, to - 1);
  }

  lemma AppendHash(txs: seq<Transaction>, tx: Transaction)
    ensures Concat(Hashes(txs + [tx])) == Concat(Hashes(txs)) + tx.hash
  {
    var ds := Hashes(txs + [tx]);
    assert ds[..|ds| - 1] == Hashes(txs);
  }

  function IntervalInput(h: Hasher, st: Store, from: int, to: int): string {
    Concat(Leaves(h, st, from, to))
  }

  function IntervalHash(h: Hasher, st: Store, from: int, to: int): Digest {
    h.digest(IntervalInput(h, st, from, to))
  }

  /** The first section that the control at 20k adds to the one before it. */
  function IntervalStart(k: nat): int {
    if k == 0 then 0 else CONTROL_INTERVAL * k - 19
  }

  /** The control that belongs at section 20k, computed from section 0 on. */
  function Control(h: Hasher, st: Store, k: nat): Digest
    decreases k, 1
  {
    h.digest(ControlInput(h, st, k))
  }

  function ControlInput(h: Hasher, st: Store, k: nat): string
    decreases k, 0
  {
    if k == 0 then IntervalInput(h, st, 0, 0)
    else Control(h, st, k - 1) + IntervalHash(h, st, IntervalStart(k), CONTROL_INTERVAL * k)
  }

  /** `inputs` holds every string that computing the control at 20k hashes. */
  ghost predicate Records(h: Hasher, st: Store, k: nat, inputs: set<string>) {
    && (forall i | 0 <= i <= CONTROL_INTERVAL * k :: LeafInput(h, st, i) in inputs)
    && (forall i | 0 <= i <= CONTROL_INTERVAL * k && |TransactionsAt(st, i)| > 0 :: Concat(HashList(st, i)) in inputs)
    && (forall j: nat | j <= k :: IntervalInput(h, st, IntervalStart(j), CONTROL_INTERVAL * j) in inputs)
    && (forall j: nat | j <= k :: ControlInput(h, st, j) in inputs)
  }

  /** There is such a set: what is assumed about the hash function concerns finitely many strings. */
  ghost function HashedFor(h: Hasher, st: Store, k: nat): (inputs: set<string>)
    ensures Records(h, st, k, inputs)
  {
    var n := CONTROL_INTERVAL * k;
    (set i | 0 <= i <= n :: LeafInput(h, st, i))
    + (set i | 0 <= i <= n && |TransactionsAt(st, i)| > 0 :: Concat(HashList(st, i)))
    + (set j: nat | j <= k :: IntervalInput(h, st, IntervalStart(j), CONTROL_INTERVAL * j))
    + (set j: nat | j <= k :: ControlInput(h, st, j))
  }

  /** Two stores hold the same ordered transaction hashes in every section of a range. */
  ghost predicate SameHashes(a: Store, b: Store, from: int, to: int) {
    forall i | from <= i <= to :: HashList(a, i) == HashList(b, i)
  }

  // How what is hashed is put together.

  lemma {:induction false} DigestAt(ds: seq<Digest>, k: nat)
    requires k < |ds|
    ensures Concat(ds)[DIGEST_LENGTH * k..DIGEST_LENGTH * k + DIGEST_LENGTH] == ds[k]
  {
    if k < |ds| - 1 {
      DigestAt(ds[..|ds| - 1], k);
    }
  }

  lemma {:induction false} LeafAt(h: Hasher, st: Store, from: int, to: int, i: int)
    requires from <= i <= to
    ensures Leaves(h, st, from, to)[i - from] == Leaf(h, st, i)
    decreases 1 + to - from
  {
    if i < to {
      LeafAt(h, st, from, to - 1, i);
    }
  }

  /** The sections of an interval are hashed in ascending order. */
  lemma SectionsStandInOrder(h: Hasher, st: Store, from: int, to: int, i: int)
    requires from <= i <= to
    ensures
      var at := 64 * (i - from);
      at + 64 <= |IntervalInput(h, st, from, to)| && IntervalInput(h, st, from, to)[at..at + 64] == Leaf(h, st, i)
    ensures |IntervalInput(h, st, from, to)| == 64 * (to - from + 1)
  {
    LeafAt(h, st, from, to, i);
    DigestAt(Leaves(h, st, from, to), i - from);
    hide Leaf, Leaves, Concat;
  }

  /** And their transactions in the order of the set. */
  lemma HashesStandInOrder(st: Store, i: int)
    ensures forall k | 0 <= k < |TransactionsAt(st, i)| ::
      Concat(HashList(st, i))[64 * k..64 * k + 64] == TransactionsAt(st, i)[k].hash
  {
    forall k | 0 <= k < |TransactionsAt(st, i)|
      ensures Concat(HashList(st, i))[64 * k..64 * k + 64] == TransactionsAt(st, i)[k].hash
    {
      DigestAt(HashList(st, i), k);
    }
  }

  /** A control is hashed from the one before it, first, and the interval of the 20 sections after that. */
  lemma ControlInputIs(h: Hasher, st: Store, k: nat)
    ensures Control(h, st, 0) == IntervalHash(h, st, 0, 0)
    ensures k > 0 ==>
      && |ControlInput(h, st, k)| == 128 && ControlInput(h, st, k)[..64] == Control(h, st, k - 1)
      && ControlInput(h, st, k)[64..] == IntervalHash(h, st, 20 * k - 19, 20 * k)
  {
  }

  // A control depends on nothing but the hash lists it covers.

  lemma {:induction false} SameLeaves(h: Hasher, a: Store, b: Store, from: int, to: int)
    requires SameHashes(a, b, from, to)
    ensures Leaves(h, a, from, to) == Leaves(h, b, from, to)
    decreases 1 + to - from
  {
    if from <= to {
      SameLeaves(h, a, b, from, to - 1);
      assert HashList(a, to) == HashList(b, to);
    }
  }

  lemma SameTransactionsSameInterval(h: Hasher, a: Store, b: Store, from: int, to: int)
    requires forall i | from <= i <= to :: TransactionsAt(a, i) == TransactionsAt(b, i)
    ensures IntervalHash(h, a, from, to) == IntervalHash(h, b, from, to)
  {
    SameLeaves(h, a, b, from, to);
  }

  lemma {:induction false} SameHashesSameControl(h: Hasher, a: Store, b: Store, k: nat)
    requires SameHashes(a, b, 0, CONTROL_INTERVAL * k)
    ensures Control(h, a, k) == Control(h, b, k)
  {
    SameLeaves(h, a, b, IntervalStart(k), CONTROL_INTERVAL * k);
    if k > 0 {
      SameHashesSameControl(h, a, b, k - 1);
    }
  }

  lemma SameTransactionsSameControl(h: Hasher, a: Store, b: Store, k: nat)
    requires forall i | 0 <= i <= CONTROL_INTERVAL * k :: TransactionsAt(a, i) == TransactionsAt(b, i)
    ensures Control(h, a, k) == Control(h, b, k)
  {
    SameHashesSameControl(h, a, b, k);
  }

  // And, short of a collision, a control determines all of them.

  lemma LeafCommits(h: Hasher, a: Store, b: Store, k: nat, i: int, inputs: set<string>)
    requires NoCollision(h, inputs) && Records(h, a, k, inputs) && Records(h, b, k, inputs)
    requires 0 <= i <= CONTROL_INTERVAL * k
    requires Leaf(h, a, i) == Leaf(h, b, i)
    ensures HashList(a, i) == HashList(b, i)
  {
    var ha, hb := HashList(a, i), HashList(b, i);
    var n := |h.decimal(i)|;
    var pa, pb := LeafInput(h, a, i), LeafInput(h, b, i);
    SameInput(h, inputs, pa, pb);
    assert |ha| == 0 <==> |pa| == n;
    assert |hb| == 0 <==> |pb| == n;
    if |ha| > 0 {
      assert pa[n..] == h.digest(Concat(ha)) && pb[n..] == h.digest(Concat(hb));
      SameInput(h, inputs, Concat(ha), Concat(hb));
      ConcatInjective(ha, hb);
    }
  }

  /** What is hashed for a section names the section: none can stand in for another one. */
  lemma LeafNamesSection(h: Hasher, a: Store, b: Store, i: int, j: int)
    requires LeafInput(h, a, i) == LeafInput(h, b, j)
    requires TransactionsAt(a, i) == [] <==> TransactionsAt(b, j) == []
    ensures h.decimal(i) == h.decimal(j)
  {
    var x, y := LeafInput(h, a, i), LeafInput(h, b, j);
    assert x[..|h.decimal(i)|] == h.decimal(i) && y[..|h.decimal(j)|] == h.decimal(j);
  }

  lemma LastLeaf(h: Hasher, a: Store, b: Store, from: int, to: int)
    requires from <= to && Leaves(h, a, from, to) == Leaves(h, b, from, to)
    ensures Leaves(h, a, from, to - 1) == Leaves(h, b, from, to - 1)
    ensures Leaf(h, a, to) == Leaf(h, b, to)
  {
    var la, lb := Leaves(h, a, from, to), Leaves(h, b, from, to);
    assert la[..|la| - 1] == Leaves(h, a, from, to - 1) && lb[..|lb| - 1] == Leaves(h, b, from, to - 1);
    assert la[|la| - 1] == Leaf(h, a, to) && lb[|lb| - 1] == Leaf(h, b, to);
  }

  lemma {:induction false} EqualLeavesCommit(
    h: Hasher, a: Store, b: Store, k: nat, from: int, to: int, inputs: set<string>)
    requires NoCollision(h, inputs) && Records(h, a, k, inputs) && Records(h, b, k, inputs)
    requires 0 <= from && to <= CONTROL_INTERVAL * k
    requires Leaves(h, a, from, to) == Leaves(h, b, from, to)
    ensures SameHashes(a, b, from, to)
    decreases 1 + to - from
  {
    if from <= to {
      LastLeaf(h, a, b, from, to);
      EqualLeavesCommit(h, a, b, k, from, to - 1, inputs);
      LeafCommits(h, a, b, k, to, inputs);
    }
  }

  lemma IntervalCommits(h: Hasher, a: Store, b: Store, k: nat, j: nat, inputs: set<string>)
    requires NoCollision(h, inputs) && Records(h, a, k, inputs) && Records(h, b, k, inputs)
    requires j <= k
    requires IntervalHash(h, a, IntervalStart(j), CONTROL_INTERVAL * j)
      == IntervalHash(h, b, IntervalStart(j), CONTROL_INTERVAL * j)
    ensures SameHashes(a, b, IntervalStart(j), CONTROL_INTERVAL * j)
  {
    var from, to := IntervalStart(j), CONTROL_INTERVAL * j;
    SameInput(h, inputs, IntervalInput(h, a, from, to), IntervalInput(h, b, from, to));
    ConcatInjective(Leaves(h, a, from, to), Leaves(h, b, from, to));
    EqualLeavesCommit(h, a, b, k, from, to, inputs);
  }

  /** Equal controls sit on equal controls one interval down, and on equal interval hashes. */
  lemma EqualControlsSplit(h: Hasher, a: Store, b: Store, i: nat, j: nat, k: nat, inputs: set<string>)
    requires NoCollision(h, inputs) && Records(h, a, k, inputs) && Records(h, b, k, inputs)
    requires i <= k && j <= k && Control(h, a, i) == Control(h, b, j)
    ensures i == 0 <==> j == 0
    ensures i > 0 ==> Control(h, a, i - 1) == Control(h, b, j - 1)
    ensures IntervalHash(h, a, IntervalStart(i), CONTROL_INTERVAL * i)
      == IntervalHash(h, b, IntervalStart(j), CONTROL_INTERVAL * j)
  {
    SameInput(h, inputs, ControlInput(h, a, i), ControlInput(h, b, j));
    assert i == 0 <==> |ControlInput(h, a, i)| == DIGEST_LENGTH;
    assert j == 0 <==> |ControlInput(h, b, j)| == DIGEST_LENGTH;
    if i > 0 {
      PairInjective(
        Control(h, a, i - 1), IntervalHash(h, a, IntervalStart(i), CONTROL_INTERVAL * i),
        Control(h, b, j - 1), IntervalHash(h, b, IntervalStart(j), CONTROL_INTERVAL * j));
    }
  }

  lemma {:induction false} EqualControlsCommit(h: Hasher, a: Store, b: Store, j: nat, k: nat, inputs: set<string>)
    requires NoCollision(h, inputs) && Records(h, a, k, inputs) && Records(h, b, k, inputs)
    requires j <= k && Control(h, a, j) == Control(h, b, j)
    ensures SameHashes(a, b, 0, CONTROL_INTERVAL * j)
  {
    EqualControlsSplit(h, a, b, j, j, k, inputs);
    IntervalCommits(h, a, b, k, j, inputs);
    if j > 0 {
      EqualControlsCommit(h, a, b, j - 1, k, inputs);
    }
  }

  /**
   The control at 20k commits to the whole prefix: short of a collision among the strings hashed for
   it, two stores have the same control there exactly when they agree, section by section and in
   order, on every transaction hash from 0 to 20k.
  */
  lemma ControlCommitsToPrefix(h: Hasher, a: Store, b: Store, k: nat, inputs: set<string>)
    requires NoCollision(h, inputs) && Records(h, a, k, inputs) && Records(h, b, k, inputs)
    ensures Control(h, a, k) == Control(h, b, k) <==> SameHashes(a, b, 0, CONTROL_INTERVAL * k)
  {
    if Control(h, a, k) == Control(h, b, k) {
      EqualControlsCommit(h, a, b, k, k, inputs);
    } else if SameHashes(a, b, 0, CONTROL_INTERVAL * k) {
      SameHashesSameControl(h, a, b, k);
    }
  }

  /** Hence agreement at one control is agreement at all lower ones. */
  lemma AgreementIsDownwardClosed(h: Hasher, a: Store, b: Store, j: nat, k: nat, inputs: set<string>)
    requires NoCollision(h, inputs) && Records(h, a, k, inputs) && Records(h, b, k, inputs)
    requires j <= k && Control(h, a, k) == Control(h, b, k)
    ensures Control(h, a, j) == Control(h, b, j)
  {
    ControlCommitsToPrefix(h, a, b, k, inputs);
    SameHashesSameControl(h, a, b, j);
  }

  /** Short of a collision the controls of one chain are all different. */
  lemma {:induction false} ControlsDiffer(h: Hasher, st: Store, i: nat, j: nat, k: nat, inputs: set<string>)
    requires NoCollision(h, inputs) && Records(h, st, k, inputs)
    requires i < j <= k
    ensures Control(h, st, i) != Control(h, st, j)
  {
    if Control(h, st, i) == Control(h, st, j) {
      EqualControlsSplit(h, st, st, i, j, k, inputs);
      ControlsDiffer(h, st, i - 1, j - 1, k, inputs);
    }
  }
}
