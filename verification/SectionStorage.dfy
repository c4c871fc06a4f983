/**
 What sections contain, apart from controls: saving transactions one by one or in a batch, and the
 difference between two versions of a section (sources/chain/dag.cpp).
*/
module SectionStorage {
  import opened Wrappers
  import opened Hashing
  import opened OrderedSets
  import opened Transactions
  import opened ControlChain
  import opened DagState
  import opened ReadyRuns

  // Saving.

  /** The transactions of the sections that have any, and the bounds of the chain. */
  datatype Contents = Contents(transactions: map<int, seq<Transaction>>, current: int, firstSaved: int)

  function ContentsOf(n: Node): Contents {
    Contents(
      map i | i in n.sections && |n.sections[i].transactions| > 0 :: n.sections[i].transactions,
      n.current, n.firstSaved)
  }

  /** Replacing the transactions of one section, under raised bounds. */
  lemma StoredContents(n: Node, s: int, txs: seq<Transaction>, control: Option<Digest>)
    requires |txs| > 0
    ensures
      var m := NoteFirst(RaiseCurrent(n, s), s);
      ContentsOf(m.(sections := m.sections[s := Section(txs, control)]))
      == Raised(ContentsOf(n), s).(transactions := ContentsOf(n).transactions[s := txs])
  {
    var m := NoteFirst(RaiseCurrent(n, s), s);
    var a := ContentsOf(m.(sections := m.sections[s := Section(txs, control)])).transactions;
    var b := ContentsOf(n).transactions[s := txs];
    forall i
      ensures i in a <==> i in b
      ensures i in a ==> a[i] == b[i]
    {
    }
    assert a == b;
  }

  function At(c: Contents, s: int): seq<Transaction> {
    if s in c.transactions then c.transactions[s] else []
  }

  function Raised(c: Contents, s: int): Contents {
    c.(current := if c.current < s then s else c.current,
       firstSaved := if c.firstSaved == -1 && s >= 0 then s else c.firstSaved)
  }

  function AddOne(c: Contents, tx: Transaction): Contents {
    Raised(c, tx.section).(transactions := c.transactions[tx.section := Insert(At(c, tx.section), tx, Less)])
  }

  /** One transaction after the other. */
  function AddAll(c: Contents, txs: seq<Transaction>): Contents {
    if |txs| == 0 then c else AddOne(AddAll(c, txs[..|txs| - 1]), txs[|txs| - 1])
  }

  /** Every stored section lies within the chain's bounds. */
  ghost predicate StoredBelow(n: Node) {
    forall i | i in n.sections :: i <= n.current
  }

  lemma InsertKeepsSome<T>(s: seq<T>, x: T, less: (T, T) -> bool)
    ensures |Insert(s, x, less)| > 0
  {
  }

  lemma ContentsAt(n: Node, i: int)
    ensures At(ContentsOf(n), i) == TransactionsAt(n.sections, i)
  {
  }

  lemma GenerationKeepsTransactions(h: Hasher, n: Node, start: int, full: bool)
    ensures
      var g := GenerateFrom(h, n, start, full);
      && (forall i :: TransactionsAt(g.sections, i) == TransactionsAt(n.sections, i))
      && (StoredBelow(n) ==> StoredBelow(g))
  {
    hide Control, LastControl, LastInterval, ResumeUpTo;
    GenerateKeepsRest(h, n, start, full);
    if start < 0 {
      LoopKeepsTransactions(h, n, start, "");
    } else if start > 0 {
      var last := LastControl(n, start - 1, false);
      if last.Some? && OnGrid(start) {
        LastIsStored(n, start - 1, false);
        ResumeKeepsContents(h, n, ControlAt(n.sections, last.value).value, start / CONTROL_INTERVAL);
      }
    } else if n.current >= 0 {
      var n0 := n.(sections := WithControl(n.sections, 0, Control(h, n.sections, 0)));
      WithControlKeepsTransactions(n.sections, 0, Control(h, n.sections, 0));
      ResumeKeepsContents(h, n0, Control(h, n.sections, 0), 0);
    }
  }

  /** Generating controls changes neither the contents nor what lies within the bounds. */
  lemma GenerationKeepsContents(h: Hasher, n: Node, start: int, full: bool)
    requires StoredBelow(n)
    ensures
      var g := GenerateFrom(h, n, start, full);
      && ContentsOf(g) == ContentsOf(n) && StoredBelow(g) && g.cached == n.cached
      && forall i :: TransactionsAt(g.sections, i) == TransactionsAt(n.sections, i)
  {
    hide GenerateFrom;
    GenerateKeepsRest(h, n, start, full);
    GenerationKeepsTransactions(h, n, start, full);
    SameTransactionsSameContents(n, GenerateFrom(h, n, start, full));
  }

  lemma SameTransactionsSameContents(n: Node, m: Node)
    requires forall i :: TransactionsAt(n.sections, i) == TransactionsAt(m.sections, i)
    requires n.current == m.current && n.firstSaved == m.firstSaved
    ensures ContentsOf(n) == ContentsOf(m)
  {
    var a, b := ContentsOf(n), ContentsOf(m);
    forall i
      ensures i in a.transactions <==> i in b.transactions
      ensures i in a.transactions ==> a.transactions[i] == b.transactions[i]
    {
      assert TransactionsAt(n.sections, i) == TransactionsAt(m.sections, i);
    }
    assert a.transactions == b.transactions;
  }

  lemma ResumeKeepsContents(h: Hasher, n: Node, base: string, from: nat)
    ensures
      var g := Resume(h, n, base, from);
      && (forall i :: TransactionsAt(g.sections, i) == TransactionsAt(n.sections, i))
      && (StoredBelow(n) ==> StoredBelow(g))
  {
    ResumeKeepsTransactions(h, n.sections, base, from, LastInterval(n));
    LastIntervalIs(n, LastInterval(n));
    ResumeAddsBelow(h, n.sections, base, from, LastInterval(n));
  }

  lemma {:induction false} ResumeAddsBelow(h: Hasher, st: Store, base: string, from: nat, k: int)
    ensures forall i | i in ResumeUpTo(h, st, base, from, k) :: i in st || i <= CONTROL_INTERVAL * k
    decreases k
  {
    if k > from {
      ResumeAddsBelow(h, st, base, from, k - 1);
    }
  }

  lemma CacheUpdateKeepsContents(h: Hasher, n: Node)
    requires StoredBelow(n)
    ensures
      var g := UpdateCache(h, n);
      && ContentsOf(g) == ContentsOf(n) && StoredBelow(g)
      && (forall i :: TransactionsAt(g.sections, i) == TransactionsAt(n.sections, i))
      && (CacheTarget(n).None? ==> g == n)
  {
    hide GenerateFrom;
    var target := CacheTarget(n);
    if target.Some? {
      var m := n.(cached := target.value);
      GenerationKeepsContents(h, m, CacheStart(n), false);
      GenerateKeepsRest(h, m, CacheStart(n), false);
    }
  }

  lemma ContentsBounds(n: Node)
    ensures ContentsOf(n).current == n.current && ContentsOf(n).firstSaved == n.firstSaved
  {
  }

  /** Raising the current section early makes no difference in the end. */
  lemma EnteringKeepsContents(n: Node, tx: Transaction)
    ensures ContentsOf(Entered(n, tx)).transactions == ContentsOf(n).transactions
    ensures Entered(n, tx).sections == n.sections && Entered(n, tx).firstSaved == n.firstSaved
  {
  }

  lemma EnteredOrStored(n: Node, tx: Transaction)
    requires StoredBelow(n)
    ensures Entered(n, tx).current == RaiseCurrent(n, tx.section).current
  {
  }

  /** On contents, saving a transaction is adding it. */
  lemma SaveAddsOne(h: Hasher, n: Node, tx: Transaction)
    requires StoredBelow(n)
    ensures ContentsOf(Save(h, n, tx)) == AddOne(ContentsOf(n), tx) && StoredBelow(Save(h, n, tx))
  {
    hide UpdateCache, CacheTarget, Insert, Less, ContentsOf, TransactionsAt;
    var e := Entered(n, tx);
    CacheUpdateKeepsContents(h, e);
    EnteringKeepsContents(n, tx);
    ContentsBounds(n);
    ContentsBounds(e);
    var g := UpdateCache(h, e);
    var txs := Insert(TransactionsAt(n.sections, tx.section), tx, Less);
    ContentsAt(n, tx.section);
    InsertKeepsSome(TransactionsAt(n.sections, tx.section), tx, Less);
    StoredContents(g, tx.section, txs, None);
    EnteredOrStored(n, tx);
  }

  lemma SaveTransactionsAt(h: Hasher, n: Node, tx: Transaction)
    requires StoredBelow(n)
    ensures forall i :: TransactionsAt(Save(h, n, tx).sections, i) ==
                        if i == tx.section then Insert(TransactionsAt(n.sections, i), tx, Less)
                        else TransactionsAt(n.sections, i)
  {
    hide Save, ContentsOf, Insert, Less, TransactionsAt, CacheTarget;
    SaveAddsOne(h, n, tx);
    var m := Save(h, n, tx);
    forall i
      ensures TransactionsAt(m.sections, i) ==
        if i == tx.section then Insert(TransactionsAt(n.sections, i), tx, Less) else TransactionsAt(n.sections, i)
    {
      ContentsAt(n, i);
      ContentsAt(m, i);
    }
  }

  ghost predicate SavesEach(h: Hasher, states: seq<Node>, txs: seq<Transaction>) {
    && |states| == |txs| + 1
    && forall i | 0 <= i < |txs| :: states[i + 1] == Save(h, states[i], txs[i])
  }

  /** Calling `save_transaction` on one transaction after the other adds them all. */
  lemma {:induction false} SavingEachAddsAll(h: Hasher, states: seq<Node>, txs: seq<Transaction>)
    requires SavesEach(h, states, txs)
    requires StoredBelow(states[0])
    ensures ContentsOf(states[|txs|]) == AddAll(ContentsOf(states[0]), txs)
    ensures StoredBelow(states[|txs|])
  {
    hide Save, ContentsOf, AddOne;
    if |txs| > 0 {
      var n := |txs| - 1;
      SavingEachAddsAll(h, states[..n + 1], txs[..n]);
      assert states[..n + 1][n] == states[n] && states[n + 1] == Save(h, states[n], txs[n]);
      SaveAddsOne(h, states[n], txs[n]);
    }
  }

  /** The section that becomes the first one: that of the first transaction that is not for a negative one. */
  function FirstNonNegative(txs: seq<Transaction>): int {
    if |txs| == 0 then -1 else if txs[0].section >= 0 then txs[0].section else FirstNonNegative(txs[1..])
  }

  lemma {:induction false} FirstNonNegativeOfMore(txs: seq<Transaction>, tx: Transaction)
    ensures FirstNonNegative(txs + [tx]) ==
      if FirstNonNegative(txs) != -1 then FirstNonNegative(txs) else if tx.section >= 0 then tx.section else -1
  {
    if |txs| > 0 {
      assert (txs + [tx])[1..] == txs[1..] + [tx];
      FirstNonNegativeOfMore(txs[1..], tx);
    } else {
      assert [] + [tx] == [tx];
    }
  }

  /**
   The bounds after any sequence of saves: the current section is the greatest ever named, and the first saved
   section stays what it was or, on an empty chain, is that of the first save for a section from 0 on.
  */
  lemma {:induction false} AddedBounds(c: Contents, txs: seq<Transaction>)
    ensures
      var d := AddAll(c, txs);
      && c.current <= d.current && (forall tx | tx in txs :: tx.section <= d.current)
      && (d.current == c.current || exists tx :: tx in txs && tx.section == d.current)
      && d.firstSaved == if c.firstSaved != -1 then c.firstSaved else FirstNonNegative(txs)
  {
    hide Insert, Less;
    if |txs| > 0 {
      var before, last := txs[..|txs| - 1], txs[|txs| - 1];
      AddedBounds(c, before);
      FirstNonNegativeOfMore(before, last);
      assert txs == before + [last];
      assert last in txs;
      assert forall tx :: tx in txs <==> tx in before || tx == last;
    }
  }

  /** And what each section holds: what it held, and what was added for it. */
  lemma {:induction false} AddedContents(c: Contents, txs: seq<Transaction>, s: int)
    requires Increasing(At(c, s), Less)
    ensures
      var d := AddAll(c, txs);
      Increasing(At(d, s), Less) && forall tx :: tx in At(d, s) <==> tx in At(c, s) || (tx in txs && tx.section == s)
  {
    LessIsStrictTotalOrder();
    hide Less;
    if |txs| > 0 {
      var before, last := txs[..|txs| - 1], txs[|txs| - 1];
      AddedContents(c, before, s);
      assert txs == before + [last];
      assert forall tx :: tx in txs <==> tx in before || tx == last;
      InsertAddsOne(At(AddAll(c, before), s), last, Less);
    }
  }

  // Saving a batch, section by section.

  /** All transactions of a run of one section, inserted at once. */
  function AddRun(c: Contents, s: int, txs: seq<Transaction>): Contents {
    Raised(c, s).(transactions := c.transactions[s := InsertAll(At(c, s), txs, Less)])
  }

  lemma InsertAllKeepsSome(s: seq<Transaction>, xs: seq<Transaction>)
    requires |xs| > 0
    ensures |InsertAll(s, xs, Less)| > 0
  {
    hide Insert, Less;
    InsertKeepsSome(InsertAll(s, xs[..|xs| - 1], Less), xs[|xs| - 1], Less);
  }

  /**
   Saving the transactions of a run of one section: the current section is raised, the cache follows - only a
   section that was not stored yet makes it generate controls - and the section is written, without its
   control if it has changed.
  */
  ghost function SavedRun(h: Hasher, n: Node, s: int, run: seq<Transaction>): Node {
    var txs := InsertAll(TransactionsAt(n.sections, s), run, Less);
    var raised := RaiseCurrent(n, s);
    var g := NoteFirst(if s in n.sections then CacheMoved(raised) else UpdateCache(h, raised), s);
    var changed := |txs| != |TransactionsAt(n.sections, s)|;
    g.(sections := g.sections[s := Section(txs, if changed then None else ControlAt(n.sections, s))])
  }

  function CacheMoved(n: Node): Node {
    if CacheTarget(n).Some? then n.(cached := CacheTarget(n).value) else n
  }

  /** How many transactions from `first` on are for the section of that one. */
  function RunLength(txs: seq<Transaction>, first: nat): (k: nat)
    requires first < |txs|
    ensures 0 < k <= |txs| - first
    decreases |txs| - first
  {
    if first + 1 < |txs| && txs[first + 1].section == txs[first].section then 1 + RunLength(txs, first + 1) else 1
  }

  /** The runs of a batch from `first` on, one after the other. */
  ghost function SavedBatch(h: Hasher, n: Node, txs: seq<Transaction>, first: nat): Node
    requires first <= |txs|
    decreases |txs| - first
  {
    if first == |txs| then n
    else
      var last := first + RunLength(txs, first);
      SavedBatch(h, SavedRun(h, n, txs[first].section, txs[first..last]), txs, last)
  }

  lemma {:induction false} RunLengthIs(txs: seq<Transaction>, first: nat, last: nat)
    requires first < last <= |txs| && forall k | first <= k < last :: txs[k].section == txs[first].section
    requires last < |txs| ==> txs[last].section != txs[first].section
    ensures RunLength(txs, first) == last - first
    decreases last - first
  {
    if first + 1 < last {
      RunLengthIs(txs, first + 1, last);
    }
  }

  lemma {:induction false} RunHasOneSection(txs: seq<Transaction>, first: nat)
    requires first < |txs|
    ensures forall k | first <= k < first + RunLength(txs, first) :: txs[k].section == txs[first].section
    decreases |txs| - first
  {
    if first + 1 < |txs| && txs[first + 1].section == txs[first].section {
      RunHasOneSection(txs, first + 1);
    }
  }

  lemma SavedRunAdds(h: Hasher, n: Node, s: int, run: seq<Transaction>)
    requires |run| > 0 && StoredBelow(n)
    ensures ContentsOf(SavedRun(h, n, s, run)) == AddRun(ContentsOf(n), s, run)
    ensures StoredBelow(SavedRun(h, n, s, run))
  {
    hide Less, UpdateCache, GenerateFrom, ContentsOf, InsertAll, CacheTarget, AddRun;
    var raised := RaiseCurrent(n, s);
    ContentsBounds(n);
    CacheUpdateKeepsContents(h, raised);
    CacheMoveKeepsContents(raised);
    var g := if s in n.sections then CacheMoved(raised) else UpdateCache(h, raised);
    RaisedContents(n, s);
    ContentsBounds(raised);
    ContentsBounds(g);
    RunWritten(n, g, s, run);
  }

  lemma CacheMoveKeepsContents(n: Node)
    ensures ContentsOf(CacheMoved(n)) == ContentsOf(n) && CacheMoved(n).sections == n.sections
    ensures CacheMoved(n).current == n.current && CacheMoved(n).firstSaved == n.firstSaved
  {
    hide CacheTarget;
  }

  lemma RaisedContents(n: Node, s: int)
    ensures RaiseCurrent(n, s).sections == n.sections
    ensures ContentsOf(RaiseCurrent(n, s)).transactions == ContentsOf(n).transactions
  {
  }

  lemma RunWritten(n: Node, g: Node, s: int, run: seq<Transaction>)
    requires |run| > 0 && ContentsOf(g) == ContentsOf(RaiseCurrent(n, s))
    requires forall i :: TransactionsAt(g.sections, i) == TransactionsAt(n.sections, i)
    ensures forall control ::
      var section := Section(InsertAll(TransactionsAt(n.sections, s), run, Less), control);
      var m := NoteFirst(g, s);
      ContentsOf(m.(sections := m.sections[s := section])) == AddRun(ContentsOf(n), s, run)
  {
    hide Less, InsertAll;
    RaisedTwice(n, RaiseCurrent(n, s), g, s);
    forall control
      ensures
        var section := Section(InsertAll(TransactionsAt(n.sections, s), run, Less), control);
        var m := NoteFirst(g, s);
        ContentsOf(m.(sections := m.sections[s := section])) == AddRun(ContentsOf(n), s, run)
    {
      StoredRun(g, s, run, control);
    }
  }

  /** On contents, a batch adds all its transactions. */
  lemma {:induction false} SavedBatchAdds(h: Hasher, n: Node, txs: seq<Transaction>, first: nat)
    requires first <= |txs| && StoredBelow(n)
    ensures ContentsOf(SavedBatch(h, n, txs, first)) == AddAll(ContentsOf(n), txs[first..])
    ensures StoredBelow(SavedBatch(h, n, txs, first))
    decreases |txs| - first
  {
    hide Less, ContentsOf, AddRun, AddOne, SavedRun;
    if first < |txs| {
      var last := first + RunLength(txs, first);
      var run, m := txs[first..last], SavedRun(h, n, txs[first].section, txs[first..last]);
      RunHasOneSection(txs, first);
      SavedRunAdds(h, n, txs[first].section, run);
      RunIsOneByOne(ContentsOf(n), txs[first].section, run);
      AddAllSplits(ContentsOf(n), run, txs[last..]);
      assert run + txs[last..] == txs[first..];
      SavedBatchAdds(h, m, txs, last);
    }
  }

  lemma SavedBatchEnds(h: Hasher, txs: seq<Transaction>)
    ensures forall n :: SavedBatch(h, n, txs, |txs|) == n
  {
  }

  lemma RunOf(txs: seq<Transaction>, first: nat, last: nat)
    requires first < last <= |txs| && forall k | first <= k < last :: txs[k].section == txs[first].section
    ensures |txs[first..last]| > 0 && forall tx | tx in txs[first..last] :: tx.section == txs[first].section
  {
  }

  lemma SavedBatchNext(h: Hasher, n: Node, txs: seq<Transaction>, first: nat, last: nat)
    requires first < last <= |txs| && forall k | first <= k < last :: txs[k].section == txs[first].section
    requires last < |txs| ==> txs[last].section != txs[first].section
    ensures SavedBatch(h, n, txs, first)
      == SavedBatch(h, SavedRun(h, n, txs[first].section, txs[first..last]), txs, last)
  {
    hide SavedRun;
    RunLengthIs(txs, first, last);
  }

  /** Writing a section with a run inserted, under raised bounds. */
  lemma StoredRun(n: Node, s: int, run: seq<Transaction>, control: Option<Digest>)
    requires |run| > 0
    ensures
      var section := Section(InsertAll(TransactionsAt(n.sections, s), run, Less), control);
      var m := NoteFirst(RaiseCurrent(n, s), s);
      ContentsOf(m.(sections := m.sections[s := section])) == AddRun(ContentsOf(n), s, run)
  {
    hide InsertAll, Less, ContentsOf, TransactionsAt;
    InsertAllKeepsSome(TransactionsAt(n.sections, s), run);
    ContentsAt(n, s);
    StoredContents(n, s, InsertAll(TransactionsAt(n.sections, s), run, Less), control);
  }

  /** Raising the bounds a second time changes nothing. */
  lemma RaisedTwice(n: Node, m: Node, g: Node, s: int)
    requires m == RaiseCurrent(n, s) && ContentsOf(g) == ContentsOf(m)
    requires forall i :: TransactionsAt(g.sections, i) == TransactionsAt(n.sections, i)
    ensures forall run :: AddRun(ContentsOf(g), s, run) == AddRun(ContentsOf(n), s, run)
    ensures RaiseCurrent(g, s) == g
  {
    ContentsAt(n, s);
    ContentsAt(g, s);
    ContentsBounds(n);
    ContentsBounds(g);
  }

  /** The least section other than -1; -1 if there is no other. */
  ghost predicate IsLeastMarked(txs: seq<Transaction>, low: int) {
    && (forall tx | tx in txs :: tx.section == -1 || (low != -1 && low <= tx.section))
    && (low != -1 ==> exists tx :: tx in txs && tx.section == low)
  }

  /** What the two bounds of a batch are after its first transactions; -1 marks that there is none yet. */
  ghost predicate BoundsSoFar(txs: seq<Transaction>, first: nat, low: int, high: int)
    requires first <= |txs|
  {
    IsLeastMarked(txs[..first], low) && (first > 0 ==> high == txs[first - 1].section)
  }

  lemma BoundsStart(txs: seq<Transaction>, high: int)
    ensures BoundsSoFar(txs, 0, -1, high)
  {
  }

  lemma BoundsEnd(txs: seq<Transaction>, low: int, high: int)
    requires |txs| > 0 && BoundsSoFar(txs, |txs|, low, high) && Increasing(txs, Less)
    ensures high == txs[|txs| - 1].section && IsLeastMarked(txs, low)
    ensures low == txs[0].section <==> txs[0].section != -1 || txs[|txs| - 1].section == -1
  {
    SectionsAscend(txs);
    hide Less;
    assert txs[..|txs|] == txs;
    assert txs[0] in txs && txs[|txs| - 1] in txs;
  }

  lemma LeastMoves(txs: seq<Transaction>, run: seq<Transaction>, low: int, s: int)
    requires IsLeastMarked(txs, low) && |run| > 0
    requires forall tx | tx in txs :: tx.section < s
    requires forall tx | tx in run :: tx.section == s
    ensures IsLeastMarked(txs + run, if low == -1 || s < low then s else low)
  {
    assert run[0] in run;
    assert forall tx :: tx in txs + run <==> tx in txs || tx in run;
    if low != -1 {
      var tx :| tx in txs && tx.section == low;
      assert tx in txs + run;
    }
  }

  lemma BoundsMove(txs: seq<Transaction>, first: nat, last: nat, low: int, high: int)
    requires Increasing(txs, Less)
    requires first < last <= |txs| && BoundsSoFar(txs, first, low, high)
    requires forall k | first <= k < last :: txs[k].section == txs[first].section
    requires first > 0 ==> txs[first - 1].section != txs[first].section
    ensures
      var s := txs[first].section;
      BoundsSoFar(txs, last, if low == -1 || s < low then s else low, if low == -1 || s > high then s else high)
  {
    EarlierSections(txs, first);
    hide Less, IsLeastMarked, Increasing;
    LeastMoves(txs[..first], txs[first..last], low, txs[first].section);
    assert txs[..first] + txs[first..last] == txs[..last];
  }

  lemma EarlierSections(txs: seq<Transaction>, first: nat)
    requires Increasing(txs, Less) && first < |txs|
    requires first > 0 ==> txs[first - 1].section != txs[first].section
    ensures forall tx | tx in txs[..first] :: tx.section < txs[first].section
  {
    SectionsAscend(txs);
    hide Less, Increasing;
    assert first > 0 ==> txs[first - 1].section <= txs[first].section;
    forall tx | tx in txs[..first]
      ensures tx.section < txs[first].section
    {
      var k :| 0 <= k < first && txs[k] == tx;
      assert txs[k].section <= txs[first - 1].section;
    }
  }

  /** Adding a run of one section one by one is inserting it at once. */
  lemma {:induction false} RunIsOneByOne(c: Contents, s: int, txs: seq<Transaction>)
    requires |txs| > 0 && forall tx | tx in txs :: tx.section == s
    ensures AddAll(c, txs) == AddRun(c, s, txs)
  {
    hide Less, Insert;
    var n := |txs| - 1;
    var before := AddAll(c, txs[..n]);
    assert txs[n].section == s;
    if n > 0 {
      RunIsOneByOne(c, s, txs[..n]);
    } else {
      assert txs[..n] == [];
    }
    assert At(before, s) == InsertAll(At(c, s), txs[..n], Less);
    assert AddOne(before, txs[n]).transactions == AddRun(c, s, txs).transactions;
  }

  lemma {:induction false} AddAllSplits(c: Contents, xs: seq<Transaction>, ys: seq<Transaction>)
    ensures AddAll(c, xs + ys) == AddAll(AddAll(c, xs), ys)
  {
    hide AddOne;
    if |ys| == 0 {
      assert xs + ys == xs;
    } else {
      var n := |ys| - 1;
      AddAllSplits(c, xs, ys[..n]);
      assert (xs + ys)[..|xs + ys| - 1] == xs + ys[..n];
    }
  }

  /** In a set of transactions the section is what is ordered first. */
  lemma SectionsAscend(txs: seq<Transaction>)
    requires Increasing(txs, Less)
    ensures forall i, j | 0 <= i <= j < |txs| :: txs[i].section <= txs[j].section
  {
    forall i, j | 0 <= i < j < |txs|
      ensures txs[i].section <= txs[j].section
    {
      assert Less(txs[i], txs[j]);
    }
  }

  // The difference of two versions of a section.

  datatype SectionDiff = SectionDiff(added: seq<Transaction>, removed: seq<Transaction>)

  function Without<T(==)>(s: seq<T>, xs: seq<T>): seq<T> {
    if |s| == 0 then [] else (if s[0] in xs then [] else [s[0]]) + Without(s[1..], xs)
  }

  lemma {:induction false} WithoutRemoves<T(!new)>(s: seq<T>, xs: seq<T>, less: (T, T) -> bool)
    requires Increasing(s, less)
    ensures Increasing(Without(s, xs), less)
    ensures forall y :: y in Without(s, xs) <==> y in s && y !in xs
  {
    if |s| > 0 {
      assert s == [s[0]] + s[1..];
      WithoutRemoves(s[1..], xs, less);
      var rest := Without(s[1..], xs);
      if s[0] !in xs {
        forall i | 0 <= i < |rest|
          ensures less(s[0], rest[i])
        {
          assert rest[i] in s[1..];
          var j :| 0 <= j < |s[1..]| && s[1..][j] == rest[i];
          assert less(s[0], s[j + 1]);
        }
        ConsIncreasing(s[0], rest, less);
      }
    }
  }

  /** Exactly what only one of the two versions has, in order and once each. */
  ghost predicate IsDiff(old_: seq<Transaction>, new_: seq<Transaction>, diff: SectionDiff) {
    && Increasing(diff.added, Less) && Increasing(diff.removed, Less)
    && (forall tx :: tx in diff.added <==> tx in new_ && tx !in old_)
    && (forall tx :: tx in diff.removed <==> tx in old_ && tx !in new_)
  }

  /** The walk with i elements of the old and j of the new version behind it. */
  ghost predicate DiffSoFar<T(!new)>(
    xs: seq<T>, ys: seq<T>, less: (T, T) -> bool, i: nat, j: nat, added: seq<T>, removed: seq<T>)
    requires i <= |xs| && j <= |ys|
  {
    && Increasing(added, less) && Increasing(removed, less)
    && (forall x :: x in added <==> x in ys[..j] && x !in xs)
    && (forall x :: x in removed <==> x in xs[..i] && x !in ys)
    && (forall k, m | 0 <= k < i && j <= m < |ys| :: less(xs[k], ys[m]))
    && (forall k, m | 0 <= m < j && i <= k < |xs| :: less(ys[m], xs[k]))
  }

  /** The next element of the old version is smaller than all that is left of the new one: it was removed. */
  lemma DiffRemoves<T(!new)>(
    xs: seq<T>, ys: seq<T>, less: (T, T) -> bool, i: nat, j: nat, added: seq<T>, removed: seq<T>)
    requires StrictTotalOrder(less) && Increasing(xs, less) && Increasing(ys, less)
    requires i < |xs| && j <= |ys| && DiffSoFar(xs, ys, less, i, j, added, removed)
    requires j < |ys| ==> less(xs[i], ys[j])
    ensures DiffSoFar(xs, ys, less, i + 1, j, added, removed + [xs[i]])
  {
    var x := xs[i];
    forall m | j <= m < |ys|
      ensures less(x, ys[m])
    {
      assert m > j ==> less(ys[j], ys[m]);
    }
    assert x !in ys;
    assert xs[..i + 1] == xs[..i] + [x];
    forall y | y in removed
      ensures less(y, x)
    {
      var k :| 0 <= k < |xs[..i]| && xs[..i][k] == y;
      assert less(xs[k], xs[i]);
    }
    SnocIncreasing(removed, x, less);
  }

  /** The other way round it was added. */
  lemma DiffAdds<T(!new)>(xs: seq<T>, ys: seq<T>, less: (T, T) -> bool, i: nat, j: nat, added: seq<T>, removed: seq<T>)
    requires StrictTotalOrder(less) && Increasing(xs, less) && Increasing(ys, less)
    requires i <= |xs| && j < |ys| && DiffSoFar(xs, ys, less, i, j, added, removed)
    requires i < |xs| ==> less(ys[j], xs[i])
    ensures DiffSoFar(xs, ys, less, i, j + 1, added + [ys[j]], removed)
  {
    assert DiffSoFar(ys, xs, less, j, i, removed, added);
    DiffRemoves(ys, xs, less, j, i, removed, added);
  }

  lemma DiffSkips<T(!new)>(xs: seq<T>, ys: seq<T>, less: (T, T) -> bool, i: nat, j: nat, added: seq<T>, removed: seq<T>)
    requires StrictTotalOrder(less) && Increasing(xs, less) && Increasing(ys, less)
    requires i < |xs| && j < |ys| && DiffSoFar(xs, ys, less, i, j, added, removed)
    requires xs[i] == ys[j]
    ensures DiffSoFar(xs, ys, less, i + 1, j + 1, added, removed)
  {
    assert xs[..i + 1] == xs[..i] + [xs[i]] && ys[..j + 1] == ys[..j] + [ys[j]];
    assert forall m | j < m < |ys| :: less(ys[j], ys[m]);
    assert forall k | i < k < |xs| :: less(xs[i], xs[k]);
  }

  lemma SnocIncreasing<T(!new)>(s: seq<T>, x: T, less: (T, T) -> bool)
    requires Increasing(s, less) && forall y | y in s :: less(y, x)
    ensures Increasing(s + [x], less)
  {
    forall i, j | 0 <= i < j < |s + [x]|
      ensures less((s + [x])[i], (s + [x])[j])
    {
      assert (s + [x])[i] in s;
    }
  }

  /** Removing what was removed and inserting what was added leads from the old version to the new one. */
  lemma DiffLeadsToNew(old_: seq<Transaction>, new_: seq<Transaction>, diff: SectionDiff)
    requires Increasing(old_, Less) && Increasing(new_, Less)
    requires IsDiff(old_, new_, diff)
    ensures InsertAll(Without(old_, diff.removed), diff.added, Less) == new_
  {
    LessIsStrictTotalOrder();
    hide Less;
    WithoutRemoves(old_, diff.removed, Less);
    InsertAllAdds(Without(old_, diff.removed), diff.added, Less);
    SameElementsSameSequence(InsertAll(Without(old_, diff.removed), diff.added, Less), new_, Less);
  }
}
