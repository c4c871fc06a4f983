/**
 What a batch of transactions does to the stored controls.  A batch obeys no window: it may name any sections.
*/
module BatchControls {
  import opened Wrappers
  import opened Hashing
  import opened OrderedSets
  import opened Transactions
  import opened ControlChain
  import opened DagState
  import opened ReadyRuns
  import opened SectionStorage

  /** For one transaction and a section not stored yet, a batch does what a save does. */
  lemma RunOfOneIsSave(h: Hasher, n: Node, tx: Transaction)
    requires StoredBelow(n) && tx.section !in n.sections
    ensures SavedRun(h, n, tx.section, [tx]) == Save(h, n, tx)
  {
    var e := RaiseCurrent(n, tx.section);
    assert InsertAll([], [tx], Less) == Insert([], tx, Less) by {
      assert [tx][..0] == [];
    }
    UpdateKeepsBounds(h, e);
    hide Less, UpdateCache, InsertAll, Insert;
    assert Entered(n, tx) == e && TransactionsAt(n.sections, tx.section) == [];
  }

  lemma UpdateKeepsBounds(h: Hasher, n: Node)
    ensures UpdateCache(h, n).current == n.current && UpdateCache(h, n).firstSaved == n.firstSaved
  {
    hide GenerateFrom, CacheTarget;
    if CacheTarget(n).Some? {
      GenerateKeepsRest(h, n.(cached := CacheTarget(n).value), CacheStart(n), false);
    }
  }

  /** For a stored one it does not let the cache move generate, and a transaction that is there keeps its control. */
  lemma RunIntoStored(h: Hasher, n: Node, s: int, run: seq<Transaction>)
    requires s in n.sections && StoredBelow(n)
    ensures forall i | i != s :: ControlAt(SavedRun(h, n, s, run).sections, i) == ControlAt(n.sections, i)
    ensures CacheTarget(n).Some? ==> SavedRun(h, n, s, run).cached == CacheTarget(n).value
    ensures InsertAll(n.sections[s].transactions, run, Less) == n.sections[s].transactions ==>
      SavedRun(h, n, s, run).sections == n.sections
  {
    hide Less, InsertAll, CacheTarget;
  }

  /** The cache stands on a control section, or nowhere; and firstSaved is at least its initial -1. */
  predicate OnControlSection(n: Node) {
    (n.cached == -1 || (n.cached >= 0 && n.cached % CONTROL_INTERVAL == 0)) && n.firstSaved >= -1
  }

  /**
   A run for section s does not touch what a control covers: the section is at or above every stored control
   and, if it is a new one, also where the cache moves to, and that move crosses no gap.  (Negative sections
   are covered by no control.)
  */
  ghost predicate RunFits(n: Node, s: int) {
    && (s >= 0 ==> forall i | ControlAt(n.sections, i).Some? :: i <= s)
    && (s !in n.sections && CacheTarget(RaiseCurrent(n, s)).Some? ==>
          !Gap(n) && (s >= 0 ==> CacheTarget(RaiseCurrent(n, s)).value <= s))
  }

  /** Every run of the batch does, when its turn comes. */
  ghost predicate BatchFits(h: Hasher, n: Node, txs: seq<Transaction>, first: nat)
    requires first <= |txs|
    decreases |txs| - first
  {
    first == |txs|
    || (RunFits(n, txs[first].section)
        && var last := first + RunLength(txs, first);
           BatchFits(h, SavedRun(h, n, txs[first].section, txs[first..last]), txs, last))
  }

  /** Resumed from a right control, all controls stay right, and those written lie at or below 20k. */
  lemma ResumedAreRight(h: Hasher, st: Store, from: nat, k: int)
    requires ControlsCorrect(h, st)
    ensures
      var st' := ResumeUpTo(h, st, Control(h, st, from), from, k);
      && ControlsCorrect(h, st')
      && forall i | ControlAt(st', i).Some? :: ControlAt(st, i).Some? || i <= CONTROL_INTERVAL * k
  {
    hide Control;
    var st' := ResumeUpTo(h, st, Control(h, st, from), from, k);
    ResumedControls(h, st, from, k);
    ResumeKeepsTransactions(h, st, Control(h, st, from), from, k);
    forall i | ControlAt(st', i).Some?
      ensures i >= 0 && i % CONTROL_INTERVAL == 0 && ControlAt(st', i).value == Control(h, st', i / CONTROL_INTERVAL)
    {
      SameTransactionsSameControl(h, st, st', i / CONTROL_INTERVAL);
    }
  }

  /** Without a gap, the last control found below the next interval is that of the cached section. */
  lemma BaseIsCached(h: Hasher, n: Node, m: Node)
    requires ControlsCorrect(h, n.sections) && OnControlSection(n) && n.cached >= 0 && !Gap(n)
    requires m.sections == n.sections && LastControl(m, n.cached, false).Some?
    ensures LastControl(m, n.cached, false) == Some(n.cached)
  {
    hide Control;
    AlignedControls(h, n.sections);
    LastIsStored(m, n.cached, false);
    var b, c := LastControl(m, n.cached, false).value, n.cached;
    if b < c {
      forall j | b < j <= c
        ensures ControlAt(m.sections, j).None?
      {
        assert !Usable(m.sections, j);
      }
      AllUncontrolled(m.sections, b, c);
      MultiplesOf20(b, c);
      WithinOneInterval(b, c);
    }
  }

  lemma WithinOneInterval(b: int, c: int)
    requires b % CONTROL_INTERVAL == 0 && c % CONTROL_INTERVAL == 0
    ensures b < c <= b + MAX_WITHOUT_CONTROL ==> b == c - CONTROL_INTERVAL
  {
  }

  /** A cache move that crosses no gap keeps the controls right, and writes none above where it moves to. */
  lemma CacheMoveKeepsControls(h: Hasher, n: Node)
    requires ControlsCorrect(h, n.sections) && OnControlSection(n)
    requires CacheTarget(n).Some? ==> !Gap(n)
    ensures
      var g := UpdateCache(h, n);
      && ControlsCorrect(h, g.sections) && OnControlSection(g)
      && forall i | ControlAt(g.sections, i).Some? ::
           ControlAt(n.sections, i).Some? || (CacheTarget(n).Some? && i <= CacheTarget(n).value)
  {
    if CacheTarget(n).Some? {
      TargetOnGrid(n);
      var m := n.(cached := CacheTarget(n).value);
      GenerateKeepsRest(h, m, CacheStart(n), false);
      GenerationKeepsControls(h, n, m);
    }
  }

  lemma TargetOnGrid(n: Node)
    requires CacheTarget(n).Some?
    ensures
      var to := CacheTarget(n).value;
      0 <= to <= n.current - 15 && to % CONTROL_INTERVAL == 0 && n.cached < to
      && LastInterval(n.(cached := to)) == to / CONTROL_INTERVAL
  {
    var m := n.(cached := CacheTarget(n).value);
    LastIntervalIs(m, m.cached / CONTROL_INTERVAL);
    LastIntervalIs(m, m.cached / CONTROL_INTERVAL + 1);
  }

  lemma GenerationKeepsControls(h: Hasher, n: Node, m: Node)
    requires ControlsCorrect(h, n.sections) && OnControlSection(n) && !Gap(n)
    requires CacheTarget(n).Some? && m == n.(cached := CacheTarget(n).value)
    ensures
      var g := GenerateFrom(h, m, CacheStart(n), false);
      && ControlsCorrect(h, g.sections)
      && forall i | ControlAt(g.sections, i).Some? :: ControlAt(n.sections, i).Some? || i <= m.cached
  {
    hide Control, LastControl, CacheTarget, LastInterval;
    TargetOnGrid(n);
    var start, to := CacheStart(n), m.cached / CONTROL_INTERVAL;
    if start == 0 {
      WrittenControl(h, n.sections, 0, Control(h, n.sections, 0));
      WithControlKeepsTransactions(n.sections, 0, Control(h, n.sections, 0));
    } else if start < 0 {
      LoopOffGrid(h, m, start, "");
    } else if n.cached == -1 {
      NothingBelowFirst(m);
    } else if LastControl(m, n.cached, false).Some? {
      BaseIsCached(h, n, m);
      LastIsStored(m, n.cached, false);
      var from := n.cached / CONTROL_INTERVAL;
      BeginsAfterControl(from);
      RightControlAt(h, n.sections, from);
      ResumedAreRight(h, n.sections, from, to);
    }
  }

  /** One run that fits keeps the controls right. */
  lemma SavedRunKeepsControls(h: Hasher, n: Node, s: int, run: seq<Transaction>)
    requires ControlsCorrect(h, n.sections) && OnControlSection(n) && RunFits(n, s)
    ensures ControlsCorrect(h, SavedRun(h, n, s, run).sections) && OnControlSection(SavedRun(h, n, s, run))
  {
    hide Control, UpdateCache, CacheTarget, InsertAll, Less;
    var raised := RaiseCurrent(n, s);
    if s in n.sections {
      if CacheTarget(raised).Some? {
        TargetOnGrid(raised);
      }
      WrittenRunKeepsControls(h, n, CacheMoved(raised), s, run);
    } else {
      CacheMoveKeepsControls(h, raised);
      UpdatedKeepsTransactions(h, raised);
      WrittenRunKeepsControls(h, n, UpdateCache(h, raised), s, run);
    }
  }

  lemma UpdatedKeepsTransactions(h: Hasher, n: Node)
    ensures forall i :: TransactionsAt(UpdateCache(h, n).sections, i) == TransactionsAt(n.sections, i)
  {
    hide GenerateFrom;
    if CacheTarget(n).Some? {
      GenerationKeepsTransactions(h, n.(cached := CacheTarget(n).value), CacheStart(n), false);
    }
  }

  /** Writing a section at or above all controls, or below 0, keeps them right: a changed one loses its own. */
  lemma WrittenRunKeepsControls(h: Hasher, n: Node, g: Node, s: int, run: seq<Transaction>)
    requires ControlsCorrect(h, n.sections) && ControlsCorrect(h, g.sections)
    requires forall i :: TransactionsAt(g.sections, i) == TransactionsAt(n.sections, i)
    requires s >= 0 ==> forall i | ControlAt(g.sections, i).Some? :: i <= s
    ensures
      var txs := InsertAll(TransactionsAt(n.sections, s), run, Less);
      var changed := |txs| != |TransactionsAt(n.sections, s)|;
      ControlsCorrect(h, g.sections[s := Section(txs, if changed then None else ControlAt(n.sections, s))])
  {
    hide Control, InsertAll, Less;
    var txs := InsertAll(TransactionsAt(n.sections, s), run, Less);
    var changed := |txs| != |TransactionsAt(n.sections, s)|;
    if changed {
      SavedSectionKeepsControls(h, g.sections, s, txs);
    } else {
      InsertAllGrows(TransactionsAt(n.sections, s), run, Less);
      var st := g.sections[s := Section(txs, ControlAt(n.sections, s))];
      forall i | ControlAt(st, i).Some?
        ensures i >= 0 && i % CONTROL_INTERVAL == 0 && ControlAt(st, i).value == Control(h, st, i / CONTROL_INTERVAL)
      {
        assert ControlAt(st, i) == if i == s then ControlAt(n.sections, s) else ControlAt(g.sections, i);
        SameTransactionsSameControl(h, g.sections, st, i / CONTROL_INTERVAL);
        SameTransactionsSameControl(h, g.sections, n.sections, i / CONTROL_INTERVAL);
      }
    }
  }

  /**
   Below a stored control it does not.  A run for a section that is stored leaves all controls right, short of
   a collision, if and only if it adds no transaction there or no control lies above.
  */
  lemma RunBelowControlIsWrongIff(h: Hasher, n: Node, s: int, run: seq<Transaction>, k: nat, inputs: set<string>)
    requires ControlsCorrect(h, n.sections) && s in n.sections && 0 <= s
    requires forall i | ControlAt(n.sections, i).Some? :: i <= CONTROL_INTERVAL * k
    requires NoCollision(h, inputs) && Records(h, n.sections, k, inputs)
    requires Records(h, SavedRun(h, n, s, run).sections, k, inputs)
    ensures ControlsCorrect(h, SavedRun(h, n, s, run).sections) <==>
      |InsertAll(TransactionsAt(n.sections, s), run, Less)| == |TransactionsAt(n.sections, s)|
      || forall i | ControlAt(n.sections, i).Some? :: i <= s
  {
    hide Control, CacheTarget, InsertAll, Less, Records, NoCollision, UpdateCache;
    var m, txs := SavedRun(h, n, s, run), InsertAll(TransactionsAt(n.sections, s), run, Less);
    var moved := CacheMoved(RaiseCurrent(n, s));
    assert moved.sections == n.sections;
    if forall i | ControlAt(n.sections, i).Some? :: i <= s {
      WrittenRunKeepsControls(h, n, moved, s, run);
    } else if |txs| == |TransactionsAt(n.sections, s)| {
      InsertAllGrows(TransactionsAt(n.sections, s), run, Less);
      assert m.sections == n.sections;
    } else {
      var i :| ControlAt(n.sections, i).Some? && i > s;
      assert ControlAt(m.sections, i) == ControlAt(n.sections, i);
      assert HashList(m.sections, s) != HashList(n.sections, s);
      assert CONTROL_INTERVAL * (i / CONTROL_INTERVAL) == i;
      DifferentHashesDifferentControl(h, n.sections, m.sections, i / CONTROL_INTERVAL, k, s, inputs);
    }
  }

  lemma DifferentHashesDifferentControl(h: Hasher, a: Store, b: Store, j: nat, k: nat, s: int, inputs: set<string>)
    requires NoCollision(h, inputs) && Records(h, a, k, inputs) && Records(h, b, k, inputs)
    requires j <= k && 0 <= s <= CONTROL_INTERVAL * j && HashList(a, s) != HashList(b, s)
    ensures Control(h, a, j) != Control(h, b, j)
  {
    hide Control, Records, NoCollision;
    if Control(h, a, j) == Control(h, b, j) {
      EqualControlsCommit(h, a, b, j, k, inputs);
    }
  }

  /** A batch all of whose runs fit leaves only right controls. */
  lemma {:induction false} BatchKeepsControls(h: Hasher, n: Node, txs: seq<Transaction>, first: nat)
    requires first <= |txs| && ControlsCorrect(h, n.sections) && OnControlSection(n) && BatchFits(h, n, txs, first)
    ensures ControlsCorrect(h, SavedBatch(h, n, txs, first).sections)
    ensures OnControlSection(SavedBatch(h, n, txs, first))
    decreases |txs| - first
  {
    hide SavedRun, ControlsCorrect, RunFits;
    if first < |txs| {
      var last := first + RunLength(txs, first);
      SavedRunKeepsControls(h, n, txs[first].section, txs[first..last]);
      BatchKeepsControls(h, SavedRun(h, n, txs[first].section, txs[first..last]), txs, last);
    }
  }
}
