/**
 What holds of the stored controls over every run of a ready full node: transactions arrive up to 15
 sections around the current one, each save may move the cache and generate controls, and
 `start_control` may run at any time.
*/
module ReadyRuns {
  import opened Wrappers
  import opened Hashing
  import opened OrderedSets
  import opened Transactions
  import opened ControlChain
  import opened DagState

  /** `prove_transaction` refuses anything further away (`TooSectionDiff`). */
  predicate InWindow(n: Node, tx: Transaction) {
    -15 <= n.current - tx.section <= 15
  }

  /** The cache stands on a control section 15 or more behind, or at section 0, or nothing is cached. */
  predicate CacheStands(n: Node) {
    n.cached in {-1, 0} || (n.cached > 0 && n.cached % CONTROL_INTERVAL == 0 && n.cached <= n.current - 15)
  }

  ghost predicate Shape(n: Node) {
    && 0 <= n.current
    && n.firstSaved == 0
    && CacheStands(n)
    && forall i | i in n.sections :: i <= n.current
  }

  /** Each stored control sits at a multiple of 20 and is the one computed from section 0 on. */
  ghost predicate ControlsCorrect(h: Hasher, st: Store) {
    forall i | ControlAt(st, i).Some? ::
      i >= 0 && i % CONTROL_INTERVAL == 0 && ControlAt(st, i).value == Control(h, st, i / CONTROL_INTERVAL)
  }

  /** No control is missing below another. */
  ghost predicate Unbroken(st: Store) {
    forall i, j | 0 <= j <= i && j % CONTROL_INTERVAL == 0 && ControlAt(st, i).Some? :: ControlAt(st, j).Some?
  }

  /** Controls above 0 are out of reach of late transactions, but for the lowest section these may name. */
  ghost predicate Settled(n: Node) {
    forall i | ControlAt(n.sections, i).Some? && i > 0 :: i <= n.current - 15
  }

  ghost predicate Inv(h: Hasher, n: Node) {
    Shape(n) && ControlsCorrect(h, n.sections) && Unbroken(n.sections) && Settled(n)
  }

  /** Controls above 0 lag behind as the cache does. */
  ghost predicate WithinCache(n: Node) {
    forall i | ControlAt(n.sections, i).Some? && i > 0 :: i <= n.cached
  }

  /** Where the cache stands once it has followed the chain. */
  function CacheFor(current: int): int {
    if current < CACHE_LAG_SECTIONS then -1 else AlignDown20(current - CACHE_LAG_SECTIONS)
  }

  /** A late transaction dropped the control at the cached section, and the one before is still there. */
  ghost predicate Gap(n: Node) {
    && n.cached >= CONTROL_INTERVAL
    && ControlAt(n.sections, n.cached).None?
    && ControlAt(n.sections, n.cached - CONTROL_INTERVAL).Some?
  }

  /** Saving this transaction moves the cache. */
  predicate Advances(n: Node, tx: Transaction) {
    CacheTarget(Entered(n, tx)).Some?
  }

  /**
   Saving this transaction moves the cache across a gap.  (If the transaction is for the very section
   that is generated next, the save drops the wrong control again.)
  */
  ghost predicate Crosses(n: Node, tx: Transaction) {
    Gap(n) && Advances(n, tx) && tx.section != n.cached + CONTROL_INTERVAL
  }

  // How far the search for the last control looks.

  lemma {:induction false} AllUncontrolled(st: Store, low: int, high: int)
    requires forall j | low < j <= high :: ControlAt(st, j).None?
    ensures low <= high ==> Uncontrolled(st, low, high) == high - low
    decreases high - low
  {
    if low < high {
      AllUncontrolled(st, low + 1, high);
    }
  }

  /**
   While controls sit at multiples of 20 only, the search with breaks on finds the highest control at or
   below its start exactly when that is at most 37 sections away and not below the first saved section.
  */
  lemma FindsWithin37(n: Node, start: int, i: int)
    requires forall j | ControlAt(n.sections, j).Some? :: j % CONTROL_INTERVAL == 0
    requires 0 <= i <= start && ControlAt(n.sections, i).Some?
    requires forall j | i < j <= start :: ControlAt(n.sections, j).None?
    ensures LastControl(n, start, false)
      == (if start - i <= 37 && n.firstSaved <= i then Some(i) else None)
  {
    AllUncontrolled(n.sections, i, start);
    if start - i <= MAX_WITHOUT_CONTROL && n.firstSaved <= i {
      assert IsLastControl(n, start, false, i);
      LastControlIs(n, start, false, i);
    } else {
      assert Usable(n.sections, i);
    }
  }

  /** With breaks off it is 999 sections, provided section 0 is not there without its control. */
  lemma FindsWithin999(n: Node, start: int, i: int)
    requires forall j | ControlAt(n.sections, j).Some? :: j % CONTROL_INTERVAL == 0
    requires 0 <= i <= start && ControlAt(n.sections, i).Some?
    requires forall j | i < j <= start :: ControlAt(n.sections, j).None?
    ensures LastControl(n, start, true) ==
      (if start - i <= 999 && n.firstSaved <= i && !Blocked(n.sections, true) then Some(i) else None)
  {
    if start - i < MAX_SECTIONS_CHECKED && n.firstSaved <= i && !Blocked(n.sections, true) {
      assert IsLastControl(n, start, true, i);
      LastControlIs(n, start, true, i);
    } else {
      assert Usable(n.sections, i);
    }
  }

  /** With the cached section's control in place the default search finds exactly it, if the cache is near enough. */
  lemma CachedControlIsFound(h: Hasher, n: Node)
    requires Inv(h, n) && WithinCache(n) && n.cached >= 0 && ControlAt(n.sections, n.cached).Some?
    ensures LastControl(n, n.current, false)
      == if n.current - n.cached <= 37 then Some(n.cached) else None
    ensures n.cached == CacheFor(n.current) ==> n.current - n.cached <= 34
  {
    FindsWithin37(n, n.current, n.cached);
  }

  /** Resuming after the cached section looks at its control, at the one before, and no further. */
  lemma ResumeFinds(n: Node, c: int)
    requires forall j | ControlAt(n.sections, j).Some? :: j % CONTROL_INTERVAL == 0
    requires n.firstSaved == 0 && c >= 0 && c % CONTROL_INTERVAL == 0
    ensures LastControl(n, c, false) ==
      if ControlAt(n.sections, c).Some? then Some(c)
      else if c >= CONTROL_INTERVAL && ControlAt(n.sections, c - CONTROL_INTERVAL).Some? then Some(c - CONTROL_INTERVAL)
      else None
  {
    forall j | c - CONTROL_INTERVAL < j < c
      ensures ControlAt(n.sections, j).None?
    {
      assert j % CONTROL_INTERVAL == 0 || ControlAt(n.sections, j).None?;
    }
    if ControlAt(n.sections, c).Some? {
      FindsWithin37(n, c, c);
    } else if c >= CONTROL_INTERVAL && ControlAt(n.sections, c - CONTROL_INTERVAL).Some? {
      FindsWithin37(n, c, c - CONTROL_INTERVAL);
    } else if c >= CONTROL_INTERVAL {
      forall j | c - 40 < j <= c
        ensures ControlAt(n.sections, j).None?
      {
        assert j % CONTROL_INTERVAL == 0 || ControlAt(n.sections, j).None?;
      }
      AllUncontrolled(n.sections, c - 40, c);
      forall k
        ensures !IsLastControl(n, c, false, k)
      {
        if Usable(n.sections, k) && 0 <= k <= c {
          UncontrolledGrows(n.sections, k, c - 40, c);
        }
      }
    }
  }

  // One save, case by case.

  /** Where a save takes the cache: up to date, unless it already stood at 0 too early for that. */
  lemma CacheFollows(n: Node, tx: Transaction)
    requires Shape(n) && InWindow(n, tx)
    ensures
      var e := Entered(n, tx);
      && e.current == RaiseCurrent(n, tx.section).current && tx.section >= e.current - 15
      && (Advances(n, tx) <==> CacheFor(e.current) > n.cached)
      && (Advances(n, tx) ==> CacheTarget(e) == Some(CacheFor(e.current)))
      && (CacheFor(e.current) >= n.cached || (n.cached == 0 && e.current < 15))
      && (CacheFor(e.current) == -1 || 0 <= CacheFor(e.current) <= e.current - 15)
      && (n.cached >= 0 && Advances(n, tx) ==> CacheFor(e.current) >= n.cached + CONTROL_INTERVAL)
  {
    var e := Entered(n, tx);
    CacheForIs(e.current);
    CacheForRises(n, e.current);
    hide CacheFor, AlignDown20;
    TargetIs(e);
    hide CacheTarget;
  }

  lemma CacheForIs(current: int)
    requires 0 <= current
    ensures current < 15 ==> CacheFor(current) == -1
    ensures current >= 15 ==> 0 <= CacheFor(current) <= current - 15 < CacheFor(current) + CONTROL_INTERVAL
    ensures current >= 15 ==> CacheFor(current) % CONTROL_INTERVAL == 0
    ensures current >= 15 ==> CacheFor(current) == AlignDown20(current - CACHE_LAG_SECTIONS)
  {
  }

  lemma CacheForRises(n: Node, current: int)
    requires CacheStands(n) && 0 <= n.current <= current
    ensures CacheFor(current) >= n.cached || (n.cached == 0 && current < 15)
    ensures n.cached >= 0 && CacheFor(current) > n.cached ==> CacheFor(current) >= n.cached + CONTROL_INTERVAL
  {
    CacheForIs(current);
    hide CacheFor;
    MultiplesOf20(n.cached, CacheFor(current));
  }

  lemma MultiplesOf20(a: int, b: int)
    requires a % CONTROL_INTERVAL == 0 || a < 0
    requires b % CONTROL_INTERVAL == 0 || b < 0
    ensures 0 <= a < b ==> a + CONTROL_INTERVAL <= b
  {
  }

  lemma TargetIs(e: Node)
    requires 0 <= e.current && -1 <= e.cached
    requires e.current >= 15 ==> CacheFor(e.current) == AlignDown20(e.current - CACHE_LAG_SECTIONS)
    requires e.current < 15 ==> CacheFor(e.current) == -1
    requires e.current >= 15 ==> 0 <= CacheFor(e.current)
    requires e.cached >= 0 && CacheFor(e.current) > e.cached ==> CacheFor(e.current) >= e.cached + CONTROL_INTERVAL
    ensures CacheTarget(e) == if CacheFor(e.current) > e.cached then Some(CacheFor(e.current)) else None
  {
    hide CacheFor, AlignDown20;
  }

  /** The node whose controls are generated when the cache moves. */
  function Moved(n: Node, tx: Transaction): Node {
    var e := Entered(n, tx);
    e.(cached := CacheFor(e.current))
  }

  /** What the node is right before the section is written. */
  ghost function Prepared(h: Hasher, n: Node, tx: Transaction): Node
    requires Shape(n) && InWindow(n, tx)
  {
    CacheFollows(n, tx);
    if Advances(n, tx) then GenerateFrom(h, Moved(n, tx), CacheStart(n), false) else Entered(n, tx)
  }

  lemma SaveWrites(h: Hasher, n: Node, tx: Transaction)
    requires Shape(n) && InWindow(n, tx)
    ensures
      var g := Prepared(h, n, tx);
      && g.current == Entered(n, tx).current && g.firstSaved == 0
      && g.cached >= n.cached && (g.cached == CacheFor(g.current) || (g.cached == 0 && g.current < 15))
      && (g.cached == -1 || g.cached == 0 || (g.cached % CONTROL_INTERVAL == 0 && g.cached <= g.current - 15))
      && Save(h, n, tx) == g.(sections := g.sections[tx.section :=
           Section(Insert(TransactionsAt(n.sections, tx.section), tx, Less), None)])
  {
    hide Insert, Less, TransactionsAt, GenerateFrom;
    CacheFollows(n, tx);
    CacheForIs(Entered(n, tx).current);
    hide CacheTarget, CacheFor;
    if Advances(n, tx) {
      GenerateKeepsRest(h, Moved(n, tx), CacheStart(n), false);
    }
  }

  lemma GenerateKeepsRest(h: Hasher, n: Node, start: int, full: bool)
    ensures
      var n' := GenerateFrom(h, n, start, full);
      n'.current == n.current && n'.firstSaved == n.firstSaved && n'.cached == n.cached
  {
    if start < 0 {
      LoopKeepsTransactions(h, n, start, "");
    }
  }

  /** A save leaves every control alone that covers only sections before it; its own it drops. */
  lemma SavedSectionKeepsControls(h: Hasher, st: Store, s: int, txs: seq<Transaction>)
    requires ControlsCorrect(h, st)
    requires forall i | ControlAt(st, i).Some? :: i <= s || s < 0
    ensures ControlsCorrect(h, st[s := Section(txs, None)])
  {
    var st' := st[s := Section(txs, None)];
    forall i | ControlAt(st', i).Some?
      ensures i >= 0 && i % CONTROL_INTERVAL == 0 && ControlAt(st', i).value == Control(h, st', i / CONTROL_INTERVAL)
    {
      assert i != s && ControlAt(st, i) == ControlAt(st', i);
      SameTransactionsSameControl(h, st, st', i / CONTROL_INTERVAL);
    }
  }

  /** Writing a control makes the store correct there exactly if it is the right one. */
  lemma WrittenControl(h: Hasher, st: Store, k: nat, control: Digest)
    requires ControlsCorrect(h, st)
    ensures
      var st' := WithControl(st, CONTROL_INTERVAL * k, control);
      ControlsCorrect(h, st') <==> control == Control(h, st, k)
  {
    var at := CONTROL_INTERVAL * k;
    var st' := WithControl(st, at, control);
    assert at / CONTROL_INTERVAL == k && at % CONTROL_INTERVAL == 0;
    assert ControlAt(st', at) == Some(control);
    SameTransactionsSameControl(h, st, st', k);
    if control == Control(h, st, k) {
      forall i | ControlAt(st', i).Some?
        ensures i >= 0 && i % CONTROL_INTERVAL == 0 && ControlAt(st', i).value == Control(h, st', i / CONTROL_INTERVAL)
      {
        assert i == at || ControlAt(st', i) == ControlAt(st, i);
        SameTransactionsSameControl(h, st, st', i / CONTROL_INTERVAL);
      }
    }
  }

  /**
   What moving the cache writes: the first control, or all controls after the cached section up to where
   the cache moves to, chained to the last control that the search finds.
  */
  lemma AdvanceGenerates(h: Hasher, n: Node, tx: Transaction)
    requires Shape(n) && InWindow(n, tx) && Advances(n, tx)
    ensures
      var m := Moved(n, tx);
      var g := Prepared(h, n, tx);
      if n.cached == -1 then
        g == m.(sections := WithControl(n.sections, 0, Control(h, n.sections, 0)))
      else
        var from := n.cached / CONTROL_INTERVAL;
        var k := m.cached / CONTROL_INTERVAL;
        && n.cached == CONTROL_INTERVAL * from && m.cached == CONTROL_INTERVAL * k && from < k
        && match LastControl(m, n.cached, false)
           case None => g == m
           case Some(b) =>
             g == m.(sections := ResumeUpTo(h, n.sections, ControlAt(n.sections, b).value, from, k))
  {
    hide IntervalHash, Control;
    CacheFollows(n, tx);
    var m, c := Moved(n, tx), n.cached;
    if c != -1 {
      var from, k := c / CONTROL_INTERVAL, m.cached / CONTROL_INTERVAL;
      BeginsAfterControl(from);
      assert c == CONTROL_INTERVAL * from;
      LastIntervalIs(m, k);
      LastIntervalIs(m, k + 1);
      assert LastInterval(m) == k;
      var last := LastControl(m, c, false);
      if last.Some? {
        assert GenerateFrom(h, m, c + 1, false) == Resume(h, m, ControlAt(n.sections, last.value).value, from);
      }
    }
  }

  /** Controls that are right, and none missing among them, up to the end of what was generated. */
  lemma GeneratedControlsAreRight(h: Hasher, st: Store, from: nat, k: nat)
    requires ControlsCorrect(h, st) && Unbroken(st) && ControlAt(st, CONTROL_INTERVAL * from).Some? && from <= k
    ensures
      var st' := ResumeUpTo(h, st, Control(h, st, from), from, k);
      && ControlsCorrect(h, st') && Unbroken(st')
      && forall i :: ControlAt(st', i).Some? <==>
           (ControlAt(st, i).Some?
            || (CONTROL_INTERVAL * from < i <= CONTROL_INTERVAL * k && i % CONTROL_INTERVAL == 0))
  {
    hide Control;
    var st' := ResumeUpTo(h, st, Control(h, st, from), from, k);
    ResumedControls(h, st, from, k);
    ResumeKeepsTransactions(h, st, Control(h, st, from), from, k);
    forall i | ControlAt(st', i).Some?
      ensures i >= 0 && i % CONTROL_INTERVAL == 0 && ControlAt(st', i).value == Control(h, st', i / CONTROL_INTERVAL)
    {
      SameTransactionsSameControl(h, st, st', i / CONTROL_INTERVAL);
    }
    forall i, j | 0 <= j <= i && j % CONTROL_INTERVAL == 0 && ControlAt(st', i).Some?
      ensures ControlAt(st', j).Some?
    {
      assert j <= CONTROL_INTERVAL * from ==> ControlAt(st, j).Some?;
      assert j > CONTROL_INTERVAL * k ==> ControlAt(st, i).Some?;
    }
  }

  /** Moving the cache without a gap writes right controls, or none. */
  lemma AdvanceKeepsControls(h: Hasher, n: Node, tx: Transaction)
    requires Inv(h, n) && InWindow(n, tx) && Advances(n, tx) && !Gap(n)
    ensures
      var g := Prepared(h, n, tx);
      && ControlsCorrect(h, g.sections) && Unbroken(g.sections)
      && (forall i | ControlAt(g.sections, i).Some? && i > 0 :: i <= g.cached || ControlAt(n.sections, i).Some?)
      && (forall i | ControlAt(n.sections, i).Some? :: ControlAt(g.sections, i).Some?)
      && (n.cached >= 0 && ControlAt(n.sections, n.cached).Some? ==> ControlAt(g.sections, g.cached).Some?)
      && (n.cached == -1 ==> ControlAt(g.sections, 0).Some?)
      && (forall i | i in g.sections :: i <= g.current)
  {
    hide IntervalHash, Control, LastControl, ControlsCorrect, Unbroken;
    CacheFollows(n, tx);
    SaveWrites(h, n, tx);
    AdvanceGenerates(h, n, tx);
    var m, g := Moved(n, tx), Prepared(h, n, tx);
    if n.cached == -1 {
      WrittenControl(h, n.sections, 0, Control(h, n.sections, 0));
      FirstControlKeepsUnbroken(n.sections, Control(h, n.sections, 0));
    } else {
      var from, k := n.cached / CONTROL_INTERVAL, m.cached / CONTROL_INTERVAL;
      AlignedControls(h, n.sections);
      ResumeFinds(m, n.cached);
      if ControlAt(n.sections, n.cached).Some? {
        RightControlAt(h, n.sections, from);
        GeneratedControlsAreRight(h, n.sections, from, k);
        ResumedControls(h, n.sections, from, k);
      }
    }
  }

  lemma AlignedControls(h: Hasher, st: Store)
    requires ControlsCorrect(h, st)
    ensures forall j | ControlAt(st, j).Some? :: j % CONTROL_INTERVAL == 0
  {
    hide Control;
  }

  lemma RightControlAt(h: Hasher, st: Store, k: nat)
    requires ControlsCorrect(h, st) && ControlAt(st, CONTROL_INTERVAL * k).Some?
    ensures ControlAt(st, CONTROL_INTERVAL * k) == Some(Control(h, st, k))
  {
    hide Control;
    assert CONTROL_INTERVAL * k / CONTROL_INTERVAL == k;
  }

  lemma FirstControlKeepsUnbroken(st: Store, control: Digest)
    requires Unbroken(st)
    ensures Unbroken(WithControl(st, 0, control))
    ensures forall i :: ControlAt(WithControl(st, 0, control), i) == if i == 0 then Some(control) else ControlAt(st, i)
  {
    var st' := WithControl(st, 0, control);
    assert forall i :: ControlAt(st', i) == if i == 0 then Some(control) else ControlAt(st, i);
    forall i, j | 0 <= j <= i && j % CONTROL_INTERVAL == 0 && ControlAt(st', i).Some?
      ensures ControlAt(st', j).Some?
    {
      assert j == 0 || ControlAt(st, i).Some?;
    }
  }

  /** Dropping one control leaves none missing below another if there is none above. */
  lemma DroppingKeepsUnbroken(st: Store, s: int, txs: seq<Transaction>)
    requires Unbroken(st) && forall i | ControlAt(st, i).Some? :: i <= s || s < 0
    ensures Unbroken(st[s := Section(txs, None)])
    ensures forall i :: ControlAt(st[s := Section(txs, None)], i) == if i == s then None else ControlAt(st, i)
  {
    var st' := st[s := Section(txs, None)];
    assert forall i :: ControlAt(st', i) == if i == s then None else ControlAt(st, i);
    forall i, j | 0 <= j <= i && j % CONTROL_INTERVAL == 0 && ControlAt(st', i).Some?
      ensures ControlAt(st', j).Some?
    {
      assert i != s && ControlAt(st, i).Some? && ControlAt(st, j).Some?;
    }
  }

  /** A save that drops the one control it generated might as well not have generated it. */
  lemma GeneratedAndDropped(h: Hasher, n: Node, tx: Transaction)
    requires Inv(h, n) && InWindow(n, tx) && Advances(n, tx)
    requires n.cached >= 0 && tx.section == n.cached + CONTROL_INTERVAL
    ensures
      var txs := Insert(TransactionsAt(n.sections, tx.section), tx, Less);
      Save(h, n, tx).sections == n.sections[tx.section := Section(txs, None)]
  {
    hide Insert, Less, IntervalHash, Control, LastControl, TransactionsAt, ChainFrom;
    CacheFollows(n, tx);
    SaveWrites(h, n, tx);
    AdvanceGenerates(h, n, tx);
    var from := n.cached / CONTROL_INTERVAL;
    assert Moved(n, tx).cached == tx.section == CONTROL_INTERVAL * (from + 1);
    var last := LastControl(Moved(n, tx), n.cached, false);
    if last.Some? {
      LastIsStored(Moved(n, tx), n.cached, false);
      var base := ControlAt(n.sections, last.value).value;
      assert ResumeUpTo(h, n.sections, base, from, from) == n.sections;
      assert ResumeUpTo(h, n.sections, base, from, from + 1)
        == WithControl(n.sections, tx.section, ChainFrom(h, n.sections, base, from, from + 1));
    }
  }

  /** Every save keeps the stored controls right, unless it moves the cache across a gap. */
  lemma SaveKeepsControls(h: Hasher, n: Node, tx: Transaction)
    requires Inv(h, n) && InWindow(n, tx) && !Crosses(n, tx)
    ensures Inv(h, Save(h, n, tx))
    ensures WithinCache(n) ==> WithinCache(Save(h, n, tx))
    ensures var m := Save(h, n, tx); m.cached == CacheFor(m.current) || (m.cached == 0 && m.current < 15)
  {
    hide Control, Save, GenerateFrom, UpdateCache, LastControl, Prepared, Insert, Less, ControlsCorrect, Unbroken;
    hide CacheTarget, CacheFor;
    var s, g, m := tx.section, Prepared(h, n, tx), Save(h, n, tx);
    var txs := Insert(TransactionsAt(n.sections, s), tx, Less);
    CacheFollows(n, tx);
    SaveWrites(h, n, tx);
    var st := if Gap(n) && Advances(n, tx) then n.sections else g.sections;
    if Gap(n) && Advances(n, tx) {
      GeneratedAndDropped(h, n, tx);
    } else if Advances(n, tx) {
      AdvanceKeepsControls(h, n, tx);
    } else {
      PreparedWithoutAdvance(h, n, tx);
    }
    assert m.sections == st[s := Section(txs, None)];
    assert forall i | ControlAt(st, i).Some? && i > 0 :: i <= g.cached || ControlAt(n.sections, i).Some?;
    assert forall i | ControlAt(st, i).Some? :: i <= s || s < 0;
    SavedSectionKeepsControls(h, st, s, txs);
    DroppingKeepsUnbroken(st, s, txs);
    assert m.cached == g.cached && m.current == g.current;
    assert forall i :: ControlAt(m.sections, i) == if i == s then None else ControlAt(st, i);
    assert m.cached >= n.cached;
    assert m.cached == CacheFor(m.current) || (m.cached == 0 && m.current < 15);
    assert WithinCache(n) ==> WithinCache(m);
  }

  lemma PreparedWithoutAdvance(h: Hasher, n: Node, tx: Transaction)
    requires Shape(n) && InWindow(n, tx) && !Advances(n, tx)
    ensures Prepared(h, n, tx) == Entered(n, tx) && Entered(n, tx).sections == n.sections
  {
  }

  lemma ControlStep(h: Hasher, st: Store, k: nat)
    requires k > 0
    ensures Control(h, st, k) ==
      h.digest(Control(h, st, k - 1) + IntervalHash(h, st, CONTROL_INTERVAL * k - 19, CONTROL_INTERVAL * k))
  {
  }

  /** The hash of the interval after 20k, appended to the control before the one at 20k. */
  ghost function SkippingInput(h: Hasher, st: Store, k: nat): string
    requires k > 0
  {
    Control(h, st, k - 1) + IntervalHash(h, st, CONTROL_INTERVAL * k + 1, CONTROL_INTERVAL * k + 20)
  }

  /** Short of a collision a chain that skips an interval does not give the right control. */
  lemma SkippingIsWrong(h: Hasher, st: Store, k: nat, inputs: set<string>)
    requires k > 0 && NoCollision(h, inputs)
    requires Records(h, st, k + 1, inputs) && SkippingInput(h, st, k) in inputs
    ensures h.digest(SkippingInput(h, st, k)) != Control(h, st, k + 1)
  {
    hide IntervalHash, Control;
    var interval := IntervalHash(h, st, CONTROL_INTERVAL * k + 1, CONTROL_INTERVAL * k + 20);
    ControlStep(h, st, k + 1);
    assert Control(h, st, k) + interval == ControlInput(h, st, k + 1);
    if h.digest(SkippingInput(h, st, k)) == h.digest(Control(h, st, k) + interval) {
      SameInput(h, inputs, SkippingInput(h, st, k), Control(h, st, k) + interval);
      PairInjective(Control(h, st, k - 1), interval, Control(h, st, k), interval);
      ControlsDiffer(h, st, k - 1, k, k + 1, inputs);
    }
  }

  /** The first control that resuming writes stays as it was written, however far it goes on. */
  lemma {:induction false} FirstResumed(h: Hasher, st: Store, base: string, from: nat, k: int)
    requires k > from
    ensures ControlAt(ResumeUpTo(h, st, base, from, k), CONTROL_INTERVAL * (from + 1))
      == Some(h.digest(base + IntervalHash(h, st, CONTROL_INTERVAL * from + 1, CONTROL_INTERVAL * from + 20)))
    decreases k
  {
    hide IntervalHash;
    if k > from + 1 {
      FirstResumed(h, st, base, from, k - 1);
    }
  }

  /** `inputs` holds what resuming across the gap of this node hashes, and what it should have hashed. */
  ghost predicate RecordsResumption(h: Hasher, n: Node, inputs: set<string>)
    requires n.cached >= CONTROL_INTERVAL
  {
    var k := n.cached / CONTROL_INTERVAL;
    Records(h, n.sections, k + 1, inputs) && SkippingInput(h, n.sections, k) in inputs
  }

  /**
   Moving the cache across a gap stores, short of a collision, a wrong control: resuming after the
   cached section, the source takes the last control it finds as the one right before it.
  */
  lemma GapMisresumes(h: Hasher, n: Node, tx: Transaction, inputs: set<string>)
    requires Inv(h, n) && InWindow(n, tx) && Crosses(n, tx)
    requires NoCollision(h, inputs) && RecordsResumption(h, n, inputs)
    ensures
      var at := n.cached + CONTROL_INTERVAL;
      var st := Save(h, n, tx).sections;
      && ControlAt(st, at) == Some(h.digest(SkippingInput(h, n.sections, n.cached / CONTROL_INTERVAL)))
      && ControlAt(st, at).value != Control(h, st, at / CONTROL_INTERVAL)
      && at < tx.section
  {
    hide IntervalHash, Control, Save, Prepared, Insert, Less, Records, CacheTarget, CacheFor, TransactionsAt;
    var from, at := n.cached / CONTROL_INTERVAL, n.cached + CONTROL_INTERVAL;
    CacheFollows(n, tx);
    SaveWrites(h, n, tx);
    CrossedBase(h, n, tx);
    var base, k := Control(h, n.sections, from - 1), Moved(n, tx).cached / CONTROL_INTERVAL;
    FirstResumed(h, n.sections, base, from, k);
    ResumeKeepsTransactions(h, n.sections, base, from, k);
    SkippingIsWrong(h, n.sections, from, inputs);
    WrittenAbove(h, n, Prepared(h, n, tx), tx, at);
    SameTransactionsSameControl(h, n.sections, Save(h, n, tx).sections, from + 1);
  }

  /** Across a gap the generation takes the control before the cached one for its base. */
  lemma CrossedBase(h: Hasher, n: Node, tx: Transaction)
    requires Inv(h, n) && InWindow(n, tx) && Crosses(n, tx)
    ensures
      var from, k := n.cached / CONTROL_INTERVAL, Moved(n, tx).cached / CONTROL_INTERVAL;
      && 0 < from < k && n.cached == CONTROL_INTERVAL * from
      && Prepared(h, n, tx).sections == ResumeUpTo(h, n.sections, Control(h, n.sections, from - 1), from, k)
    ensures n.cached + CONTROL_INTERVAL < tx.section
  {
    hide IntervalHash, Control, Prepared, LastControl, CacheTarget, ResumeUpTo;
    CacheFollows(n, tx);
    AdvanceGenerates(h, n, tx);
    AlignedControls(h, n.sections);
    ResumeFinds(Moved(n, tx), n.cached);
    RightControlAt(h, n.sections, n.cached / CONTROL_INTERVAL - 1);
  }

  /** Below the section that is written, a save leaves what was prepared. */
  lemma WrittenAbove(h: Hasher, n: Node, g: Node, tx: Transaction, at: int)
    requires Shape(n) && InWindow(n, tx) && g == Prepared(h, n, tx) && at < tx.section
    ensures
      var st := Save(h, n, tx).sections;
      && ControlAt(st, at) == ControlAt(g.sections, at)
      && forall i | i < tx.section :: TransactionsAt(st, i) == TransactionsAt(g.sections, i)
  {
    hide Save, Prepared, Insert, Less, CacheTarget, CacheFor;
    SaveWrites(h, n, tx);
  }

  // Generating from a stored control and generating from section 0.

  lemma {:induction false} ChainIsControl(h: Hasher, st: Store, from: nat, k: nat)
    requires from < k
    ensures ChainFrom(h, st, Control(h, st, from), from, k) == Control(h, st, k)
    decreases k
  {
    hide IntervalHash, Control;
    ControlStep(h, st, k);
    if from + 1 < k {
      ChainIsControl(h, st, from, k - 1);
    }
  }

  /** Resumed from a right control, exactly the intervals up to k get theirs, and they are right. */
  lemma {:induction false} ResumedControls(h: Hasher, st: Store, from: nat, k: int)
    ensures
      var st' := ResumeUpTo(h, st, Control(h, st, from), from, k);
      forall i :: ControlAt(st', i) ==
        if CONTROL_INTERVAL * from < i <= CONTROL_INTERVAL * k && i % CONTROL_INTERVAL == 0
        then Some(Control(h, st, i / CONTROL_INTERVAL)) else ControlAt(st, i)
    ensures
      var st' := ResumeUpTo(h, st, Control(h, st, from), from, k);
      forall i | i in st' :: i in st || i <= CONTROL_INTERVAL * k
    decreases k
  {
    hide Control;
    if k > from {
      ResumedControls(h, st, from, k - 1);
      ChainIsControl(h, st, from, k);
      forall i | CONTROL_INTERVAL * (k - 1) < i <= CONTROL_INTERVAL * k && i % CONTROL_INTERVAL == 0
        ensures i == CONTROL_INTERVAL * k
      {
      }
    }
  }

  /** Starting at 0 over controls that are already right, up to 20*from, changes nothing. */
  lemma {:induction false} RewritingIsIdle(h: Hasher, st: Store, from: nat, k: int)
    requires ControlsCorrect(h, st)
    requires forall i | 0 <= i <= CONTROL_INTERVAL * from && i % CONTROL_INTERVAL == 0 :: ControlAt(st, i).Some?
    requires k <= from
    ensures ResumeUpTo(h, st, Control(h, st, 0), 0, k) == st
    decreases k
  {
    hide Control, WithControl;
    if k > 0 {
      RewritingIsIdle(h, st, from, k - 1);
      ChainIsControl(h, st, 0, k);
      assert ControlAt(st, CONTROL_INTERVAL * k).Some?;
      assert CONTROL_INTERVAL * k / CONTROL_INTERVAL == k;
      AlreadyWritten(st, CONTROL_INTERVAL * k, Control(h, st, k));
    }
  }

  lemma AlreadyWritten(st: Store, i: int, control: Digest)
    requires ControlAt(st, i) == Some(control)
    ensures WithControl(st, i, control) == st
  {
  }

  lemma {:induction false} SameResumption(h: Hasher, st: Store, from: nat, k: int)
    requires ControlsCorrect(h, st)
    requires forall i | 0 <= i <= CONTROL_INTERVAL * from && i % CONTROL_INTERVAL == 0 :: ControlAt(st, i).Some?
    ensures ResumeUpTo(h, st, Control(h, st, 0), 0, k) == ResumeUpTo(h, st, Control(h, st, from), from, k)
    decreases k
  {
    hide Control;
    if k <= from {
      RewritingIsIdle(h, st, from, k);
    } else {
      SameResumption(h, st, from, k - 1);
      ChainIsControl(h, st, 0, k);
      ChainIsControl(h, st, from, k);
    }
  }

  /** Right controls, none missing below another, within the chain; wherever the cache stands. */
  ghost predicate Chain(h: Hasher, n: Node) {
    && 0 <= n.current && n.firstSaved == 0
    && (forall i | i in n.sections :: i <= n.current)
    && ControlsCorrect(h, n.sections) && Unbroken(n.sections)
  }

  /**
   Incremental generation equals full regeneration: `start_control`, resuming after the last control it
   finds, leaves the node as a generation from section 0 would.
  */
  lemma IncrementalEqualsFull(h: Hasher, n: Node)
    requires Chain(h, n)
    ensures StartControl(h, n, true) == GenerateFrom(h, n, 0, true)
  {
    hide Control, LastControl;
    var last := LastControl(n, n.current, true);
    if last.Some? {
      LastIsStored(n, n.current, true);
      var i := last.value;
      var from := i / CONTROL_INTERVAL;
      assert i == CONTROL_INTERVAL * from;
      BeginsAfterControl(from);
      assert ControlAt(n.sections, 0) == Some(Control(h, n.sections, 0));
      assert WithControl(n.sections, 0, Control(h, n.sections, 0)) == n.sections;
      SameResumption(h, n.sections, from, LastInterval(n));
      LastIntervalIs(n, from + 1);
      if i + 1 > n.cached {
        RewritingIsIdle(h, n.sections, from, LastInterval(n));
      } else {
        FindsWithin37(n, i, i);
      }
    }
  }

  lemma LastIsStored(n: Node, start: int, disableBreak: bool)
    requires LastControl(n, start, disableBreak).Some?
    ensures IsLastControl(n, start, disableBreak, LastControl(n, start, disableBreak).value)
  {
  }

  /** The sections that a full generation gives a control: start cached, end not the last section. */
  predicate Generated(n: Node, i: int) {
    i == 0 || (i > 0 && i % CONTROL_INTERVAL == 0 && i - 19 <= n.cached && i + 1 <= n.current)
  }

  lemma FullGeneration(h: Hasher, n: Node)
    requires 0 <= n.current && forall i | i in n.sections :: i <= n.current
    ensures
      var g := GenerateFrom(h, n, 0, true);
      && (forall i :: TransactionsAt(g.sections, i) == TransactionsAt(n.sections, i))
      && (forall i | Generated(n, i) :: ControlAt(g.sections, i) == Some(Control(h, n.sections, i / CONTROL_INTERVAL)))
      && (forall i | !Generated(n, i) :: ControlAt(g.sections, i) == ControlAt(n.sections, i))
      && (forall i | i in g.sections :: i <= n.current)
  {
    hide Control, TransactionsAt, IntervalHash, ResumeUpTo, WithControl;
    var first := Control(h, n.sections, 0);
    var n0 := WithControl(n.sections, 0, first);
    var g := GenerateFrom(h, n, 0, true);
    WithControlKeepsTransactions(n.sections, 0, first);
    SameTransactionsSameControl(h, n0, n.sections, 0);
    assert g.sections == ResumeUpTo(h, n0, Control(h, n0, 0), 0, LastInterval(n));
    ResumeKeepsTransactions(h, n0, first, 0, LastInterval(n));
    ResumedControls(h, n0, 0, LastInterval(n));
    LastIntervalIs(n, LastInterval(n));
    forall i | Generated(n, i)
      ensures ControlAt(g.sections, i) == Some(Control(h, n.sections, i / CONTROL_INTERVAL))
    {
      GeneratedIs(n, i);
      SameTransactionsSameControl(h, n0, n.sections, i / CONTROL_INTERVAL);
    }
    forall i | !Generated(n, i)
      ensures ControlAt(g.sections, i) == ControlAt(n.sections, i)
    {
      GeneratedIs(n, i);
    }
    forall i | i in g.sections
      ensures i <= n.current
    {
      assert i in n0 || i <= CONTROL_INTERVAL * LastInterval(n);
      assert i in n0 ==> i in n.sections || i == 0;
    }
  }

  lemma GeneratedIs(n: Node, i: int)
    ensures Generated(n, i) <==> i == 0 || (0 < i <= CONTROL_INTERVAL * LastInterval(n) && i % CONTROL_INTERVAL == 0)
  {
    if i > 0 && i % CONTROL_INTERVAL == 0 {
      assert i == CONTROL_INTERVAL * (i / CONTROL_INTERVAL);
      LastIntervalIs(n, i / CONTROL_INTERVAL);
    }
  }

  lemma WithControlKeepsTransactions(st: Store, i: int, control: Digest)
    ensures forall j :: TransactionsAt(WithControl(st, i, control), j) == TransactionsAt(st, j)
    ensures forall j :: ControlAt(WithControl(st, i, control), j) == if j == i then Some(control) else ControlAt(st, j)
    ensures WithControl(st, i, control).Keys == st.Keys + {i}
  {
  }

  /** So `start_control` keeps the stored controls right; forced, it leaves no gap. */
  lemma StartControlKeepsControls(h: Hasher, n: Node, force: bool)
    requires Chain(h, n)
    ensures Chain(h, StartControl(h, n, force))
    ensures Inv(h, n) ==> Inv(h, StartControl(h, n, force))
    ensures WithinCache(n) && CacheStands(n) ==> WithinCache(StartControl(h, n, force))
    ensures force && Inv(h, n) ==> !Gap(StartControl(h, n, force))
  {
    hide Control, LastControl, GenerateFrom;
    IncrementalEqualsFull(h, n);
    var g := GenerateFrom(h, n, 0, true);
    GenerateKeepsRest(h, n, 0, true);
    FullGeneration(h, n);
    assert StartControl(h, n, force) == n || StartControl(h, n, force) == g;
    forall i | ControlAt(g.sections, i).Some?
      ensures i >= 0 && i % CONTROL_INTERVAL == 0
      ensures ControlAt(g.sections, i).value == Control(h, g.sections, i / CONTROL_INTERVAL)
      ensures i > 0 && CacheStands(n) ==> i <= n.cached || ControlAt(n.sections, i).Some?
    {
      SameTransactionsSameControl(h, n.sections, g.sections, i / CONTROL_INTERVAL);
    }
    forall i, j | 0 <= j <= i && j % CONTROL_INTERVAL == 0 && ControlAt(g.sections, i).Some?
      ensures ControlAt(g.sections, j).Some?
    {
      assert Generated(n, i) ==> Generated(n, j);
      assert !Generated(n, i) ==> ControlAt(n.sections, j).Some?;
    }
    assert Shape(n) && n.cached >= 0 ==> Generated(n, n.cached);
  }

  /**
   Unforced, a control check leaves the chain alone exactly if a control lies at most 37 sections back;
   otherwise, and with no control at all, it generates everything anew.
  */
  lemma UnforcedCheckGeneratesIff(h: Hasher, n: Node)
    requires Chain(h, n)
    ensures (exists i :: n.current - 37 <= i <= n.current && ControlAt(n.sections, i).Some?) ==>
      StartControl(h, n, false) == n
    ensures (forall i | n.current - 37 <= i <= n.current :: ControlAt(n.sections, i).None?) ==>
      StartControl(h, n, false) == GenerateFrom(h, n, 0, true)
  {
    hide Control, GenerateFrom, LastControl;
    IncrementalEqualsFull(h, n);
    AlignedControls(h, n.sections);
    if exists i :: n.current - 37 <= i <= n.current && ControlAt(n.sections, i).Some? {
      var i :| n.current - 37 <= i <= n.current && ControlAt(n.sections, i).Some?;
      var top := HighestControl(n.sections, i, n.current);
      assert top >= 0;
      FindsWithin37(n, n.current, top);
    } else {
      NoneWithin37(n);
    }
  }

  lemma {:induction false} HighestControl(st: Store, low: int, high: int) returns (i: int)
    requires low <= high && ControlAt(st, low).Some?
    ensures low <= i <= high && ControlAt(st, i).Some? && forall j | i < j <= high :: ControlAt(st, j).None?
    decreases high - low
  {
    if ControlAt(st, high).Some? {
      i := high;
    } else {
      i := HighestControl(st, low, high - 1);
    }
  }

  lemma NoneWithin37(n: Node)
    requires forall i | n.current - 37 <= i <= n.current :: ControlAt(n.sections, i).None?
    ensures LastControl(n, n.current, false) == None
  {
    AllUncontrolled(n.sections, n.current - 38, n.current);
    forall k
      ensures !IsLastControl(n, n.current, false, k)
    {
      if Usable(n.sections, k) && k <= n.current {
        UncontrolledGrows(n.sections, k, n.current - 38, n.current);
      }
    }
  }

  // Whole runs.

  datatype Event = Accepted(tx: Transaction) | ControlCheck(force: bool)

  ghost predicate Steps(h: Hasher, n: Node, e: Event, n': Node) {
    match e
    case Accepted(tx) => InWindow(n, tx) && n' == Save(h, n, tx)
    case ControlCheck(force) => n' == StartControl(h, n, force)
  }

  ghost predicate IsRun(h: Hasher, states: seq<Node>, events: seq<Event>) {
    && |states| == |events| + 1
    && forall i | 0 <= i < |events| :: Steps(h, states[i], events[i], states[i + 1])
  }

  ghost predicate Misresumes(n: Node, e: Event) {
    e.Accepted? && Crosses(n, e.tx)
  }

  /** And as long as controls stay within the cache at first, they do so throughout. */
  lemma {:induction false} RunKeepsControls(h: Hasher, states: seq<Node>, events: seq<Event>, i: nat)
    requires IsRun(h, states, events) && i < |states|
    requires Inv(h, states[0])
    requires forall j | 0 <= j < i :: !Misresumes(states[j], events[j])
    ensures Inv(h, states[i])
    ensures WithinCache(states[0]) ==> WithinCache(states[i])
  {
    hide Inv, Save, StartControl, Crosses, WithinCache;
    if i > 0 {
      RunKeepsControls(h, states, events, i - 1);
      assert Steps(h, states[i - 1], events[i - 1], states[i]);
      match events[i - 1]
      case Accepted(tx) =>
        assert !Misresumes(states[i - 1], events[i - 1]);
        SaveKeepsControls(h, states[i - 1], tx);
      case ControlCheck(force) =>
        InvIsChain(h, states[i - 1]);
        StartControlKeepsControls(h, states[i - 1], force);
    }
  }

  lemma InvIsChain(h: Hasher, n: Node)
    requires Inv(h, n)
    ensures Chain(h, n) && CacheStands(n)
  {
  }

  /**
   Over a whole run of a ready node, short of a collision, every stored control is the right one at
   every moment if and only if no save moved the cache while the control of the cached section was
   missing and the one before it was not.
  */
  lemma RunIsRightIffNoGapIsCrossed(h: Hasher, states: seq<Node>, events: seq<Event>, inputs: set<string>)
    requires IsRun(h, states, events)
    requires Inv(h, states[0])
    requires NoCollision(h, inputs)
    requires forall j | 0 <= j < |events| && Misresumes(states[j], events[j]) :: RecordsResumption(h, states[j], inputs)
    ensures (forall i | 0 <= i < |states| :: ControlsCorrect(h, states[i].sections))
      <==> (forall j | 0 <= j < |events| :: !Misresumes(states[j], events[j]))
  {
    if forall j | 0 <= j < |events| :: !Misresumes(states[j], events[j]) {
      forall i | 0 <= i < |states|
        ensures ControlsCorrect(h, states[i].sections)
      {
        RunKeepsControls(h, states, events, i);
      }
    } else {
      var j := FirstMisresumption(states, events);
      RunKeepsControls(h, states, events, j);
      assert Steps(h, states[j], events[j], states[j + 1]);
      GapMisresumes(h, states[j], events[j].tx, inputs);
    }
  }

  lemma {:induction false} FirstMisresumption(states: seq<Node>, events: seq<Event>) returns (j: nat)
    requires |states| == |events| + 1
    requires exists i | 0 <= i < |events| :: Misresumes(states[i], events[i])
    ensures j < |events| && Misresumes(states[j], events[j])
    ensures forall i | 0 <= i < j :: !Misresumes(states[i], events[i])
  {
    j := 0;
    while !Misresumes(states[j], events[j])
      invariant j < |events|
      invariant forall i | 0 <= i < j :: !Misresumes(states[i], events[i])
      decreases |events| - j
    {
      j := j + 1;
    }
  }

  /** A node that holds the genesis transaction and nothing else. */
  function GenesisNode(genesis: Transaction): Node {
    Node(map[0 := Section([genesis], None)], 0, 0, -1)
  }

  lemma RunsStartRight(h: Hasher, genesis: Transaction)
    requires genesis.section == 0
    ensures Save(h, Node(map[], -1, -1, -1), genesis) == GenesisNode(genesis)
    ensures Inv(h, GenesisNode(genesis))
  {
  }
}
