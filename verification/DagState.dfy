/**
 The state of a full node's chain and what its operations do to it: finding, writing and generating
 controls, advancing the balance cache, saving a transaction (sources/chain/dag.cpp,
 sources/chain/dag_cache.cpp).  The class in Dag.dfy is proved against these functions.
*/
module DagState {
  import opened Wrappers
  import opened Hashing
  import opened OrderedSets
  import opened Transactions
  import opened ControlChain

  const CACHE_LAG_SECTIONS := 15
  const MAX_SECTIONS_CHECKED := 1000
  const MAX_WITHOUT_CONTROL := 37

  datatype DagControl = DagControl(sectionId: int, control: Digest)

  /** `cached` is -1 while nothing is cached, `firstSaved` and `current` are -1 on an empty chain. */
  datatype Node = Node(sections: Store, current: int, firstSaved: int, cached: int)

  /** The remainder takes the sign of the dividend, as it does for the big integers of the source. */
  function AlignDown20(s: int): int {
    if s >= 0 then s - s % CONTROL_INTERVAL else s + (-s) % CONTROL_INTERVAL
  }

  /** Down to a multiple of 20, and up to one below 0. */
  lemma AlignDown20Is(s: int)
    ensures AlignDown20(s) % 20 == 0
    ensures s >= 0 ==> AlignDown20(s) <= s < AlignDown20(s) + 20
    ensures s < 0 ==> AlignDown20(s) - 20 < s <= AlignDown20(s) <= 0
  {
    var q := if s >= 0 then s / CONTROL_INTERVAL else -((-s) / CONTROL_INTERVAL);
    assert AlignDown20(s) == 20 * q;
  }

  // Looking for the last control.

  /** Sections without a control strictly above `low`, up to `high`. */
  ghost function Uncontrolled(st: Store, low: int, high: int): nat
    decreases high - low
  {
    if low >= high then 0
    else (if ControlAt(st, low + 1).None? then 1 else 0) + Uncontrolled(st, low + 1, high)
  }

  lemma {:induction false} UncontrolledGrows(st: Store, lower: int, low: int, high: int)
    requires lower <= low
    ensures Uncontrolled(st, low, high) <= Uncontrolled(st, lower, high)
    decreases low - lower
  {
    if lower < low {
      UncontrolledGrows(st, lower + 1, low, high);
    }
  }

  ghost predicate Usable(st: Store, i: int) {
    i % CONTROL_INTERVAL == 0 && ControlAt(st, i).Some?
  }

  /** The search with breaks switched off gives up at once when section 0 is there without a control. */
  ghost predicate Blocked(st: Store, disableBreak: bool) {
    disableBreak && 0 in st && st[0].control.None?
  }

  /** The downward search from `start` still looks at section i. */
  ghost predicate InReach(n: Node, start: int, disableBreak: bool, i: int) {
    && 0 <= i <= start
    && start - i < MAX_SECTIONS_CHECKED
    && n.firstSaved <= i
    && (disableBreak || Uncontrolled(n.sections, i, start) <= MAX_WITHOUT_CONTROL)
  }

  ghost predicate IsLastControl(n: Node, start: int, disableBreak: bool, i: int) {
    && !Blocked(n.sections, disableBreak)
    && InReach(n, start, disableBreak, i)
    && Usable(n.sections, i)
    && forall j | i < j <= start :: !Usable(n.sections, j)
  }

  ghost function LastControl(n: Node, start: int, disableBreak: bool): Option<int> {
    if i :| IsLastControl(n, start, disableBreak, i) then Some(i) else None
  }

  lemma LastControlIs(n: Node, start: int, disableBreak: bool, i: int)
    requires IsLastControl(n, start, disableBreak, i)
    ensures LastControl(n, start, disableBreak) == Some(i)
  {
    var j := LastControl(n, start, disableBreak).value;
    assert Usable(n.sections, i) && Usable(n.sections, j);
  }

  /** What is found is a control at a multiple of 20; one that stands elsewhere is passed over. */
  lemma LastControlIsHighest(n: Node, start: int, disableBreak: bool)
    requires LastControl(n, start, disableBreak).Some?
    ensures
      var i := LastControl(n, start, disableBreak).value;
      && 0 <= i <= start && i % 20 == 0 && ControlAt(n.sections, i).Some?
      && forall j | i < j <= start && ControlAt(n.sections, j).Some? :: j % 20 != 0
  {
    hide Uncontrolled;
    var i := LastControl(n, start, disableBreak).value;
    assert IsLastControl(n, start, disableBreak, i);
    forall j | i < j <= start && ControlAt(n.sections, j).Some?
      ensures j % 20 != 0
    {
      assert !Usable(n.sections, j);
    }
  }

  lemma NoLastControl(n: Node, start: int, disableBreak: bool)
    requires forall i :: !IsLastControl(n, start, disableBreak, i)
    ensures LastControl(n, start, disableBreak) == None
  {
  }

  // Writing and generating controls.

  function WithControl(st: Store, i: int, control: Digest): Store {
    st[i := Section(TransactionsAt(st, i), Some(control))]
  }

  /** The hash chained over intervals from+1 .. k, starting from `base` in place of the control at 20*from. */
  ghost function ChainFrom(h: Hasher, st: Store, base: string, from: nat, k: nat): Digest
    requires from < k
    decreases k
  {
    var before := if k == from + 1 then base else ChainFrom(h, st, base, from, k - 1);
    h.digest(before + IntervalHash(h, st, IntervalStart(k), CONTROL_INTERVAL * k))
  }

  ghost function ResumeUpTo(h: Hasher, st: Store, base: string, from: nat, k: int): Store
    decreases k
  {
    if k <= from then st
    else WithControl(ResumeUpTo(h, st, base, from, k - 1), CONTROL_INTERVAL * k, ChainFrom(h, st, base, from, k))
  }

  /** Generating controls changes no transactions, so the hashes read on the way are the original ones. */
  lemma {:induction false} ResumeKeepsTransactions(h: Hasher, st: Store, base: string, from: nat, k: int)
    ensures forall i :: TransactionsAt(ResumeUpTo(h, st, base, from, k), i) == TransactionsAt(st, i)
    decreases k
  {
    if k > from {
      ResumeKeepsTransactions(h, st, base, from, k - 1);
    }
  }

  /** Generating one more interval on top of what is generated already. */
  lemma ResumeStep(h: Hasher, st: Store, base: string, from: nat, k: nat, lastHash: string)
    requires k >= from
    requires lastHash == if k == from then base else ChainFrom(h, st, base, from, k)
    ensures
      var now := ResumeUpTo(h, st, base, from, k);
      var to := CONTROL_INTERVAL * k + 20;
      var control := h.digest(lastHash + IntervalHash(h, now, to - 19, to));
      control == ChainFrom(h, st, base, from, k + 1)
        && WithControl(now, to, control) == ResumeUpTo(h, st, base, from, k + 1)
  {
    hide IntervalHash, TransactionsAt;
    var now := ResumeUpTo(h, st, base, from, k);
    var to := CONTROL_INTERVAL * k + 20;
    ResumeKeepsTransactions(h, st, base, from, k);
    SameTransactionsSameInterval(h, st, now, to - 19, to);
  }

  /** The last interval that starts no later than the cached section and ends before the current one. */
  function LastInterval(n: Node): int {
    var byCache := (n.cached + 19) / CONTROL_INTERVAL;
    var byCurrent := (n.current - 1) / CONTROL_INTERVAL;
    if byCache < byCurrent then byCache else byCurrent
  }

  /** Interval k is generated exactly if its start is cached and the section after its end exists. */
  lemma LastIntervalIs(n: Node, k: int)
    ensures k <= LastInterval(n) <==> CONTROL_INTERVAL * k - 19 <= n.cached && CONTROL_INTERVAL * k + 1 <= n.current
  {
  }

  ghost function Resume(h: Hasher, n: Node, base: string, from: nat): Node {
    n.(sections := ResumeUpTo(h, n.sections, base, from, LastInterval(n)))
  }

  lemma ResumeReached(h: Hasher, n: Node, base: string, from: nat, k: int)
    requires k >= from && LastInterval(n) <= k
    requires k > from ==> LastInterval(n) == k
    ensures Resume(h, n, base, from) == n.(sections := ResumeUpTo(h, n.sections, base, from, k))
  {
  }

  /** A generation may start at 0 or right after a control section. */
  predicate IntervalBegins(start: int) {
    start == 0 || (start > 0 && start % CONTROL_INTERVAL == 1)
  }

  /** What the source accepts as the start of an interval; it checks no sign. */
  predicate OnGrid(start: int) {
    start == 0 || start % CONTROL_INTERVAL == 1
  }

  lemma BeginsAfterControl(k: nat)
    ensures IntervalBegins(CONTROL_INTERVAL * k + 1)
    ensures (CONTROL_INTERVAL * k + 1) / CONTROL_INTERVAL == k
    ensures IntervalStart(k + 1) == CONTROL_INTERVAL * k + 1
  {
  }

  /**
   The loop of `generate_hash_from_section`.  An interval that does not start on the grid is left out, as by
   the UI client; other builds stop the program there (see `Stops`).
  */
  ghost function Loop(h: Hasher, n: Node, start: int, lastHash: string): Node
    decreases n.current - start
  {
    if start + CONTROL_INTERVAL > n.current || start > n.cached then n
    else if !OnGrid(start) then Loop(h, n, start + CONTROL_INTERVAL, lastHash)
    else
      var end := if start == 0 then 0 else start + 19;
      var interval := IntervalHash(h, n.sections, start, end);
      var control := if start == 0 then interval else h.digest(lastHash + interval);
      Loop(h, n.(sections := WithControl(n.sections, end, control)), start + CONTROL_INTERVAL, control)
  }

  /** Right after a control section, the loop resumes the chain. */
  lemma {:induction false} LoopResumes(h: Hasher, n: Node, base: string, from: nat, k: int, lastHash: string)
    requires k >= from && (k > from ==> k <= LastInterval(n))
    requires lastHash == if k == from then base else ChainFrom(h, n.sections, base, from, k)
    ensures
      var now := n.(sections := ResumeUpTo(h, n.sections, base, from, k));
      Loop(h, now, CONTROL_INTERVAL * k + 1, lastHash) == Resume(h, n, base, from)
    decreases LastInterval(n) - k
  {
    hide IntervalHash, ChainFrom, ResumeUpTo, LastInterval;
    LastIntervalIs(n, k + 1);
    if k + 1 <= LastInterval(n) {
      ResumeStep(h, n.sections, base, from, k, lastHash);
      LoopResumes(h, n, base, from, k + 1, ChainFrom(h, n.sections, base, from, k + 1));
    } else {
      ResumeReached(h, n, base, from, k);
    }
  }

  /** Off the grid it writes nothing. */
  lemma {:induction false} LoopOffGrid(h: Hasher, n: Node, start: int, lastHash: string)
    requires start % CONTROL_INTERVAL != 1 && (start % CONTROL_INTERVAL == 0 ==> start > 0)
    ensures Loop(h, n, start, lastHash) == n
    decreases n.current - start
  {
    if start + CONTROL_INTERVAL <= n.current && start <= n.cached {
      LoopOffGrid(h, n, start + CONTROL_INTERVAL, lastHash);
    }
  }

  lemma FirstControlIs(h: Hasher, st: Store)
    ensures Control(h, st, 0) == IntervalHash(h, st, 0, 0)
  {
  }

  lemma LoopEnds(h: Hasher, n: Node, start: int, lastHash: string)
    ensures start + CONTROL_INTERVAL > n.current ==> Loop(h, n, start, lastHash) == n
  {
  }

  /** From wherever a generation goes on: right after a control, off the grid, or below 0. */
  lemma LoopFrom(h: Hasher, n: Node, start: int, lastHash: string)
    ensures start >= 0 && IntervalBegins(start) ==>
      Loop(h, n, if start == 0 then 1 else start, lastHash) == Resume(h, n, lastHash, start / CONTROL_INTERVAL)
    ensures start > 0 && !OnGrid(start) ==> Loop(h, n, start, lastHash) == n
  {
    hide Loop, Resume, LastInterval;
    if start >= 0 && IntervalBegins(start) {
      var from := start / CONTROL_INTERVAL;
      assert ResumeUpTo(h, n.sections, lastHash, from, from) == n.sections;
      hide ResumeUpTo;
      LoopResumes(h, n, lastHash, from, from, lastHash);
    } else if start > 0 {
      LoopOffGrid(h, n, start, lastHash);
    }
  }

  lemma {:induction false} LoopKeepsTransactions(h: Hasher, n: Node, start: int, lastHash: string)
    ensures
      var g := Loop(h, n, start, lastHash);
      && g.current == n.current && g.firstSaved == n.firstSaved && g.cached == n.cached
      && (forall i :: TransactionsAt(g.sections, i) == TransactionsAt(n.sections, i))
      && (forall i | i in g.sections :: i in n.sections || i <= n.current)
    decreases n.current - start
  {
    hide IntervalHash;
    if start + CONTROL_INTERVAL <= n.current && start <= n.cached {
      if !OnGrid(start) {
        LoopKeepsTransactions(h, n, start + CONTROL_INTERVAL, lastHash);
      } else {
        var end := if start == 0 then 0 else start + 19;
        var interval := IntervalHash(h, n.sections, start, end);
        var control := if start == 0 then interval else h.digest(lastHash + interval);
        LoopKeepsTransactions(
          h, n.(sections := WithControl(n.sections, end, control)), start + CONTROL_INTERVAL, control);
      }
    }
  }

  ghost function GenerateFrom(h: Hasher, n: Node, start: int, full: bool): Node {
    if start > 0 then
      var last := LastControl(n, start - 1, false);
      if last.None? || !OnGrid(start) then n
      else Resume(h, n, ControlAt(n.sections, last.value).value, start / CONTROL_INTERVAL)
    else if start < 0 then
      Loop(h, n, start, "")
    else if n.current < 0 then
      n
    else
      var first := Control(h, n.sections, 0);
      var n0 := n.(sections := WithControl(n.sections, 0, first));
      if full then Resume(h, n0, first, 0) else n0
  }

  /** Generating from `start` meets an interval off the grid, where all builds but the UI client's stop. */
  ghost predicate Stops(n: Node, start: int) {
    && start + CONTROL_INTERVAL <= n.current && start <= n.cached && !OnGrid(start)
    && (start > 0 ==> LastControl(n, start - 1, false).Some?)
  }

  /** `start_control`, on a full node. */
  ghost function StartControl(h: Hasher, n: Node, force: bool): Node {
    if LastControl(n, n.current, false).Some? && !force then n
    else
      var last := LastControl(n, n.current, true);
      if last.None? then GenerateFrom(h, n, 0, true)
      else if last.value + 1 > n.cached then n
      else GenerateFrom(h, n, last.value + 1, true)
  }

  // The balance cache follows the chain, 15 sections behind and in steps of 20.

  /** The section that the cache moves to, if it moves. */
  function CacheTarget(n: Node): Option<int> {
    if n.current < CACHE_LAG_SECTIONS then None
    else
      var safe := AlignDown20(n.current - CACHE_LAG_SECTIONS);
      if n.cached != -1 && safe <= n.cached then None
      else if n.cached > safe then None
      else if n.cached != -1 && safe - n.cached < CACHE_LAG_SECTIONS then None
      else Some(safe)
  }

  function CacheStart(n: Node): int {
    if n.cached != -1 then n.cached + 1 else n.firstSaved
  }

  /**
   When a cache move stops such a build: with nothing cached and no section saved yet.  Below a first saved
   section that is later than 0 no control is found, so nothing is generated there.
  */
  lemma CacheMoveStopsIff(n: Node)
    requires CacheTarget(n).Some?
    requires n.firstSaved >= -1 && n.cached >= -1 && (n.cached >= 0 ==> n.cached % CONTROL_INTERVAL == 0)
    ensures Stops(n.(cached := CacheTarget(n).value), CacheStart(n)) <==>
      n.cached == -1 && n.firstSaved == -1 && n.current >= 19
  {
    var m, start := n.(cached := CacheTarget(n).value), CacheStart(n);
    TargetBounds(n);
    NothingBelowFirst(m);
    NextIsOnGrid(n.cached);
    assert n.cached == -1 && n.firstSaved == -1 ==> !OnGrid(start);
    hide LastControl, OnGrid, CacheTarget;
  }

  lemma TargetBounds(n: Node)
    requires CacheTarget(n).Some?
    ensures 0 <= CacheTarget(n).value && 15 <= n.current
  {
  }

  lemma NextIsOnGrid(cached: int)
    ensures cached >= 0 && cached % CONTROL_INTERVAL == 0 ==> OnGrid(cached + 1)
    ensures OnGrid(0)
  {
  }

  /** The search never looks below the first saved section. */
  lemma NothingBelowFirst(n: Node)
    ensures n.firstSaved > 0 ==> LastControl(n, n.firstSaved - 1, false).None?
  {
    hide Uncontrolled, Usable;
  }

  ghost function UpdateCache(h: Hasher, n: Node): Node {
    var target := CacheTarget(n);
    if target.None? then n
    else GenerateFrom(h, n.(cached := target.value), CacheStart(n), false)
  }

  // Saving a transaction.

  function RaiseCurrent(n: Node, s: int): Node {
    if n.current < s then n.(current := s) else n
  }

  function NoteFirst(n: Node, s: int): Node {
    if n.firstSaved == -1 && s >= 0 then n.(firstSaved := s) else n
  }

  /** `current_section_` when the cache is looked at: only a new section raises it first. */
  function Entered(n: Node, tx: Transaction): Node {
    if tx.section in n.sections then n else RaiseCurrent(n, tx.section)
  }

  /** `save_transaction` and the raise of the current section after it in `network_transaction`. */
  ghost function Save(h: Hasher, n: Node, tx: Transaction): Node {
    var txs := Insert(TransactionsAt(n.sections, tx.section), tx, Less);
    var n1 := NoteFirst(UpdateCache(h, Entered(n, tx)), tx.section);
    RaiseCurrent(n1.(sections := n1.sections[tx.section := Section(txs, None)]), tx.section)
  }
}
