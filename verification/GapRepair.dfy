/**
 What a resynchronisation does to a node that moved its cache across a gap: one control is missing, and the
 one above it is wrong.
*/
module GapRepair {
  import opened Hashing
  import opened OrderedSets
  import opened Transactions
  import opened ControlChain
  import opened DagState
  import opened ReadyRuns
  import opened Resync
  import opened ResyncTheorems

  /**
   The node's controls are right below c, the one at c is missing, the next one is there and wrong, and none
   above c compares equal to the peer's, which are right up to `hi`; below c the two agree on transactions.
  */
  ghost predicate Interrupted(h: Hasher, n: Node, p: Node, hi: int, c: int) {
    && 0 < c <= hi && c % CONTROL_INTERVAL == 0 && hi % CONTROL_INTERVAL == 0
    && hi <= n.current && hi <= p.current && n.firstSaved == 0
    && (forall i | i in n.sections :: i <= n.current)
    && RightBelow(h, n.sections, c) && SameHashes(n.sections, p.sections, 0, c - CONTROL_INTERVAL)
    && ControlAt(n.sections, c).None? && IsWrong(h, n.sections, c + CONTROL_INTERVAL)
    && (forall i | c < i <= hi && i % CONTROL_INTERVAL == 0 :: Differs(n, p, i))
    && HasRightControls(h, p.sections, hi)
  }

  ghost predicate IsWrong(h: Hasher, st: Store, i: int)
    requires i >= 0
  {
    ControlAt(st, i).Some? && ControlAt(st, i).value != Control(h, st, i / CONTROL_INTERVAL)
  }

  lemma EqualBelow(h: Hasher, n: Node, p: Node, hi: int, c: int, i: int)
    requires Interrupted(h, n, p, hi, c)
    requires 0 <= i <= hi && i % CONTROL_INTERVAL == 0
    ensures Differs(n, p, i) <==> i >= c
    ensures ControlAt(p.sections, i).Some?
  {
    hide Control;
    if i < c {
      assert i <= c - CONTROL_INTERVAL;
      assert CONTROL_INTERVAL * (i / CONTROL_INTERVAL) == i;
      SameHashesSameControl(h, n.sections, p.sections, i / CONTROL_INTERVAL);
      assert ControlAt(n.sections, i).Some?;
    }
  }

  // The search.

  lemma {:induction false} ScanReaches(st: Store, cs: seq<DagControl>, i: nat, syncFrom: int, k: nat)
    requires i <= k <= |cs| && forall j | i <= j < k :: Matches(st, cs[j])
    ensures Scan(st, cs, i, syncFrom) == Scan(st, cs, k, syncFrom)
    decreases k - i
  {
    if i < k {
      assert Matches(st, cs[i]);
      ScanReaches(st, cs, i + 1, syncFrom, k);
    }
  }

  lemma {:induction false} ScanFromMissing(st: Store, cs: seq<DagControl>, i: nat, syncFrom: int, k: nat)
    requires 0 < i <= k <= |cs|
    requires forall j | i <= j < k :: Matches(st, cs[j]) || ControlAt(st, cs[j].sectionId).None?
    ensures
      var last := LastMissing(st, cs, i, k);
      Scan(st, cs, i, syncFrom) == Scan(st, cs, k, if last == -1 then syncFrom else cs[last].sectionId)
    decreases k - i
  {
    if i < k {
      if ControlAt(st, cs[i].sectionId).None? {
        ScanFromMissing(st, cs, i + 1, cs[i].sectionId, k);
      } else {
        assert Matches(st, cs[i]);
        ScanFromMissing(st, cs, i + 1, syncFrom, k);
      }
    }
  }

  /** The last index from i on, below k, whose control the node does not have; -1 if there is none. */
  function LastMissing(st: Store, cs: seq<DagControl>, i: nat, k: nat): (last: int)
    requires i <= k <= |cs|
    ensures last == -1 <==> forall j | i <= j < k :: ControlAt(st, cs[j].sectionId).Some?
    ensures last != -1 ==> i <= last < k && ControlAt(st, cs[last].sectionId).None?
    ensures forall j | i <= j < k && j > last :: ControlAt(st, cs[j].sectionId).Some?
    decreases k - i
  {
    if i == k then -1
    else if ControlAt(st, cs[k - 1].sectionId).None? then k - 1 else LastMissing(st, cs, i, k - 1)
  }

  /**
   What the comparison comes to, whatever is stored on either side.  If the very first control is missing or
   differs, it asks for lower ones.  Otherwise it reports the first control that is there and differs; failing
   that, the last one that is missing; failing that, nothing.  (k is that first one, or the number of controls.)
  */
  lemma ScanIs(st: Store, cs: seq<DagControl>, k: nat)
    requires k <= |cs|
    requires forall j | 0 <= j < k :: Matches(st, cs[j]) || ControlAt(st, cs[j].sectionId).None?
    requires k < |cs| ==> ControlAt(st, cs[k].sectionId).Some? && !Matches(st, cs[k])
    ensures
      var (found, forceNext) := Scan(st, cs, 0, -1);
      if |cs| > 0 && !Matches(st, cs[0]) then
        forceNext && found == if k == 0 then cs[0].sectionId else -1
      else
        && !forceNext
        && found ==
             if k < |cs| then cs[k].sectionId
             else if LastMissing(st, cs, 0, k) != -1 then cs[LastMissing(st, cs, 0, k)].sectionId
             else -1
  {
    if |cs| > 0 && Matches(st, cs[0]) {
      assert Scan(st, cs, 0, -1) == Scan(st, cs, 1, -1);
      ScanFromMissing(st, cs, 1, -1, k);
    }
  }

  /** The comparison of one window: equal throughout, not equal from the start on, or interrupted in between. */
  lemma ScanOfInterrupted(st: Store, cs: seq<DagControl>, k: int)
    requires forall j | 0 <= j < |cs| :: Matches(st, cs[j]) <==> j < k
    requires 0 < k < |cs| ==> ControlAt(st, cs[k].sectionId).None?
    requires 0 < k < |cs| - 1 ==> ControlAt(st, cs[k + 1].sectionId).Some?
    ensures
      var (found, forceNext) := Scan(st, cs, 0, -1);
      && (forceNext <==> k <= 0 && |cs| > 0)
      && (k >= |cs| ==> found == -1)
      && (0 < k < |cs| ==> found == if k == |cs| - 1 then cs[k].sectionId else cs[k + 1].sectionId)
  {
    if k >= |cs| {
      ScanReaches(st, cs, 0, -1, |cs|);
    } else if k > 0 {
      ScanReaches(st, cs, 0, -1, k);
      assert Scan(st, cs, k, -1) == Scan(st, cs, k + 1, cs[k].sectionId);
      assert k + 1 < |cs| ==> !Matches(st, cs[k + 1]);
    } else if |cs| > 0 {
      assert !Matches(st, cs[0]);
    }
  }

  lemma InterruptedFacts(h: Hasher, n: Node, p: Node, hi: int, c: int)
    requires Interrupted(h, n, p, hi, c)
    ensures 0 < c <= hi && c % CONTROL_INTERVAL == 0
    ensures ControlAt(n.sections, c).None? && ControlAt(n.sections, c + CONTROL_INTERVAL).Some?
  {
    hide RightBelow, SameHashes, HasRightControls, Differs;
  }

  /** The j-th control of a window compares equal exactly below c. */
  lemma IndexOfInterrupted(h: Hasher, n: Node, p: Node, hi: int, c: int, range: ControlRange, j: int, at: DagControl)
    requires Interrupted(h, n, p, hi, c) && 0 <= range.from && range.to <= hi
    requires IsControlAt(p.sections, range.from, range.to, j, at)
    ensures Matches(n.sections, at) <==> at.sectionId < c
  {
    EqualBelow(h, n, p, hi, c, at.sectionId);
    hide Interrupted;
  }

  lemma WindowIndices(h: Hasher, n: Node, p: Node, hi: int, c: int, range: ControlRange, k: int)
    requires Interrupted(h, n, p, hi, c) && 0 <= range.from && range.to <= hi && IsAligned(range)
    requires HoldsControls(p.sections, range.from, range.to) && c == range.from + CONTROL_INTERVAL * k
    ensures
      var cs := ControlsIn(p.sections, range.from, range.to);
      && |cs| == (range.to - range.from) / CONTROL_INTERVAL + 1
      && (forall j | 0 <= j < |cs| :: cs[j].sectionId == range.from + CONTROL_INTERVAL * j)
      && (forall j | 0 <= j < |cs| :: Matches(n.sections, cs[j]) <==> j < k)
  {
    var cs := ControlsIn(p.sections, range.from, range.to);
    ControlsInAt(p.sections, range.from, range.to);
    hide Interrupted, Matches, HoldsControls, ControlAt, ControlsIn;
    forall j | 0 <= j < |cs|
      ensures Matches(n.sections, cs[j]) <==> j < k
      ensures cs[j].sectionId == range.from + CONTROL_INTERVAL * j
    {
      IndexOfInterrupted(h, n, p, hi, c, range, j, cs[j]);
    }
  }

  lemma WindowOfInterrupted(h: Hasher, n: Node, p: Node, hi: int, c: int, range: ControlRange)
    requires Interrupted(h, n, p, hi, c)
    requires 0 <= range.from <= range.to <= hi
    requires range.from % CONTROL_INTERVAL == 0 && range.to % CONTROL_INTERVAL == 0
    requires HoldsControls(p.sections, range.from, range.to)
    ensures
      var (found, forceNext) := Scan(n.sections, ControlsIn(p.sections, range.from, range.to), 0, -1);
      && (forceNext <==> c <= range.from)
      && (c > range.to ==> found == -1)
      && (range.from < c <= range.to ==> found == if c == range.to then c else c + CONTROL_INTERVAL)
  {
    var cs, k := ControlsIn(p.sections, range.from, range.to), (c - range.from) / CONTROL_INTERVAL;
    InterruptedFacts(h, n, p, hi, c);
    WholeIntervals(range.from, c);
    WindowIndices(h, n, p, hi, c, range, k);
    LastIndex(range.from, range.to, c, k, |cs|);
    hide Interrupted, Matches, HoldsControls, ControlAt, ControlsIn, Scan;
    WindowScanned(n.sections, cs, range, c, k);
  }

  lemma WindowScanned(st: Store, cs: seq<DagControl>, range: ControlRange, c: int, k: int)
    requires forall j | 0 <= j < |cs| :: cs[j].sectionId == range.from + CONTROL_INTERVAL * j
    requires forall j | 0 <= j < |cs| :: Matches(st, cs[j]) <==> j < k
    requires c == range.from + CONTROL_INTERVAL * k && |cs| > 0
    requires ControlAt(st, c).None? && ControlAt(st, c + CONTROL_INTERVAL).Some?
    requires (k <= 0 <==> c <= range.from) && (k >= |cs| <==> c > range.to) && (k == |cs| - 1 <==> c == range.to)
    ensures
      var (found, forceNext) := Scan(st, cs, 0, -1);
      && (forceNext <==> c <= range.from)
      && (c > range.to ==> found == -1)
      && (range.from < c <= range.to ==> found == if c == range.to then c else c + CONTROL_INTERVAL)
  {
    hide Scan, Matches, ControlAt;
    assert 0 < k < |cs| ==> cs[k].sectionId == c;
    assert 0 < k < |cs| - 1 ==> cs[k + 1].sectionId == c + CONTROL_INTERVAL;
    ScanOfInterrupted(st, cs, k);
  }

  lemma WholeIntervals(from: int, c: int)
    requires from % CONTROL_INTERVAL == 0 && c % CONTROL_INTERVAL == 0
    ensures c == from + CONTROL_INTERVAL * ((c - from) / CONTROL_INTERVAL)
  {
  }

  lemma LastIndex(from: int, to: int, c: int, k: int, n: int)
    requires from <= to && from % CONTROL_INTERVAL == 0 && to % CONTROL_INTERVAL == 0
    requires c == from + CONTROL_INTERVAL * k && n == (to - from) / CONTROL_INTERVAL + 1
    ensures (k <= 0 <==> c <= from) && (k >= n <==> c > to) && (k == n - 1 <==> c == to)
  {
  }

  lemma OutcomeOfInterrupted(h: Hasher, n: Node, p: Node, hi: int, c: int, top: int)
    requires Interrupted(h, n, p, hi, c) && top <= hi && CanSearch(p, top)
    ensures OutcomeBelow(n, p, top) ==
      if c > top then AllEqual(n, p)
      else if c > top - WINDOW then Repair(if c == top then c else c + CONTROL_INTERVAL)
      else Ask(WindowBelow(Lower(top)))
  {
    WindowIsWellFormed(top);
    WindowOfInterrupted(h, n, p, hi, c, WindowBelow(top));
    assert 0 < c && c % CONTROL_INTERVAL == 0;
    hide Interrupted, Scan, ControlsIn, HoldsControls, WellFormedWindow;
  }

  /** Where the control at c lies in the windows counted down from `hi` decides what the search comes to. */
  function Reported(n: Node, p: Node, hi: int, c: int, top: int): Outcome {
    if c > top || FirstOfWindow(hi, c) then AllEqual(n, p)
    else Repair(if TopOfWindow(hi, c) then c else c + CONTROL_INTERVAL)
  }

  lemma RoundOfInterrupted(h: Hasher, n: Node, p: Node, hi: int, c: int, top: int)
    requires Interrupted(h, n, p, hi, c) && top <= hi && CanSearch(p, top) && TopOfWindow(hi, top)
    requires c <= top + CONTROL_INTERVAL
    ensures c <= top - WINDOW ==>
      CanSearch(p, Lower(top)) && SearchBelow(n, p, top) == SearchBelow(n, p, Lower(top))
    ensures top - WINDOW < c <= top ==> SearchBelow(n, p, top) == Repair(if c == top then c else c + CONTROL_INTERVAL)
    ensures top < c ==> SearchBelow(n, p, top) == AllEqual(n, p)
  {
    OutcomeOfInterrupted(h, n, p, hi, c, top);
    SearchGoesOn(n, p, top);
    InterruptedFacts(h, n, p, hi, c);
    hide Interrupted;
    RoundOfInterruptedArithmetic(p, hi, top, c);
    hide CanSearch, TopOfWindow, FirstOfWindow, OutcomeBelow, SearchBelow, WindowBelow, AllEqual;
  }

  lemma RoundOfInterruptedArithmetic(p: Node, hi: int, top: int, c: int)
    requires CanSearch(p, top) && TopOfWindow(hi, top) && 0 < c <= top + CONTROL_INTERVAL && c % CONTROL_INTERVAL == 0
    ensures TopOfWindow(hi, Lower(top))
    ensures c <= top - WINDOW ==> Lower(top) >= 0 && c <= Lower(top) + CONTROL_INTERVAL
    ensures c < top - WINDOW ==> c <= Lower(top)
    ensures top - WINDOW < c <= top ==> !FirstOfWindow(hi, c) && (TopOfWindow(hi, c) <==> c == top)
    ensures c == top - WINDOW ==> FirstOfWindow(hi, c)
  {
    WindowPosition(hi, top, c);
    hide HoldsControls;
    var m := (hi - top) / (WINDOW + CONTROL_INTERVAL);
    assert hi - c == (WINDOW + CONTROL_INTERVAL) * m + (top - c);
  }

  lemma LowerTopOf(p: Node, hi: int, top: int)
    requires CanSearch(p, top) && TopOfWindow(hi, top)
    ensures top >= 0 && TopOfWindow(hi, Lower(top))
  {
    WindowPosition(hi, top, 0);
  }

  lemma ReportedWhere(n: Node, p: Node, hi: int, c: int, top: int)
    requires top - WINDOW < c <= top ==> !FirstOfWindow(hi, c) && (TopOfWindow(hi, c) <==> c == top)
    requires c == top - WINDOW ==> FirstOfWindow(hi, c)
    requires c < top - WINDOW ==> c <= Lower(top)
    ensures c <= top - WINDOW ==> Reported(n, p, hi, c, top) == Reported(n, p, hi, c, Lower(top))
    ensures top - WINDOW < c <= top ==>
      Reported(n, p, hi, c, top) == Repair(if c == top then c else c + CONTROL_INTERVAL)
    ensures top < c ==> Reported(n, p, hi, c, top) == AllEqual(n, p)
  {
    hide TopOfWindow, FirstOfWindow, AllEqual;
  }

  lemma {:induction false} SearchOfInterrupted(h: Hasher, n: Node, p: Node, hi: int, c: int, top: int)
    requires Interrupted(h, n, p, hi, c) && top <= hi && CanSearch(p, top) && TopOfWindow(hi, top)
    requires c <= top + CONTROL_INTERVAL
    ensures SearchBelow(n, p, top) == Reported(n, p, hi, c, top)
    decreases top
  {
    RoundOfInterrupted(h, n, p, hi, c, top);
    InterruptedFacts(h, n, p, hi, c);
    LowerTopOf(p, hi, top);
    RoundOfInterruptedArithmetic(p, hi, top, c);
    ReportedWhere(n, p, hi, c, top);
    hide Interrupted, CanSearch, TopOfWindow, FirstOfWindow, Reported, SearchBelow, AllEqual;
    if c <= top - WINDOW {
      SearchOfInterrupted(h, n, p, hi, c, Lower(top));
    }
  }

  // The outcome.

  /**
   The resynchronisation makes all controls right again if and only if the missing one is not the first of a
   window; where it is, the node stays as wrong as it was.
  */
  lemma ResyncCuresIff(h: Hasher, n: Node, p: Node, hi: int, c: int)
    requires Interrupted(h, n, p, hi, c) && Chain(h, p) && HoldsControls(p.sections, 0, hi)
    ensures ControlsCorrect(h, Resynchronise(n, p, hi).sections) <==> !FirstOfWindow(hi, c)
    ensures !FirstOfWindow(hi, c) ==> Chain(h, Resynchronise(n, p, hi))
  {
    InterruptedFacts(h, n, p, hi, c);
    StartOfSearch(h, n, p, hi, c);
    SearchOfInterrupted(h, n, p, hi, c, hi);
    hide Interrupted, Search, Resynchronise, Control, ControlAt, FirstOfWindow, TopOfWindow, HoldsControls;
    if !FirstOfWindow(hi, c) {
      CuredFrom(h, n, p, hi, c, if TopOfWindow(hi, c) then c else c + CONTROL_INTERVAL);
    } else {
      FirstOfWindowIsFar(hi, c);
      WrongStays(h, n, p, hi, c);
    }
  }

  lemma StartOfSearch(h: Hasher, n: Node, p: Node, hi: int, c: int)
    requires Interrupted(h, n, p, hi, c)
    ensures hi % CONTROL_INTERVAL == 0 && TopOfWindow(hi, hi) && 0 < c <= hi
    ensures TopOfWindow(hi, c) || c + CONTROL_INTERVAL <= hi
  {
    hide RightBelow, SameHashes, HasRightControls, Differs, ControlAt;
  }

  /** A repair from the missing control on, or from the one above it, leaves right controls only. */
  lemma CuredFrom(h: Hasher, n: Node, p: Node, hi: int, c: int, d: int)
    requires Interrupted(h, n, p, hi, c) && Chain(h, p) && HoldsControls(p.sections, 0, hi)
    requires Search(n, p, p.current, WindowBelow(hi)) == Repair(d)
    requires c <= d <= c + CONTROL_INTERVAL && d <= hi
    ensures Chain(h, Resynchronise(n, p, hi))
  {
    hide Search, Download, RemoveFrom, Control;
    var from, to := Max(0, d - STEP_BACK), Min(d + SYNC_SECTIONS_BATCH, p.current);
    RightBelowLower(h, n.sections, c, from);
    assert SameHashes(n.sections, p.sections, 0, from - 1);
    hide RightBelow, HasRightControls, Differs, SameHashes, Chain;
    DownloadedControls(h, n, p, from, to);
  }

  lemma RightBelowLower(h: Hasher, st: Store, c: int, from: int)
    requires RightBelow(h, st, c) && from <= c
    ensures RightBelow(h, st, from)
  {
    hide Control;
  }

  lemma FirstOfWindowIsFar(hi: int, c: int)
    requires FirstOfWindow(hi, c) && c <= hi
    ensures c + WINDOW <= hi
  {
  }

  /** What the node takes for agreement, or for being behind, does not reach down to the wrong control. */
  lemma WrongStays(h: Hasher, n: Node, p: Node, hi: int, c: int)
    requires Interrupted(h, n, p, hi, c) && c + WINDOW <= hi && HoldsControls(p.sections, 0, hi)
    requires Search(n, p, p.current, WindowBelow(hi)) == AllEqual(n, p)
    ensures !ControlsCorrect(h, Resynchronise(n, p, hi).sections)
  {
    var at, m := c + CONTROL_INTERVAL, Resynchronise(n, p, hi);
    InterruptedBounds(h, n, p, hi, c);
    hide Interrupted, Control, Search, Download, RemoveFrom, HoldsControls;
    if AllEqual(n, p).Repair? {
      KeptBelow(h, n, p, n.current - STEP_BACK, Min(n.current + SYNC_SECTIONS_BATCH, p.current), at);
    }
    assert ControlAt(m.sections, at).Some?;
  }

  lemma InterruptedBounds(h: Hasher, n: Node, p: Node, hi: int, c: int)
    requires Interrupted(h, n, p, hi, c)
    ensures 0 < c && hi <= n.current && n.firstSaved == 0 && forall i | i in n.sections :: i <= n.current
    ensures IsWrong(h, n.sections, c + CONTROL_INTERVAL) && (c + CONTROL_INTERVAL) % CONTROL_INTERVAL == 0
  {
    hide RightBelow, SameHashes, HasRightControls, Differs, IsWrong;
  }

  /** Below the start of a download a wrong control stays, and stays wrong. */
  lemma KeptBelow(h: Hasher, n: Node, p: Node, from: int, to: int, at: int)
    requires n.firstSaved == 0 && 0 <= at < from <= to <= p.current && at % CONTROL_INTERVAL == 0
    requires forall i | i in n.sections :: i <= n.current
    requires IsWrong(h, n.sections, at)
    ensures IsWrong(h, Download(RemoveFrom(n, from), p, from, to).0.sections, at)
  {
    hide Control, Download, RemoveFrom;
    var m := Download(RemoveFrom(n, from), p, from, to).0;
    RemoveCuts(n, from);
    RemoveKeepsFirst(n, from);
    DownloadShape(RemoveFrom(n, from), p, from, to);
    RepairedBelowAndAbove(n, p, from, to, -1);
    assert ControlAt(m.sections, at) == ControlAt(n.sections, at);
    assert SameHashes(m.sections, n.sections, 0, at);
    assert CONTROL_INTERVAL * (at / CONTROL_INTERVAL) == at;
    SameHashesSameControl(h, m.sections, n.sections, at / CONTROL_INTERVAL);
  }

  /** An up-to-date node that moves its cache across a gap is interrupted at the section it was cached at. */
  lemma CrossingInterrupts(h: Hasher, n: Node, tx: Transaction, p: Node, hi: int, inputs: set<string>)
    requires Inv(h, n) && n.cached == CacheFor(n.current) && InWindow(n, tx) && Crosses(n, tx)
    requires hi % CONTROL_INTERVAL == 0 && n.cached <= hi <= tx.section && hi <= p.current
    ensures
      NoCollision(h, inputs) && RecordsResumption(h, n, inputs) && SameAsPeer(h, Save(h, n, tx), n.cached, p, hi) ==>
      Interrupted(h, Save(h, n, tx), p, hi, n.cached)
  {
    hide Control, Records, NoCollision, Save, Insert, Less, Prepared, CacheTarget;
    var c, m := n.cached, Save(h, n, tx);
    if NoCollision(h, inputs) && RecordsResumption(h, n, inputs) && SameAsPeer(h, m, c, p, hi) {
      var at := c + CONTROL_INTERVAL;
      CacheFollows(n, tx);
      SaveWrites(h, n, tx);
      GapMisresumes(h, n, tx, inputs);
      CrossedGapLooksLikeDivergence(h, n, tx, p, inputs);
      CrossedControls(h, n, tx);
      RightStaysBelow(h, n, m, c);
      forall i | c < i <= hi && i % CONTROL_INTERVAL == 0
        ensures Differs(m, p, i)
      {
        assert i == at || (ControlAt(m.sections, i).None? && ControlAt(p.sections, i).Some?);
      }
    }
  }

  /** The peer's controls are right, and up to the one that goes wrong it holds the same transactions. */
  ghost predicate SameAsPeer(h: Hasher, m: Node, c: int, p: Node, hi: int) {
    && HasRightControls(h, p.sections, Max(hi, c + CONTROL_INTERVAL))
    && SameHashes(m.sections, p.sections, 0, c + CONTROL_INTERVAL)
  }

  lemma RightStaysBelow(h: Hasher, n: Node, m: Node, c: int)
    requires Inv(h, n) && c >= CONTROL_INTERVAL && c % CONTROL_INTERVAL == 0
    requires ControlAt(n.sections, c - CONTROL_INTERVAL).Some?
    requires forall i | i < c :: ControlAt(m.sections, i) == ControlAt(n.sections, i)
    requires forall i | i < c :: TransactionsAt(m.sections, i) == TransactionsAt(n.sections, i)
    ensures RightBelow(h, m.sections, c)
  {
    hide Control, TransactionsAt;
    forall i | i < c && ControlAt(m.sections, i).Some?
      ensures i >= 0 && i % CONTROL_INTERVAL == 0
      ensures ControlAt(m.sections, i).value == Control(h, m.sections, i / CONTROL_INTERVAL)
    {
      assert ControlAt(n.sections, i).Some?;
      assert CONTROL_INTERVAL * (i / CONTROL_INTERVAL) == i;
      SameTransactionsSameControl(h, n.sections, m.sections, i / CONTROL_INTERVAL);
    }
    forall i | 0 <= i < c && i % CONTROL_INTERVAL == 0
      ensures ControlAt(m.sections, i).Some?
    {
      assert i <= c - CONTROL_INTERVAL;
      assert ControlAt(n.sections, i).Some?;
    }
  }

  /** The one control that such a save writes is the next one. */
  lemma CrossedControls(h: Hasher, n: Node, tx: Transaction)
    requires Inv(h, n) && n.cached == CacheFor(n.current) && InWindow(n, tx) && Crosses(n, tx)
    ensures
      var m, at := Save(h, n, tx), n.cached + CONTROL_INTERVAL;
      && m.current == tx.section && m.firstSaved == 0 && at < tx.section
      && (forall i | i in m.sections :: i <= m.current)
      && (forall i | i != at && i != tx.section :: ControlAt(m.sections, i) == ControlAt(n.sections, i))
      && (forall i | i > n.cached && i != at :: ControlAt(m.sections, i).None?)
      && (forall i | i < tx.section :: TransactionsAt(m.sections, i) == TransactionsAt(n.sections, i))
  {
    hide Control, IntervalHash, Save, Insert, Less, Prepared, LastControl, CacheTarget, ChainFrom;
    CacheFollows(n, tx);
    SaveWrites(h, n, tx);
    AdvanceGenerates(h, n, tx);
    AlignedControls(h, n.sections);
    ResumeFinds(Moved(n, tx), n.cached);
    var from := n.cached / CONTROL_INTERVAL;
    var base := ControlAt(n.sections, n.cached - CONTROL_INTERVAL).value;
    assert Moved(n, tx).cached == CONTROL_INTERVAL * (from + 1);
    var g := Prepared(h, n, tx);
    assert g.sections == ResumeUpTo(h, n.sections, base, from, from + 1);
    OneResumed(h, n.sections, base, from);
    assert forall i | i >= n.cached && i % CONTROL_INTERVAL == 0 :: ControlAt(n.sections, i).None?;
  }

  lemma OneResumed(h: Hasher, st: Store, base: string, from: nat)
    ensures
      var st' := ResumeUpTo(h, st, base, from, from + 1);
      && (forall i :: TransactionsAt(st', i) == TransactionsAt(st, i))
      && (forall i | i != CONTROL_INTERVAL * (from + 1) :: ControlAt(st', i) == ControlAt(st, i))
      && (forall i | i in st' :: i in st || i == CONTROL_INTERVAL * (from + 1))
  {
    hide ChainFrom;
    assert ResumeUpTo(h, st, base, from, from) == st;
  }
}
