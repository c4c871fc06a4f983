/**
 When the repair of Resync.dfy repairs.
*/
module ResyncTheorems {
  import opened Wrappers
  import opened Hashing
  import opened ControlChain
  import opened DagState
  import opened ReadyRuns
  import opened ClearControls
  import opened Resync
  import opened Transactions

  ghost predicate HasRightControls(h: Hasher, st: Store, hi: int) {
    forall i | 0 <= i <= hi && i % CONTROL_INTERVAL == 0 ::
      ControlAt(st, i) == Some(Control(h, st, i / CONTROL_INTERVAL))
  }

  /**
   Node and peer hold their right controls up to `hi`, where the search starts, the peer has its whole
   chain, and nothing that was hashed for those controls collides.
  */
  ghost predicate Comparable(h: Hasher, n: Node, p: Node, hi: int, inputs: set<string>) {
    && 0 <= hi <= n.current && hi <= p.current && hi % CONTROL_INTERVAL == 0
    && HasRightControls(h, n.sections, hi) && HasRightControls(h, p.sections, hi)
    && (forall i | i in n.sections :: i <= n.current)
    && (forall i | i in p.sections :: i <= p.current)
    && NoCollision(h, inputs)
    && Records(h, n.sections, hi / CONTROL_INTERVAL, inputs) && Records(h, p.sections, hi / CONTROL_INTERVAL, inputs)
  }

  predicate Differs(n: Node, p: Node, i: int) {
    ControlAt(n.sections, i) != ControlAt(p.sections, i)
  }

  /** The lowest control section, up to `hi`, at which the two nodes differ. */
  ghost predicate FirstDifference(n: Node, p: Node, hi: int, d: int) {
    && 0 <= d <= hi && d % CONTROL_INTERVAL == 0 && Differs(n, p, d)
    && forall i | 0 <= i < d && i % CONTROL_INTERVAL == 0 :: !Differs(n, p, i)
  }

  /** Equal controls mean equal sections below; so controls that differ stay different upwards. */
  lemma EqualControlMeansAgreement(h: Hasher, n: Node, p: Node, hi: int, inputs: set<string>, i: int)
    requires Comparable(h, n, p, hi, inputs)
    requires 0 <= i <= hi && i % CONTROL_INTERVAL == 0
    ensures !Differs(n, p, i) <==> SameHashes(n.sections, p.sections, 0, i)
  {
    hide Control;
    var k := i / CONTROL_INTERVAL;
    assert i == CONTROL_INTERVAL * k;
    if !Differs(n, p, i) {
      EqualControlsCommit(h, n.sections, p.sections, k, hi / CONTROL_INTERVAL, inputs);
    }
    if SameHashes(n.sections, p.sections, 0, i) {
      SameHashesSameControl(h, n.sections, p.sections, k);
    }
  }

  lemma DifferenceStays(h: Hasher, n: Node, p: Node, hi: int, inputs: set<string>, i: int, j: int)
    requires Comparable(h, n, p, hi, inputs)
    requires 0 <= i <= j <= hi && i % CONTROL_INTERVAL == 0 && j % CONTROL_INTERVAL == 0
    requires Differs(n, p, i)
    ensures Differs(n, p, j)
  {
    EqualControlMeansAgreement(h, n, p, hi, inputs, i);
    EqualControlMeansAgreement(h, n, p, hi, inputs, j);
  }

  // One answer.

  lemma {:induction false} ControlsInLength(st: Store, from: int, to: int)
    requires from % CONTROL_INTERVAL == 0 && to % CONTROL_INTERVAL == 0 && from <= to + CONTROL_INTERVAL
    requires HoldsControls(st, from, to)
    ensures |ControlsIn(st, from, to)| == (to - from) / CONTROL_INTERVAL + 1
    decreases 1 + to - from
  {
    hide ControlAt;
    if from <= to {
      ControlsInLength(st, from + CONTROL_INTERVAL, to);
    }
  }

  lemma {:induction false} ControlAtIndex(st: Store, from: int, to: int, i: nat)
    requires from % CONTROL_INTERVAL == 0 && HoldsControls(st, from, to) && i < |ControlsIn(st, from, to)|
    ensures
      var id := from + CONTROL_INTERVAL * i;
      from <= id <= to && id % CONTROL_INTERVAL == 0 && ControlAt(st, id).Some?
      && ControlsIn(st, from, to)[i] == DagControl(id, ControlAt(st, id).value)
    decreases i
  {
    hide ControlAt;
    if i > 0 {
      ControlAtIndex(st, from + CONTROL_INTERVAL, to, i - 1);
    }
  }

  lemma ControlsInAt(st: Store, from: int, to: int)
    requires from % CONTROL_INTERVAL == 0 && to % CONTROL_INTERVAL == 0 && from <= to + CONTROL_INTERVAL
    requires HoldsControls(st, from, to)
    ensures |ControlsIn(st, from, to)| == (to - from) / CONTROL_INTERVAL + 1
    ensures forall i | 0 <= i < |ControlsIn(st, from, to)| :: IsControlAt(st, from, to, i, ControlsIn(st, from, to)[i])
  {
    ControlsInLength(st, from, to);
    forall i | 0 <= i < |ControlsIn(st, from, to)|
      ensures IsControlAt(st, from, to, i, ControlsIn(st, from, to)[i])
    {
      ControlAtIndex(st, from, to, i);
    }
  }

  /** The i-th of the controls from `from` to `to`. */
  ghost predicate IsControlAt(st: Store, from: int, to: int, i: int, c: DagControl) {
    && c.sectionId == from + CONTROL_INTERVAL * i
    && from <= c.sectionId <= to && c.sectionId % CONTROL_INTERVAL == 0
    && ControlAt(st, c.sectionId) == Some(c.control)
  }

  predicate Matches(st: Store, c: DagControl) {
    ControlAt(st, c.sectionId) == Some(c.control)
  }

  lemma {:induction false} ScanPasses(st: Store, cs: seq<DagControl>, i: nat, syncFrom: int)
    requires forall j | i <= j < |cs| :: Matches(st, cs[j])
    ensures Scan(st, cs, i, syncFrom) == (syncFrom, false)
    decreases |cs| - i
  {
    if i < |cs| {
      assert Matches(st, cs[i]);
      ScanPasses(st, cs, i + 1, syncFrom);
    }
  }

  lemma {:induction false} ScanStops(st: Store, cs: seq<DagControl>, i: nat, syncFrom: int, k: nat)
    requires i <= k < |cs|
    requires forall j | i <= j < k :: Matches(st, cs[j])
    requires ControlAt(st, cs[k].sectionId).Some? && !Matches(st, cs[k])
    ensures Scan(st, cs, i, syncFrom) == (cs[k].sectionId, k == 0)
    decreases k - i
  {
    if i < k {
      assert Matches(st, cs[i]);
      ScanStops(st, cs, i + 1, syncFrom, k);
    }
  }

  /** What a node takes an answer for in which every control equals its own. */
  function AllEqual(n: Node, p: Node): Outcome {
    if p.current <= n.current then Complete else Repair(n.current)
  }

  lemma WindowMatches(h: Hasher, n: Node, p: Node, hi: int, inputs: set<string>, range: ControlRange)
    requires Comparable(h, n, p, hi, inputs)
    requires 0 <= range.from <= range.to <= hi && range.from % CONTROL_INTERVAL == 0 && range.to % CONTROL_INTERVAL == 0
    requires HoldsControls(p.sections, range.from, range.to)
    ensures
      var cs := ControlsIn(p.sections, range.from, range.to);
      && |cs| == (range.to - range.from) / CONTROL_INTERVAL + 1
      && (forall j | 0 <= j < |cs| :: cs[j].sectionId == range.from + CONTROL_INTERVAL * j)
      && (forall j | 0 <= j < |cs| :: ControlAt(n.sections, cs[j].sectionId).Some?)
      && (forall j | 0 <= j < |cs| :: Matches(n.sections, cs[j]) <==> !Differs(n, p, cs[j].sectionId))
  {
    hide Control, Records, NoCollision;
    var cs := ControlsIn(p.sections, range.from, range.to);
    ControlsInAt(p.sections, range.from, range.to);
    forall j | 0 <= j < |cs|
      ensures Matches(n.sections, cs[j]) <==> !Differs(n, p, cs[j].sectionId)
      ensures ControlAt(n.sections, cs[j].sectionId).Some?
    {
      var id := cs[j].sectionId;
      assert 0 <= id <= hi && id % CONTROL_INTERVAL == 0;
    }
  }

  lemma DiffersAtStop(h: Hasher, n: Node, p: Node, hi: int, inputs: set<string>, range: ControlRange, d: int)
    requires Comparable(h, n, p, hi, inputs)
    requires 0 <= range.from <= range.to <= hi && range.from % CONTROL_INTERVAL == 0
    requires FirstDifference(n, p, hi, d) || (d > range.to && NoDifference(n, p, range.to))
    ensures d <= range.to ==> Differs(n, p, Max(d, range.from))
  {
    hide Comparable, NoDifference, Differs;
    if d <= range.from {
      DifferenceStays(h, n, p, hi, inputs, d, range.from);
    }
  }

  /** The window's controls match below the place where the comparison stops, and there they do not. */
  lemma WindowStop(h: Hasher, n: Node, p: Node, hi: int, inputs: set<string>, range: ControlRange, d: int)
    requires Comparable(h, n, p, hi, inputs)
    requires 0 <= range.from <= range.to <= hi && range.from % CONTROL_INTERVAL == 0 && range.to % CONTROL_INTERVAL == 0
    requires FirstDifference(n, p, hi, d) || (d > range.to && NoDifference(n, p, range.to))
    requires HoldsControls(p.sections, range.from, range.to)
    ensures
      var cs := ControlsIn(p.sections, range.from, range.to);
      var k := IndexOf(range, d, |cs|);
      && 0 <= k <= |cs| && (k == |cs| <==> d > range.to) && (k == 0 <==> d <= range.from)
      && (forall j | 0 <= j < k :: Matches(n.sections, cs[j]))
      && (k < |cs| ==>
          ControlAt(n.sections, cs[k].sectionId).Some? && !Matches(n.sections, cs[k]) &&
          cs[k].sectionId == Max(d, range.from))
  {
    var cs := ControlsIn(p.sections, range.from, range.to);
    hide Comparable, ControlsIn, Matches, HoldsControls, IndexOf, FirstDifference, NoDifference, ControlAt, Differs;
    WindowMatches(h, n, p, hi, inputs, range);
    var k := IndexOf(range, d, |cs|);
    DiffersAtStop(h, n, p, hi, inputs, range, d);
    IndexFacts(n, p, hi, range, d, |cs|);
    forall j | 0 <= j < k
      ensures Matches(n.sections, cs[j])
    {
      AgreesBelow(n, p, hi, range, d, |cs|, j);
    }
  }

  /** What the comparison loop makes of one window, when the lowest difference is at d; `d > hi` says there is none. */
  lemma WindowScan(h: Hasher, n: Node, p: Node, hi: int, inputs: set<string>, range: ControlRange, d: int)
    requires Comparable(h, n, p, hi, inputs)
    requires 0 <= range.from <= range.to <= hi && range.from % CONTROL_INTERVAL == 0 && range.to % CONTROL_INTERVAL == 0
    requires FirstDifference(n, p, hi, d) || (d > range.to && NoDifference(n, p, range.to))
    requires HoldsControls(p.sections, range.from, range.to)
    ensures
      Scan(n.sections, ControlsIn(p.sections, range.from, range.to), 0, -1) ==
        if d > range.to then (-1, false) else if d > range.from then (d, false) else (range.from, true)
  {
    var cs := ControlsIn(p.sections, range.from, range.to);
    hide Comparable, ControlsIn, Matches, Scan, HoldsControls, IndexOf, FirstDifference, NoDifference, ControlAt;
    WindowStop(h, n, p, hi, inputs, range, d);
    ScanTo(n.sections, cs, IndexOf(range, d, |cs|));
  }

  /** Where in a window of n controls the comparison stops. */
  function IndexOf(range: ControlRange, d: int, n: nat): int {
    if d > range.to then n else if d > range.from then (d - range.from) / CONTROL_INTERVAL else 0
  }

  lemma IndexFacts(n: Node, p: Node, hi: int, range: ControlRange, d: int, size: int)
    requires FirstDifference(n, p, hi, d) || (d > range.to && NoDifference(n, p, range.to))
    requires range.from <= range.to && range.from % CONTROL_INTERVAL == 0 && range.to % CONTROL_INTERVAL == 0
    requires size == (range.to - range.from) / CONTROL_INTERVAL + 1
    ensures 0 <= IndexOf(range, d, size) <= size
    ensures d > range.to <==> IndexOf(range, d, size) == size
    ensures d <= range.from <==> IndexOf(range, d, size) == 0
    ensures d <= range.to ==> range.from + CONTROL_INTERVAL * IndexOf(range, d, size) == Max(d, range.from)
  {
    hide Differs, NoDifference;
    assert d > range.to || d % CONTROL_INTERVAL == 0;
  }

  lemma AgreesBelow(n: Node, p: Node, hi: int, range: ControlRange, d: int, size: nat, j: nat)
    requires FirstDifference(n, p, hi, d) || (d > range.to && NoDifference(n, p, range.to))
    requires 0 <= range.from <= range.to && range.from % CONTROL_INTERVAL == 0 && range.to % CONTROL_INTERVAL == 0
    requires size == (range.to - range.from) / CONTROL_INTERVAL + 1 && j < IndexOf(range, d, size)
    ensures !Differs(n, p, range.from + CONTROL_INTERVAL * j)
  {
    hide Differs;
    IndexFacts(n, p, hi, range, d, size);
    var i := range.from + CONTROL_INTERVAL * j;
    assert i % CONTROL_INTERVAL == 0;
    assert i <= range.to && i < d;
  }

  lemma ScanTo(st: Store, cs: seq<DagControl>, k: nat)
    requires k <= |cs| && forall j | 0 <= j < k :: Matches(st, cs[j])
    requires k < |cs| ==> ControlAt(st, cs[k].sectionId).Some? && !Matches(st, cs[k])
    ensures Scan(st, cs, 0, -1) == if k == |cs| then (-1, false) else (cs[k].sectionId, k == 0)
  {
    hide Scan, Matches;
    if k == |cs| {
      ScanPasses(st, cs, 0, -1);
    } else {
      ScanStops(st, cs, 0, -1, k);
    }
  }

  /** And what the answer then leads to. */
  lemma WindowOutcome(h: Hasher, n: Node, p: Node, hi: int, inputs: set<string>, range: ControlRange, d: int)
    requires Comparable(h, n, p, hi, inputs)
    requires 0 <= range.from <= range.to <= hi && range.from % CONTROL_INTERVAL == 0 && range.to % CONTROL_INTERVAL == 0
    requires FirstDifference(n, p, hi, d) || (d > range.to && NoDifference(n, p, range.to))
    requires HoldsControls(p.sections, range.from, range.to)
    ensures
      Decide(n, p.current, ControlResponse(range, ControlsIn(p.sections, range.from, range.to))) ==
        if d > range.to then AllEqual(n, p)
        else if d > range.from then Repair(d)
        else if range.from > 0 then Ask(WindowBelow(range.from - CONTROL_INTERVAL))
        else Nothing
  {
    WindowScan(h, n, p, hi, inputs, range, d);
    hide Control, Records, NoCollision, HasRightControls, ControlsIn, HoldsControls, Scan;
  }

  ghost predicate NoDifference(n: Node, p: Node, hi: int) {
    forall i | 0 <= i <= hi && i % CONTROL_INTERVAL == 0 :: !Differs(n, p, i)
  }

  /** Is the lowest difference the first control of a window, counted down from `hi`? */
  predicate FirstOfWindow(hi: int, d: int) {
    (hi - d) % (WINDOW + CONTROL_INTERVAL) == WINDOW
  }

  lemma WindowPosition(hi: int, top: int, d: int)
    requires (hi - top) % (WINDOW + CONTROL_INTERVAL) == 0
    ensures top - WINDOW < d <= top ==> !FirstOfWindow(hi, d)
    ensures d == top - WINDOW ==> FirstOfWindow(hi, d)
    ensures (hi - (top - WINDOW - CONTROL_INTERVAL)) % (WINDOW + CONTROL_INTERVAL) == 0
  {
    var m := (hi - top) / (WINDOW + CONTROL_INTERVAL);
    assert hi - d == (WINDOW + CONTROL_INTERVAL) * m + (top - d);
  }

  predicate CanSearch(p: Node, top: int) {
    top >= 0 && top % CONTROL_INTERVAL == 0 && HoldsControls(p.sections, 0, top)
  }

  /** The top of a window, counted down from `hi`. */
  predicate TopOfWindow(hi: int, top: int) {
    (hi - top) % (WINDOW + CONTROL_INTERVAL) == 0
  }

  function SearchBelow(n: Node, p: Node, top: int): Outcome
    requires CanSearch(p, top)
  {
    Search(n, p, p.current, WindowBelow(top))
  }

  /** What the answer for the window below `top` leads to. */
  function OutcomeBelow(n: Node, p: Node, top: int): Outcome
    requires CanSearch(p, top)
  {
    var range := WindowBelow(top);
    Decide(n, p.current, ControlResponse(range, ControlsIn(p.sections, range.from, range.to)))
  }

  function Lower(top: int): int {
    top - WINDOW - CONTROL_INTERVAL
  }

  /** One round of the search. */
  lemma SearchGoesOn(n: Node, p: Node, top: int)
    requires CanSearch(p, top)
    ensures !OutcomeBelow(n, p, top).Ask? ==> SearchBelow(n, p, top) == OutcomeBelow(n, p, top)
    ensures Lower(top) >= 0 ==> CanSearch(p, Lower(top))
    ensures Lower(top) >= 0 && OutcomeBelow(n, p, top) == Ask(WindowBelow(Lower(top))) ==>
      SearchBelow(n, p, top) == SearchBelow(n, p, Lower(top))
  {
    hide Decide, ControlsIn, ControlAt;
  }

  lemma OutcomeIs(h: Hasher, n: Node, p: Node, hi: int, inputs: set<string>, top: int, d: int)
    requires Comparable(h, n, p, hi, inputs) && top <= hi && CanSearch(p, top)
    requires DifferenceOrNone(n, p, hi, d)
    ensures OutcomeBelow(n, p, top) ==
      if d > top then AllEqual(n, p)
      else if d > 0 && d > top - WINDOW then Repair(d)
      else if top > WINDOW then Ask(WindowBelow(Lower(top)))
      else Nothing
  {
    WindowIsWellFormed(top);
    WindowOutcome(h, n, p, hi, inputs, WindowBelow(top), d);
    hide Comparable, Decide, ControlsIn, WellFormedWindow, Differs;
  }

  /** The lowest difference, or else the section after `hi`. */
  ghost predicate DifferenceOrNone(n: Node, p: Node, hi: int, d: int) {
    FirstDifference(n, p, hi, d) || (d == hi + CONTROL_INTERVAL && NoDifference(n, p, hi))
  }

  function Found(n: Node, p: Node, hi: int, d: int, top: int): Outcome {
    if d > top then AllEqual(n, p)
    else if d == 0 then Nothing
    else if FirstOfWindow(hi, d) then AllEqual(n, p)
    else Repair(d)
  }

  /** Either the search ends at this window, or it goes on at the next. */
  lemma SearchRound(h: Hasher, n: Node, p: Node, hi: int, inputs: set<string>, top: int, d: int)
    requires Comparable(h, n, p, hi, inputs) && top <= hi && CanSearch(p, top)
    requires DifferenceOrNone(n, p, hi, d)
    ensures d <= top - WINDOW && top > WINDOW ==>
      CanSearch(p, Lower(top)) && SearchBelow(n, p, top) == SearchBelow(n, p, Lower(top))
    ensures d <= top - WINDOW && top <= WINDOW ==> SearchBelow(n, p, top) == Nothing
    ensures top - WINDOW < d <= top && d > 0 ==> SearchBelow(n, p, top) == Repair(d)
    ensures top - WINDOW < d <= top && d == 0 && top <= WINDOW ==> SearchBelow(n, p, top) == Nothing
    ensures d > top ==> SearchBelow(n, p, top) == AllEqual(n, p)
  {
    OutcomeIs(h, n, p, hi, inputs, top, d);
    SearchGoesOn(n, p, top);
    DifferenceIsAligned(n, p, hi, d);
    TopIsAligned(p, top);
    hide Comparable, DifferenceOrNone, CanSearch, OutcomeBelow, SearchBelow, WindowBelow, AllEqual;
  }

  lemma TopIsAligned(p: Node, top: int)
    requires CanSearch(p, top)
    ensures top >= 0 && (top > WINDOW ==> Lower(top) >= 0)
  {
    hide HoldsControls;
  }

  lemma DifferenceIsAligned(n: Node, p: Node, hi: int, d: int)
    requires DifferenceOrNone(n, p, hi, d)
    ensures hi % CONTROL_INTERVAL == 0 ==> d % CONTROL_INTERVAL == 0
    ensures hi >= 0 ==> d >= 0
  {
    hide Differs, NoDifference;
  }

  lemma FoundWhere(n: Node, p: Node, hi: int, top: int, d: int)
    requires CanSearch(p, top) && top <= hi && TopOfWindow(hi, top) && d <= top + CONTROL_INTERVAL
    requires d >= 0 && d % CONTROL_INTERVAL == 0
    ensures TopOfWindow(hi, Lower(top))
    ensures d <= top - WINDOW && top > WINDOW ==>
      d <= Lower(top) + CONTROL_INTERVAL && Found(n, p, hi, d, top) == Found(n, p, hi, d, Lower(top))
    ensures d <= top - WINDOW && top <= WINDOW ==> Found(n, p, hi, d, top) == Nothing
    ensures top - WINDOW < d <= top && d > 0 ==> Found(n, p, hi, d, top) == Repair(d)
    ensures top - WINDOW < d <= top && d == 0 ==> top <= WINDOW && Found(n, p, hi, d, top) == Nothing
    ensures d > top ==> Found(n, p, hi, d, top) == AllEqual(n, p)
  {
    WindowPosition(hi, top, d);
    DownTo(top, d);
    hide HoldsControls, FirstOfWindow, AllEqual;
  }

  lemma DownTo(top: int, d: int)
    requires top % CONTROL_INTERVAL == 0 && d % CONTROL_INTERVAL == 0
    ensures d < top - WINDOW ==> d <= Lower(top)
  {
  }

  lemma {:induction false} SearchFrom(h: Hasher, n: Node, p: Node, hi: int, inputs: set<string>, top: int, d: int)
    requires Comparable(h, n, p, hi, inputs) && top <= hi && CanSearch(p, top) && TopOfWindow(hi, top)
    requires DifferenceOrNone(n, p, hi, d) && d <= top + CONTROL_INTERVAL
    ensures SearchBelow(n, p, top) == Found(n, p, hi, d, top)
    decreases top
  {
    SearchRound(h, n, p, hi, inputs, top, d);
    DifferenceIsAligned(n, p, hi, d);
    FoundWhere(n, p, hi, top, d);
    TopIsAligned(p, top);
    hide Comparable, DifferenceOrNone, CanSearch, TopOfWindow, SearchBelow, Found, AllEqual;
    if d <= top - WINDOW && top > WINDOW {
      SearchFrom(h, n, p, hi, inputs, Lower(top), d);
    }
  }

  /**
   The search is exact, and exactly this exact: it reports the lowest difference, unless that is at
   section 0, where it falls silent, or is the first control of a window.  Then the window below, asked
   for next, is found equal throughout and the node believes itself equal to the peer.
  */
  lemma SearchIsExact(h: Hasher, n: Node, p: Node, hi: int, inputs: set<string>, d: int)
    requires Comparable(h, n, p, hi, inputs) && FirstDifference(n, p, hi, d)
    requires HoldsControls(p.sections, 0, hi)
    ensures Search(n, p, p.current, WindowBelow(hi)) ==
      if d == 0 then Nothing else if FirstOfWindow(hi, d) then AllEqual(n, p) else Repair(d)
  {
    SearchFrom(h, n, p, hi, inputs, hi, d);
  }

  /** With no difference up to `hi`, the first window is equal throughout. */
  lemma SearchFindsNothing(h: Hasher, n: Node, p: Node, hi: int, inputs: set<string>)
    requires Comparable(h, n, p, hi, inputs) && NoDifference(n, p, hi)
    requires HoldsControls(p.sections, 0, hi)
    ensures Search(n, p, p.current, WindowBelow(hi)) == AllEqual(n, p)
  {
    SearchFrom(h, n, p, hi, inputs, hi, hi + CONTROL_INTERVAL);
  }

  /**
   What the reported section brackets: everything up to the control before it agrees, something in the
   20 sections it covers does not, and the deletion starts at or below the first section that differs.
  */
  lemma RepairBrackets(h: Hasher, n: Node, p: Node, hi: int, inputs: set<string>, d: int) returns (first: int)
    requires Comparable(h, n, p, hi, inputs) && FirstDifference(n, p, hi, d) && d > 0
    ensures SameHashes(n.sections, p.sections, 0, d - CONTROL_INTERVAL)
    ensures SameHashes(n.sections, p.sections, 0, first - 1)
    ensures HashList(n.sections, first) != HashList(p.sections, first)
    ensures d - CONTROL_INTERVAL < first <= d
    ensures Max(0, d - 50) <= first
  {
    hide Control, Records, NoCollision;
    assert d >= CONTROL_INTERVAL && (d - CONTROL_INTERVAL) % CONTROL_INTERVAL == 0;
    EqualControlMeansAgreement(h, n, p, hi, inputs, d - CONTROL_INTERVAL);
    EqualControlMeansAgreement(h, n, p, hi, inputs, d);
    assert !Differs(n, p, d - CONTROL_INTERVAL);
    first := FirstDiffering(n.sections, p.sections, d);
    assert SameHashes(n.sections, p.sections, 0, Min(d, first - 1));
  }

  lemma {:induction false} FirstDiffering(a: Store, b: Store, to: int) returns (first: int)
    requires !SameHashes(a, b, 0, to)
    ensures 0 <= first <= to && SameHashes(a, b, 0, first - 1) && HashList(a, first) != HashList(b, first)
    decreases 1 + to
  {
    if SameHashes(a, b, 0, to - 1) {
      first := to;
    } else {
      first := FirstDiffering(a, b, to - 1);
    }
  }

  // Deleting and downloading.

  /** Deletion leaves nothing from `from` on, and everything below it, from section 0 up, as it was. */
  lemma RemoveCuts(n: Node, from: int)
    requires forall i | i in n.sections :: i <= n.current
    ensures
      var m := RemoveFrom(n, from);
      && m.current == Max(0, from)
      && (forall i | i in m.sections :: i < m.current)
      && (forall i | 0 <= i < m.current :: i in m.sections <==> i in n.sections)
      && (forall i | i in m.sections :: i in n.sections && m.sections[i] == n.sections[i])
      && (forall i | i < 0 && i in n.sections :: i in m.sections <==> 0 < from || i <= -10000 || n.current < 0)
  {
    NegativeFolders();
    hide FolderOf;
  }

  /** The folder of the sections around 0 begins with section 0; folders further down begin below. */
  lemma NegativeFolders()
    ensures forall i | -10000 < i < 0 :: SECTION_SIZE * FolderOf(i) == 0
    ensures forall i | i <= -10000 :: SECTION_SIZE * FolderOf(i) < 0
    ensures forall i | i >= 0 :: i - 10000 < SECTION_SIZE * FolderOf(i) <= i
  {
  }

  lemma ReceiveNext(n: Node, p: Node, from: int, to: int)
    ensures Receive(n, p, from, to) ==
      if to < from then n
      else if to in p.sections then TakeFile(Receive(n, p, from, to - 1), SectionFile(to, p.sections[to]))
      else Receive(n, p, from, to - 1)
  {
    var before, files := FilesIn(p.sections, from, to - 1), FilesIn(p.sections, from, to);
    if from <= to && to in p.sections {
      assert files[..|files| - 1] == before;
    } else if from <= to {
      assert files == before;
    }
  }

  lemma {:induction false} ReceiveCopies(n: Node, p: Node, from: int, to: int)
    ensures
      var m := Receive(n, p, from, to);
      && (forall i | from <= i <= to && i in p.sections :: i in m.sections && m.sections[i] == p.sections[i])
      && (forall i | !(from <= i <= to && i in p.sections) :: (i in m.sections <==> i in n.sections))
      && (forall i | !(from <= i <= to && i in p.sections) && i in n.sections :: m.sections[i] == n.sections[i])
    decreases 1 + to - from
  {
    hide Receive;
    ReceiveNext(n, p, from, to);
    if from <= to {
      ReceiveCopies(n, p, from, to - 1);
    }
  }

  /** The last section that batches ending at `to` first, then every 2100 sections, download of a chain up to `end`. */
  function LastDownloaded(to: int, end: int): int {
    if to < end && (end - 1 - to) % 2100 == 0 then end - 1 else end
  }

  /** The batches tile: together they copy from `from` to the last `to`, leaving no section out. */
  lemma {:induction false} DownloadCopies(n: Node, p: Node, from: int, to: int)
    requires from <= to + 1 && to <= p.current
    requires forall i | i in n.sections :: i < from
    ensures
      var (m, last) := Download(n, p, from, to);
      && last == LastDownloaded(to, p.current)
      && (forall i | from <= i <= last :: TransactionsAt(m.sections, i) == TransactionsAt(p.sections, i))
      && (forall i | i < from :: TransactionsAt(m.sections, i) == TransactionsAt(n.sections, i))
    decreases p.current - to
  {
    var m := Receive(n, p, from, to);
    ReceiveCopies(n, p, from, to);
    if to < p.current - 1 {
      var next := Min(p.current, to + SYNC_SECTIONS_BATCH);
      LastDownloadedSteps(to, p.current);
      DownloadCopies(m, p, to + 1, next);
    }
  }

  lemma LastDownloadedSteps(to: int, end: int)
    requires to < end - 1
    ensures LastDownloaded(to, end) == LastDownloaded(Min(end, to + SYNC_SECTIONS_BATCH), end)
  {
    if to + SYNC_SECTIONS_BATCH < end {
      assert end - 1 - to == (end - 1 - (to + SYNC_SECTIONS_BATCH)) + SYNC_SECTIONS_BATCH;
    }
  }

  // End to end.

  /** Deleting from `from` on and downloading from there leaves the node equal to the peer wherever it was below. */
  lemma RepairedBelowAndAbove(n: Node, p: Node, from: int, to: int, agreed: int)
    requires forall i | i in n.sections :: i <= n.current
    requires 0 <= from <= to <= p.current
    requires SameHashes(n.sections, p.sections, 0, agreed)
    ensures
      var (m, last) := Download(RemoveFrom(n, from), p, from, to);
      && last == LastDownloaded(to, p.current)
      && (forall i | 0 <= i < from :: HashList(m.sections, i) == HashList(n.sections, i))
      && (from <= agreed + 1 ==> SameHashes(m.sections, p.sections, 0, last))
  {
    RemoveCuts(n, from);
    DownloadCopies(RemoveFrom(n, from), p, from, to);
  }

  /**
   A repair ends with the last batch up to the peer's last section or the one before, and the node's
   transaction hashes equal to the peer's in every section up to there.
  */
  lemma RepairSucceeds(h: Hasher, n: Node, p: Node, hi: int, inputs: set<string>, d: int)
    requires Comparable(h, n, p, hi, inputs) && FirstDifference(n, p, hi, d)
    requires d > 0 && !FirstOfWindow(hi, d)
    requires HoldsControls(p.sections, 0, hi)
    ensures
      var last := LastDownloaded(Min(d + SYNC_SECTIONS_BATCH, p.current), p.current);
      d <= last && p.current - 1 <= last <= p.current
        && SameHashes(Resynchronise(n, p, hi).sections, p.sections, 0, last)
  {
    hide Control, Records, NoCollision, Search, Download;
    SearchIsExact(h, n, p, hi, inputs, d);
    assert d >= CONTROL_INTERVAL && (d - CONTROL_INTERVAL) % CONTROL_INTERVAL == 0;
    assert !Differs(n, p, d - CONTROL_INTERVAL);
    EqualControlMeansAgreement(h, n, p, hi, inputs, d - CONTROL_INTERVAL);
    RepairedBelowAndAbove(n, p, Max(0, d - STEP_BACK), Min(d + SYNC_SECTIONS_BATCH, p.current), d - CONTROL_INTERVAL);
  }

  /** Otherwise the difference is still there afterwards. */
  lemma RepairFails(h: Hasher, n: Node, p: Node, hi: int, inputs: set<string>, d: int)
    requires Comparable(h, n, p, hi, inputs) && FirstDifference(n, p, hi, d)
    requires d == 0 || FirstOfWindow(hi, d)
    requires HoldsControls(p.sections, 0, hi)
    ensures !SameHashes(Resynchronise(n, p, hi).sections, p.sections, 0, d)
  {
    hide Control, Records, NoCollision, Search, Download;
    SearchIsExact(h, n, p, hi, inputs, d);
    EqualControlMeansAgreement(h, n, p, hi, inputs, d);
    var m := Resynchronise(n, p, hi);
    if AllEqual(n, p).Repair? && d > 0 {
      assert d <= n.current - WINDOW;
      var from := Max(0, n.current - STEP_BACK);
      var differing :| 0 <= differing <= d && HashList(n.sections, differing) != HashList(p.sections, differing);
      RepairedBelowAndAbove(n, p, from, Min(n.current + SYNC_SECTIONS_BATCH, p.current), -1);
      assert HashList(m.sections, differing) == HashList(n.sections, differing);
    }
  }

  /**
   So, for every pair of chains that differ at or below the control where the search starts: the repair
   removes the difference if and only if its control is neither at section 0 nor the first of a window.
  */
  lemma ResyncRepairsIff(h: Hasher, n: Node, p: Node, hi: int, inputs: set<string>, d: int)
    requires Comparable(h, n, p, hi, inputs) && FirstDifference(n, p, hi, d)
    requires HoldsControls(p.sections, 0, hi)
    ensures SameHashes(Resynchronise(n, p, hi).sections, p.sections, 0, d) <==> d != 0 && !FirstOfWindow(hi, d)
  {
    hide Control, Records, NoCollision, Search, Download, Resynchronise;
    if d != 0 && !FirstOfWindow(hi, d) {
      RepairSucceeds(h, n, p, hi, inputs, d);
    } else {
      RepairFails(h, n, p, hi, inputs, d);
    }
  }

  /**
   A node that is merely behind: no difference up to the control where the search starts, and a longer
   peer.  It catches up exactly if it had nothing wrong between that control and where deletion starts.
  */
  lemma ResyncCatchesUpIff(h: Hasher, n: Node, p: Node, hi: int, inputs: set<string>)
    requires Comparable(h, n, p, hi, inputs) && NoDifference(n, p, hi)
    requires HoldsControls(p.sections, 0, hi)
    requires n.current < p.current
    ensures
      var last := LastDownloaded(Min(n.current + SYNC_SECTIONS_BATCH, p.current), p.current);
      && p.current - 1 <= last <= p.current
      && (SameHashes(Resynchronise(n, p, hi).sections, p.sections, 0, last)
          <==> SameHashes(n.sections, p.sections, hi + 1, n.current - 51))
  {
    hide Control, Records, NoCollision, Search, Download;
    SearchFindsNothing(h, n, p, hi, inputs);
    EqualControlMeansAgreement(h, n, p, hi, inputs, hi);
    var from, to := Max(0, n.current - STEP_BACK), Min(n.current + SYNC_SECTIONS_BATCH, p.current);
    var m := Resynchronise(n, p, hi);
    if SameHashes(n.sections, p.sections, hi + 1, n.current - STEP_BACK - 1) {
      RepairedBelowAndAbove(n, p, from, to, Max(hi, from - 1));
    } else {
      RepairedBelowAndAbove(n, p, from, to, -1);
      var i :| hi + 1 <= i <= n.current - STEP_BACK - 1 && HashList(n.sections, i) != HashList(p.sections, i);
      assert HashList(m.sections, i) == HashList(n.sections, i);
    }
  }

  // The controls afterwards.

  /** What becomes of the first saved section: the least of the old one, if there was one, and those received. */
  ghost predicate IsFirstSaved(old_: int, p: Node, from: int, to: int, new_: int) {
    && (new_ == old_ || (from <= new_ <= to && new_ in p.sections))
    && (0 <= from && old_ != -1 ==> new_ <= old_)
    && (0 <= from ==> forall i | from <= i <= to && i in p.sections :: new_ <= i && new_ != -1)
  }

  lemma {:induction false} ReceiveBounds(n: Node, p: Node, from: int, to: int)
    ensures
      var m := Receive(n, p, from, to);
      && IsFirstSaved(n.firstSaved, p, from, to, m.firstSaved) && m.cached == n.cached && n.current <= m.current
      && (m.current == n.current || (from <= m.current <= to && m.current in p.sections))
      && (forall i | from <= i <= to && i in p.sections :: i <= m.current)
    decreases 1 + to - from
  {
    hide Receive;
    ReceiveNext(n, p, from, to);
    if from <= to {
      ReceiveBounds(n, p, from, to - 1);
      assert to in p.sections || Receive(n, p, from, to) == Receive(n, p, from, to - 1);
    } else {
      assert Receive(n, p, from, to) == n;
    }
  }

  function IdsOfFiles(files: seq<SectionFile>): set<int> {
    set f | f in files :: f.sectionId
  }

  lemma IdsGrow(files: seq<SectionFile>)
    requires |files| > 0
    ensures IdsOfFiles(files) == IdsOfFiles(files[..|files| - 1]) + {files[|files| - 1].sectionId}
  {
    assert files == files[..|files| - 1] + [files[|files| - 1]];
  }

  /** The same of any files, in whatever order they come. */
  lemma {:induction false} TakeFilesBounds(n: Node, files: seq<SectionFile>)
    ensures
      var m, ids := TakeFiles(n, files), IdsOfFiles(files);
      && (m.firstSaved == n.firstSaved || m.firstSaved in ids)
      && ((forall id | id in ids :: id >= 0) ==>
           && (n.firstSaved != -1 ==> m.firstSaved <= n.firstSaved)
           && forall id | id in ids :: m.firstSaved != -1 && m.firstSaved <= id)
      && (m.current == n.current || m.current in ids)
      && n.current <= m.current && (forall id | id in ids :: id <= m.current)
  {
    hide IdsOfFiles;
    if |files| > 0 {
      IdsGrow(files);
      TakeFilesBounds(n, files[..|files| - 1]);
    } else {
      assert IdsOfFiles(files) == {} by { NoFiles(); }
    }
  }

  lemma NoFiles()
    ensures IdsOfFiles([]) == {}
  {
  }

  /** What is not received stays, and of two files for one section the later one does. */
  lemma {:induction false} TakeFilesCopies(n: Node, files: seq<SectionFile>)
    ensures
      var m, ids := TakeFiles(n, files), IdsOfFiles(files);
      && m.sections.Keys == n.sections.Keys + ids
      && (forall i | i in n.sections && i !in ids :: m.sections[i] == n.sections[i])
      && forall k | 0 <= k < |files| && files[k].sectionId !in IdsOfFiles(files[k + 1..]) ::
           files[k].sectionId in m.sections && m.sections[files[k].sectionId] == files[k].section
  {
    hide IdsOfFiles;
    if |files| > 0 {
      var before, last := files[..|files| - 1], files[|files| - 1];
      IdsGrow(files);
      TakeFilesCopies(n, before);
      forall k | 0 <= k < |files| && files[k].sectionId !in IdsOfFiles(files[k + 1..])
        ensures files[k].sectionId in TakeFiles(n, files).sections
        ensures TakeFiles(n, files).sections[files[k].sectionId] == files[k].section
      {
        if k < |before| {
          IdsGrow(files[k + 1..]);
          assert files[k + 1..][..|files[k + 1..]| - 1] == before[k + 1..];
        }
      }
    } else {
      NoFiles();
    }
  }

  /** Below its start the download leaves everything, controls included; above it everything is the peer's. */
  lemma {:induction false} DownloadShape(n: Node, p: Node, from: int, to: int)
    requires 0 <= from <= to + 1 && to <= p.current
    requires forall i | i in n.sections :: i < from
    ensures
      var (m, last) := Download(n, p, from, to);
      && (forall i | i < from :: ControlAt(m.sections, i) == ControlAt(n.sections, i))
      && (forall i | from <= i <= last :: ControlAt(m.sections, i) == ControlAt(p.sections, i))
      && (forall i | i in m.sections :: i <= last)
      && IsFirstSaved(n.firstSaved, p, from, last, m.firstSaved) && m.cached == n.cached && n.current <= m.current
      && (m.current == n.current || (m.current <= last && m.current in p.sections))
      && (forall i | from <= i <= last && i in p.sections :: i <= m.current)
      && (forall i | i in m.sections :: if i < from then i in n.sections else i in p.sections)
    decreases p.current - to
  {
    var m := Receive(n, p, from, to);
    ReceiveCopies(n, p, from, to);
    ReceiveBounds(n, p, from, to);
    hide Receive;
    assert forall i | from <= i <= to :: ControlAt(m.sections, i) == ControlAt(p.sections, i);
    assert forall i | i < from :: ControlAt(m.sections, i) == ControlAt(n.sections, i);
    if to < p.current - 1 {
      var next := Min(p.current, to + SYNC_SECTIONS_BATCH);
      LastDownloadedSteps(to, p.current);
      DownloadShape(m, p, to + 1, next);
      DownloadCopies(m, p, to + 1, next);
      var (end, last) := Download(m, p, to + 1, next);
      assert Download(n, p, from, to) == (end, last);
      hide Download;
      FirstSavedOn(n.firstSaved, p, from, to, last, m.firstSaved, end.firstSaved);
      hide IsFirstSaved;
    }
  }

  lemma FirstSavedOn(start: int, p: Node, from: int, mid: int, to: int, between: int, end: int)
    requires 0 <= from <= mid + 1 && mid <= to
    requires IsFirstSaved(start, p, from, mid, between) && IsFirstSaved(between, p, mid + 1, to, end)
    ensures IsFirstSaved(start, p, from, to, end)
  {
  }

  /** A node that starts out empty knows afterwards where its chain begins and ends. */
  lemma FirstSynchronisation(n: Node, p: Node, to: int)
    requires n.sections == map[] && n.firstSaved == -1 && n.current == -1
    requires 0 <= to <= p.current && exists i :: 0 <= i <= LastDownloaded(to, p.current) && i in p.sections
    ensures
      var (m, last) := Download(n, p, 0, to);
      && m.firstSaved in p.sections && m.current in p.sections
      && forall i | 0 <= i <= last && i in p.sections :: 0 <= m.firstSaved <= i <= m.current
  {
    DownloadShape(n, p, 0, to);
    DownloadCopies(n, p, 0, to);
    hide Download;
  }

  /** Below `c` every control is there, and right. */
  ghost predicate RightBelow(h: Hasher, st: Store, c: int) {
    && (forall i | i < c && ControlAt(st, i).Some? ::
          i >= 0 && i % CONTROL_INTERVAL == 0 && ControlAt(st, i).value == Control(h, st, i / CONTROL_INTERVAL))
    && (forall i | 0 <= i < c && i % CONTROL_INTERVAL == 0 :: ControlAt(st, i).Some?)
  }

  /**
   After deleting from `from` on and downloading from there, the stored controls are right if the peer's were
   and the node's own below `from`, and out of reach of late transactions if the peer's were and its last
   section has arrived.
  */
  lemma DownloadedControls(h: Hasher, n: Node, p: Node, from: int, to: int)
    requires 0 <= n.current && n.firstSaved == 0 && forall i | i in n.sections :: i <= n.current
    requires Chain(h, p) && 0 <= from <= to <= p.current
    requires SameHashes(n.sections, p.sections, 0, from - 1)
    requires RightBelow(h, n.sections, from)
    ensures
      var (m, last) := Download(RemoveFrom(n, from), p, from, to);
      && Chain(h, m)
      && (last == p.current && p.current in p.sections ==> m.current == p.current)
      && (Settled(p) && m.current == p.current && (from == 0 || from <= p.current - 15) ==> Settled(m))
      && m.cached == AlignDown20(from) && (forall i | from <= i <= last && i in p.sections :: i <= m.current)
  {
    hide Control, Download, RemoveFrom;
    RemoveCuts(n, from);
    RemoveKeepsFirst(n, from);
    DownloadShape(RemoveFrom(n, from), p, from, to);
    RepairedBelowAndAbove(n, p, from, to, from - 1);
    var (m, last) := Download(RemoveFrom(n, from), p, from, to);
    forall i | ControlAt(m.sections, i).Some?
      ensures i >= 0 && i % CONTROL_INTERVAL == 0
      ensures ControlAt(m.sections, i).value == Control(h, m.sections, i / CONTROL_INTERVAL)
      ensures i < from ==> ControlAt(n.sections, i).Some?
      ensures i >= from ==> ControlAt(p.sections, i).Some?
    {
      assert i in m.sections;
      if i < from {
        assert i in RemoveFrom(n, from).sections && ControlAt(n.sections, i) == ControlAt(m.sections, i);
        assert CONTROL_INTERVAL * (i / CONTROL_INTERVAL) == i;
        SameHashesSameControl(h, m.sections, n.sections, i / CONTROL_INTERVAL);
      } else {
        assert ControlAt(p.sections, i) == ControlAt(m.sections, i);
        assert CONTROL_INTERVAL * (i / CONTROL_INTERVAL) == i;
        SameHashesSameControl(h, m.sections, p.sections, i / CONTROL_INTERVAL);
      }
    }
    forall i, j | 0 <= j <= i && j % CONTROL_INTERVAL == 0 && ControlAt(m.sections, i).Some?
      ensures ControlAt(m.sections, j).Some?
    {
      assert i in m.sections;
      assert i >= from ==> ControlAt(p.sections, i).Some? && ControlAt(p.sections, j).Some?;
    }
  }

  lemma RemoveKeepsFirst(n: Node, from: int)
    ensures RemoveFrom(n, from).firstSaved == n.firstSaved && RemoveFrom(n, from).cached == AlignDown20(from)
    ensures forall i | 0 <= i < from :: ControlAt(RemoveFrom(n, from).sections, i) == ControlAt(n.sections, i)
    ensures forall i | i in RemoveFrom(n, from).sections ::
      i in n.sections && RemoveFrom(n, from).sections[i] == n.sections[i]
  {
  }

  lemma AgreesUpTo(h: Hasher, n: Node, p: Node, hi: int, inputs: set<string>, d: int)
    requires Comparable(h, n, p, hi, inputs) && FirstDifference(n, p, hi, d) && d > 0
    ensures SameHashes(n.sections, p.sections, 0, Max(0, d - STEP_BACK) - 1)
    ensures 0 <= hi <= n.current && d <= hi <= p.current
  {
    hide Control, Records, NoCollision, HasRightControls;
    assert d >= CONTROL_INTERVAL && (d - CONTROL_INTERVAL) % CONTROL_INTERVAL == 0;
    assert !Differs(n, p, d - CONTROL_INTERVAL);
    EqualControlMeansAgreement(h, n, p, hi, inputs, d - CONTROL_INTERVAL);
  }

  lemma RightBelowAll(h: Hasher, n: Node, p: Node, hi: int, inputs: set<string>, from: int)
    requires Comparable(h, n, p, hi, inputs) && Chain(h, n) && from <= hi
    ensures RightBelow(h, n.sections, from)
  {
    hide Control, Records, NoCollision;
  }

  /**
   So a repair leaves right controls; and the theorems about runs go on from there unless a control is within
   reach of late transactions, which none is once the node has the peer's last section.
  */
  lemma RepairKeepsControls(h: Hasher, n: Node, p: Node, hi: int, inputs: set<string>, d: int)
    requires Comparable(h, n, p, hi, inputs) && FirstDifference(n, p, hi, d)
    requires d > 0 && !FirstOfWindow(hi, d)
    requires HoldsControls(p.sections, 0, hi)
    requires Chain(h, n) && Chain(h, p)
    ensures
      var m := Resynchronise(n, p, hi);
      var last := LastDownloaded(Min(d + SYNC_SECTIONS_BATCH, p.current), p.current);
      && Chain(h, m)
      && (last == p.current && p.current in p.sections ==> m.current == p.current)
      && (Inv(h, m) <==> Settled(m)) && (Settled(p) && m.current == p.current ==> Settled(m))
  {
    SearchIsExact(h, n, p, hi, inputs, d);
    var from, to := Max(0, d - STEP_BACK), Min(d + SYNC_SECTIONS_BATCH, p.current);
    AgreesUpTo(h, n, p, hi, inputs, d);
    RightBelowAll(h, n, p, hi, inputs, from);
    assert d in p.sections;
    hide Comparable, FirstDifference, RightBelow, HoldsControls, SameHashes, Search;
    RepairedFrom(h, n, p, d, from, to);
  }

  lemma RepairedFrom(h: Hasher, n: Node, p: Node, d: int, from: int, to: int)
    requires Chain(h, n) && Chain(h, p) && 0 < d <= p.current && d in p.sections
    requires from == Max(0, d - STEP_BACK) && to == Min(d + SYNC_SECTIONS_BATCH, p.current)
    requires SameHashes(n.sections, p.sections, 0, from - 1) && RightBelow(h, n.sections, from)
    requires d % CONTROL_INTERVAL == 0
    ensures
      var (m, last) := Download(RemoveFrom(n, from), p, from, to);
      && last == LastDownloaded(to, p.current) && Chain(h, m)
      && (last == p.current && p.current in p.sections ==> m.current == p.current)
      && (Inv(h, m) <==> Settled(m)) && (Settled(p) && m.current == p.current ==> Settled(m))
  {
    DownloadedControls(h, n, p, from, to);
    hide Control, Download, RemoveFrom, Settled, RightBelow;
    RepairedBelowAndAbove(n, p, from, to, -1);
    AlignDown20Is(from);
    hide ControlsCorrect, Unbroken, SameHashes;
    assert d <= Download(RemoveFrom(n, from), p, from, to).0.current;
  }

  // Where nodes come from.

  /** Two nodes whose runs kept the controls right, and that both have the control at `hi`, are comparable there. */
  lemma RightRunsAreComparable(h: Hasher, n: Node, p: Node, hi: int, inputs: set<string>)
    requires Inv(h, n) && Inv(h, p)
    requires hi >= 0 && ControlAt(n.sections, hi).Some? && ControlAt(p.sections, hi).Some?
    requires NoCollision(h, inputs)
    requires Records(h, n.sections, hi / CONTROL_INTERVAL, inputs)
      && Records(h, p.sections, hi / CONTROL_INTERVAL, inputs)
    ensures Comparable(h, n, p, hi, inputs) && HoldsControls(p.sections, 0, hi)
  {
    hide Control, Records, NoCollision;
    assert hi in n.sections && hi in p.sections;
    forall i | 0 <= i <= hi && i % CONTROL_INTERVAL == 0
      ensures ControlAt(n.sections, i) == Some(Control(h, n.sections, i / CONTROL_INTERVAL))
      ensures ControlAt(p.sections, i) == Some(Control(h, p.sections, i / CONTROL_INTERVAL))
    {
      assert ControlAt(n.sections, i).Some? && ControlAt(p.sections, i).Some?;
    }
  }

  /** A node that crossed a gap differs, at the next control, from a peer that holds the very same transactions. */
  lemma CrossedGapLooksLikeDivergence(h: Hasher, n: Node, tx: Transaction, p: Node, inputs: set<string>)
    requires Inv(h, n) && InWindow(n, tx) && Crosses(n, tx)
    requires NoCollision(h, inputs) && RecordsResumption(h, n, inputs)
    requires HasRightControls(h, p.sections, n.cached + CONTROL_INTERVAL)
    requires SameHashes(Save(h, n, tx).sections, p.sections, 0, n.cached + CONTROL_INTERVAL)
    ensures Differs(Save(h, n, tx), p, n.cached + CONTROL_INTERVAL)
  {
    hide Control, Records, NoCollision, Save;
    var at := n.cached + CONTROL_INTERVAL;
    var m := Save(h, n, tx);
    GapMisresumes(h, n, tx, inputs);
    CacheFollows(n, tx);
    assert at == CONTROL_INTERVAL * (at / CONTROL_INTERVAL);
    SameHashesSameControl(h, m.sections, p.sections, at / CONTROL_INTERVAL);
  }

  // Asked for a control that is missing.

  /** One round of what the asked node does then: all controls from the missing one on are generated anew. */
  ghost function Regenerated(h: Hasher, n: Node, from: int): Node {
    StartControl(h, n.(sections := ClearedBetween(n.sections, from, n.current)), true)
  }

  /**
   The second reading of the request succeeds exactly if the range starts at 0 or later and its last section
   is one that a generation reaches.  Otherwise nothing has changed about that, and the next round fails too.
  */
  lemma RegenerationAnswersIff(h: Hasher, n: Node, range: ControlRange, from: int)
    requires Chain(h, n) && IsAligned(range) && IsLastMissing(n.sections, range, from)
    ensures
      var m := Regenerated(h, n, from);
      && Chain(h, m) && m.current == n.current && m.cached == n.cached
      && (HoldsControls(m.sections, range.from, range.to) <==> 0 <= range.from && Generated(n, range.to))
  {
    hide Control, StartControl, GenerateFrom;
    var c := n.(sections := ClearedBetween(n.sections, from, n.current));
    ClearedIsChain(h, n, from);
    IncrementalEqualsFull(h, c);
    FullGeneration(h, c);
    StartControlKeepsControls(h, c, true);
    GenerateKeepsRest(h, c, 0, true);
    var m := Regenerated(h, n, from);
    assert 0 <= range.from && Generated(n, range.to) ==>
      forall i | range.from <= i <= range.to && i % CONTROL_INTERVAL == 0 :: Generated(n, i);
    assert ControlAt(c.sections, range.to).Some? ==> range.to == 0;
    assert range.from < 0 ==> ControlAt(m.sections, range.from).None?;
  }

  lemma ClearedIsChain(h: Hasher, n: Node, from: int)
    requires Chain(h, n)
    ensures Chain(h, n.(sections := ClearedBetween(n.sections, from, n.current)))
    ensures forall i | from <= i && i != 0 :: ControlAt(ClearedBetween(n.sections, from, n.current), i).None?
  {
    hide Control;
    var st := ClearedBetween(n.sections, from, n.current);
    assert forall i :: TransactionsAt(st, i) == TransactionsAt(n.sections, i);
    forall i | ControlAt(st, i).Some?
      ensures ControlAt(st, i) == ControlAt(n.sections, i)
      ensures Control(h, st, i / CONTROL_INTERVAL) == Control(h, n.sections, i / CONTROL_INTERVAL)
    {
      assert ControlAt(n.sections, i).Some? && i >= 0;
      SameTransactionsSameControl(h, st, n.sections, i / CONTROL_INTERVAL);
    }
    forall i, j | 0 <= j <= i && j % CONTROL_INTERVAL == 0 && ControlAt(st, i).Some?
      ensures ControlAt(st, j).Some?
    {
      assert ControlAt(n.sections, j).Some?;
    }
  }

  // The walk.

  /** The windows that are requested one after the other as long as every answer sends the search lower. */
  function Windows(top: int): (ws: seq<ControlRange>)
    requires top >= 0
  {
    var w := WindowBelow(top);
    [w] + if w.from >= CONTROL_INTERVAL then Windows(w.from - CONTROL_INTERVAL) else []
  }

  /** The windows actually requested. */
  ghost function Requested(n: Node, peer: Node, syncLast: int, range: ControlRange): seq<ControlRange>
    requires 0 <= range.from <= range.to && range.from % CONTROL_INTERVAL == 0
    requires HoldsControls(peer.sections, 0, range.to)
    decreases range.from
  {
    var out := Decide(n, syncLast, ControlResponse(range, ControlsIn(peer.sections, range.from, range.to)));
    [range] + if out.Ask? then Requested(n, peer, syncLast, out.range) else []
  }

  /** Whatever the controls are, the search requests an initial part of the windows, and stops. */
  lemma {:induction false} RequestsAreWindows(n: Node, peer: Node, syncLast: int, top: int)
    requires top >= 0 && top % CONTROL_INTERVAL == 0
    requires HoldsControls(peer.sections, 0, top)
    ensures Requested(n, peer, syncLast, WindowBelow(top)) <= Windows(top)
  {
    hide Scan, ControlsIn;
    var range := WindowBelow(top);
    var out := Decide(n, syncLast, ControlResponse(range, ControlsIn(peer.sections, range.from, range.to)));
    if out.Ask? {
      RequestsAreWindows(n, peer, syncLast, range.from - CONTROL_INTERVAL);
    }
  }

  predicate WellFormedWindow(w: ControlRange) {
    0 <= w.from <= w.to <= w.from + WINDOW && w.from % CONTROL_INTERVAL == 0 && w.to % CONTROL_INTERVAL == 0
  }

  lemma WindowIsWellFormed(top: int)
    requires top >= 0 && top % CONTROL_INTERVAL == 0
    ensures WellFormedWindow(WindowBelow(top)) && (WindowBelow(top).from - CONTROL_INTERVAL) % CONTROL_INTERVAL == 0
  {
  }

  lemma {:induction false} WindowAt(top: int, k: nat)
    requires top >= 0 && top % CONTROL_INTERVAL == 0 && k < |Windows(top)|
    ensures WellFormedWindow(Windows(top)[k])
    ensures k == 0 ==> Windows(top)[k].to == top
    ensures k > 0 ==> Windows(top)[k].to == Windows(top)[k - 1].from - CONTROL_INTERVAL
    ensures k == |Windows(top)| - 1 <==> Windows(top)[k].from < CONTROL_INTERVAL
    decreases k
  {
    WindowIsWellFormed(top);
    var w := WindowBelow(top);
    hide WellFormedWindow, WindowBelow;
    if k > 0 {
      var lower := w.from - CONTROL_INTERVAL;
      assert Windows(top) == [w] + Windows(lower);
      WindowAt(lower, k - 1);
      assert Windows(top)[k] == Windows(lower)[k - 1];
      if k > 1 {
        assert Windows(top)[k - 1] == Windows(lower)[k - 2];
      }
    }
  }

  /** The windows are aligned, hold at most 16 controls, and each ends right below the one before, down to section 0. */
  lemma WindowsTile(top: int)
    requires top >= 0 && top % CONTROL_INTERVAL == 0
    ensures forall k | 0 <= k < |Windows(top)| :: WellFormedWindow(Windows(top)[k])
    ensures forall k | 0 < k < |Windows(top)| :: Windows(top)[k].to == Windows(top)[k - 1].from - CONTROL_INTERVAL
    ensures Windows(top)[0].to == top && Windows(top)[|Windows(top)| - 1].from == 0
  {
    var n := |Windows(top)|;
    WindowAt(top, 0);
    WindowAt(top, n - 1);
    FirstWindowStartsAtZero(Windows(top)[n - 1]);
    hide Windows, WellFormedWindow;
    forall k | 0 <= k < n
      ensures WellFormedWindow(Windows(top)[k])
      ensures k > 0 ==> Windows(top)[k].to == Windows(top)[k - 1].from - CONTROL_INTERVAL
    {
      WindowAt(top, k);
    }
  }

  lemma FirstWindowStartsAtZero(w: ControlRange)
    requires WellFormedWindow(w) && w.from < CONTROL_INTERVAL
    ensures w.from == 0
  {
  }

  /** Above section 300 a window holds 16 controls, the last one at its top; below, all there are. */
  lemma WindowHolds16(st: Store, top: int)
    requires top >= 0 && top % 20 == 0 && HoldsControls(st, WindowBelow(top).from, top)
    ensures |ControlsIn(st, WindowBelow(top).from, top)| == if top >= 300 then 16 else top / 20 + 1
    ensures WindowBelow(top).to == top
  {
    WindowIsWellFormed(top);
    hide HoldsControls;
    ControlsInLength(st, WindowBelow(top).from, top);
  }

  lemma {:induction false} WindowCount(top: int)
    requires top >= 0
    ensures |Windows(top)| <= top / (WINDOW + CONTROL_INTERVAL) + 1
  {
    var w := WindowBelow(top);
    if w.from >= CONTROL_INTERVAL {
      WindowCount(w.from - CONTROL_INTERVAL);
      assert top == w.from - CONTROL_INTERVAL + (WINDOW + CONTROL_INTERVAL);
    }
  }
}
