/**
 How a full node repairs its chain from one honest peer: it walks windows of 16 controls downwards
 until it finds where it differs, deletes from 50 sections before that, and downloads again in
 batches (sources/chain/dag.cpp).
*/
module Resync {
  import opened ControlChain
  import opened DagState

  const WINDOW := 300
  const STEP_BACK := 50
  const SYNC_SECTIONS_BATCH := 2100
  const SECTION_SIZE := 10000

  datatype ControlRange = ControlRange(from: int, to: int)

  datatype ControlResponse = ControlResponse(range: ControlRange, controls: seq<DagControl>)

  /** What the answer to a control request leads to. */
  datatype Outcome =
    | Ask(range: ControlRange)  // the next request
    | Nothing                   // no message at all; the search runs into its timeout
    | Complete                  // taken for synchronised
    | Repair(syncFrom: int)     // delete and download again from here

  function Max(a: int, b: int): int { if a < b then b else a }

  function Min(a: int, b: int): int { if a < b then a else b }

  /** Up to 16 controls, the last one at `hi`. */
  function WindowBelow(hi: int): ControlRange {
    ControlRange(if hi >= WINDOW then hi - WINDOW else 0, hi)
  }

  // The peer's side.

  predicate HoldsControls(st: Store, from: int, to: int) {
    forall i | from <= i <= to && i % CONTROL_INTERVAL == 0 :: ControlAt(st, i).Some?
  }

  function ControlsIn(st: Store, from: int, to: int): seq<DagControl>
    requires from % CONTROL_INTERVAL == 0 && HoldsControls(st, from, to)
    decreases 1 + to - from
  {
    if from > to then []
    else [DagControl(from, ControlAt(st, from).value)] + ControlsIn(st, from + CONTROL_INTERVAL, to)
  }

  lemma HoldsTail(st: Store, from: int, to: int)
    requires HoldsControls(st, from, to) && from % CONTROL_INTERVAL == 0
    ensures HoldsControls(st, from + CONTROL_INTERVAL, to)
    ensures from <= to ==> ControlAt(st, from).Some?
  {
    hide ControlAt;
  }

  lemma HoldsNext(st: Store, from: int, s: int)
    requires HoldsControls(st, from, s - 1) && ControlAt(st, s).Some? && s % CONTROL_INTERVAL == 0
    ensures HoldsControls(st, from, s + 19)
  {
    hide ControlAt;
  }

  /** The next control, appended. */
  lemma {:induction false} ControlsInNext(st: Store, from: int, s: int)
    requires from % CONTROL_INTERVAL == 0 && s % CONTROL_INTERVAL == 0 && from <= s
    requires HoldsControls(st, from, s - 1) && ControlAt(st, s).Some?
    ensures HoldsControls(st, from, s + 19)
    ensures ControlsIn(st, from, s + 19) == ControlsIn(st, from, s - 1) + [DagControl(s, ControlAt(st, s).value)]
    decreases s - from
  {
    HoldsNext(st, from, s);
    HoldsTail(st, from, s - 1);
    HoldsTail(st, from, s + 19);
    AlignedStep(from, s);
    hide ControlAt, HoldsControls;
    if from < s {
      ControlsInNext(st, from + CONTROL_INTERVAL, s);
    }
  }

  lemma AlignedStep(from: int, to: int)
    requires from % CONTROL_INTERVAL == 0 && to % CONTROL_INTERVAL == 0
    ensures (from + CONTROL_INTERVAL) % CONTROL_INTERVAL == 0
    ensures from < to ==> from + CONTROL_INTERVAL <= to
  {
  }

  /** Where no control section lies between, it does not matter how far one looks. */
  lemma {:induction false} ControlsInEnd(st: Store, from: int, to: int)
    requires from % CONTROL_INTERVAL == 0 && to % CONTROL_INTERVAL == 0 && from <= to
    requires HoldsControls(st, from, to + 19)
    ensures HoldsControls(st, from, to) && ControlsIn(st, from, to + 19) == ControlsIn(st, from, to)
    decreases 1 + to - from
  {
    hide ControlAt;
    if from < to {
      ControlsInEnd(st, from + CONTROL_INTERVAL, to);
    }
  }

  /** The highest control section of the range that has no control. */
  ghost predicate IsLastMissing(st: Store, range: ControlRange, i: int) {
    && range.from <= i <= range.to && i % CONTROL_INTERVAL == 0 && ControlAt(st, i).None?
    && HoldsControls(st, i + 1, range.to)
  }

  predicate IsAligned(range: ControlRange) {
    range.from % CONTROL_INTERVAL == 0 && range.to % CONTROL_INTERVAL == 0 && range.from <= range.to
  }

  /** The controls below s, all of them, or the last one that is missing. */
  ghost predicate Collected(st: Store, range: ControlRange, s: int, controls: seq<DagControl>, missing: int) {
    && IsAligned(range) && range.from <= s <= range.to + CONTROL_INTERVAL && s % CONTROL_INTERVAL == 0
    && if missing == -1
       then HoldsControls(st, range.from, s - 1) && controls == ControlsIn(st, range.from, s - 1)
       else IsLastMissing(st, ControlRange(range.from, s - 1), missing)
  }

  lemma CollectedStart(st: Store, range: ControlRange)
    requires IsAligned(range)
    ensures Collected(st, range, range.from, [], -1)
  {
  }

  lemma CollectedNext(st: Store, range: ControlRange, s: int, controls: seq<DagControl>, missing: int)
    requires Collected(st, range, s, controls, missing) && s <= range.to
    ensures
      match ControlAt(st, s)
      case Some(c) => Collected(st, range, s + CONTROL_INTERVAL, controls + [DagControl(s, c)], missing)
      case None => Collected(st, range, s + CONTROL_INTERVAL, controls, s)
  {
    AlignedStep(s, range.to);
    if ControlAt(st, s).Some? {
      if missing == -1 {
        ControlsInNext(st, range.from, s);
      } else {
        HoldsNext(st, missing + 1, s);
      }
    } else {
      HoldsNoneAfter(st, s);
    }
    hide ControlAt, HoldsControls, ControlsIn;
  }

  lemma CollectedEnd(st: Store, range: ControlRange, s: int, controls: seq<DagControl>, missing: int)
    requires Collected(st, range, s, controls, missing) && s > range.to
    ensures missing == -1 ==>
      HoldsControls(st, range.from, range.to) && controls == ControlsIn(st, range.from, range.to)
    ensures missing != -1 ==> IsLastMissing(st, range, missing) && !HoldsControls(st, range.from, range.to)
  {
    AlignedEnd(range.to, s);
    if missing == -1 {
      ControlsInEnd(st, range.from, range.to);
    }
    hide ControlAt, ControlsIn;
  }

  lemma HoldsNoneAfter(st: Store, s: int)
    requires s % CONTROL_INTERVAL == 0
    ensures HoldsControls(st, s + 1, s + 19)
  {
  }

  lemma AlignedEnd(to: int, s: int)
    requires to % CONTROL_INTERVAL == 0 && s % CONTROL_INTERVAL == 0 && to < s <= to + CONTROL_INTERVAL
    ensures s == to + CONTROL_INTERVAL
  {
  }

  // The searching node's side.

  /** The comparison loop from index i on: where to synchronise from (-1: nowhere), and whether to look lower. */
  function Scan(st: Store, controls: seq<DagControl>, i: nat, syncFrom: int): (int, bool)
    decreases |controls| - i
  {
    if i >= |controls| then (syncFrom, false)
    else
      var c := controls[i];
      var mine := ControlAt(st, c.sectionId);
      if mine.None? then
        if i == 0 then (syncFrom, true) else Scan(st, controls, i + 1, c.sectionId)
      else if mine.value != c.control then (c.sectionId, i == 0)
      else Scan(st, controls, i + 1, syncFrom)
  }

  function Decide(n: Node, syncLast: int, response: ControlResponse): Outcome {
    var (found, forceNext) := Scan(n.sections, response.controls, 0, -1);
    if forceNext then
      if response.range.from > 0
      then
        var from := response.range.from;
        Ask(WindowBelow(if from >= CONTROL_INTERVAL then from - CONTROL_INTERVAL else 0))
      else Nothing
    else if found == -1 && syncLast <= n.current then Complete
    else
      var syncFrom := if found == -1 then n.current else found;
      if syncFrom == -1 then Nothing else Repair(syncFrom)
  }

  /** Requests and answers until something else than another request comes out. */
  function Search(n: Node, peer: Node, syncLast: int, range: ControlRange): Outcome
    requires 0 <= range.from <= range.to && range.from % CONTROL_INTERVAL == 0
    requires HoldsControls(peer.sections, 0, range.to)
    decreases range.from
  {
    var out := Decide(n, syncLast, ControlResponse(range, ControlsIn(peer.sections, range.from, range.to)));
    if out.Ask? then Search(n, peer, syncLast, out.range) else out
  }

  // Deleting.

  /** The folder of a section file; the division truncates, so folder 0 also takes negative sections. */
  function FolderOf(i: int): int {
    if i >= 0 then i / SECTION_SIZE else -(-i / SECTION_SIZE)
  }

  /** Is the file of section i deleted, on its own or with its folder, whose first section is in the range? */
  predicate Removed(n: Node, from: int, i: int) {
    from <= i <= n.current || from <= SECTION_SIZE * FolderOf(i) <= n.current
  }

  /** What is deleted once the downward deletion has passed section i. */
  predicate RemovedDownTo(n: Node, i: int, j: int) {
    i <= j <= n.current || i <= SECTION_SIZE * FolderOf(j) <= n.current
  }

  lemma RemovedStep(n: Node, i: int)
    requires 0 <= i <= n.current
    ensures forall j :: RemovedDownTo(n, i, j) <==>
      RemovedDownTo(n, i + 1, j) || j == i || (i % SECTION_SIZE == 0 && FolderOf(j) == i / SECTION_SIZE)
  {
  }

  function LeftAbove(n: Node, i: int): Store {
    map j | j in n.sections && !RemovedDownTo(n, i, j) :: n.sections[j]
  }

  function WithoutFolder(st: Store, folder: int): Store {
    map j | j in st && FolderOf(j) != folder :: st[j]
  }

  lemma LeftAboveAll(n: Node)
    ensures LeftAbove(n, n.current + 1) == n.sections
  {
    hide FolderOf;
  }

  /** One round of the deletion: the file of section i, and the folder that begins with it. */
  lemma LeftStep(n: Node, i: int)
    requires 0 <= i <= n.current
    ensures LeftAbove(n, i) ==
      var left := LeftAbove(n, i + 1) - {i};
      if i % SECTION_SIZE == 0 then WithoutFolder(left, i / SECTION_SIZE) else left
  {
    RemovedStep(n, i);
    hide FolderOf, RemovedDownTo;
  }

  lemma LeftInTheEnd(n: Node, from: int, i: int)
    requires i == Max(0, from) || (i == n.current + 1 && i <= Max(0, from))
    ensures LeftAbove(n, i) == RemoveFrom(n, from).sections
  {
    hide FolderOf;
  }

  function RemoveFrom(n: Node, from: int): Node {
    var correctFrom := Max(0, from);
    Node(
      map i | i in n.sections && !Removed(n, correctFrom, i) :: n.sections[i],
      correctFrom, n.firstSaved, AlignDown20(from))
  }

  // Downloading.

  datatype SectionFile = SectionFile(sectionId: int, section: Section)

  datatype FileSync = FileSync(to: int, files: seq<SectionFile>, lastSection: int)

  /** The files that a request for from .. to is answered with. */
  function FilesIn(st: Store, from: int, to: int): seq<SectionFile>
    decreases 1 + to - from
  {
    if to < from then []
    else FilesIn(st, from, to - 1) + if to in st then [SectionFile(to, st[to])] else []
  }

  function TakeFile(n: Node, f: SectionFile): Node {
    RaiseCurrent(n.(
      sections := n.sections[f.sectionId := f.section],
      firstSaved :=
        if n.firstSaved == -1 || f.sectionId < n.firstSaved then f.sectionId else n.firstSaved), f.sectionId)
  }

  /** The files written over the node's own, and its bounds adjusted. */
  function TakeFiles(n: Node, files: seq<SectionFile>): Node {
    if |files| == 0 then n else TakeFile(TakeFiles(n, files[..|files| - 1]), files[|files| - 1])
  }

  lemma TakeFilesNext(n: Node, files: seq<SectionFile>, i: nat)
    requires i < |files|
    ensures TakeFiles(n, files[..i + 1]) == TakeFile(TakeFiles(n, files[..i]), files[i])
  {
    assert files[..i + 1][..i] == files[..i];
  }

  lemma {:induction false} TakeFilesKeepCache(n: Node, files: seq<SectionFile>)
    ensures TakeFiles(n, files).cached == n.cached
  {
    if |files| > 0 {
      TakeFilesKeepCache(n, files[..|files| - 1]);
    }
  }

  function Receive(n: Node, peer: Node, from: int, to: int): Node {
    TakeFiles(n, FilesIn(peer.sections, from, to))
  }

  /** Batch after batch; the second part is the `to` of the last one. */
  function Download(n: Node, peer: Node, from: int, to: int): (Node, int)
    decreases peer.current - to
  {
    var m := Receive(n, peer, from, to);
    if to >= peer.current - 1 then (m, to)
    else Download(m, peer, to + 1, Min(peer.current, to + SYNC_SECTIONS_BATCH))
  }

  /** A whole repair: search from the control at `hi`, delete, download. */
  function Resynchronise(n: Node, peer: Node, hi: int): Node
    requires 0 <= hi && hi % CONTROL_INTERVAL == 0
    requires HoldsControls(peer.sections, 0, hi)
  {
    var out := Search(n, peer, peer.current, WindowBelow(hi));
    if out.Repair? then
      var from := Max(0, out.syncFrom - STEP_BACK);
      Download(RemoveFrom(n, from), peer, from, Min(out.syncFrom + SYNC_SECTIONS_BATCH, peer.current)).0
    else n
  }
}
