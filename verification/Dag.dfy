/**
 `Dag`: the object whose methods keep the chain of a full node.  Section files are the map
 `sections`; every method is proved against the functions of DagState.
*/
module DagObject {
  import opened Wrappers
  import opened Hashing
  import opened OrderedSets
  import opened Transactions
  import opened ControlChain
  import opened DagState
  import opened ClearControls
  import opened Resync
  import opened ResyncTheorems
  import opened SectionStorage
  import opened Balances
  import opened Acceptance

  datatype WriteResult = Write | NoChanges

  /** What a control request is answered with; `Regenerate` is followed by rebuilding the controls from there. */
  datatype ControlAnswer = Refused | Regenerate(from: int) | Controls(response: ControlResponse)

  class Dag {
    const h: Hasher
    var sections: Store
    var current: int
    var firstSaved: int
    var cached: int
    var syncLast: int
    var searchControl: bool

    constructor (h: Hasher)
      ensures this.h == h
      ensures State() == Node(map[], -1, -1, -1)
    {
      this.h := h;
      sections := map[];
      current, firstSaved, cached := -1, -1, -1;
      syncLast, searchControl := 0, false;
    }

    ghost function State(): Node
      reads this
    {
      Node(sections, current, firstSaved, cached)
    }

    method ReadSection(i: int) returns (r: Option<Section>)
      ensures r == if i in sections then Some(sections[i]) else None
    {
      r := if i in sections then Some(sections[i]) else None;
    }

    method SetCurrentSection(s: int)
      modifies this`current
      ensures State() == RaiseCurrent(old(State()), s)
    {
      if current < s {
        current := s;
      }
    }

    method FindLastControl(from: int, disableBreak: bool) returns (r: Option<DagControl>)
      ensures
        var start := if from < 0 then current else from;
        match r
        case Some(c) =>
          IsLastControl(State(), start, disableBreak, c.sectionId)
          && ControlAt(sections, c.sectionId) == Some(c.control)
        case None => forall i :: !IsLastControl(State(), start, disableBreak, i)
    {
      var sectionsChecked, withoutControl := 0, 0;
      if disableBreak {
        var zero := ReadSection(0);
        if zero.Some? && zero.value.control.None? {
          return None;
        }
      }
      var start := if from < 0 then current else from;
      var i := start;
      while i >= 0
        invariant i <= start
        invariant sectionsChecked == start - i <= MAX_SECTIONS_CHECKED
        invariant i < start ==> firstSaved <= i + 1
        invariant forall j | i < j <= start :: !Usable(sections, j)
        invariant !disableBreak ==> withoutControl == Uncontrolled(sections, i, start) <= MAX_WITHOUT_CONTROL
        decreases i
      {
        sectionsChecked := sectionsChecked + 1;
        if sectionsChecked > MAX_SECTIONS_CHECKED {
          break;
        }
        if i < firstSaved {
          break;
        }
        var section := ReadSection(i);
        if section.None? {
          if !disableBreak {
            withoutControl := withoutControl + 1;
            if withoutControl > MAX_WITHOUT_CONTROL {
              break;
            }
          }
        } else if section.value.control.Some? {
          if i % CONTROL_INTERVAL == 0 {
            return Some(DagControl(i, section.value.control.value));
          }
        } else {
          withoutControl := withoutControl + 1;
          if !disableBreak && withoutControl > MAX_WITHOUT_CONTROL {
            break;
          }
        }
        i := i - 1;
      }
      forall k | IsLastControl(State(), start, disableBreak, k)
        ensures false
      {
        if k < i {
          UncontrolledGrows(sections, k, i - 1, start);
        }
      }
      r := None;
    }

    method ReadControl(i: int) returns (r: Option<DagControl>)
      ensures r == match ControlAt(sections, i) case Some(c) => Some(DagControl(i, c)) case None => None
    {
      var section := ReadSection(i);
      if section.None? || section.value.control.None? {
        return None;
      }
      r := Some(DagControl(i, section.value.control.value));
    }

    method HashInterval(from: int, to: int) returns (r: Option<Digest>)
      ensures r == if to > current then None else Some(IntervalHash(h, sections, from, to))
    {
      var sectionHashes := "";
      if to > current {
        return None;
      }
      var i := from;
      assert IntervalInput(h, sections, from, i - 1) == "";
      hide IntervalInput;
      while i <= to
        invariant from <= i && (i <= to + 1 || i == from)
        invariant sectionHashes == IntervalInput(h, sections, from, i - 1)
        decreases 1 + to - i
      {
        var section := ReadSection(i);
        var isEmpty := section.None? || |section.value.transactions| == 0;
        if isEmpty {
          sectionHashes := sectionHashes + h.digest(h.decimal(i));
        } else {
          var txHashes := CalculateHash(section.value);
          sectionHashes := sectionHashes + h.digest(h.decimal(i) + txHashes);
          assert section.value.transactions == TransactionsAt(sections, i);
        }
        AppendLeaf(h, sections, from, i);
        i := i + 1;
      }
      r := Some(h.digest(sectionHashes));
    }

    /** `Section::calculate_hash`. */
    method CalculateHash(section: Section) returns (r: Digest)
      ensures r == h.digest(Concat(Hashes(section.transactions)))
    {
      var txHashes := "";
      for j := 0 to |section.transactions|
        invariant txHashes == Concat(Hashes(section.transactions[..j]))
      {
        txHashes := txHashes + section.transactions[j].hash;
        AppendHash(section.transactions[..j], section.transactions[j]);
        assert section.transactions[..j] + [section.transactions[j]] == section.transactions[..j + 1];
      }
      assert section.transactions[..|section.transactions|] == section.transactions;
      r := h.digest(txHashes);
    }

    method WriteControl(i: int, hash: Digest) returns (r: Option<WriteResult>)
      modifies this`sections
      ensures i % CONTROL_INTERVAL != 0 ==> r == None && sections == old(sections)
      ensures i % CONTROL_INTERVAL == 0 ==> r.Some? && sections == WithControl(old(sections), i, hash)
    {
      if i % CONTROL_INTERVAL != 0 {
        return None;
      }
      var section := ReadSection(i);
      var loaded := if section.Some? then section.value else Section([], None);
      if loaded.control == Some(hash) {
        return Some(NoChanges);
      }
      sections := sections[i := loaded.(control := Some(hash))];
      r := Some(Write);
    }

    method RemoveControl(i: int) returns (r: Option<WriteResult>)
      modifies this`sections
      ensures r.None? <==> i !in old(sections)
      ensures sections == Cleared(old(sections), i)
    {
      var section := ReadSection(i);
      if section.None? {
        return None;
      }
      if section.value.control.None? {
        return Some(Write);
      }
      if i == 0 {
        return Some(NoChanges);
      }
      sections := sections[i := section.value.(control := None)];
      r := Some(Write);
    }

    /** `clear_controls`. */
    method ClearControlsFrom(from: int)
      modifies this`sections
      ensures sections == ClearedBetween(old(sections), from, current)
    {
      var i := from;
      while i <= current
        invariant from <= i && (i <= current + 1 || i == from)
        invariant sections == ClearedBetween(old(sections), from, i - 1)
      {
        var section := ReadSection(i);
        if section.Some? && section.value.control.Some? {
          var _ := RemoveControl(i);
        }
        i := i + 1;
      }
    }

    /** Writes the control at the end of the interval that begins at `start`; `lastHash` is threaded through. */
    method GenerateHashForInterval(start: int, lastHash: string) returns (r: Option<Digest>, newLast: string)
      modifies this`sections
      ensures
        var end := if start == 0 then 0 else start + 19;
        var interval := IntervalHash(h, old(sections), start, end);
        var control := if start == 0 then interval else h.digest(lastHash + interval);
        if end > current || !OnGrid(start) then r == None && newLast == lastHash && sections == old(sections)
        else r == Some(control) && newLast == control && sections == WithControl(old(sections), end, control)
    {
      hide IntervalHash, WithControl;
      var intervalEnd := if start == 0 then 0 else start + 19;
      if start != 0 && (start % CONTROL_INTERVAL == 0 || (start - 1) % CONTROL_INTERVAL != 0) {
        return None, lastHash;
      }
      var intervalHash := HashInterval(start, intervalEnd);
      if intervalHash.None? {
        return None, lastHash;
      }
      var control: Digest := if start != 0 then h.digest(lastHash + intervalHash.value) else intervalHash.value;
      var written := WriteControl(intervalEnd, control);
      r, newLast := Some(control), control;
    }

    /** The loop of `generate_hash_from_section`. */
    method GenerateRest(start: int, base: string) returns (lastHash: string)
      modifies this`sections
      ensures State() == Loop(h, old(State()), start, base)
    {
      hide IntervalHash;
      var currentStart := start;
      lastHash := base;
      while currentStart <= current && currentStart < current
        invariant Loop(h, State(), currentStart, lastHash) == Loop(h, old(State()), start, base)
        decreases current - currentStart
      {
        if currentStart + CONTROL_INTERVAL > current {
          break;
        }
        if currentStart > cached {
          break;
        }
        var _, next := GenerateHashForInterval(currentStart, lastHash);
        lastHash := next;
        currentStart := currentStart + CONTROL_INTERVAL;
      }
    }

    method GenerateHashFromSection(start: int, full: bool) returns (r: Option<string>)
      modifies this`sections
      ensures State() == GenerateFrom(h, old(State()), start, full)
    {
      hide Loop, Resume, IsLastControl, LastControl, IntervalHash;
      var lastHash := "";
      if start > 0 {
        var lastControl := FindLastControl(start - 1, false);
        if lastControl.None? {
          NoLastControl(State(), start - 1, false);
          return None;
        }
        LastControlIs(State(), start - 1, false, lastControl.value.sectionId);
        lastHash := lastControl.value.control;
      }
      if start == 0 {
        var _, first := GenerateHashForInterval(0, lastHash);
        FirstControlIs(h, old(sections));
        lastHash := first;
        if !full {
          return Some(lastHash);
        }
      }
      LoopFrom(h, State(), start, lastHash);
      LoopEnds(h, State(), 1, lastHash);
      lastHash := GenerateRest(if start == 0 then 1 else start, lastHash);
      r := Some(lastHash);
    }

    /** `generate_hash` of a full node. */
    method GenerateHash(start: int) returns (ok: bool)
      modifies this`sections
      ensures State() ==
        if start > cached && start != 0 then old(State()) else GenerateFrom(h, old(State()), start, true)
    {
      if start > cached && start != 0 {
        return true;
      }
      var result := GenerateHashFromSection(start, true);
      ok := result.Some?;
    }

    /**
     `start_control`.  The branches for a control found off a multiple of 20 are not repeated:
     `find_last_control` never returns one.
    */
    method StartControl(force: bool)
      modifies this`sections
      ensures State() == DagState.StartControl(h, old(State()), force)
    {
      hide GenerateFrom, ControlAt;
      var found := FindLastControl(-1, false);
      if found.Some? {
        LastControlIs(State(), current, false, found.value.sectionId);
        if !force {
          return;
        }
      }
      var foundFull := FindLastControl(current, true);
      var startFrom := 0;
      if foundFull.Some? {
        LastControlIs(State(), current, true, foundFull.value.sectionId);
        startFrom := foundFull.value.sectionId + 1;
        BeginsAfterControl(foundFull.value.sectionId / CONTROL_INTERVAL);
      }
      var _ := GenerateHash(startFrom);
    }

    /** `check_and_update_cache` and `update_to_genesis_section`: the sections now covered, if the cache moved. */
    method CheckAndUpdateCache() returns (r: Option<(int, int)>)
      modifies this`cached
      ensures
        match CacheTarget(old(State()))
        case Some(to) => r == Some((CacheStart(old(State())), to)) && cached == to
        case None => r == None && cached == old(cached)
      ensures r.Some? ==> cached % CONTROL_INTERVAL == 0 && 0 <= cached <= current - 15 < cached + CONTROL_INTERVAL
      ensures r.Some? && old(cached) >= 0 ==> cached >= old(cached) + 15 && r.value.0 == old(cached) + 1
      ensures r.None? && old(cached) >= 0 && old(cached) % CONTROL_INTERVAL == 0 ==>
        cached + CONTROL_INTERVAL > current - 15
    {
      if current < CACHE_LAG_SECTIONS {
        return None;
      }
      var safe := AlignDown20(current - CACHE_LAG_SECTIONS);
      if cached != -1 && safe <= cached {
        return None;
      }
      if cached > safe {
        return None;
      }
      if cached != -1 && safe - cached < CACHE_LAG_SECTIONS {
        return None;
      }
      var from := if cached != -1 then cached + 1 else firstSaved;
      cached := safe;
      r := Some((from, safe));
    }

    /** `check_and_update_cache_thread` of a ready full node. */
    method CheckAndUpdateCacheThread()
      modifies this`cached, this`sections
      ensures State() == UpdateCache(h, old(State()))
    {
      var moved := CheckAndUpdateCache();
      if moved.Some? {
        var _ := GenerateHashFromSection(moved.value.0, false);
      }
    }

    method UpdateFirstSaved(s: int)
      modifies this`firstSaved
      ensures State() == NoteFirst(old(State()), s)
    {
      if firstSaved == -1 && s >= 0 {
        firstSaved := s;
      }
    }

    method SaveTransaction(tx: Transaction)
      modifies this`sections, this`current, this`firstSaved, this`cached
      ensures RaiseCurrent(State(), tx.section) == Save(h, old(State()), tx)
    {
      var found := ReadSection(tx.section);
      if found.None? {
        var section := Section([tx], None);
        SetCurrentSection(tx.section);
        CheckAndUpdateCacheThread();
        UpdateFirstSaved(tx.section);
        sections := sections[tx.section := section];
      } else {
        var section := Section(Insert(found.value.transactions, tx, Less), None);
        CheckAndUpdateCacheThread();
        UpdateFirstSaved(tx.section);
        sections := sections[tx.section := section];
      }
    }

    /** What `network_transaction` does with an approved transaction. */
    method StoreApproved(tx: Transaction)
      modifies this`sections, this`current, this`firstSaved, this`cached
      ensures State() == Save(h, old(State()), tx)
    {
      SaveTransaction(tx);
      SetCurrentSection(tx.section);
    }

    /** `request_control_section`; `expired` says whether a search under way has outlived its timeout. */
    method RequestControlSection(fromTop: int, expired: bool) returns (r: Option<ControlRange>)
      modifies this`searchControl
      ensures searchControl
      ensures r ==
        if old(searchControl) && !expired then None else Some(WindowBelow(AlignDown20(Min(fromTop, current))))
    {
      if searchControl {
        if !expired {
          return None;
        }
        searchControl := false;
      }
      var hi := AlignDown20(if fromTop < current then fromTop else current);
      var lo := if hi >= WINDOW then hi - WINDOW else 0;
      searchControl := true;
      r := Some(ControlRange(lo, hi));
    }

    /** `network_request_control_section`, up to the regeneration that a missing control leads to. */
    method NetworkRequestControlSection(range: ControlRange) returns (r: ControlAnswer)
      ensures
        if !IsAligned(range) then r == Refused
        else if HoldsControls(sections, range.from, range.to)
          then r == Controls(ControlResponse(range, ControlsIn(sections, range.from, range.to)))
        else r.Regenerate? && IsLastMissing(sections, range, r.from)
    {
      if range.from % CONTROL_INTERVAL != 0 || range.to % CONTROL_INTERVAL != 0 || range.to < range.from {
        return Refused;
      }
      hide HoldsControls, ControlsIn, Collected, IsLastMissing, ControlAt;
      var controls, missing, s := [], -1, range.from;
      CollectedStart(sections, range);
      while s <= range.to
        invariant Collected(sections, range, s, controls, missing)
        decreases 1 + range.to - s
      {
        CollectedNext(sections, range, s, controls, missing);
        var control := ReadControl(s);
        if control.None? {
          missing := s;
        } else {
          controls := controls + [control.value];
        }
        s := s + CONTROL_INTERVAL;
      }
      CollectedEnd(sections, range, s, controls, missing);
      r := if missing != -1 then Regenerate(missing) else Controls(ControlResponse(range, controls));
    }

    /** What a missing control leads to: all from it on is generated anew, and the request read again. */
    method RegenerateAndRetry(range: ControlRange, from: int) returns (r: ControlAnswer)
      modifies this`sections
      ensures State() == Regenerated(h, old(State()), from)
      ensures
        if !IsAligned(range) then r == Refused
        else if HoldsControls(sections, range.from, range.to)
          then r == Controls(ControlResponse(range, ControlsIn(sections, range.from, range.to)))
        else r.Regenerate? && IsLastMissing(sections, range, r.from)
    {
      ClearControlsFrom(from);
      StartControl(true);
      r := NetworkRequestControlSection(range);
    }

    /** The loop of `network_control_range_response`. */
    method CompareControls(controls: seq<DagControl>) returns (syncFrom: int, forceNext: bool)
      ensures (syncFrom, forceNext) == Scan(sections, controls, 0, -1)
    {
      syncFrom, forceNext := -1, false;
      var i := 0;
      while i != |controls|
        invariant 0 <= i <= |controls| && !forceNext
        invariant Scan(sections, controls, 0, -1) == Scan(sections, controls, i, syncFrom)
        decreases |controls| - i
      {
        var sectionId, control := controls[i].sectionId, controls[i].control;
        var local := ReadControl(sectionId);
        if local.None? && i == 0 {
          return syncFrom, true;
        }
        if local.None? {
          syncFrom := sectionId;
        } else if local.value.control != control {
          return sectionId, i == 0;
        }
        i := i + 1;
      }
    }

    /** `network_control_range_response`: the outcome, after deleting what is to be downloaded again. */
    method NetworkControlRangeResponse(response: ControlResponse, luminance: int) returns (out: Outcome)
      modifies this`sections, this`current, this`cached, this`searchControl
      ensures
        var valid := response.range.from % CONTROL_INTERVAL == 0 && response.range.to % CONTROL_INTERVAL == 0
          && response.range.from <= response.range.to && luminance >= 2;
        out == if valid then Decide(old(State()), syncLast, response) else Nothing
      ensures State() ==
        if out.Repair? then RemoveFrom(old(State()), Max(0, out.syncFrom - STEP_BACK)) else old(State())
      ensures
        var aligned := response.range.from % CONTROL_INTERVAL == 0 && response.range.to % CONTROL_INTERVAL == 0
          && response.range.from <= response.range.to;
        searchControl == if aligned && !out.Repair? && !out.Complete? then old(searchControl) else false
    {
      if response.range.from % CONTROL_INTERVAL != 0 || response.range.to % CONTROL_INTERVAL != 0
         || response.range.to < response.range.from {
        searchControl := false;
        return Nothing;
      }
      if luminance < 2 {
        return Nothing;
      }
      var syncFrom, forceNext := CompareControls(response.controls);
      if syncFrom == -1 && !forceNext {
        if syncLast <= current {
          searchControl := false;
          return Complete;
        }
        syncFrom := current;
      }
      if forceNext {
        if response.range.from > 0 {
          var nextHi := if response.range.from >= CONTROL_INTERVAL then response.range.from - CONTROL_INTERVAL else 0;
          var nextLo := if nextHi >= WINDOW then nextHi - WINDOW else 0;
          return Ask(ControlRange(nextLo, nextHi));
        }
        return Nothing;
      }
      if syncFrom == -1 {
        return Nothing;
      }
      searchControl := false;
      RemoveSections(Max(0, syncFrom - STEP_BACK));
      out := Repair(syncFrom);
    }

    /** `remove_sections` of a client build. */
    method RemoveSections(from: int)
      modifies this`sections, this`current, this`cached
      ensures State() == RemoveFrom(old(State()), from)
    {
      cached := AlignDown20(from);
      var to := current;
      var correctFrom := Max(0, from);
      current := correctFrom;
      hide FolderOf, LeftAbove, WithoutFolder;
      ghost var before := old(State());
      LeftAboveAll(before);
      var i := to;
      while i >= correctFrom
        invariant current == correctFrom && cached == AlignDown20(from)
        invariant i <= to && (i >= correctFrom - 1 || i == to)
        invariant sections == LeftAbove(before, i + 1)
        decreases i
      {
        LeftStep(before, i);
        sections := sections - {i};
        if i % SECTION_SIZE == 0 {
          RemoveFolder(i / SECTION_SIZE);
        }
        i := i - 1;
      }
      LeftInTheEnd(before, from, i + 1);
    }

    method RemoveFolder(folder: int)
      modifies this`sections
      ensures sections == WithoutFolder(old(sections), folder)
    {
      sections := map j | j in sections && FolderOf(j) != folder :: sections[j];
    }

    /** `network_request_file_sections`. */
    method NetworkRequestFileSections(from: int, to: int) returns (r: Option<FileSync>)
      ensures r ==
        if current < from || from < firstSaved || to < from then None
        else Some(FileSync(to, FilesIn(sections, from, to), current))
    {
      if current < from || from < firstSaved || to < from {
        return None;
      }
      var files: seq<SectionFile> := [];
      var i := from;
      while i <= to
        invariant from <= i <= to + 1
        invariant files == FilesIn(sections, from, i - 1)
        decreases 1 + to - i
      {
        var section := ReadSection(i);
        if section.Some? {
          files := files + [SectionFile(i, section.value)];
        }
        i := i + 1;
      }
      r := Some(FileSync(to, files, current));
    }

    /** `network_file_sections_response` of a full node: the next request, or none when it is done. */
    method NetworkFileSectionsResponse(sync: FileSync) returns (next: Option<ControlRange>)
      modifies this`sections, this`current, this`firstSaved, this`syncLast
      ensures State() == TakeFiles(old(State()), sync.files)
      ensures syncLast == Max(old(syncLast), sync.lastSection)
      ensures next ==
        if sync.to >= syncLast - 1 then None
        else Some(ControlRange(sync.to + 1, Min(syncLast, sync.to + SYNC_SECTIONS_BATCH)))
    {
      ghost var before := State();
      ghost var files := sync.files;
      for i := 0 to |sync.files|
        invariant sections == TakeFiles(before, files[..i]).sections
        invariant firstSaved == before.firstSaved && current == before.current && syncLast == old(syncLast)
      {
        sections := sections[sync.files[i].sectionId := sync.files[i].section];
        TakeFilesNext(before, files, i);
      }
      for i := 0 to |sync.files|
        invariant firstSaved == TakeFiles(before, files[..i]).firstSaved
        invariant current == TakeFiles(before, files[..i]).current
        invariant sections == TakeFiles(before, files[..|files|]).sections && syncLast == old(syncLast)
      {
        var sectionId := sync.files[i].sectionId;
        if firstSaved == -1 || sectionId < firstSaved {
          firstSaved := sectionId;
        }
        if sectionId > current {
          SetCurrentSection(sectionId);
        }
        TakeFilesNext(before, files, i);
      }
      TakeFilesKeepCache(before, files);
      assert files[..|files|] == files;
      if sync.lastSection > syncLast {
        syncLast := sync.lastSection;
      }
      if sync.to >= syncLast - 1 {
        return None;
      }
      next := Some(ControlRange(sync.to + 1, Min(syncLast, sync.to + SYNC_SECTIONS_BATCH)));
    }

    /** `calculate_section_diff`: both lists are walked once. */
    method CalculateSectionDiff(oldSection: Section, newSection: Section) returns (diff: SectionDiff)
      requires Increasing(oldSection.transactions, Less) && Increasing(newSection.transactions, Less)
      ensures IsDiff(oldSection.transactions, newSection.transactions, diff)
    {
      LessIsStrictTotalOrder();
      hide Less;
      var xs, ys := oldSection.transactions, newSection.transactions;
      var added: seq<Transaction>, removed: seq<Transaction> := [], [];
      var i, j := 0, 0;
      while i < |xs| && j < |ys|
        invariant 0 <= i <= |xs| && 0 <= j <= |ys|
        invariant DiffSoFar(xs, ys, Less, i, j, added, removed)
        decreases |xs| + |ys| - i - j
      {
        if Less(xs[i], ys[j]) {
          DiffRemoves(xs, ys, Less, i, j, added, removed);
          removed := removed + [xs[i]];
          i := i + 1;
        } else if Less(ys[j], xs[i]) {
          DiffAdds(xs, ys, Less, i, j, added, removed);
          added := added + [ys[j]];
          j := j + 1;
        } else {
          DiffSkips(xs, ys, Less, i, j, added, removed);
          i, j := i + 1, j + 1;
        }
      }
      while i < |xs|
        invariant 0 <= i <= |xs| && 0 <= j <= |ys| && (j == |ys| || i == |xs|)
        invariant DiffSoFar(xs, ys, Less, i, j, added, removed)
      {
        DiffRemoves(xs, ys, Less, i, j, added, removed);
        removed := removed + [xs[i]];
        i := i + 1;
      }
      while j < |ys|
        invariant 0 <= j <= |ys| && i == |xs|
        invariant DiffSoFar(xs, ys, Less, i, j, added, removed)
      {
        DiffAdds(xs, ys, Less, i, j, added, removed);
        added := added + [ys[j]];
        j := j + 1;
      }
      assert xs[..i] == xs && ys[..j] == ys;
      diff := SectionDiff(added, removed);
    }

    /**
     `save_transactions` of a full node, on a `std::set` of transactions, when every write succeeds: on
     contents, the same as saving them one by one in their order.  The pair of bounds that it returns is
     right unless the lowest section is -1, which the source uses to mark the start.
    */
    method SaveTransactions(txs: seq<Transaction>) returns (r: Option<(int, int)>)
      requires Increasing(txs, Less) && StoredBelow(State())
      modifies this`sections, this`current, this`firstSaved, this`cached
      ensures ContentsOf(State()) == AddAll(ContentsOf(old(State())), txs)
      ensures StoredBelow(State())
      ensures State() == SavedBatch(h, old(State()), txs, 0)
      ensures r.None? <==> |txs| == 0
      ensures r.Some? ==> r.value.1 == txs[|txs| - 1].section && IsLeastMarked(txs, r.value.0)
      ensures r.Some? ==> (r.value.0 == txs[0].section <==> txs[0].section != -1 || txs[|txs| - 1].section == -1)
    {
      if |txs| == 0 {
        return None;
      }
      hide Less, UpdateCache, ContentsOf, AddAll, SavedRun, SavedBatch, BoundsSoFar, IsLeastMarked;
      hide Increasing;
      SavedBatchEnds(h, txs);
      SavedBatchAdds(h, State(), txs, 0);
      assert txs[0..] == txs;
      var minSection, maxSection, first := -1, 0, 0;
      BoundsStart(txs, maxSection);
      while first < |txs|
        invariant 0 <= first <= |txs|
        invariant StoredBelow(State())
        invariant SavedBatch(h, State(), txs, first) == SavedBatch(h, old(State()), txs, 0)
        invariant 0 < first < |txs| ==> txs[first - 1].section != txs[first].section
        invariant BoundsSoFar(txs, first, minSection, maxSection)
      {
        var sectionId := txs[first].section;
        var last := EndOfRun(txs, first);
        BoundsMove(txs, first, last, minSection, maxSection);
        SavedBatchNext(h, State(), txs, first, last);
        RunOf(txs, first, last);
        if minSection == -1 {
          minSection, maxSection := sectionId, sectionId;
        } else {
          if sectionId < minSection {
            minSection := sectionId;
          }
          if sectionId > maxSection {
            maxSection := sectionId;
          }
        }
        SaveRun(sectionId, txs[first..last]);
        first := last;
      }
      BoundsEnd(txs, minSection, maxSection);
      r := Some((minSection, maxSection));
    }

    /** The inner loop of `save_transactions`. */
    method EndOfRun(txs: seq<Transaction>, first: nat) returns (last: nat)
      requires first < |txs|
      ensures first < last <= |txs| && forall k | first <= k < last :: txs[k].section == txs[first].section
      ensures last < |txs| ==> txs[last].section != txs[first].section
      ensures last < |txs| ==> txs[last - 1].section != txs[last].section
    {
      last := first;
      while last < |txs| && txs[last].section == txs[first].section
        invariant first <= last <= |txs|
        invariant forall k | first <= k < last :: txs[k].section == txs[first].section
      {
        last := last + 1;
      }
    }

    /** One round of the loop of `save_transactions`: a section is read, added to, and written once. */
    method SaveRun(sectionId: int, run: seq<Transaction>)
      requires |run| > 0 && forall tx | tx in run :: tx.section == sectionId
      requires StoredBelow(State())
      modifies this`sections, this`current, this`firstSaved, this`cached
      ensures State() == SavedRun(h, old(State()), sectionId, run)
      ensures ContentsOf(State()) == AddRun(ContentsOf(old(State())), sectionId, run)
      ensures TransactionsAt(sections, sectionId) != TransactionsAt(old(sections), sectionId) ==>
        ControlAt(sections, sectionId) == None
      ensures TransactionsAt(sections, sectionId) == TransactionsAt(old(sections), sectionId) ==>
        ControlAt(sections, sectionId) == ControlAt(old(sections), sectionId)
      ensures StoredBelow(State())
    {
      hide Less, UpdateCache, GenerateFrom, ContentsOf, InsertAll, CacheTarget;
      SavedRunAdds(h, State(), sectionId, run);
      var loaded := ReadSection(sectionId);
      var section := if loaded.Some? then loaded.value else Section([], None);
      var transactions := InsertAll(section.transactions, run, Less);
      var changed := |transactions| != |section.transactions|;
      section := Section(transactions, if changed then None else section.control);
      InsertAllGrows(TransactionsAt(sections, sectionId), run, Less);
      SetCurrentSection(sectionId);
      LookAtCache(loaded.None?);
      UpdateFirstSaved(sectionId);
      sections := sections[sectionId := section];
    }

    method LookAtCache(created: bool)
      requires StoredBelow(State())
      modifies this`sections, this`cached
      ensures State() == if created then UpdateCache(h, old(State())) else CacheMoved(old(State()))
      ensures StoredBelow(State()) && ContentsOf(State()) == ContentsOf(old(State()))
      ensures forall i :: TransactionsAt(sections, i) == TransactionsAt(old(sections), i)
    {
      hide UpdateCache, GenerateFrom;
      CacheUpdateKeepsContents(h, State());
      if created {
        CheckAndUpdateCacheThread();
      } else {
        var _ := CheckAndUpdateCache();
      }
    }

    /** `search_duplicate_by_hash`. */
    method SearchDuplicateByHash(hash: Digest, depth: nat) returns (r: Option<Transaction>)
      ensures r.Some? <==> FindsHash(State(), hash, depth)
      ensures r.Some? ==> r.value.hash == hash && exists i :: r.value in TransactionsAt(sections, i)
    {
      var count := 0;
      var i := current + 1;
      while i >= firstSaved
        invariant i <= current + 1
        invariant count == NonEmpty(sections, i + 1, current + 1) && (depth == 0 || count <= depth)
        invariant forall j | i < j <= current + 1 && 0 <= j :: !HoldsHash(sections, j, hash)
        decreases i - firstSaved
      {
        var section := ReadSection(i);
        if section.Some? && |section.value.transactions| > 0 && i >= 0 {
          var txs := section.value.transactions;
          assert txs == TransactionsAt(sections, i);
          for k := 0 to |txs|
            invariant forall m | 0 <= m < k :: txs[m].hash != hash
          {
            if txs[k].hash == hash {
              assert HoldsHash(sections, i, hash) && Searched(State(), i, depth);
              return Some(txs[k]);
            }
          }
          count := count + 1;
          if depth != 0 && count > depth {
            forall j
              ensures !(Searched(State(), j, depth) && HoldsHash(sections, j, hash))
            {
              if j < i {
                NonEmptyGrows(sections, j + 1, i, current + 1);
              }
            }
            return None;
          }
        }
        i := i - 1;
      }
      r := None;
    }

    /** `process_transaction`. */
    method ProcessTransaction(env: Env, tx: Transaction, balances: BalanceMap) returns (r: BalanceMap)
      ensures forall actor, token :: Get(r, actor, token) == Get(balances, actor, token) + Effect(env, tx, actor, token)
    {
      r := balances;
      if tx.kind == Unknown {
        return;
      }
      if tx.kind == Minting && tx.receiver != ZERO_ACTOR && tx.token != ZERO_ACTOR {
        r := Add(r, tx.receiver, tx.token, tx.amount);
        return;
      }
      if tx.kind == Reward && tx.sender != ZERO_ACTOR {
        r := Add(r, tx.sender, tx.token, tx.amount);
      } else if tx.kind == InitContract && tx.sender != ZERO_ACTOR && tx.token != ZERO_ACTOR {
        r := Add(r, tx.sender, tx.token, tx.amount);
      } else if tx.kind == Conversion && tx.sender != ZERO_ACTOR {
        if tx.meta.Some? {
          var fromToken := env.tokenOf(tx.meta.value);
          if fromToken.Some? {
            r := Add(r, tx.sender, fromToken.value, -tx.amount);
            r := Add(r, tx.sender, tx.token, tx.amount);
          }
        }
      } else {
        if tx.receiver != ZERO_ACTOR && tx.token != ZERO_ACTOR {
          r := Add(r, tx.receiver, tx.token, tx.amount);
        }
        if tx.sender != ZERO_ACTOR && tx.token != ZERO_ACTOR {
          r := Add(r, tx.sender, tx.token, -tx.amount);
        }
      }
    }

    /** `calculate_balances` for one actor, up to section `to`. */
    method CalculateBalances(env: Env, actor: ActorId, to: int) returns (balances: BalanceMap)
      ensures forall token :: Get(balances, actor, token) == Calculated(env, State(), actor, token, to)
      ensures forall key | key in balances :: key.0 == actor
    {
      hide Effect;
      balances := map[];
      if current == -1 {
        return;
      }
      var start := firstSaved;
      if cached != -1 {
        start := cached + 1;
        balances := map key | key in env.cachedBalances && key.0 == actor :: env.cachedBalances[key];
      }
      ghost var opening := balances;
      var i := start;
      ghost var before := start - 1;
      assert forall token :: SectionsEffect(env, sections, start, before, actor, token) == 0.0;
      while i <= to
        invariant start <= i && (i <= to + 1 || i == start)
        invariant forall token ::
          Get(balances, actor, token)
            == Get(opening, actor, token) + SectionsEffect(env, sections, start, i - 1, actor, token)
        decreases 1 + to - i
      {
        var section := ReadSection(i);
        if section.Some? && |section.value.transactions| > 0 && i >= 0 {
          balances := AddSection(env, section.value.transactions, actor, balances);
        }
        i := i + 1;
      }
      assert forall token ::
        SectionsEffect(env, sections, start, i - 1, actor, token)
          == SectionsEffect(env, sections, start, to, actor, token);
      ghost var all := balances;
      balances := map key | key in balances && key.0 == actor :: balances[key];
      assert forall token :: Get(balances, actor, token) == Get(all, actor, token);
    }

    /** The transactions of one section that involve the actor. */
    method AddSection(env: Env, txs: seq<Transaction>, actor: ActorId, balances: BalanceMap) returns (r: BalanceMap)
      ensures forall token :: Get(r, actor, token) == Get(balances, actor, token) + SumEffect(env, txs, actor, token)
    {
      hide Effect;
      r := balances;
      for k := 0 to |txs|
        invariant forall token ::
          Get(r, actor, token) == Get(balances, actor, token) + SumEffect(env, txs[..k], actor, token)
      {
        assert txs[..k + 1][..k] == txs[..k];
        if txs[k].sender == actor || txs[k].receiver == actor {
          r := ProcessTransaction(env, txs[k], r);
        } else {
          NotInvolved(env, txs[k], actor);
        }
      }
      assert txs[..|txs|] == txs;
    }

    /** The validator's pass over the section, as `prove_transaction` makes it. */
    method FoldSection(env: Env, tx: Transaction, transactions: seq<Transaction>, opening: real) returns (balance: real)
      ensures balance == opening + SectionFold(env, transactions, tx.sender, tx.token, tx.hash)
    {
      balance := opening;
      for k := 0 to |transactions|
        invariant balance == opening + SectionFold(env, transactions[..k], tx.sender, tx.token, tx.hash)
      {
        assert transactions[..k + 1][..k] == transactions[..k];
        var c := transactions[k];
        if tx.hash == c.hash {
          continue;
        }
        if c.token != tx.token {
          continue;
        }
        if c.kind == Reward && c.sender == tx.sender {
          balance := balance + c.amount;
          continue;
        }
        if c.kind == InitContract && c.sender == tx.sender {
          balance := balance + c.amount;
          continue;
        }
        if c.kind == Conversion && c.sender == tx.sender {
          if c.meta.Some? {
            if env.tokenOf(c.meta.value) == Some(tx.token) {
              balance := balance - c.amount;
            }
            balance := balance + c.amount;
          }
          continue;
        }
        if c.sender == tx.sender {
          balance := balance - c.amount;
        }
        if c.receiver == tx.sender {
          balance := balance + c.amount;
        }
      }
      assert transactions[..|transactions|] == transactions;
    }

    /** `prove_transaction`, given the stored transactions of its section. */
    method ProveTransaction(env: Env, tx: Transaction, transactions: seq<Transaction>) returns (r: ProveError)
      requires transactions == TransactionsAt(sections, tx.section)
      ensures r == Prove(env, State(), tx)
    {
      hide Acceptance.ProveParties, FindsHash;
      var foreign := env.networkId != ZERO_ACTOR && tx.sender != tx.receiver && tx.sender != env.networkId;
      if tx.kind == Genesis {
        if tx.section != 0 { return GenesisOnlyZeroSection; }
        if tx.amount != 0.0 { return GenesisOnlyZeroSection; }
        if foreign { return GenesisOnlyZeroSection; }
        return NoError;
      }
      if tx.kind == Balance {
        if tx.section != 1 { return BalanceOnlyFirstSection; }
        if foreign { return GenesisOnlyZeroSection; }
        return NoError;
      }
      var distance := current - tx.section;
      if (if distance < 0 then -distance else distance) > 15 { return TooSectionDiff; }
      if tx.amount == 0.0 { return AmountZero; }
      if tx.amount < 0.0 { return AmountLessZero; }
      if tx.hash != env.computedHash(tx) { return WrongHash; }
      var found := SearchDuplicateByHash(tx.hash, SEARCH_DEPTH);
      if found.Some? { return Duplicate; }
      r := ProveParties(env, tx, transactions);
    }

    /** `prove_transaction` continued: sender, receiver and signature. */
    method ProveParties(env: Env, tx: Transaction, transactions: seq<Transaction>) returns (r: ProveError)
      requires transactions == TransactionsAt(sections, tx.section)
      ensures r == Acceptance.ProveParties(env, State(), tx)
    {
      hide Acceptance.ProveAmount;
      if tx.sender == ZERO_ACTOR { return SenderZero; }
      if !env.knows(tx.sender) { return SenderNotExists; }
      if tx.kind == Burn {
        if tx.receiver != ZERO_ACTOR { return BurnIncorrectReceiver; }
        if !env.verifies(tx) { return InvalidSignature; }
        return NoError;
      }
      if tx.receiver == ZERO_ACTOR { return ReceiverZero; }
      if !env.knows(tx.receiver) { return ReceiverNotExists; }
      if tx.kind == Minting {
        if tx.sender != MINTING_OWNER { return InvalidSignature; }
        if tx.token != MINTING_TOKEN { return RewardInvalidToken; }
        if tx.sender == tx.receiver { return IdenticalSenderReceiver; }
        if !env.verifies(tx) { return InvalidSignature; }
        return NoError;
      }
      if tx.kind == Reward || tx.kind == Conversion {
        if tx.sender != tx.receiver { return NotIdenticalSenderReceiver; }
      } else {
        if tx.sender == tx.receiver { return IdenticalSenderReceiver; }
      }
      if |tx.signature| == 0 { return MissingSignature; }
      if !env.verifies(tx) { return InvalidSignature; }
      r := ProveAmount(env, tx, transactions);
    }

    /** `prove_transaction` concluded: limits, and the sender's balance. */
    method ProveAmount(env: Env, tx: Transaction, transactions: seq<Transaction>) returns (r: ProveError)
      requires transactions == TransactionsAt(sections, tx.section)
      ensures r == Acceptance.ProveAmount(env, State(), tx)
    {
      hide Calculated, SectionFold;
      if tx.kind == Reward {
        if tx.amount > 3.0 { return BigReward; }
        return NoError;
      }
      if tx.kind == InitContract {
        if tx.amount < 0.0 || tx.amount >= MAX_TOKEN_COUNT { return InvalidTokenCount; }
        return NoError;
      }
      if tx.kind == Conversion {
        if tx.meta.None? { return ConversionIncorrectFromToken; }
        var from := env.tokenOf(tx.meta.value);
        if from.None? { return ConversionIncorrectFromToken; }
        if from.value == tx.token { return ConversionEqualToken; }
        return NoError;
      }
      var balances := CalculateBalances(env, tx.sender, tx.section);
      var balance := FoldSection(env, tx, transactions, Get(balances, tx.sender, tx.token));
      if balance < tx.amount { return SenderBalanceBelowZero; }
      if tx.kind == Regular && env.networkId != ZERO_ACTOR {
        var frozen := env.frozen(tx.sender, tx.token);
        if frozen.Some? && balance - frozen.value < tx.amount { return SenderBalanceBelowZero; }
      }
      r := NoError;
    }

    /** `network_transaction` of a ready node: judged, and stored when approved. */
    method NetworkTransaction(env: Env, tx: Transaction) returns (r: ProveError)
      modifies this`sections, this`current, this`firstSaved, this`cached
      ensures r == old(Prove(env, State(), tx))
      ensures State() == if r == NoError then Save(h, old(State()), tx) else old(State())
    {
      hide Prove, Save;
      var section := ReadSection(tx.section);
      r := ProveTransaction(env, tx, if section.Some? then section.value.transactions else []);
      if r == NoError {
        StoreApproved(tx);
      }
    }
  }
}
