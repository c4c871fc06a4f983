/**
 The exchange of messages between a synchronising full node and one peer that answers.
*/
module ResyncProtocol {
  import opened ControlChain
  import opened DagState
  import opened DagObject
  import opened Resync
  import opened ResyncTheorems

  lemma {:induction false} ScanFinds(st: Store, controls: seq<DagControl>, i: nat, syncFrom: int)
    ensures
      var found := Scan(st, controls, i, syncFrom).0;
      found == syncFrom || exists j | 0 <= j < |controls| :: found == controls[j].sectionId
    decreases |controls| - i
  {
    if i < |controls| {
      ScanFinds(st, controls, i + 1, syncFrom);
      ScanFinds(st, controls, i + 1, controls[i].sectionId);
    }
  }

  /** A repair starts at a control that was compared, or at the node's own last section if the peer has more. */
  lemma {:induction false} SearchStaysInReach(n: Node, p: Node, range: ControlRange)
    requires 0 <= range.from <= range.to && range.from % CONTROL_INTERVAL == 0 && range.to % CONTROL_INTERVAL == 0
    requires HoldsControls(p.sections, 0, range.to)
    ensures
      var out := Search(n, p, p.current, range);
      out.Repair? ==> 0 <= out.syncFrom <= range.to || (out.syncFrom == n.current < p.current)
    decreases range.from
  {
    hide Scan, ControlsIn;
    var cs := ControlsIn(p.sections, range.from, range.to);
    ControlsInAt(p.sections, range.from, range.to);
    ScanFinds(n.sections, cs, 0, -1);
    var out := Decide(n, p.current, ControlResponse(range, cs));
    if out.Ask? {
      SearchStaysInReach(n, p, out.range);
    }
  }

  /** What a whole synchronisation makes of the bounds: untouched without a repair, else from what is received. */
  lemma ResynchronisedBounds(n: Node, p: Node, hi: int)
    requires (forall i | i in n.sections :: i <= n.current) && 0 <= hi && hi % CONTROL_INTERVAL == 0 && hi <= p.current
    requires HoldsControls(p.sections, 0, hi)
    ensures
      var out, m := Search(n, p, p.current, WindowBelow(hi)), Resynchronise(n, p, hi);
      if out.Repair? && out.syncFrom >= 0 then
        var from, to := Max(0, out.syncFrom - 50), Min(out.syncFrom + 2100, p.current);
        && IsFirstSaved(n.firstSaved, p, from, LastDownloaded(to, p.current), m.firstSaved)
        && m.cached == AlignDown20(from) && from <= m.current
      else out.Repair? || m == n
  {
    hide Search, Download;
    SearchStaysInReach(n, p, WindowBelow(hi));
    var out := Search(n, p, p.current, WindowBelow(hi));
    if out.Repair? && out.syncFrom >= 0 {
      var from, to := Max(0, out.syncFrom - STEP_BACK), Min(out.syncFrom + SYNC_SECTIONS_BATCH, p.current);
      RemoveCuts(n, from);
      RemoveKeepsFirst(n, from);
      DownloadShape(RemoveFrom(n, from), p, from, to);
      DownloadCopies(RemoveFrom(n, from), p, from, to);
    }
  }

  /**
   A whole synchronisation.  The search starts at the node's last control `hi`; the peer's last section
   is known from its last-info message, and the peer keeps its whole chain, with all controls up to `hi`.
  */
  method Synchronise(node: Dag, peer: Dag, hi: int) returns (rounds: nat)
    requires node != peer && !node.searchControl
    requires 0 <= hi <= node.current && hi % CONTROL_INTERVAL == 0 && hi <= peer.current
    requires node.syncLast == peer.current && peer.firstSaved <= 0
    requires HoldsControls(peer.sections, 0, hi)
    modifies node
    ensures peer.State() == old(peer.State())
    ensures node.State() == Resynchronise(old(node.State()), peer.State(), hi)
    ensures rounds <= hi / (WINDOW + CONTROL_INTERVAL) + 1
  {
    ghost var n, p := node.State(), peer.State();
    var out: Outcome;
    rounds, out := SearchControls(node, peer, hi);
    SearchStaysInReach(n, p, WindowBelow(hi));
    if out.Repair? {
      Fetch(node, peer, Max(0, out.syncFrom - STEP_BACK), Min(out.syncFrom + SYNC_SECTIONS_BATCH, peer.current));
    }
  }

  method SearchControls(node: Dag, peer: Dag, hi: int) returns (rounds: nat, out: Outcome)
    requires node != peer && !node.searchControl
    requires 0 <= hi <= node.current && hi % CONTROL_INTERVAL == 0
    requires node.syncLast == peer.current
    requires HoldsControls(peer.sections, 0, hi)
    modifies node`sections, node`current, node`cached, node`searchControl
    ensures out == Search(old(node.State()), peer.State(), peer.current, WindowBelow(hi)) && !out.Ask?
    ensures node.State() ==
      if out.Repair? then RemoveFrom(old(node.State()), Max(0, out.syncFrom - STEP_BACK)) else old(node.State())
    ensures rounds <= hi / (WINDOW + CONTROL_INTERVAL) + 1
  {
    hide Decide, ControlsIn;
    ghost var n, p := node.State(), peer.State();
    var request := node.RequestControlSection(hi, false);
    var range := request.value;
    rounds, out := 0, Ask(range);
    while out.Ask?
      invariant out.Ask? ==> node.State() == n && out.range == range && range == WindowBelow(range.to)
      invariant out.Ask? ==> 0 <= range.to <= hi && range.to % CONTROL_INTERVAL == 0
      invariant out.Ask? ==> Search(n, p, p.current, WindowBelow(hi)) == Search(n, p, p.current, range)
      invariant out.Ask? ==> rounds + |Windows(range.to)| == |Windows(hi)|
      invariant !out.Ask? ==> out == Search(n, p, p.current, WindowBelow(hi)) && rounds <= |Windows(hi)|
      invariant !out.Ask? ==>
        (node.State() == if out.Repair? then RemoveFrom(n, Max(0, out.syncFrom - STEP_BACK)) else n)
      decreases out.Ask?, range.from
    {
      var answer := peer.NetworkRequestControlSection(range);
      out := node.NetworkControlRangeResponse(answer.response, 2);
      NextWindow(n, p, range);
      rounds := rounds + 1;
      if out.Ask? {
        range := out.range;
      }
    }
    WindowCount(hi);
  }

  lemma NextWindow(n: Node, p: Node, range: ControlRange)
    requires 0 <= range.from <= range.to && range == WindowBelow(range.to) && range.to % CONTROL_INTERVAL == 0
    requires HoldsControls(p.sections, 0, range.to)
    ensures
      var out := Decide(n, p.current, ControlResponse(range, ControlsIn(p.sections, range.from, range.to)));
      out.Ask? ==>
        range.from >= CONTROL_INTERVAL && out.range == WindowBelow(range.from - CONTROL_INTERVAL)
        && |Windows(range.to)| == 1 + |Windows(out.range.to)|
  {
    hide Scan, ControlsIn;
  }

  method Fetch(node: Dag, peer: Dag, start: int, end: int)
    requires node != peer && node.syncLast == peer.current
    requires peer.firstSaved <= start <= end <= peer.current
    modifies node`sections, node`current, node`firstSaved, node`syncLast
    ensures node.State() == Download(old(node.State()), peer.State(), start, end).0
  {
    hide Receive, TakeFiles, FilesIn;
    ghost var n, p := node.State(), peer.State();
    var from, to, done := start, end, false;
    while !done
      invariant node.syncLast == peer.current
      invariant !done ==> start <= from <= to <= peer.current
      invariant !done ==> Download(node.State(), p, from, to).0 == Download(n, p, start, end).0
      invariant done ==> node.State() == Download(n, p, start, end).0
      decreases !done, peer.current - to
    {
      var sync := peer.NetworkRequestFileSections(from, to);
      ReceiveIs(node.State(), p, from, to);
      var next := node.NetworkFileSectionsResponse(sync.value);
      if next.None? {
        done := true;
      } else {
        from, to := next.value.from, next.value.to;
      }
    }
  }

  lemma ReceiveIs(n: Node, p: Node, from: int, to: int)
    ensures Receive(n, p, from, to) == TakeFiles(n, FilesIn(p.sections, from, to))
  {
  }
}
