/**
 Removing all controls from a section on: in one loop, or in parallel over chunks
 (`clear_controls`, `clear_controls_async`, sources/chain/dag.cpp).
*/
module ClearControls {
  import opened Wrappers
  import opened ControlChain

  /** `remove_control`; the control of section 0 is kept. */
  function Cleared(st: Store, i: int): Store {
    if i in st && i != 0 then st[i := st[i].(control := None)] else st
  }

  function ClearedEach(st: Store, sections: seq<int>): Store {
    if |sections| == 0 then st else Cleared(ClearedEach(st, sections[..|sections| - 1]), sections[|sections| - 1])
  }

  /** No control left in from .. to, except at 0; everything else as it was. */
  function ClearedBetween(st: Store, from: int, to: int): Store {
    map i | i in st :: if from <= i <= to && i != 0 then st[i].(control := None) else st[i]
  }

  /** Neither order nor repetition matters. */
  lemma {:induction false} ClearingIsOrderFree(st: Store, sections: seq<int>)
    ensures ClearedEach(st, sections) ==
      map i | i in st :: if i in sections && i != 0 then st[i].(control := None) else st[i]
  {
    if |sections| > 0 {
      ClearingIsOrderFree(st, sections[..|sections| - 1]);
      assert sections == sections[..|sections| - 1] + [sections[|sections| - 1]];
    }
  }

  /** Division of big integers drops the fraction towards zero. */
  function TruncatedDiv(a: int, b: int): int
    requires b > 0
  {
    if a >= 0 then a / b else -(-a / b)
  }

  /** The sections that thread t of n takes: the last one takes what is left. */
  function ChunkStart(from: int, current: int, n: nat, t: nat): int
    requires t < n
  {
    from + t * TruncatedDiv(current - from + 1, n)
  }

  function ChunkEnd(from: int, current: int, n: nat, t: nat): int
    requires t < n
  {
    if t == n - 1 then current else ChunkStart(from, current, n, t) + TruncatedDiv(current - from + 1, n) - 1
  }

  predicate InChunk(from: int, current: int, n: nat, t: nat, i: int)
    requires t < n
  {
    ChunkStart(from, current, n, t) <= i <= ChunkEnd(from, current, n, t)
  }

  lemma MulMonotone(a: int, b: int, c: int)
    requires a <= b && c >= 0
    ensures a * c <= b * c
  {
  }

  lemma MulSplits(a: int, c: int)
    ensures (a + 1) * c == a * c + c
  {
  }

  /** The thread whose chunk section i falls into. */
  function ThreadOf(from: int, current: int, n: nat, i: int): (t: nat)
    requires n > 0 && from <= i <= current
    ensures t < n
  {
    var chunk := TruncatedDiv(current - from + 1, n);
    if chunk == 0 then n - 1
    else
      var t := (i - from) / chunk;
      if t < n then t else n - 1
  }

  lemma FallsIntoItsChunk(from: int, current: int, n: nat, i: int)
    requires n > 0 && from <= i <= current
    ensures InChunk(from, current, n, ThreadOf(from, current, n, i), i)
  {
    var chunk := TruncatedDiv(current - from + 1, n);
    var t := ThreadOf(from, current, n, i);
    if chunk > 0 {
      QuotientBounds(i - from, chunk);
      var q := (i - from) / chunk;
      hide TruncatedDiv;
      MulMonotone(t, q, chunk);
      MulSplits(q, chunk);
    } else {
      assert t * chunk == 0;
    }
  }

  lemma QuotientBounds(x: nat, c: int)
    requires c > 0
    ensures (x / c) * c <= x < (x / c) * c + c && x / c >= 0
  {
    assert x == (x / c) * c + x % c;
  }

  lemma ShareBounds(total: nat, n: nat, t: nat)
    requires t < n
    ensures 0 <= t * (total / n) && t * (total / n) + total / n <= total
  {
    var share := total / n;
    assert share * n <= total;
    MulMonotone(0, t, share);
    MulMonotone(t + 1, n, share);
    MulSplits(t, share);
  }

  lemma NegativeShareBounds(total: int, n: nat, t: nat)
    requires total >= 0 && t < n
    ensures t * -(total / n) >= -total
  {
    ShareBounds(total, n, t);
    assert t * -(total / n) == -(t * (total / n));
  }

  /** Chunks do not reach outside the range, also when it is empty. */
  lemma ChunksStayInside(from: int, current: int, n: nat, t: nat, i: int)
    requires t < n && InChunk(from, current, n, t, i)
    ensures from <= i <= current
  {
    var total := current - from + 1;
    if total >= 0 {
      ShareBounds(total, n, t);
    } else {
      NegativeShareBounds(-total, n, t);
    }
  }

  /** And they do not overlap. */
  lemma ChunksAreDisjoint(from: int, current: int, n: nat, t: nat, u: nat, i: int)
    requires t < n && u < n && InChunk(from, current, n, t, i) && InChunk(from, current, n, u, i)
    ensures t == u
  {
    ChunksStayInside(from, current, n, t, i);
    var chunk := TruncatedDiv(current - from + 1, n);
    if t < u {
      MulMonotone(t + 1, u, chunk);
      MulSplits(t, chunk);
    } else if u < t {
      MulMonotone(u + 1, t, chunk);
      MulSplits(u, chunk);
    }
  }

  /** One step of one thread: it removes the control of a section. */
  datatype Step = Step(thread: nat, section: int)

  function StepsOf(steps: seq<Step>, thread: nat): seq<int> {
    if |steps| == 0 then []
    else
      var last := steps[|steps| - 1];
      StepsOf(steps[..|steps| - 1], thread) + (if last.thread == thread then [last.section] else [])
  }

  function Ascending(from: int, to: int): seq<int>
    decreases 1 + to - from
  {
    if from > to then [] else Ascending(from, to - 1) + [to]
  }

  function Sections(steps: seq<Step>): seq<int> {
    seq(|steps|, k requires 0 <= k < |steps| => steps[k].section)
  }

  /** An interleaving of n threads, each going through its chunk in order. */
  ghost predicate IsInterleaving(steps: seq<Step>, from: int, current: int, n: nat) {
    && (forall k | 0 <= k < |steps| :: steps[k].thread < n)
    && forall t: nat | t < n ::
      StepsOf(steps, t) == Ascending(ChunkStart(from, current, n, t), ChunkEnd(from, current, n, t))
  }

  lemma {:induction false} AscendingHolds(from: int, to: int)
    ensures forall i :: i in Ascending(from, to) <==> from <= i <= to
    decreases 1 + to - from
  {
    if from <= to {
      AscendingHolds(from, to - 1);
    }
  }

  lemma {:induction false} StepsOfHolds(steps: seq<Step>, thread: nat)
    ensures forall i :: i in StepsOf(steps, thread) <==> exists k :: 0 <= k < |steps| && steps[k] == Step(thread, i)
  {
    if |steps| > 0 {
      var before, last := steps[..|steps| - 1], steps[|steps| - 1];
      StepsOfHolds(before, thread);
      forall i
        ensures i in StepsOf(steps, thread) <==> exists k :: 0 <= k < |steps| && steps[k] == Step(thread, i)
      {
        if i in StepsOf(before, thread) {
          var k :| 0 <= k < |before| && before[k] == Step(thread, i);
          assert steps[k] == Step(thread, i);
        }
        if k :| 0 <= k < |steps| && steps[k] == Step(thread, i) {
          assert k < |before| ==> before[k] == Step(thread, i);
        }
      }
    }
  }

  lemma InterleavingCoversRange(steps: seq<Step>, from: int, current: int, n: nat)
    requires n > 0 && IsInterleaving(steps, from, current, n)
    ensures forall i :: i in Sections(steps) <==> from <= i <= current
  {
    forall i
      ensures i in Sections(steps) <==> from <= i <= current
    {
      if i in Sections(steps) {
        var k :| 0 <= k < |steps| && Sections(steps)[k] == i;
        var t := steps[k].thread;
        StepsOfHolds(steps, t);
        assert steps[k] == Step(t, i);
        AscendingHolds(ChunkStart(from, current, n, t), ChunkEnd(from, current, n, t));
        ChunksStayInside(from, current, n, t, i);
      }
      if from <= i <= current {
        var t := ThreadOf(from, current, n, i);
        FallsIntoItsChunk(from, current, n, i);
        AscendingHolds(ChunkStart(from, current, n, t), ChunkEnd(from, current, n, t));
        StepsOfHolds(steps, t);
        var k :| 0 <= k < |steps| && steps[k] == Step(t, i);
        assert Sections(steps)[k] == i;
      }
    }
  }

  /** However many threads there are and however they interleave, the outcome is that of the one loop. */
  lemma ParallelEqualsSequential(st: Store, steps: seq<Step>, from: int, current: int, n: nat)
    requires n > 0 && IsInterleaving(steps, from, current, n)
    ensures ClearedEach(st, Sections(steps)) == ClearedBetween(st, from, current)
  {
    InterleavingCoversRange(steps, from, current, n);
    ClearingIsOrderFree(st, Sections(steps));
  }
}
