/**
 `ActorIndex`: actor files, the database rows that index them, a counter and the synchronizer, kept
 consistent by a batch save whatever fails on the way (sources/chain/actor_index.cpp).
*/
module ActorIndexing {
  import opened Wrappers
  import opened Transactions
  import opened ActorSynchronization

  datatype SaveError = Undefined | NotExists | AlreadyExists | NotOpened

  datatype AddFault = FileNotOpened | WriteFailed

  /** What goes wrong while one actor of the batch is saved. */
  datatype ItemFaults = ItemFaults(
    add: Option<AddFault>,  // the file cannot be created
    selectFails: bool,      // the look-up of the row comes back empty
    insertFails: bool,      // the row cannot be inserted
    insertRollsBack: bool,  // and the database gives up the whole transaction
    removeFails: bool)      // the file of the row that was not inserted cannot be removed

  datatype Faults = Faults(
    opens: bool, begins: bool,
    items: seq<ItemFaults>,
    commits: bool, commitRollsBack: bool,
    rollsBack: bool,            // the ROLLBACK of the scope guard succeeds
    unremovable: set<ActorId>)  // files that the scope guard cannot remove

  /** An open connection with a transaction: the rows it sees, and whether it is still open. */
  datatype Session = Session(rows: set<ActorId>, autocommit: bool)

  function IdsOf(ids: seq<ActorId>): set<ActorId> {
    set id | id in ids
  }

  lemma IdsSnoc(ids: seq<ActorId>, id: ActorId)
    ensures IdsOf(ids + [id]) == IdsOf(ids) + {id}
  {
  }

  /** What is known once k actors of a batch are dealt with and the transaction is still open. */
  ghost predicate Midway(
    oldFiles: set<ActorId>, oldRows: set<ActorId>, batch: seq<ActorId>, k: nat, faults: Faults,
    files: set<ActorId>, rows: set<ActorId>, added: set<ActorId>, created: set<ActorId>)
    requires k <= |batch| == |faults.items|
  {
    && rows == oldRows + added && oldRows !! added
    && added <= IdsOf(batch[..k]) && created <= added && created !! oldFiles
    && oldFiles <= files && rows <= files && files - oldFiles <= IdsOf(batch[..k])
    && (forall j | 0 <= j < k && (faults.items[j].add.None? || batch[j] in oldFiles) && !faults.items[j].insertFails ::
          batch[j] in rows)
    && ((forall j | 0 <= j < k :: !faults.items[j].removeFails) ==> files == oldFiles + created)
  }

  lemma IdsAt(ids: seq<ActorId>, k: nat)
    requires k < |ids|
    ensures IdsOf(ids[..k + 1]) == IdsOf(ids[..k]) + {ids[k]}
    ensures IdsOf(ids[..k]) + {ids[k]} <= IdsOf(ids)
  {
    assert ids[..k + 1] == ids[..k] + [ids[k]];
  }

  /** Every file that has to go can be removed, and the database rolls back when asked to. */
  ghost predicate CleansUp(faults: Faults) {
    (forall item | item in faults.items :: !item.removeFails) && faults.unremovable == {} && faults.rollsBack
  }

  /** An actor that can get a file, or has one left over without a row, has its row unless inserting it failed. */
  ghost predicate Handled(batch: seq<ActorId>, faults: Faults, oldFiles: set<ActorId>, rows: set<ActorId>)
    requires |batch| == |faults.items|
  {
    forall k | 0 <= k < |batch| && !faults.items[k].insertFails ::
      faults.items[k].add.None? || batch[k] in oldFiles ==> batch[k] in rows
  }

  /** When the batch is given up, before the scope guard runs: the files made since are those on its list. */
  ghost predicate GivenUp(
    oldFiles: set<ActorId>, oldRows: set<ActorId>, batch: seq<ActorId>, faults: Faults,
    files: set<ActorId>, created: set<ActorId>)
  {
    && oldRows <= files && oldRows !! created && oldFiles <= files && created !! oldFiles
    && files - oldFiles <= IdsOf(batch)
    && ((forall item | item in faults.items :: !item.removeFails) ==> files == oldFiles + created)
  }

  lemma GivingUp(
    oldFiles: set<ActorId>, oldRows: set<ActorId>, batch: seq<ActorId>, k: nat, faults: Faults,
    files: set<ActorId>, rows: set<ActorId>, added: set<ActorId>, created: set<ActorId>)
    requires k < |batch| == |faults.items|
    requires Midway(oldFiles, oldRows, batch, k, faults, files, rows, added, created)
    ensures GivenUp(oldFiles, oldRows, batch, faults, files, created)
    ensures batch[k] !in files ==> GivenUp(oldFiles, oldRows, batch, faults, files + {batch[k]}, created + {batch[k]})
  {
    IdsAt(batch, k);
    hide IdsOf;
  }

  lemma MidwayFacts(
    oldFiles: set<ActorId>, oldRows: set<ActorId>, batch: seq<ActorId>, k: nat, faults: Faults,
    files: set<ActorId>, rows: set<ActorId>, added: set<ActorId>, created: set<ActorId>)
    requires k <= |batch| == |faults.items|
    requires Midway(oldFiles, oldRows, batch, k, faults, files, rows, added, created)
    ensures rows <= files && oldFiles <= files
  {
  }

  lemma NoIds()
    ensures IdsOf([]) == {}
  {
  }

  lemma EmptyHandled(batch: seq<ActorId>, faults: Faults, oldFiles: set<ActorId>, rows: set<ActorId>)
    requires |batch| == |faults.items| == 0
    ensures Handled(batch, faults, oldFiles, rows)
  {
  }

  lemma AppliedIds(ids: seq<ActorId>)
    ensures IdsOf(ids) == set a | a in ids
  {
  }

  lemma MidwayStarts(files: set<ActorId>, rows: set<ActorId>, batch: seq<ActorId>, faults: Faults)
    requires rows <= files && |batch| == |faults.items|
    ensures Midway(files, rows, batch, 0, faults, files, rows, {}, {})
  {
  }

  lemma MidwayEnds(
    oldFiles: set<ActorId>, oldRows: set<ActorId>, batch: seq<ActorId>, faults: Faults,
    files: set<ActorId>, rows: set<ActorId>, added: set<ActorId>, created: set<ActorId>)
    requires |batch| == |faults.items| && oldRows <= oldFiles
    requires Midway(oldFiles, oldRows, batch, |batch|, faults, files, rows, added, created)
    ensures GivenUp(oldFiles, oldRows, batch, faults, files, created)
    ensures rows == oldRows + added && added !! oldRows && added <= IdsOf(batch) && rows <= files
    ensures oldFiles <= files && files - oldFiles <= IdsOf(batch)
    ensures Handled(batch, faults, oldFiles, rows)
    ensures CleansUp(faults) ==> files == oldFiles + added
  {
    assert batch[..|batch|] == batch;
    hide IdsOf;
  }

  /** What the scope guard of a transaction that was not committed leaves of the files. */
  function GuardLeaves(session: Session, files: set<ActorId>, created: set<ActorId>, faults: Faults): set<ActorId> {
    if !session.autocommit && !faults.rollsBack then files else files - (created - faults.unremovable)
  }

  lemma GuardCleans(
    oldFiles: set<ActorId>, oldRows: set<ActorId>, batch: seq<ActorId>, faults: Faults,
    files: set<ActorId>, created: set<ActorId>, session: Session)
    requires GivenUp(oldFiles, oldRows, batch, faults, files, created)
    ensures
      var left := GuardLeaves(session, files, created, faults);
      && oldRows <= left && oldFiles <= left && left - oldFiles <= IdsOf(batch)
      && (CleansUp(faults) ==> left == oldFiles)
  {
    hide IdsOf;
  }

  /** Nothing happens to actor k: it has a row, or its file cannot be made, or its row cannot. */
  lemma Passed(
    oldFiles: set<ActorId>, oldRows: set<ActorId>, batch: seq<ActorId>, k: nat, faults: Faults,
    files: set<ActorId>, rows: set<ActorId>, added: set<ActorId>, created: set<ActorId>)
    requires k < |batch| == |faults.items|
    requires Midway(oldFiles, oldRows, batch, k, faults, files, rows, added, created)
    requires (faults.items[k].add.None? || batch[k] in oldFiles) && !faults.items[k].insertFails ==> batch[k] in rows
    ensures Midway(oldFiles, oldRows, batch, k + 1, faults, files, rows, added, created)
  {
    IdsAt(batch, k);
    hide IdsOf;
  }

  /** The file of actor k was made, its row was not, and the file could not be removed. */
  lemma LeftBehind(
    oldFiles: set<ActorId>, oldRows: set<ActorId>, batch: seq<ActorId>, k: nat, faults: Faults,
    files: set<ActorId>, rows: set<ActorId>, added: set<ActorId>, created: set<ActorId>)
    requires k < |batch| == |faults.items|
    requires Midway(oldFiles, oldRows, batch, k, faults, files, rows, added, created)
    requires faults.items[k].insertFails && faults.items[k].removeFails
    ensures Midway(oldFiles, oldRows, batch, k + 1, faults, files + {batch[k]}, rows, added, created)
  {
    IdsAt(batch, k);
    hide IdsOf;
  }

  /** Actor k gets its row, on a file made now or found without a row. */
  lemma Indexed(
    oldFiles: set<ActorId>, oldRows: set<ActorId>, batch: seq<ActorId>, k: nat, faults: Faults,
    files: set<ActorId>, rows: set<ActorId>, added: set<ActorId>, created: set<ActorId>)
    requires k < |batch| == |faults.items|
    requires Midway(oldFiles, oldRows, batch, k, faults, files, rows, added, created)
    requires batch[k] !in rows
    ensures
      var id := batch[k];
      if id in files then Midway(oldFiles, oldRows, batch, k + 1, faults, files, rows + {id}, added + {id}, created)
      else Midway(oldFiles, oldRows, batch, k + 1, faults, files + {id}, rows + {id}, added + {id}, created + {id})
  {
    IdsAt(batch, k);
    hide IdsOf;
  }

  // What becomes of one actor.

  datatype Fate = Fate(file: bool, row: bool)

  /** The insertion of its row is tried, and fails. */
  predicate InsertFails(t: Fate, f: ItemFaults) {
    && (t.file || f.add.None?) && !(t.file && t.row && !f.selectFails)
    && (f.insertFails || t.row)
  }

  /** One mention of an actor in a batch that goes on: a file and a row, unless something is in the way. */
  function Turn(t: Fate, f: ItemFaults): Fate {
    if t.file && t.row && !f.selectFails then t
    else if !t.file && f.add.Some? then t
    else if InsertFails(t, f) then Fate(t.file || f.removeFails, t.row)
    else Fate(true, true)
  }

  /** What k items of a batch make of an actor, mentioned once, repeatedly or not at all. */
  function FateOf(
    files: set<ActorId>, rows: set<ActorId>, batch: seq<ActorId>, items: seq<ItemFaults>, k: nat, id: ActorId): Fate
    requires k <= |batch| == |items|
  {
    if k == 0 then Fate(id in files, id in rows)
    else
      var before := FateOf(files, rows, batch, items, k - 1, id);
      if batch[k - 1] == id then Turn(before, items[k - 1]) else before
  }

  /** Item k ends the batch: a lone actor that cannot be stored, or a transaction that the database gives up. */
  predicate StopsAt(files: set<ActorId>, rows: set<ActorId>, batch: seq<ActorId>, items: seq<ItemFaults>, k: nat)
    requires k < |batch| == |items|
  {
    var t, f := FateOf(files, rows, batch, items, k, batch[k]), items[k];
    if |batch| == 1 then InsertFails(t, f) || (!t.file && f.add.Some?) else InsertFails(t, f) && f.insertRollsBack
  }

  ghost predicate Refuses(files: set<ActorId>, rows: set<ActorId>, batch: seq<ActorId>, items: seq<ItemFaults>)
    requires |batch| == |items|
  {
    exists k | 0 <= k < |batch| :: StopsAt(files, rows, batch, items, k)
  }

  ghost predicate Traced(
    oldFiles: set<ActorId>, oldRows: set<ActorId>, batch: seq<ActorId>, items: seq<ItemFaults>, k: nat,
    files: set<ActorId>, rows: set<ActorId>)
    requires k <= |batch| == |items|
  {
    forall id :: FateOf(oldFiles, oldRows, batch, items, k, id) == Fate(id in files, id in rows)
  }

  lemma TracedStarts(files: set<ActorId>, rows: set<ActorId>, batch: seq<ActorId>, items: seq<ItemFaults>)
    requires |batch| == |items|
    ensures Traced(files, rows, batch, items, 0, files, rows)
  {
  }

  lemma TracedNext(
    oldFiles: set<ActorId>, oldRows: set<ActorId>, batch: seq<ActorId>, items: seq<ItemFaults>, k: nat,
    files: set<ActorId>, rows: set<ActorId>, files': set<ActorId>, rows': set<ActorId>)
    requires k < |batch| == |items| && Traced(oldFiles, oldRows, batch, items, k, files, rows)
    requires forall id | id != batch[k] :: (id in files' <==> id in files) && (id in rows' <==> id in rows)
    requires Fate(batch[k] in files', batch[k] in rows') == Turn(Fate(batch[k] in files, batch[k] in rows), items[k])
    ensures Traced(oldFiles, oldRows, batch, items, k + 1, files', rows')
  {
    hide Turn;
  }

  lemma TracedAt(
    oldFiles: set<ActorId>, oldRows: set<ActorId>, batch: seq<ActorId>, items: seq<ItemFaults>, k: nat,
    files: set<ActorId>, rows: set<ActorId>)
    requires k < |batch| == |items| && Traced(oldFiles, oldRows, batch, items, k, files, rows)
    ensures FateOf(oldFiles, oldRows, batch, items, k, batch[k]) == Fate(batch[k] in files, batch[k] in rows)
  {
  }

  /** Nothing fails. */
  ghost predicate Faultless(faults: Faults) {
    && faults.opens && faults.begins && faults.commits
    && forall item | item in faults.items :: item.add.None? && !item.selectFails && !item.insertFails
  }

  lemma {:induction false} FaultlessFate(
    files: set<ActorId>, rows: set<ActorId>, batch: seq<ActorId>, faults: Faults, k: nat, id: ActorId)
    requires k <= |batch| == |faults.items| && rows <= files && Faultless(faults)
    ensures FateOf(files, rows, batch, faults.items, k, id) ==
      if id in batch[..k] then Fate(true, true) else Fate(id in files, id in rows)
  {
    if k > 0 {
      FaultlessFate(files, rows, batch, faults, k - 1, id);
      assert faults.items[k - 1] in faults.items;
      assert batch[..k] == batch[..k - 1] + [batch[k - 1]];
    }
  }

  /** Then nothing ends the batch either, and everyone in it has a file and a row. */
  lemma FaultlessBatch(files: set<ActorId>, rows: set<ActorId>, batch: seq<ActorId>, faults: Faults)
    requires |batch| == |faults.items| && rows <= files && Faultless(faults)
    ensures !Refuses(files, rows, batch, faults.items)
    ensures Traced(files, rows, batch, faults.items, |batch|, files + IdsOf(batch), rows + IdsOf(batch))
  {
    forall k | 0 <= k < |batch|
      ensures !StopsAt(files, rows, batch, faults.items, k)
    {
      FaultlessFate(files, rows, batch, faults, k, batch[k]);
      assert faults.items[k] in faults.items;
    }
    assert batch[..|batch|] == batch;
    forall id {
      FaultlessFate(files, rows, batch, faults, |batch|, id);
    }
  }

  lemma FaultlessIs(files: set<ActorId>, rows: set<ActorId>, batch: seq<ActorId>, faults: Faults)
    requires |batch| == |faults.items| && rows <= files && Faultless(faults)
    ensures faults.opens && faults.begins && faults.commits && !Refuses(files, rows, batch, faults.items)
    ensures Traced(files, rows, batch, faults.items, |batch|, files + IdsOf(batch), rows + IdsOf(batch))
  {
    FaultlessBatch(files, rows, batch, faults);
  }

  lemma EmptyRefuses(files: set<ActorId>, rows: set<ActorId>, batch: seq<ActorId>, items: seq<ItemFaults>)
    requires |batch| == |items|
    ensures |batch| == 0 ==> !Refuses(files, rows, batch, items)
  {
  }

  /** There is one such pair of sets. */
  lemma TracedOnce(
    oldFiles: set<ActorId>, oldRows: set<ActorId>, batch: seq<ActorId>, items: seq<ItemFaults>, k: nat,
    files: set<ActorId>, rows: set<ActorId>, files': set<ActorId>, rows': set<ActorId>)
    requires k <= |batch| == |items|
    requires Traced(oldFiles, oldRows, batch, items, k, files, rows)
    requires Traced(oldFiles, oldRows, batch, items, k, files', rows')
    ensures files == files' && rows == rows'
  {
    forall id
      ensures (id in files <==> id in files') && (id in rows <==> id in rows')
    {
      assert FateOf(oldFiles, oldRows, batch, items, k, id) == Fate(id in files, id in rows);
      assert FateOf(oldFiles, oldRows, batch, items, k, id) == Fate(id in files', id in rows');
    }
  }

  /** A lone actor whose file cannot be opened. */
  predicate IsLoneUnopened(files: set<ActorId>, batch: seq<ActorId>, faults: Faults)
    requires |batch| == |faults.items|
  {
    |batch| == 1 && batch[0] !in files && faults.items[0].add == Some(FileNotOpened)
  }

  lemma LoneAdded(ids: seq<ActorId>, id: ActorId)
    requires IdsOf(ids) <= IdsOf([id])
    ensures IdsOf(ids) == if |ids| == 0 then {} else {id}
  {
    assert |ids| > 0 ==> ids[0] in IdsOf(ids);
  }

  /** When a lone actor ends its batch, and what becomes of it otherwise. */
  lemma LoneActor(files: set<ActorId>, rows: set<ActorId>, id: ActorId, faults: Faults)
    requires |faults.items| == 1 && rows <= files
    ensures
      var f := faults.items[0];
      Refuses(files, rows, [id], faults.items) <==>
        if id in rows then f.selectFails else f.insertFails || (id !in files && f.add.Some?)
  {
    var items := faults.items;
    assert FateOf(files, rows, [id], items, 0, id) == Fate(id in files, id in rows);
    assert FateOf(files, rows, [id], items, 1, id) == Turn(Fate(id in files, id in rows), items[0]);
    assert Refuses(files, rows, [id], items) <==> StopsAt(files, rows, [id], items, 0);
  }

  class ActorIndex {
    var files: set<ActorId>
    var rows: set<ActorId>
    var records: nat
    const synch: ActorSynchronizer

    /** Every row has a file; counter and synchronizer agree with the rows. */
    ghost predicate Consistent()
      reads this, synch, synch.actorsByBucket, synch.cachedHashes, synch.dirtyBuckets
    {
      && rows <= files && records == |rows|
      && synch.Valid() && synch.Actors() == rows
    }

    /** Opens what is stored; `ids` is what selecting all rows yields. */
    constructor (files: set<ActorId>, rows: set<ActorId>, ids: seq<ActorId>)
      requires rows <= files && IdsOf(ids) == rows
      ensures Consistent() && this.files == files && this.rows == rows
      ensures fresh(synch) && fresh(synch.actorsByBucket) && fresh(synch.cachedHashes) && fresh(synch.dirtyBuckets)
    {
      this.files, this.rows, this.records := files, rows, |rows|;
      this.synch := new ActorSynchronizer();
      new;
      if records > 0 {
        synch.SetActors(ids);
      }
      assert synch.Actors() == IdsOf(ids);
    }

    method Add(id: ActorId, fault: Option<AddFault>) returns (r: Result<(), SaveError>)
      modifies this`files
      ensures id in old(files) ==> r == Err(AlreadyExists) && files == old(files)
      ensures id !in old(files) && fault.Some? ==>
        r == Err(if fault.value.FileNotOpened? then NotOpened else Undefined) && files == old(files)
      ensures id !in old(files) && fault.None? ==> r == Ok(()) && files == old(files) + {id}
    {
      if id in files {
        return Err(AlreadyExists);
      }
      if fault.Some? {
        return Err(if fault.value.FileNotOpened? then NotOpened else Undefined);
      }
      files := files + {id};
      r := Ok(());
    }

    /** The scope guard of a transaction that was not committed. */
    method RollBack(session: Session, created: seq<ActorId>, faults: Faults)
      modifies this`files
      ensures files == GuardLeaves(session, old(files), IdsOf(created), faults)
    {
      if !session.autocommit && !faults.rollsBack {
        return;
      }
      for k := 0 to |created|
        invariant files == old(files) - (IdsOf(created[..k]) - faults.unremovable)
      {
        assert created[..k + 1] == created[..k] + [created[k]];
        if created[k] !in faults.unremovable {
          files := files - {created[k]};
        }
      }
      assert created[..|created|] == created;
    }

    /** One actor of the batch: stored, left for later, or the reason to give up. */
    method SaveOne(
      batch: seq<ActorId>, k: nat, faults: Faults, session: Session, added: seq<ActorId>, created: seq<ActorId>,
      ghost oldFiles: set<ActorId>)
      returns (error: Option<SaveError>, session': Session, added': seq<ActorId>, created': seq<ActorId>)
      requires k < |batch| == |faults.items| && !session.autocommit
      requires Midway(oldFiles, rows, batch, k, faults, files, session.rows, IdsOf(added), IdsOf(created))
      requires Traced(oldFiles, rows, batch, faults.items, k, files, session.rows)
      modifies this`files
      ensures error.Some? <==> StopsAt(oldFiles, rows, batch, faults.items, k)
      ensures error == Some(NotOpened) <==>
        |batch| == 1 && batch[k] !in old(files) && faults.items[k].add == Some(FileNotOpened)
      ensures error.None? ==> Traced(oldFiles, rows, batch, faults.items, k + 1, files, session'.rows)
      ensures error.None? ==> !session'.autocommit
      ensures error.None? ==>
        Midway(oldFiles, rows, batch, k + 1, faults, files, session'.rows, IdsOf(added'), IdsOf(created'))
      ensures error.None? ==> |session'.rows| - |session.rows| == |added'| - |added|
      ensures error.None? && |batch| == 1 ==> batch[k] in session'.rows
      ensures error.Some? ==> GivenUp(oldFiles, rows, batch, faults, files, IdsOf(created'))
      ensures error.Some? ==> error.value != AlreadyExists
    {
      hide IdsOf, Midway, GivenUp, Traced, FateOf;
      error, session', added', created' := None, session, added, created;
      var id, fault := batch[k], faults.items[k];
      IdsSnoc(added, id);
      IdsSnoc(created, id);
      GivingUp(oldFiles, rows, batch, k, faults, files, session.rows, IdsOf(added), IdsOf(created));
      MidwayFacts(oldFiles, rows, batch, k, faults, files, session.rows, IdsOf(added), IdsOf(created));
      TracedAt(oldFiles, rows, batch, faults.items, k, files, session.rows);
      ghost var before := files;
      var several, orphan := |batch| > 1, false;
      var result := Add(id, fault.add);
      if result.Err? {
        if result.error != AlreadyExists {
          if !several {
            return Some(result.error), session', added', created';
          }
          Passed(oldFiles, rows, batch, k, faults, files, session.rows, IdsOf(added), IdsOf(created));
          TracedNext(oldFiles, rows, batch, faults.items, k, before, session.rows, files, session.rows);
          return;
        }
        orphan := fault.selectFails || id !in session.rows;
        if !orphan {
          Passed(oldFiles, rows, batch, k, faults, files, session.rows, IdsOf(added), IdsOf(created));
          TracedNext(oldFiles, rows, batch, faults.items, k, before, session.rows, files, session.rows);
          return;
        }
      } else {
        created' := created + [id];
      }
      var inserted := !fault.insertFails && id !in session.rows;
      if !inserted {
        if fault.insertRollsBack {
          session' := Session(rows, true);
        }
        if !several || session'.autocommit {
          return Some(Undefined), session', added', created';
        }
        if orphan {
          Passed(oldFiles, rows, batch, k, faults, files, session.rows, IdsOf(added), IdsOf(created));
          TracedNext(oldFiles, rows, batch, faults.items, k, before, session.rows, files, session.rows);
          return;
        }
        created' := created'[..|created'| - 1];
        assert created' == created;
        if !fault.removeFails {
          files := files - {id};
          assert files == old(files);
          Passed(oldFiles, rows, batch, k, faults, files, session.rows, IdsOf(added), IdsOf(created));
        } else {
          LeftBehind(oldFiles, rows, batch, k, faults, old(files), session.rows, IdsOf(added), IdsOf(created));
        }
        TracedNext(oldFiles, rows, batch, faults.items, k, before, session.rows, files, session.rows);
        return;
      }
      Indexed(oldFiles, rows, batch, k, faults, old(files), session.rows, IdsOf(added), IdsOf(created));
      session' := session.(rows := session.rows + {id});
      TracedNext(oldFiles, rows, batch, faults.items, k, before, session.rows, files, session'.rows);
      added' := added + [id];
    }

    /**
     `save_actor_batch`, and the close of its connection.  Whatever fails, every row has a file and the
     counter and the synchronizer agree with the rows; on an error none of the three has changed.
    */
    method SaveActorBatch(batch: seq<ActorId>, faults: Faults) returns (r: Result<seq<ActorId>, SaveError>)
      requires Consistent() && |faults.items| == |batch|
      modifies this`files, this`rows, this`records, synch.actorsByBucket, synch.dirtyBuckets
      ensures r.Err? <==>
        |batch| > 0
        && (!faults.opens || !faults.begins || !faults.commits || Refuses(old(files), old(rows), batch, faults.items))
      ensures r == Err(NotOpened) <==>
        |batch| > 0 && (!faults.opens || (faults.begins && IsLoneUnopened(old(files), batch, faults)))
      ensures r.Ok? ==> Traced(old(files), old(rows), batch, faults.items, |batch|, files, rows)
      ensures Faultless(faults) ==> r.Ok? && files == old(files) + IdsOf(batch) && rows == old(rows) + IdsOf(batch)
      ensures Consistent()
      ensures r.Err? ==> rows == old(rows) && records == old(records) && synch.Actors() == old(synch.Actors())
      ensures r.Ok? ==> rows == old(rows) + IdsOf(r.value)
      ensures r.Ok? ==> IdsOf(r.value) !! old(rows) && IdsOf(r.value) <= IdsOf(batch)
      ensures r.Ok? ==> records == old(records) + |r.value|
      ensures old(files) <= files && files - old(files) <= IdsOf(batch)
      ensures r.Ok? ==> Handled(batch, faults, old(files), rows)
      ensures r.Ok? && |batch| == 1 ==> batch[0] in rows
      ensures CleansUp(faults) ==> files == old(files) + if r.Ok? then IdsOf(r.value) else {}
      ensures r.Err? ==> r.error != AlreadyExists
    {
      hide IdsOf, Midway, GivenUp, CleansUp, Handled, Traced, Refuses, Faultless;
      hide WellSorted, FreshWhereClean, AllOf;
      NoIds();
      ghost var oldFiles, oldRows := files, rows;
      TracedStarts(files, rows, batch, faults.items);
      if Faultless(faults) {
        FaultlessIs(files, rows, batch, faults);
      }
      EmptyRefuses(files, rows, batch, faults.items);
      if |batch| == 0 {
        EmptyHandled(batch, faults, files, rows);
        return Ok([]);
      }
      if !faults.opens {
        return Err(NotOpened);
      }
      if !faults.begins {
        return Err(Undefined);
      }
      r := SaveInTransaction(batch, faults);
      if Faultless(faults) {
        TracedOnce(
          oldFiles, oldRows, batch, faults.items, |batch|, files, rows,
          oldFiles + IdsOf(batch), oldRows + IdsOf(batch));
      }
    }

    /** `save_actor_batch` once its transaction has begun. */
    method SaveInTransaction(batch: seq<ActorId>, faults: Faults) returns (r: Result<seq<ActorId>, SaveError>)
      requires Consistent() && |faults.items| == |batch|
      modifies this`files, this`rows, this`records, synch.actorsByBucket, synch.dirtyBuckets
      ensures r.Err? <==> !faults.commits || Refuses(old(files), old(rows), batch, faults.items)
      ensures r == Err(NotOpened) <==> IsLoneUnopened(old(files), batch, faults)
      ensures r.Ok? ==> Traced(old(files), old(rows), batch, faults.items, |batch|, files, rows)
      ensures Consistent()
      ensures r.Err? ==> rows == old(rows) && records == old(records) && synch.Actors() == old(synch.Actors())
      ensures r.Ok? ==> rows == old(rows) + IdsOf(r.value)
      ensures r.Ok? ==> IdsOf(r.value) !! old(rows) && IdsOf(r.value) <= IdsOf(batch)
      ensures r.Ok? ==> records == old(records) + |r.value|
      ensures old(files) <= files && files - old(files) <= IdsOf(batch)
      ensures r.Ok? ==> Handled(batch, faults, old(files), rows)
      ensures r.Ok? && |batch| == 1 ==> batch[0] in rows
      ensures CleansUp(faults) ==> files == old(files) + if r.Ok? then IdsOf(r.value) else {}
      ensures r.Err? ==> r.error != AlreadyExists
    {
      hide IdsOf, Midway, GivenUp, CleansUp, Handled, Traced, Refuses, Faultless;
      hide WellSorted, FreshWhereClean, AllOf;
      ghost var before := files;
      var error, session, added, created := SaveAll(batch, faults);
      if error.None? {
        MidwayEnds(before, rows, batch, faults, files, session.rows, IdsOf(added), IdsOf(created));
        if !faults.commits {
          session := session.(autocommit := faults.commitRollsBack);
          error := Some(Undefined);
        }
      }
      if error.Some? {
        GuardCleans(before, rows, batch, faults, files, IdsOf(created), session);
        RollBack(session, created, faults);
        return Err(error.value);
      }
      Commit(session.rows, added);
      r := Ok(added);
    }

    method Commit(newRows: set<ActorId>, added: seq<ActorId>)
      requires records == |rows| && synch.Valid() && synch.Actors() == rows
      requires newRows == rows + IdsOf(added) && newRows <= files && |newRows| == |rows| + |added|
      modifies this`rows, this`records, synch.actorsByBucket, synch.dirtyBuckets
      ensures Consistent() && rows == newRows && records == old(records) + |added|
    {
      rows := newRows;
      records := records + |added|;
      synch.ApplyReceivedIds(added);
      AppliedIds(added);
    }

    /** The loop of `save_actor_batch`, inside the transaction. */
    method SaveAll(batch: seq<ActorId>, faults: Faults)
      returns (error: Option<SaveError>, session: Session, added: seq<ActorId>, created: seq<ActorId>)
      requires rows <= files && |faults.items| == |batch|
      modifies this`files
      ensures error.Some? <==> Refuses(old(files), rows, batch, faults.items)
      ensures error == Some(NotOpened) <==> IsLoneUnopened(old(files), batch, faults)
      ensures error.None? ==> Traced(old(files), rows, batch, faults.items, |batch|, files, session.rows)
      ensures error.None? ==>
        && Midway(old(files), rows, batch, |batch|, faults, files, session.rows, IdsOf(added), IdsOf(created))
        && |session.rows| == |rows| + |added| && (|batch| == 1 ==> batch[0] in session.rows)
      ensures error.Some? ==> GivenUp(old(files), rows, batch, faults, files, IdsOf(created))
      ensures error.Some? ==> error.value != AlreadyExists
    {
      hide IdsOf, Midway, GivenUp, Traced, StopsAt;
      NoIds();
      error, session, added, created := None, Session(rows, false), [], [];
      ghost var before := files;
      MidwayStarts(files, rows, batch, faults);
      TracedStarts(files, rows, batch, faults.items);
      for k := 0 to |batch|
        invariant error.None? && !session.autocommit
        invariant Midway(before, rows, batch, k, faults, files, session.rows, IdsOf(added), IdsOf(created))
        invariant |session.rows| == |rows| + |added|
        invariant |batch| == 1 && k == 1 ==> batch[0] in session.rows
        invariant k == 0 ==> files == before
        invariant Traced(before, rows, batch, faults.items, k, files, session.rows)
        invariant forall j | 0 <= j < k :: !StopsAt(before, rows, batch, faults.items, j)
        invariant k > 0 ==> !IsLoneUnopened(before, batch, faults)
      {
        error, session, added, created := SaveOne(batch, k, faults, session, added, created, before);
        if error.Some? {
          return;
        }
      }
    }

    /** `save_actor`: an actor that was there already is reported. */
    method SaveActor(id: ActorId, faults: Faults) returns (r: Result<(), SaveError>)
      requires Consistent() && |faults.items| == 1
      modifies this`files, this`rows, this`records, synch.actorsByBucket, synch.dirtyBuckets
      ensures Consistent()
      ensures r.Ok? ==> id !in old(rows) && rows == old(rows) + {id}
      ensures r.Err? ==> rows == old(rows)
      ensures
        var f, works := faults.items[0], faults.opens && faults.begins && faults.commits;
        && (r == Err(AlreadyExists) <==> works && id in old(rows) && !f.selectFails)
        && (r.Ok? <==> works && id !in old(rows) && !f.insertFails && (id in old(files) || f.add.None?))
    {
      LoneActor(files, rows, id, faults);
      hide Traced, Refuses, Handled, CleansUp, Faultless, FateOf, WellSorted, FreshWhereClean, AllOf;
      hide IdsOf;
      var result := SaveActorBatch([id], faults);
      if result.Err? {
        return Err(result.error);
      }
      LoneAdded(result.value, id);
      if |result.value| == 0 {
        return Err(AlreadyExists);
      }
      r := Ok(());
    }
  }
}
