/** The engine's transactions over the pool, the log and the files (src/storage/engine.cpp). The engine carries its run
    of the step system along: every method extends it, so what holds over all runs holds for the engine. */
module Engine {
  import opened Bytes
  import opened Disk
  import opened LogRecords
  import opened RecordCodec
  import opened Wal
  import opened Recovery
  import opened BufferPool
  import opened CrashRecovery
  import opened EngineSteps
  import opened EngineRuns
  import TS = TxnSystem

  datatype Status = Ok | NoTxn | TxnActive | Stopped // Stopped: the process ends, on a change not in the log

  /** Restoring in reverse order: the oldest entry of a file wins, a file without entry is left alone. */
  method RestoreTails(tail: map<nat, nat>, undo: seq<TailUndo>) returns (back: map<nat, nat>)
    ensures forall fid :: Lookup(back, fid) == TailBack(tail, undo, fid)
  {
    back := tail;
    assert undo[..|undo|] == undo;
    for i := |undo| downto 0
      invariant forall fid :: TailBack(back, undo[..i], fid) == TailBack(tail, undo, fid)
    {
      assert undo[..i + 1][..i] == undo[..i];
      var u := undo[i];
      match u.tail {
        case Some(no) => back := back[u.fid := no];
        case None => back := back - {u.fid};
      }
    }
  }

  // ---- the engine ----

  class StorageEngine {
    const fm: FileManager
    const wal: WalFile
    const pool: Pool
    var tail: map<nat, nat>
    var txn: TxnContext?
    ghost var tailAtBegin: map<nat, nat>
    ghost var committed: TS.Content // what the last commit left; recovery's target

    ghost predicate Objects()
      reads this, fm, wal, pool, pool.frames, txn
    {
      && wal.Valid() && pool.Valid()
      && (forall id :: id in pool.table ==> FitsId(id))
      && (txn != null ==>
            && (forall i :: 0 <= i < |txn.drops| ==> 0 < txn.drops[i] < U64)
            && TailsTracked(txn.tailUndo, txn.drops, tail, tailAtBegin))
    }

    ghost function Now(): Held
      requires pool.Valid()
      reads this, fm, wal, pool, pool.frames, txn
    {
      Held(pool.Cached(), fm.files, wal.log, wal.nextTxn, View(txn))
    }

    ghost predicate Valid()
      reads this, fm, wal, pool, pool.frames, txn
    {
      Objects() && Reachable(Now(), committed)
    }

    /** What a crash leaves behind belongs to a run. True of a valid engine, and also of one that has stopped. */
    ghost predicate Recoverable()
      reads this, fm, wal
    {
      wal.Valid() && Durable(fm.files, wal.log, committed)
    }

    /** A fresh engine over recovered files. */
    constructor (files: Files, crc: Crc, capacity: nat)
      ensures Valid() && fresh(fm) && fresh(wal) && fresh(pool) && fresh(pool.frames) && txn == null
      ensures pool.Cached() == map[] && fm.files == files && wal.log == [] && wal.nextTxn == 1 && wal.crc == crc
      ensures forall id :: committed(id) == At(files, id)
    {
      fm := new FileManager(files);
      wal := new WalFile(crc);
      pool := new Pool(capacity);
      tail, txn, tailAtBegin := map[], null, map[];
      committed := id => At(files, id);
      new;
      OpenedReachable(files);
    }

    method BeginTxn() returns (r: Status)
      requires Valid() && wal.nextTxn < U64
      modifies this`txn, this`tailAtBegin, wal`nextTxn
      ensures Valid() && r == (if old(txn) == null then Ok else TxnActive)
      ensures r.Ok? ==> txn != null && fresh(txn) && tailAtBegin == tail && Now() == AfterBegin(old(Now()))
      ensures r.Ok? ==> forall id :: MarkedIn(Now(), id) == committed(id)
      ensures !r.Ok? ==> txn == old(txn) && wal.nextTxn == old(wal.nextTxn)
    {
      if txn != null {
        r := TxnActive;
      } else {
        BeginReachable(Now(), committed);
        Enlist();
        r := Ok;
      }
    }

    method Enlist()
      requires Objects() && txn == null && wal.nextTxn < U64
      modifies this`txn, this`tailAtBegin, wal`nextTxn
      ensures Objects() && txn != null && fresh(txn) && tailAtBegin == tail && Now() == AfterBegin(old(Now()))
    {
      var id := wal.AllocTxnId();
      txn := new TxnContext(id);
      tailAtBegin := tail;
    }

    /** A page through the pool. Dropped files are not looked up any more. */
    method Read(id: PageId, check: Page -> bool) returns (r: Pinned)
      requires Valid() && FitsId(id) && (txn != null ==> id.fid !in txn.drops)
      modifies pool`table, pool`hand, pool.frames, fm
      ensures Valid()
      ensures r.Frame? ==> id in pool.table && pool.table[id] == r.idx && pool.frames[r.idx].pin > 0
      ensures id in old(pool.table) ==> r.Frame? && pool.Cached() == old(pool.Cached()) && fm.files == old(fm.files)
      ensures id !in old(pool.table) ==> Answers(r, old(pool.frames[..]), old(pool.hand), check(At(old(fm.files), id)))
      ensures id !in old(pool.table) && r.Frame? ==> pool.Cached()[id] == TS.Frame(At(fm.files, id), At(fm.files, id), false)
      ensures SomeFree(old(pool.frames[..])) && AllMarked(old(pool.Cached())) && check(At(old(fm.files), id)) ==> r.Frame?
    {
      ghost var h := Now();
      FreeAndMarked(pool);
      ghost var gone;
      r, gone := Fetch(id, check);
      if id !in h.cached {
        LeftReachable(h, committed, gone);
        if r.Frame? {
          LoadReachable(AfterLeaving(h, gone), committed, id);
        }
      }
    }

    method Fetch(id: PageId, check: Page -> bool) returns (r: Pinned, ghost gone: Option<PageId>)
      requires Objects() && FitsId(id)
      modifies pool`table, pool`hand, pool.frames, fm
      ensures Objects() && CanGo(gone, old(pool.Cached()))
      ensures r.Frame? ==> id in pool.table && pool.table[id] == r.idx && pool.frames[r.idx].pin > 0
      ensures id in old(pool.table) ==> Now() == old(Now()) && r == Frame(old(pool.table)[id])
      ensures id !in old(pool.table) ==> Answers(r, old(pool.frames[..]), old(pool.hand), check(At(old(fm.files), id)))
      ensures id !in old(pool.table) ==>
                var h := AfterLeaving(old(Now()), gone);
                Now() == if r.Frame? then WithFrame(h, id, TS.Frame(At(h.files, id), At(h.files, id), false)) else h
    {
      r, gone := pool.Read(id, check, fm);
      assert forall i :: i in pool.table <==> i in pool.Cached();
    }

    method Add(id: PageId) returns (r: Pinned, ghost gone: Option<PageId>)
      requires Objects() && FitsId(id)
      modifies pool`table, pool`hand, pool.frames, fm
      ensures Objects() && CanGo(gone, old(pool.Cached()))
      ensures r.Frame? ==> id in pool.table && pool.table[id] == r.idx && pool.frames[r.idx].pin > 0
      ensures id in old(pool.table) ==> Now() == old(Now()) && r == Frame(old(pool.table)[id])
      ensures id !in old(pool.table) ==> Answers(r, old(pool.frames[..]), old(pool.hand), true)
      ensures id !in old(pool.table) ==>
                var h := AfterLeaving(old(Now()), gone);
                Now() == if r.Frame? then WithFrame(h, id, TS.Frame(ZeroPage(), ZeroPage(), true)) else h
    {
      r, gone := pool.Allocate(id, fm);
      assert forall i :: i in pool.table <==> i in pool.Cached();
    }

    /** A new page: one that no file holds anything but zeros of. */
    method Allocate(id: PageId) returns (r: Pinned)
      requires Valid() && FitsId(id) && (txn != null ==> id.fid !in txn.drops)
      requires id in pool.table || At(fm.files, id) == ZeroPage()
      modifies pool`table, pool`hand, pool.frames, fm
      ensures Valid()
      ensures r.Frame? ==> id in pool.table && pool.table[id] == r.idx && pool.frames[r.idx].pin > 0
      ensures id in old(pool.table) ==> r.Frame? && pool.Cached() == old(pool.Cached()) && fm.files == old(fm.files)
      ensures id !in old(pool.table) ==> Answers(r, old(pool.frames[..]), old(pool.hand), true)
      ensures id !in old(pool.table) && r.Frame? ==> pool.Cached()[id] == TS.Frame(ZeroPage(), ZeroPage(), true)
      ensures SomeFree(old(pool.frames[..])) && AllMarked(old(pool.Cached())) ==> r.Frame?
    {
      ghost var h := Now();
      FreeAndMarked(pool);
      ghost var gone;
      r, gone := Add(id);
      if id !in h.cached {
        LeftReachable(h, committed, gone);
        if r.Frame? {
          WrittenElsewhere(gone, h.cached, h.files, id);
          AllocateReachable(AfterLeaving(h, gone), committed, id);
        }
      }
    }

    method Unpin(i: nat)
      requires Valid() && i < pool.frames.Length && pool.frames[i].valid
      modifies pool.frames
      ensures Valid() && pool.Cached() == old(pool.Cached())
      ensures pool.frames[i].pin == if old(pool.frames[i].pin) > 0 then old(pool.frames[i].pin) - 1 else 0
    {
      pool.Unpin(i);
    }

    /** The holder of a pinned page changes it in place. */
    method Change(i: nat, pg: Page)
      requires Valid() && txn != null && i < pool.frames.Length && pool.frames[i].valid && pool.frames[i].pin > 0
      modifies pool.frames
      ensures Valid()
      ensures var id := old(pool.frames[i].page);
              Now() == WithFrame(old(Now()), id, old(pool.Cached())[id].(data := pg))
    {
      ghost var h, id := Now(), pool.frames[i].page;
      ModifyReachable(h, committed, id, pg);
      pool.Change(i, pg);
      assert Now() == WithFrame(h, id, h.cached[id].(data := pg));
    }

    /** mark_dirty: the change of a pinned page goes to the log before it can go to disk. */
    method MarkDirty(i: nat) returns (r: Status)
      requires Valid() && i < pool.frames.Length && pool.frames[i].valid
      modifies pool.frames, wal, txn
      ensures Valid() && txn == old(txn) && r == if txn == null then NoTxn else Ok
      ensures Now() == if r.Ok? then AfterMarkDirty(old(Now()), old(pool.frames[i].page)) else old(Now())
    {
      if txn == null {
        r := NoTxn;
      } else {
        MarkDirtyReachable(Now(), committed, pool.frames[i].page);
        LogPage(i);
        r := Ok;
      }
    }

    method LogPage(i: nat)
      requires Objects() && txn != null && i < pool.frames.Length && pool.frames[i].valid
      modifies pool.frames, wal, txn
      ensures Objects() && Now() == AfterMarkDirty(old(Now()), old(pool.frames[i].page))
    {
      MarkPage(pool, wal, txn, i, Now());
    }

    /** Remember the last page of a file, with what the table said before for the rollback. */
    method SetTail(fid: nat, no: nat)
      requires Valid() && txn != null && fid !in txn.drops
      modifies this`tail, txn`tailUndo
      ensures Valid() && tail == old(tail)[fid := no]
      ensures txn.tailUndo == old(txn.tailUndo) + [TailUndo(fid, Lookup(old(tail), fid))]
    {
      var u := TailUndo(fid, Lookup(tail, fid));
      ghost var before, undo := tail, txn.tailUndo;
      txn.tailUndo := txn.tailUndo + [u];
      tail := tail[fid := no];
      SetTailTracked(undo, txn.drops, before, tailAtBegin, fid, no);
    }

    /** Remove a file inside the transaction: logged, its frames written and forgotten, its tail entry
        erased; the unlink waits for the commit. */
    method RemoveTableFile(fid: nat) returns (r: Status)
      requires Valid() && 0 < fid < U64
      modifies this`tail, pool`table, pool.frames, fm, wal, txn
      ensures txn == old(txn) && (r.NoTxn? <==> txn == null) && Recoverable() && (!r.Stopped? ==> Valid())
      ensures r.Ok? ==> tail == old(tail) - {fid} && Now() == AfterDrop(old(Now()), fid, pool.Cached(), fm.files)
      ensures r.Ok? ==> pool.Cached() == OtherFiles(old(pool.Cached()), fid)
      ensures r.Stopped? <==> txn != null && FileUnlogged(old(pool.Cached()), fid)
    {
      if txn == null {
        ReachableIsDurable(Now(), committed);
        r := NoTxn;
      } else {
        var ok := DropFile(fid);
        r := if ok then Ok else Stopped;
      }
    }

    method DropFile(fid: nat) returns (ok: bool)
      requires Valid() && txn != null && 0 < fid < U64
      modifies this`tail, pool`table, pool.frames, fm, wal, txn
      ensures Recoverable() && (ok <==> !FileUnlogged(old(pool.Cached()), fid))
      ensures ok ==> Valid() && tail == old(tail) - {fid} && Now() == AfterDrop(old(Now()), fid, pool.Cached(), fm.files)
      ensures ok ==> pool.Cached() == OtherFiles(old(pool.Cached()), fid)
    {
      ghost var h;
      ok, h := DropLogged(pool, fm, wal, txn, fid, Now(), committed);
      if ok {
        NoteDrop(fid, h);
      }
    }

    /** The file has no tail page any more and is to be removed at commit. */
    method NoteDrop(fid: nat, ghost h: Held)
      requires Objects() && txn != null && 0 < fid < U64
      requires h == Now().(txn := Some(View(txn).value.(drops := txn.drops + [fid])))
      modifies this`tail, txn`drops
      ensures Objects() && Now() == h && tail == old(tail) - {fid}
    {
      DropTailTracked(txn.tailUndo, txn.drops, tail, tailAtBegin, fid);
      tail := tail - {fid};
      txn.drops := txn.drops + [fid];
    }

    /** Commit: the record first, the removals after it. What was marked becomes what is committed. */
    method CommitTxn() returns (r: Status)
      requires Valid()
      modifies this`txn, this`committed, fm, wal
      ensures Valid() && txn == null && r == if old(txn) == null then NoTxn else Ok
      ensures r.NoTxn? ==> Now() == old(Now()) && committed == old(committed)
      ensures r.Ok? ==> Now() == AfterCommit(old(Now())) && CommittedTo(old(Now()), committed)
    {
      if txn == null {
        r := NoTxn;
      } else {
        ghost var c := CommitReachable(Now(), committed);
        FinishCommit();
        committed := c;
        r := Ok;
      }
    }

    method FinishCommit()
      requires Objects() && txn != null
      modifies this`txn, fm, wal
      ensures Objects() && txn == null && Now() == AfterCommit(old(Now()))
    {
      if txn.wrote {
        var _ := wal.Append(CommitRec(txn.id));
      }
      RemoveFiles(fm, txn.drops);
      txn := null;
    }

    /** Rollback: pages from the undo list, newest first, then the tail table, then the Abort record. Every page is as it
        was committed; what readers see as well, if no change was waiting for its mark_dirty. The tail table is as it
        was at begin exactly for the files that were not dropped, had no entry then, or were written to in this
        transaction before they were dropped. */
    method RollbackTxn() returns (r: Status)
      requires Valid()
      modifies this`txn, this`tail, pool.frames, fm, wal
      ensures Valid() && txn == null && r == (if old(txn) == null then NoTxn else Ok)
      ensures r.Ok? ==> Now() == AfterRollback(old(Now())) && forall id :: MarkedIn(Now(), id) == committed(id)
      ensures r.Ok? ==> forall fid :: Lookup(tail, fid) == Lookup(old(tailAtBegin), fid) <==>
                                      TailKept(old(txn.tailUndo), old(txn.drops), old(tailAtBegin), fid)
      ensures r.Ok? && AllMarked(old(Now()).cached) ==> forall id :: SeenIn(Now(), id) == committed(id)
    {
      if txn == null {
        r := NoTxn;
      } else {
        RollbackReachable(Now(), committed);
        UndoChanges();
        r := Ok;
      }
    }

    method UndoChanges()
      requires Objects() && txn != null
      modifies this`txn, this`tail, pool.frames, fm, wal
      ensures Objects() && txn == null && Now() == AfterRollback(old(Now()))
      ensures forall fid :: Lookup(tail, fid) == Lookup(old(tailAtBegin), fid) <==>
                            TailKept(old(txn.tailUndo), old(txn.drops), old(tailAtBegin), fid)
    {
      UndoPages(pool, fm, txn.undo);
      EndRollback();
    }

    /** The tail table and the Abort record. */
    method EndRollback()
      requires Objects() && txn != null
      modifies this`txn, this`tail, wal
      ensures Objects() && txn == null && wal.nextTxn == old(wal.nextTxn)
      ensures var v := old(View(txn)).value;
              && wal.log == (if v.wrote then old(wal.log) + [AbortRec(v.id)] else old(wal.log))
              && forall fid :: Lookup(tail, fid) == Lookup(old(tailAtBegin), fid) <==>
                               TailKept(old(txn.tailUndo), v.drops, old(tailAtBegin), fid)
    {
      var back := RestoreTails(tail, txn.tailUndo);
      TailsBack(txn.tailUndo, txn.drops, tail, tailAtBegin, back);
      tail := back;
      if txn.wrote {
        var _ := wal.Append(AbortRec(txn.id));
      }
      txn := null;
    }

    /** Checkpoint: every dirty page to its file, then the log is emptied. Not inside a transaction. */
    method Checkpoint() returns (r: Status)
      requires Valid()
      modifies pool.frames, fm, wal
      ensures Valid() && (r.TxnActive? <==> txn != null)
      ensures r.Ok? ==> wal.log == [] && forall id :: id in pool.Cached() ==> !pool.Cached()[id].dirty
      ensures SameContents(pool.Cached(), old(pool.Cached()))
      ensures r.Stopped? <==> txn == null && SomeUnlogged(old(pool.Cached()))
    {
      if txn != null {
        r := TxnActive;
      } else {
        var ok := FlushAndReset();
        r := if ok then Ok else Stopped;
      }
    }

    method FlushAndReset() returns (ok: bool)
      requires Valid() && txn == null
      modifies pool.frames, fm, wal
      ensures Valid() && SameContents(pool.Cached(), old(pool.Cached())) && (ok <==> !SomeUnlogged(old(pool.Cached())))
      ensures ok ==> wal.log == [] && forall id :: id in pool.Cached() ==> !pool.Cached()[id].dirty
    {
      ok := FlushDirty();
      if ok {
        wal.Reset();
      }
    }

    method FlushDirty() returns (ok: bool)
      requires Valid() && txn == null
      modifies pool.frames, fm
      ensures Valid() && SameContents(pool.Cached(), old(pool.Cached())) && (ok <==> !SomeUnlogged(old(pool.Cached())))
      ensures ok ==> Reachable(Now().(log := []), committed) && forall id :: id in pool.Cached() ==> !pool.Cached()[id].dirty
    {
      ok := FlushFrames(pool, fm, Now(), committed);
    }
  }

  lemma {:induction false} ValidIsRecoverable(e: StorageEngine)
    requires e.Valid()
    ensures e.Recoverable()
  {
    ReachableIsDurable(e.Now(), e.committed);
  }

  /** The crash theorem for the engine: recovering from what it leaves behind, at any time, gives the last committed contents
      exactly when no aborted change is left on disk alone. */
  lemma {:induction false} EngineCrash(e: StorageEngine)
    requires e.Recoverable()
    ensures (forall id :: At(Recover(e.fm.files, e.wal.log), id) == e.committed(id)) <==> Repaired(e.fm.files, e.wal.log)
  {
    DurableCrash(e.fm.files, e.wal.log, e.committed);
  }

  /** The process dies, perhaps while it was appending one more record; the engine is opened again on the files and on the
      bytes of the log. */
  method Reopen(e: StorageEngine, ghost next: WalRecord, torn: seq<byte>, capacity: nat) returns (f: StorageEngine)
    requires e.Recoverable() && |next.payload| <= WAL_PAYLOAD_MAX
    requires torn < Encode(e.wal.crc, next)
    ensures fresh(f) && f.Valid() && f.txn == null && f.wal.crc == e.wal.crc
    ensures f.fm.files == Recover(e.fm.files, e.wal.log)
    ensures (forall id :: f.committed(id) == e.committed(id)) <==> Repaired(e.fm.files, e.wal.log)
  {
    EngineCrash(e);
    var fm := new FileManager(e.fm.files);
    var wal := new WalFile(e.wal.crc);
    wal.file := e.wal.file + torn;
    TornLogRead(e.wal.crc, e.wal.file, e.wal.records, e.wal.log, next, torn);
    var ok := RecoverFiles(fm, wal);
    f := new StorageEngine(fm.files, e.wal.crc, capacity);
  }

  /** The records of a log file are read back, whatever part of one more record follows. */
  lemma {:induction false} TornLogRead(crc: Crc, file: seq<byte>, records: seq<WalRecord>, log: seq<Rec>, next: WalRecord, torn: seq<byte>)
    requires IsLogFile(crc, file, records, log) && |next.payload| <= WAL_PAYLOAD_MAX && torn < Encode(crc, next)
    ensures ReadLog(crc, file + torn) == Some(log)
  {
    assert torn == Encode(crc, next)[..|torn|];
    LogReadBack(crc, records, next, |torn|);
    ReadLogIsDecodeAll(crc, file + torn);
  }

  predicate SomeFree(fs: seq<PageFrame>) {
    exists i :: 0 <= i < |fs| && fs[i].pin == 0
  }

  /** With a free frame and all changes marked, neither a lack of frames nor an unlogged change answers a read. */
  lemma {:induction false} FreeAndMarked(pool: Pool)
    requires pool.Valid()
    ensures SomeFree(pool.frames[..]) && AllMarked(pool.Cached()) ==>
              forall r: Pinned, good: bool :: Answers(r, pool.frames[..], pool.hand, good) && good ==> r.Frame?
  {
    if SomeFree(pool.frames[..]) && AllMarked(pool.Cached()) {
      forall r: Pinned, good: bool | Answers(r, pool.frames[..], pool.hand, good) && good ensures r.Frame? {
        FrameWhenLogged(pool, r, good);
      }
    }
  }

  /** Log the change of one page. */
  method MarkPage(pool: Pool, wal: WalFile, txn: TxnContext, i: nat, ghost h: Held)
    requires pool.Valid() && wal.Valid() && i < pool.frames.Length && pool.frames[i].valid && FitsId(pool.frames[i].page)
    requires h.cached == pool.Cached() && h.log == wal.log && h.txn == View(txn)
    modifies pool.frames, wal, txn`wrote, txn`undo
    ensures pool.Valid() && wal.Valid() && wal.nextTxn == old(wal.nextTxn)
    ensures var h' := AfterMarkDirty(h, old(pool.frames[i].page));
            pool.Cached() == h'.cached && wal.log == h'.log && View(txn) == h'.txn
  {
    ghost var f := pool.frames[i];
    assert h.cached[f.page] == TS.Frame(f.data, f.before, f.dirty);
    pool.MarkDirty(i, wal, txn);
  }

  /** Write and forget the frames of a file whose removal has been logged. */
  method DropFrames(pool: Pool, fm: FileManager, fid: nat, ghost h: Held, ghost c: TS.Content) returns (ok: bool)
    requires pool.Valid() && pool.Cached() == h.cached && fm.files == h.files
    requires Reachable(h, c) && h.txn.Some? && 0 < fid < U64
    modifies pool`table, pool.frames, fm
    ensures pool.Valid() && pool.table.Keys <= old(pool.table).Keys
    ensures Durable(fm.files, h.log + [DropRec(h.txn.value.id, fid)], c)
    ensures ok <==> !FileUnlogged(h.cached, fid)
    ensures ok ==> pool.Cached() == OtherFiles(h.cached, fid) && Reachable(AfterDrop(h, fid, pool.Cached(), fm.files), c)
  {
    ghost var s := StateOf(h, c);
    ghost var s1 := TS.Apply(s, TS.DropFile(fid));
    ghost var steps;
    ok, steps := pool.DropTable(fid, fm, s1);
    DropSettled(s, fid, steps, pool.Cached(), fm.files);
  }

  /** The record first, then the frames. */
  method DropLogged(pool: Pool, fm: FileManager, wal: WalFile, txn: TxnContext, fid: nat, ghost h: Held, ghost c: TS.Content)
    returns (ok: bool, ghost h': Held)
    requires pool.Valid() && wal.Valid() && 0 < fid < U64 && Reachable(h, c)
    requires h.cached == pool.Cached() && h.files == fm.files && h.log == wal.log && h.txn == View(txn)
    modifies pool`table, pool.frames, fm, wal, txn`wrote
    ensures pool.Valid() && pool.table.Keys <= old(pool.table).Keys && wal.Valid() && wal.nextTxn == old(wal.nextTxn)
    ensures h' == AfterDrop(h, fid, pool.Cached(), fm.files) && wal.log == h'.log && txn.wrote
    ensures Durable(fm.files, wal.log, c)
    ensures (ok <==> !FileUnlogged(h.cached, fid)) && (ok ==> Reachable(h', c) && h'.cached == OtherFiles(h.cached, fid))
  {
    LogDrop(wal, txn, fid);
    ok := DropFrames(pool, fm, fid, h, c);
    h' := AfterDrop(h, fid, pool.Cached(), fm.files);
  }

  /** Write all dirty frames; then the log may be emptied. */
  method FlushFrames(pool: Pool, fm: FileManager, ghost h: Held, ghost c: TS.Content) returns (ok: bool)
    requires pool.Valid() && pool.Cached() == h.cached && fm.files == h.files
    requires Reachable(h, c) && h.txn.None?
    modifies pool.frames, fm
    ensures pool.Valid()
    ensures Reachable(h.(cached := pool.Cached(), files := fm.files), c)
    ensures ok ==>
              && (forall id :: id in pool.Cached() ==> !pool.Cached()[id].dirty)
              && Reachable(h.(cached := pool.Cached(), files := fm.files, log := []), c)
    ensures SameContents(pool.Cached(), h.cached) && (ok <==> !SomeUnlogged(h.cached))
  {
    ghost var s := StateOf(h, c);
    ghost var steps;
    ok, steps := pool.FlushAll(fm, s);
    FlushSettled(s, steps, pool.Cached(), fm.files);
  }

  method LogDrop(wal: WalFile, txn: TxnContext, fid: nat)
    requires wal.Valid() && 0 < fid < U64
    modifies wal, txn`wrote
    ensures wal.Valid() && txn.wrote && wal.log == old(wal.log) + [DropRec(txn.id, fid)] && wal.nextTxn == old(wal.nextTxn)
  {
    var _ := wal.Append(DropRec(txn.id, fid));
    txn.wrote := true;
  }

  method RemoveFiles(fm: FileManager, fids: seq<nat>)
    modifies fm
    ensures fm.files == RemoveAll(old(fm.files), fids)
  {
    for i := 0 to |fids|
      invariant RemoveAll(fm.files, fids[i..]) == RemoveAll(old(fm.files), fids)
    {
      assert fids[i..][1..] == fids[i + 1..];
      fm.RemoveTableFile(fids[i]);
    }
  }

  method UndoPages(pool: Pool, fm: FileManager, undo: seq<TS.UndoEntry>)
    requires pool.Valid()
    modifies pool.frames, fm
    ensures pool.Valid()
    ensures Pages(pool.Cached(), fm.files) == UndoAll(Pages(old(pool.Cached()), old(fm.files)), undo)
  {
    assert undo[..|undo|] == undo;
    for i := |undo| downto 0
      invariant pool.Valid()
      invariant UndoAll(Pages(pool.Cached(), fm.files), undo[..i]) ==
                UndoAll(Pages(old(pool.Cached()), old(fm.files)), undo)
    {
      assert undo[..i + 1][..i] == undo[..i];
      UndoOne(pool, fm, undo[i]);
    }
  }

  method UndoOne(pool: Pool, fm: FileManager, u: TS.UndoEntry)
    requires pool.Valid()
    modifies pool.frames, fm
    ensures pool.Valid()
    ensures Pages(pool.Cached(), fm.files) == UndoEntryOn(Pages(old(pool.Cached()), old(fm.files)), u)
  {
    pool.RestoreRegion(u, fm);
  }
}
