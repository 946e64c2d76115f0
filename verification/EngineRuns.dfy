/** The engine's run of the step system, one call after the other: the values its objects hold are those of a state some run
    from a freshly opened engine reaches. */
module EngineRuns {
  import opened Bytes
  import opened Disk
  import opened LogRecords
  import opened BufferPool
  import opened TxnInvariant
  import opened CrashRecovery
  import opened EngineSteps
  import TS = TxnSystem

  ghost predicate IsRun(files: Files, steps: seq<TS.Step>, s: TS.State) {
    TS.CanRun(TS.Opened(files), steps) && TS.Run(TS.Opened(files), steps) == s
  }

  /** Some run from a freshly opened engine ends in s. */
  ghost predicate Reached(s: TS.State) {
    exists files, steps :: IsRun(files, steps, s)
  }

  lemma {:induction false} OpenedReached(files: Files)
    ensures Reached(TS.Opened(files))
  {
    assert IsRun(files, [], TS.Opened(files));
  }

  lemma {:induction false} ReachedMore(s: TS.State, steps: seq<TS.Step>)
    requires Reached(s) && TS.CanRun(s, steps)
    ensures Reached(TS.Run(s, steps))
  {
    var files, pre :| IsRun(files, pre, s);
    TS.RunConcat(TS.Opened(files), pre, steps);
    assert IsRun(files, pre + steps, TS.Run(s, steps));
  }

  lemma {:induction false} ReachedStep(s: TS.State, step: TS.Step)
    requires Reached(s) && TS.Enabled(s, step)
    ensures Reached(TS.Apply(s, step))
  {
    TS.RunOne(s, step);
    ReachedMore(s, [step]);
  }

  lemma {:induction false} ReachedInv(s: TS.State)
    requires Reached(s)
    ensures Inv(s)
  {
    var files, steps :| IsRun(files, steps, s);
    OpenedInv(files);
    RunKeepsInv(TS.Opened(files), steps);
  }

  /** Between transactions every page is as committed. */
  lemma {:induction false} QuietIsCommitted(s: TS.State, id: PageId)
    requires Reached(s) && s.txn.None? && s.unlinks == []
    ensures TS.Marked(s, id) == s.committed(id)
  {
    ReachedInv(s);
    forall k | 0 <= k < PAGE_SIZE ensures TS.Marked(s, id)[k] == s.committed(id)[k] {
      assert ByteInv(s, id, k);
    }
  }

  // ---- the engine between two calls ----

  /** What the engine's objects hold. */
  datatype Held = Held(cached: map<PageId, TS.Frame>, files: Files, log: seq<Rec>, nextTxn: nat, txn: Option<TxnView>)

  function HeldBy(s: TS.State): Held {
    Held(s.frames, s.files, s.log, s.next,
         if s.txn.None? then None
         else Some(TxnView(s.txn.value.id, TS.Wrote(s), s.txn.value.undo, s.txn.value.drops)))
  }

  /** A reached state between two calls: nothing left to unlink, no rollback under way, page numbers and file numbers that
      fit the log records, and no page of a dropped file cached. */
  ghost predicate Settled(s: TS.State) {
    && Reached(s) && s.unlinks == []
    && (forall id :: id in s.frames ==> FitsId(id))
    && (s.txn.Some? ==>
          && !s.txn.value.rolling && s.txn.value.id < U64
          && (forall i :: 0 <= i < |s.txn.value.drops| ==> 0 < s.txn.value.drops[i] < U64)
          && forall id :: id in s.frames ==> id.fid !in s.txn.value.drops)
  }

  lemma {:induction false} BeginSettled(s: TS.State)
    requires Settled(s) && s.txn.None? && s.next < U64
    ensures TS.Enabled(s, TS.Begin)
    ensures var s' := TS.Apply(s, TS.Begin);
            && Settled(s')
            && HeldBy(s') == HeldBy(s).(nextTxn := s.next + 1, txn := Some(TxnView(s.next, false, [], [])))
            && forall id :: TS.Marked(s', id) == s'.committed(id)
  {
    ReachedStep(s, TS.Begin);
    forall id ensures TS.Marked(s, id) == s.committed(id) {
      QuietIsCommitted(s, id);
    }
  }

  /** The state once a page has left the pool, if one has. */
  function Left(s: TS.State, gone: Option<PageId>): TS.State
    requires CanGo(gone, s.frames)
  {
    if gone.Some? then TS.Apply(s, TS.Evict(gone.value)) else s
  }

  lemma {:induction false} LeftSettled(s: TS.State, gone: Option<PageId>)
    requires Settled(s) && CanGo(gone, s.frames)
    ensures Settled(Left(s, gone)) && Left(s, gone).committed == s.committed
    ensures HeldBy(Left(s, gone)) ==
            HeldBy(s).(cached := Without(gone, s.frames), files := Written(gone, s.frames, s.files))
  {
    if gone.Some? {
      ReachedStep(s, TS.Evict(gone.value));
    }
  }

  lemma {:induction false} LoadSettled(s: TS.State, id: PageId)
    requires Settled(s) && id !in s.frames && FitsId(id) && (s.txn.Some? ==> id.fid !in s.txn.value.drops)
    ensures TS.Enabled(s, TS.Load(id))
    ensures var s' := TS.Apply(s, TS.Load(id));
            && Settled(s') && s'.committed == s.committed
            && HeldBy(s') == HeldBy(s).(cached := s.frames[id := TS.Frame(At(s.files, id), At(s.files, id), false)])
  {
    ReachedStep(s, TS.Load(id));
  }

  lemma {:induction false} AllocateSettled(s: TS.State, id: PageId)
    requires Settled(s) && id !in s.frames && FitsId(id) && (s.txn.Some? ==> id.fid !in s.txn.value.drops)
    requires At(s.files, id) == ZeroPage()
    ensures TS.Enabled(s, TS.Allocate(id))
    ensures var s' := TS.Apply(s, TS.Allocate(id));
            && Settled(s') && s'.committed == s.committed
            && HeldBy(s') == HeldBy(s).(cached := s.frames[id := TS.Frame(ZeroPage(), ZeroPage(), true)])
  {
    ReachedStep(s, TS.Allocate(id));
  }

  lemma {:induction false} ModifySettled(s: TS.State, id: PageId, pg: Page)
    requires Settled(s) && s.txn.Some? && id in s.frames
    ensures TS.Enabled(s, TS.Modify(id, pg))
    ensures var s' := TS.Apply(s, TS.Modify(id, pg));
            && Settled(s') && s'.committed == s.committed
            && HeldBy(s') == HeldBy(s).(cached := s.frames[id := s.frames[id].(data := pg)])
  {
    ReachedStep(s, TS.Modify(id, pg));
  }

  /** mark_dirty: one step for each run of differing words, and one for the flag. */
  lemma {:induction false} MarkDirtySettled(s: TS.State, id: PageId)
    requires Settled(s) && s.txn.Some? && id in s.frames
    ensures var f, v := s.frames[id], HeldBy(s).txn.value;
            var rs := Runs(f.base, f.data, 0);
            var steps := MarkDirtySteps(id, f.base, f.data);
            && TS.CanRun(s, steps)
            && var s' := TS.Run(s, steps);
               && Settled(s') && s'.committed == s.committed
               && HeldBy(s') == HeldBy(s).(
                    cached := s.frames[id := TS.Frame(f.data, f.data, true)],
                    log := s.log + Records(v.id, Patches(id, f.base, f.data, rs)),
                    txn := Some(v.(wrote := v.wrote || rs != [], undo := v.undo + Undos(id, f.base, rs))))
  {
    var f := s.frames[id];
    ReachedInv(s);
    MarkDirtyRun(s, id);
    ReachedMore(s, MarkDirtySteps(id, f.base, f.data));
  }

  /** The drop record, and the state the removal of the file's frames leads to; settled once none is left. */
  lemma {:induction false} DropSettled(s: TS.State, fid: nat, steps: seq<TS.Step>, cached: map<PageId, TS.Frame>, files: Files)
    requires Settled(s) && s.txn.Some? && 0 < fid < U64 && TS.Enabled(s, TS.DropFile(fid))
    requires var s1 := TS.Apply(s, TS.DropFile(fid));
             TS.CanRun(s1, steps) && TS.Run(s1, steps) == s1.(frames := cached, files := files)
    ensures var s2, v := TS.Run(TS.Apply(s, TS.DropFile(fid)), steps), HeldBy(s).txn.value;
            && Reached(s2) && s2.committed == s.committed
            && HeldBy(s2) == Held(cached, files, s.log + [DropRec(v.id, fid)], s.next,
                                  Some(v.(wrote := true, drops := v.drops + [fid])))
            && ((forall id :: id in cached ==> id in s.frames && id.fid != fid) ==> Settled(s2))
  {
    ReachedInv(s);
    ReachedStep(s, TS.DropFile(fid));
    ReachedMore(TS.Apply(s, TS.DropFile(fid)), steps);
  }

  /** Commit makes the marked contents the committed ones, with the dropped files gone. */
  lemma {:induction false} CommitSettled(s: TS.State)
    requires Settled(s) && s.txn.Some?
    ensures var v := HeldBy(s).txn.value;
            var steps := CommitSteps(|v.drops|);
            && TS.CanRun(s, steps)
            && var s' := TS.Run(s, steps);
               && Settled(s')
               && HeldBy(s') == HeldBy(s).(files := RemoveAll(s.files, v.drops),
                                           log := if v.wrote then s.log + [CommitRec(v.id)] else s.log, txn := None)
               && forall id :: s'.committed(id) == if id.fid in v.drops then ZeroPage() else TS.Marked(s, id)
  {
    var drops := s.txn.value.drops;
    UnlinkRun(TS.Apply(s, TS.Commit));
    assert CommitSteps(|drops|)[1..] == seq(|drops|, _ => TS.Unlink);
    ReachedMore(s, CommitSteps(|drops|));
  }

  /** Rollback brings every page, wherever it is, back to the committed contents. */
  lemma {:induction false} RollbackSettled(s: TS.State)
    requires Settled(s) && s.txn.Some?
    ensures var v := HeldBy(s).txn.value;
            var p, steps := UndoAll(Pages(s.frames, s.files), v.undo), RollbackSteps(|v.undo|);
            && TS.CanRun(s, steps)
            && var s' := TS.Run(s, steps);
               && Settled(s') && s'.committed == s.committed
               && HeldBy(s') == Held(p.cached, p.files, if v.wrote then s.log + [AbortRec(v.id)] else s.log, s.next, None)
               && forall id :: TS.Marked(s', id) == s.committed(id)
  {
    var steps := RollbackSteps(|s.txn.value.undo|);
    RollbackRun(s);
    UndoKeepsKeys(Pages(s.frames, s.files), s.txn.value.undo);
    ReachedMore(s, steps);
    var s' := TS.Run(s, steps);
    forall id ensures TS.Marked(s', id) == s.committed(id) {
      QuietIsCommitted(s', id);
    }
  }

  /** Where every change has been marked before the rollback, readers see the committed contents after it. */
  lemma {:induction false} RollbackSeen(s: TS.State, id: PageId)
    requires Settled(s) && s.txn.Some? && AllMarked(s.frames)
    ensures var steps := RollbackSteps(|s.txn.value.undo|);
            TS.CanRun(s, steps) && TS.Seen(TS.Run(s, steps), id) == s.committed(id)
  {
    RollbackSettled(s);
    UndoKeepsMarked(Pages(s.frames, s.files), s.txn.value.undo);
  }

  /** Pages written by flush steps; where all are clean, the log may be emptied. */
  lemma {:induction false} FlushSettled(s: TS.State, steps: seq<TS.Step>, cached: map<PageId, TS.Frame>, files: Files)
    requires Settled(s) && s.txn.None? && cached.Keys == s.frames.Keys
    requires TS.CanRun(s, steps) && TS.Run(s, steps) == s.(frames := cached, files := files)
    ensures Settled(TS.Run(s, steps))
    ensures (forall id :: id in cached ==> !cached[id].dirty) ==>
              && TS.Enabled(TS.Run(s, steps), TS.Reset)
              && Settled(TS.Apply(TS.Run(s, steps), TS.Reset))
  {
    var s1 := TS.Run(s, steps);
    ReachedMore(s, steps);
    if forall id :: id in cached ==> !cached[id].dirty {
      ReachedStep(s1, TS.Reset);
    }
  }

  // ---- the same, by what the objects hold ----

  /** Some run leads to a settled state in which the objects hold h and the committed contents are c. */
  ghost predicate Reachable(h: Held, c: TS.Content) {
    exists s :: Settled(s) && HeldBy(s) == h && s.committed == c
  }

  /** Some run leads to a state with these files, this log and these committed contents: what a crash leaves behind. */
  ghost predicate Durable(files: Files, log: seq<Rec>, c: TS.Content) {
    exists s :: Reached(s) && s.files == files && s.log == log && s.committed == c
  }

  // What each call makes of the held values.

  function AfterBegin(h: Held): Held {
    h.(nextTxn := h.nextTxn + 1, txn := Some(TxnView(h.nextTxn, false, [], [])))
  }

  /** A page out of the pool, if one has left. */
  function AfterLeaving(h: Held, gone: Option<PageId>): Held {
    h.(cached := Without(gone, h.cached), files := Written(gone, h.cached, h.files))
  }

  function WithFrame(h: Held, id: PageId, f: TS.Frame): Held {
    h.(cached := h.cached[id := f])
  }

  /** mark_dirty: the runs of differing words in the log and in the undo list, the baseline brought up. */
  function AfterMarkDirty(h: Held, id: PageId): Held
    requires h.txn.Some? && id in h.cached
  {
    var f, v := h.cached[id], h.txn.value;
    var rs := Runs(f.base, f.data, 0);
    h.(cached := h.cached[id := TS.Frame(f.data, f.data, true)],
       log := h.log + Records(v.id, Patches(id, f.base, f.data, rs)),
       txn := Some(v.(wrote := v.wrote || rs != [], undo := v.undo + Undos(id, f.base, rs))))
  }

  /** A drop: its record in the log, its file on the list, the pool and the files as they are once the frames are gone. */
  function AfterDrop(h: Held, fid: nat, cached: map<PageId, TS.Frame>, files: Files): Held
    requires h.txn.Some?
  {
    var v := h.txn.value;
    Held(cached, files, h.log + [DropRec(v.id, fid)], h.nextTxn, Some(v.(wrote := true, drops := v.drops + [fid])))
  }

  function AfterCommit(h: Held): Held
    requires h.txn.Some?
  {
    var v := h.txn.value;
    h.(files := RemoveAll(h.files, v.drops), log := if v.wrote then h.log + [CommitRec(v.id)] else h.log, txn := None)
  }

  /** The undo list put back, newest entry first. */
  function AfterRollback(h: Held): Held
    requires h.txn.Some?
  {
    var v := h.txn.value;
    var p := UndoAll(Pages(h.cached, h.files), v.undo);
    Held(p.cached, p.files, if v.wrote then h.log + [AbortRec(v.id)] else h.log, h.nextTxn, None)
  }

  function MarkedIn(h: Held, id: PageId): Page {
    if id in h.cached then h.cached[id].base else At(h.files, id)
  }

  function SeenIn(h: Held, id: PageId): Page {
    if id in h.cached then h.cached[id].data else At(h.files, id)
  }

  lemma {:induction false} StateOf(h: Held, c: TS.Content) returns (s: TS.State)
    requires Reachable(h, c)
    ensures Settled(s) && HeldBy(s) == h && s.committed == c
  {
    s :| Settled(s) && HeldBy(s) == h && s.committed == c;
  }

  lemma {:induction false} ReachableIsDurable(h: Held, c: TS.Content)
    requires Reachable(h, c)
    ensures Durable(h.files, h.log, c)
  {
    var s := StateOf(h, c);
  }

  /** The crash theorem: recovery from files and log restores the committed contents exactly when no aborted change is left
      on disk alone. */
  lemma {:induction false} DurableCrash(files: Files, log: seq<Rec>, c: TS.Content)
    requires Durable(files, log, c)
    ensures (forall id :: At(Recover(files, log), id) == c(id)) <==> Repaired(files, log)
  {
    var s :| Reached(s) && s.files == files && s.log == log && s.committed == c;
    ReachedInv(s);
    RecoversIffRepaired(s);
  }

  lemma {:induction false} OpenedReachable(files: Files)
    ensures Reachable(Held(map[], files, [], 1, None), id => At(files, id))
  {
    OpenedReached(files);
    assert HeldBy(TS.Opened(files)) == Held(map[], files, [], 1, None);
    assert Settled(TS.Opened(files));
  }

  lemma {:induction false} BeginReachable(h: Held, c: TS.Content)
    requires Reachable(h, c) && h.txn.None? && h.nextTxn < U64
    ensures Reachable(AfterBegin(h), c)
    ensures forall id :: MarkedIn(h, id) == c(id)
  {
    var s := StateOf(h, c);
    BeginSettled(s);
    assert TS.Apply(s, TS.Begin).committed == c;
    forall id ensures MarkedIn(h, id) == c(id) {
      assert TS.Marked(TS.Apply(s, TS.Begin), id) == c(id);
    }
  }

  lemma {:induction false} LeftReachable(h: Held, c: TS.Content, gone: Option<PageId>)
    requires Reachable(h, c) && CanGo(gone, h.cached)
    ensures Reachable(AfterLeaving(h, gone), c)
  {
    var s := StateOf(h, c);
    LeftSettled(s, gone);
  }

  lemma {:induction false} LoadReachable(h: Held, c: TS.Content, id: PageId)
    requires Reachable(h, c) && id !in h.cached && FitsId(id) && (h.txn.Some? ==> id.fid !in h.txn.value.drops)
    ensures Reachable(WithFrame(h, id, TS.Frame(At(h.files, id), At(h.files, id), false)), c)
  {
    var s := StateOf(h, c);
    LoadSettled(s, id);
  }

  lemma {:induction false} AllocateReachable(h: Held, c: TS.Content, id: PageId)
    requires Reachable(h, c) && id !in h.cached && FitsId(id) && (h.txn.Some? ==> id.fid !in h.txn.value.drops)
    requires At(h.files, id) == ZeroPage()
    ensures Reachable(WithFrame(h, id, TS.Frame(ZeroPage(), ZeroPage(), true)), c)
  {
    var s := StateOf(h, c);
    AllocateSettled(s, id);
  }

  lemma {:induction false} ModifyReachable(h: Held, c: TS.Content, id: PageId, pg: Page)
    requires Reachable(h, c) && h.txn.Some? && id in h.cached
    ensures Reachable(WithFrame(h, id, h.cached[id].(data := pg)), c)
  {
    var s := StateOf(h, c);
    ModifySettled(s, id, pg);
  }

  lemma {:induction false} MarkDirtyReachable(h: Held, c: TS.Content, id: PageId)
    requires Reachable(h, c) && h.txn.Some? && id in h.cached
    ensures Reachable(AfterMarkDirty(h, id), c)
  {
    var s := StateOf(h, c);
    MarkDirtySettled(s, id);
  }

  /** What commit makes of the committed contents. */
  ghost predicate CommittedTo(h: Held, c: TS.Content)
    requires h.txn.Some?
  {
    forall id :: c(id) == if id.fid in h.txn.value.drops then ZeroPage() else MarkedIn(h, id)
  }

  lemma {:induction false} CommitReachable(h: Held, c: TS.Content) returns (c': TS.Content)
    requires Reachable(h, c) && h.txn.Some?
    ensures Reachable(AfterCommit(h), c') && CommittedTo(h, c')
  {
    var s := StateOf(h, c);
    CommitSettled(s);
    c' := TS.Run(s, CommitSteps(|h.txn.value.drops|)).committed;
    forall id ensures c'(id) == if id.fid in h.txn.value.drops then ZeroPage() else MarkedIn(h, id) {
      assert TS.Marked(s, id) == MarkedIn(h, id);
    }
  }

  lemma {:induction false} RollbackReachable(h: Held, c: TS.Content)
    requires Reachable(h, c) && h.txn.Some?
    ensures var h' := AfterRollback(h);
            && Reachable(h', c)
            && (forall id :: MarkedIn(h', id) == c(id))
            && (AllMarked(h.cached) ==> forall id :: SeenIn(h', id) == c(id))
  {
    var s := StateOf(h, c);
    RollbackSettled(s);
    var s' := TS.Run(s, RollbackSteps(|h.txn.value.undo|));
    forall id ensures MarkedIn(HeldBy(s'), id) == c(id) {
      assert TS.Marked(s', id) == c(id);
    }
    forall id | AllMarked(h.cached) ensures SeenIn(HeldBy(s'), id) == c(id) {
      RollbackSeen(s, id);
    }
  }
}
