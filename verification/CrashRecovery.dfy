/** What recovery guarantees after a crash at any point of any run. */
module CrashRecovery {
  import opened Disk
  import opened LogRecords
  import opened TxnSystem
  import opened TxnInvariant

  /** Every byte that only aborted transactions patched holds, on disk, what it held before the first of
      them. Rollback repairs a cached page in its frame only, and recovery skips aborted transactions,
      so nothing else repairs such a byte. Checked on the crashed files and the log alone. */
  ghost predicate Repaired(files: Files, log: seq<Rec>) {
    forall id, k | 0 <= k < PAGE_SIZE ::
      && FirstBefore(log, Losers(log), id, k).None?
      && LastAfter(log, Committed(log), id, k).None?
      ==> At(files, id)[k] == GetOr(FirstBefore(log, Aborted(log), id, k), At(files, id)[k])
  }

  ghost predicate Recovers(s: State) {
    forall id :: At(Recover(s.files, s.log), id) == s.committed(id)
  }

  /** The losers are exactly the active transaction, once it has logged something. */
  lemma {:induction false} LosersAreActive(s: State, id: PageId, k: nat)
    requires Serial(s)
    ensures FirstBefore(s.log, Losers(s.log), id, k) == FirstBefore(s.log, Active(s), id, k)
  {
    forall i | 0 <= i < |s.log|
      ensures s.log[i].txn in Losers(s.log) <==> s.log[i].txn in Active(s)
    {
      assert s.log[i] in s.log;
      if s.txn.Some? {
        NotFinished(s);
      }
    }
    SameSelection(s.log, Losers(s.log), Active(s), id, k);
  }

  lemma {:induction false} ByteRecovered(s: State, id: PageId, k: nat)
    requires Inv(s) && k < PAGE_SIZE
    ensures FirstBefore(s.log, Losers(s.log), id, k).Some? || LastAfter(s.log, Committed(s.log), id, k).Some?
              || FirstBefore(s.log, Aborted(s.log), id, k).None?
            ==> At(Recover(s.files, s.log), id)[k] == s.committed(id)[k]
    ensures FirstBefore(s.log, Losers(s.log), id, k).None? && LastAfter(s.log, Committed(s.log), id, k).None?
              && FirstBefore(s.log, Aborted(s.log), id, k).Some?
            ==> && At(Recover(s.files, s.log), id)[k] == At(s.files, id)[k]
                && s.committed(id)[k] == FirstBefore(s.log, Aborted(s.log), id, k).value
  {
    assert ByteInv(s, id, k);
    RecoverByte(s.files, s.log, id, k);
    LosersAreActive(s, id, k);
    NoneSelected(s.log, {}, id, k);
  }

  /** Recovery restores the last committed state exactly when no aborted change is left on disk alone. */
  lemma {:induction false} RecoversIffRepaired(s: State)
    requires Inv(s)
    ensures Recovers(s) <==> Repaired(s.files, s.log)
  {
    if Recovers(s) {
      forall id, k | 0 <= k < PAGE_SIZE
        && FirstBefore(s.log, Losers(s.log), id, k).None?
        && LastAfter(s.log, Committed(s.log), id, k).None?
        ensures At(s.files, id)[k] == GetOr(FirstBefore(s.log, Aborted(s.log), id, k), At(s.files, id)[k])
      {
        ByteRecovered(s, id, k);
        assert At(Recover(s.files, s.log), id) == s.committed(id);
      }
    }
    if Repaired(s.files, s.log) {
      forall id ensures At(Recover(s.files, s.log), id) == s.committed(id) {
        forall k | 0 <= k < PAGE_SIZE ensures At(Recover(s.files, s.log), id)[k] == s.committed(id)[k] {
          ByteRecovered(s, id, k);
        }
      }
    }
  }

  /** The crash theorem: for every run from a freshly opened engine, stopped anywhere. */
  lemma {:induction false} CrashTheorem(files: Files, steps: seq<Step>)
    requires CanRun(Opened(files), steps)
    ensures var s := Run(Opened(files), steps);
            Recovers(s) <==> Repaired(s.files, s.log)
  {
    OpenedInv(files);
    RunKeepsInv(Opened(files), steps);
    RecoversIffRepaired(Run(Opened(files), steps));
  }

  /** Every page an aborted transaction patched has reached the disk again, or never left it. */
  ghost predicate AbortedPagesWritten(s: State) {
    forall r :: r in s.log && r.PatchRec? && r.txn in Aborted(s.log) && r.patch.page in s.frames ==>
      !s.frames[r.patch.page].dirty
  }

  lemma {:induction false} CoveredBySome(log: seq<Rec>, sel: set<nat>, id: PageId, k: nat)
    requires FirstBefore(log, sel, id, k).Some?
    ensures exists r :: r in log && r.PatchRec? && r.txn in sel && r.patch.page == id
  {
    var n := |log| - 1;
    if FirstBefore(log[..n], sel, id, k).Some? {
      CoveredBySome(log[..n], sel, id, k);
      var r :| r in log[..n] && r.PatchRec? && r.txn in sel && r.patch.page == id;
      assert r in log;
    } else {
      assert log[n] in log;
    }
  }

  /** Writing the pages a rollback restored, before the crash, is enough. */
  lemma {:induction false} WrittenAgainSuffices(files: Files, steps: seq<Step>)
    requires CanRun(Opened(files), steps)
    requires AbortedPagesWritten(Run(Opened(files), steps))
    ensures Recovers(Run(Opened(files), steps))
  {
    var s := Run(Opened(files), steps);
    OpenedInv(files);
    RunKeepsInv(Opened(files), steps);
    forall id, k | 0 <= k < PAGE_SIZE
      && FirstBefore(s.log, Losers(s.log), id, k).None?
      && LastAfter(s.log, Committed(s.log), id, k).None?
      ensures At(s.files, id)[k] == GetOr(FirstBefore(s.log, Aborted(s.log), id, k), At(s.files, id)[k])
    {
      if FirstBefore(s.log, Aborted(s.log), id, k).Some? {
        CoveredBySome(s.log, Aborted(s.log), id, k);
        assert ByteInv(s, id, k);
        LosersAreActive(s, id, k);
        assert At(s.files, id) == Marked(s, id);
      }
    }
    RecoversIffRepaired(s);
  }

  predicate NoCommit(steps: seq<Step>) {
    forall i :: 0 <= i < |steps| ==> !steps[i].Commit?
  }

  lemma {:induction false} CommittedStays(s: State, steps: seq<Step>)
    requires CanRun(s, steps) && NoCommit(steps)
    ensures Run(s, steps).committed == s.committed
    decreases |steps|
  {
    if steps != [] {
      CommittedStays(Apply(s, steps[0]), steps[1..]);
    }
  }

  /** Durability: what was in the pages when a transaction committed is what recovery brings back,
      whatever later transactions that did not commit had done by the time of the crash. */
  lemma {:induction false} CommittedSurvives(files: Files, pre: seq<Step>, post: seq<Step>, id: PageId)
    requires CanRun(Opened(files), pre + ([Commit] + post)) && NoCommit(post)
    requires var s := Run(Opened(files), pre + ([Commit] + post)); Repaired(s.files, s.log)
    ensures CanRun(Opened(files), pre)
    ensures Run(Opened(files), pre).txn.Some?
    ensures var s0 := Run(Opened(files), pre);
            var s := Run(Opened(files), pre + ([Commit] + post));
            At(Recover(s.files, s.log), id) ==
            if id.fid in s0.txn.value.drops then ZeroPage() else Marked(s0, id)
  {
    RunAppend(Opened(files), pre, [Commit] + post);
    var s0 := Run(Opened(files), pre);
    assert ([Commit] + post)[1..] == post;
    CommittedStays(Apply(s0, Commit), post);
    CrashTheorem(files, pre + ([Commit] + post));
  }

  /** Rollback: from begin to abort, whatever was changed, evicted, loaded or logged in between, every page ends with the
      contents it began with; readers see them exactly where no change is left that was never logged. */
  lemma {:induction false} RollbackRestores(s: State, mid: seq<Step>, id: PageId)
    requires Inv(s) && CanRun(s, [Begin] + (mid + [Abort])) && NoCommit(mid)
    ensures var s' := Run(s, [Begin] + (mid + [Abort]));
            && Marked(s', id) == Marked(s, id)
            && (Seen(s', id) == Marked(s, id) <==> (id in s'.frames ==> s'.frames[id].data == s'.frames[id].base))
  {
    var steps := [Begin] + (mid + [Abort]);
    var s' := Run(s, steps);
    assert NoCommit(steps);
    CommittedStays(s, steps);
    RunKeepsInv(s, steps);
    assert steps == ([Begin] + mid) + [Abort];
    RunAppend(s, [Begin] + mid, [Abort]);
    forall k | 0 <= k < PAGE_SIZE ensures Marked(s', id)[k] == Marked(s, id)[k] {
      assert ByteInv(s, id, k) && ByteInv(s', id, k);
    }
  }

  // ---- the condition is needed ----

  const P := PageId(1, 0)

  /** One transaction steals a page to disk, reads it back and rolls back: the frame is repaired, the
      disk is not. */
  const STOLEN_THEN_ABORTED: seq<Step> :=
    [Load(P), Begin, Modify(P, Overwrite(ZeroPage(), 0, [7])), LogPatch(P, 0, 1), Evict(P), Load(P), UndoOne, Abort]

  lemma {:induction false} RunStep(s: State, steps: seq<Step>, step: Step, rest: seq<Step>)
    requires steps == [step] + rest && Enabled(s, step) && CanRun(Apply(s, step), rest)
    ensures CanRun(s, steps) && Run(s, steps) == Run(Apply(s, step), rest)
  {
    assert steps[1..] == rest;
  }

  function InTxn(frames: map<PageId, Frame>, files: Files, log: seq<Rec>, undo: seq<UndoEntry>, rolling: bool): State {
    Opened(map[]).(frames := frames, files := files, log := log, txn := Some(Txn(1, undo, [], rolling, 0)), next := 2)
  }

  const PATCH: Rec := PatchRec(1, Patch(P, 0, [7], [0]))

  function StolenPage(): Page {
    Overwrite(ZeroPage(), 0, [7])
  }

  /** The page is in the pool and changed, inside transaction 1. */
  function Changed(): State {
    InTxn(map[P := Frame(StolenPage(), ZeroPage(), false)], map[], [], [], false)
  }

  lemma {:induction false} ChangeRun()
    ensures CanRun(Opened(map[]), [Load(P), Begin, Modify(P, StolenPage())])
    ensures Run(Opened(map[]), [Load(P), Begin, Modify(P, StolenPage())]) == Changed()
  {
    var z, d := ZeroPage(), StolenPage();
    var s0 := Opened(map[]);
    var s1 := s0.(frames := map[P := Frame(z, z, false)]);
    var s2 := InTxn(map[P := Frame(z, z, false)], map[], [], [], false);
    RunStep(s2, [Modify(P, d)], Modify(P, d), []);
    RunStep(s1, [Begin, Modify(P, d)], Begin, [Modify(P, d)]);
    RunStep(s0, [Load(P), Begin, Modify(P, d)], Load(P), [Begin, Modify(P, d)]);
  }

  /** The change is logged and stolen to disk. */
  lemma {:induction false} StealRun()
    ensures var stolen := InTxn(map[], WritePage(map[], P, StolenPage()), [PATCH], [Undone(P, 0, [0])], false);
            && CanRun(Changed(), [LogPatch(P, 0, 1), Evict(P)])
            && Run(Changed(), [LogPatch(P, 0, 1), Evict(P)]) == stolen
  {
    var z, d := ZeroPage(), StolenPage();
    var s3 := Changed();
    var s4 := InTxn(map[P := Frame(d, d, true)], map[], [PATCH], [Undone(P, 0, [0])], false);
    assert z[0..1] == [0] && d[0..1] == [7];
    assert Apply(s3, LogPatch(P, 0, 1)) == s4 by {
      assert s3.frames[P := Frame(d, d, true)] == s4.frames;
      assert Overwrite(z, 0, d[0..1]) == d;
      assert [] + [Undone(P, 0, z[0..1])] == [Undone(P, 0, [0])];
      assert [] + [PATCH] == [PATCH];
    }
    assert s4.frames - {P} == map[];
    RunStep(s4, [Evict(P)], Evict(P), []);
    RunStep(s3, [LogPatch(P, 0, 1), Evict(P)], LogPatch(P, 0, 1), [Evict(P)]);
  }

  /** Read back, rolled back in the frame, aborted. */
  lemma {:induction false} RollBackRun()
    ensures var d := StolenPage();
            var stolen := InTxn(map[], WritePage(map[], P, d), [PATCH], [Undone(P, 0, [0])], false);
            && CanRun(stolen, [Load(P), UndoOne, Abort])
            && Run(stolen, [Load(P), UndoOne, Abort]).log == [PATCH, AbortRec(1)]
            && Run(stolen, [Load(P), UndoOne, Abort]).files == WritePage(map[], P, d)
  {
    var d := StolenPage();
    var files := WritePage(map[], P, d);
    AtWrite(map[], P, d, P);
    var r := Restored(Frame(d, d, false), Undone(P, 0, [0]));
    var s5 := InTxn(map[], files, [PATCH], [Undone(P, 0, [0])], false);
    var s6 := InTxn(map[P := Frame(d, d, false)], files, [PATCH], [Undone(P, 0, [0])], false);
    var s7 := InTxn(map[P := r], files, [PATCH], [], true);
    RunStep(s7, [Abort], Abort, []);
    RunStep(s6, [UndoOne, Abort], UndoOne, [Abort]);
    RunStep(s5, [Load(P), UndoOne, Abort], Load(P), [UndoOne, Abort]);
  }

  /** A crash right after that run: recovery leaves the aborted byte on disk. */
  lemma {:induction false} ResidueSurvives()
    ensures CanRun(Opened(map[]), STOLEN_THEN_ABORTED)
    ensures var s := Run(Opened(map[]), STOLEN_THEN_ABORTED);
            && s.committed(P)[0] == 0
            && At(Recover(s.files, s.log), P)[0] == 7
            && !Recovers(s)
  {
    ChangeRun();
    StealRun();
    RollBackRun();
    var st := STOLEN_THEN_ABORTED;
    assert st == [Load(P), Begin, Modify(P, StolenPage())] + ([LogPatch(P, 0, 1), Evict(P)] + [Load(P), UndoOne, Abort]);
    RunConcat(Changed(), [LogPatch(P, 0, 1), Evict(P)], [Load(P), UndoOne, Abort]);
    RunConcat(Opened(map[]), [Load(P), Begin, Modify(P, StolenPage())],
              [LogPatch(P, 0, 1), Evict(P)] + [Load(P), UndoOne, Abort]);
    var s := Run(Opened(map[]), st);
    CommittedStays(Opened(map[]), st);
    RecoverByte(s.files, s.log, P, 0);
    AtWrite(map[], P, StolenPage(), P);
    assert s.log[1] in s.log;
    NoneSelected(s.log, Losers(s.log), P, 0);
    NoneSelected(s.log, Committed(s.log), P, 0);
    assert At(Recover(s.files, s.log), P) != s.committed(P);
  }
}
