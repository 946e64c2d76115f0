/** What every step of the transactional storage keeps. */
module TxnInvariant {
  import opened Bytes
  import opened Disk
  import opened LogRecords
  import opened TxnSystem

  function Active(s: State): set<nat> {
    if s.txn.Some? then {s.txn.value.id} else {}
  }

  /** Transactions are serial: the active one owns a suffix of the log, all others are finished. */
  ghost predicate Serial(s: State) {
    && (forall i :: 0 <= i < |s.log| ==> s.log[i].txn < s.next)
    && (forall i :: 0 <= i < |s.log| && s.log[i].txn !in Active(s) ==>
          s.log[i].txn in Committed(s.log) + Aborted(s.log))
    && (s.txn.Some? ==>
          var t := s.txn.value;
          && t.id < s.next
          && t.start <= |s.log|
          && (forall i :: 0 <= i < t.start ==> s.log[i].txn != t.id)
          && (forall i :: t.start <= i < |s.log| ==>
                s.log[i].txn == t.id && (s.log[i].PatchRec? || s.log[i].DropRec?))
          && (t.drops != [] ==> t.start < |s.log|))
  }

  /** Unlinking happens between transactions, and no frame of the files being removed is left. */
  ghost predicate Unlinking(s: State) {
    s.unlinks != [] ==>
      && s.txn.None?
      && forall id :: id in s.frames ==> id.fid !in s.unlinks
  }

  /** A clean frame equals its page on disk. */
  ghost predicate CleanFrames(s: State) {
    forall id :: id in s.frames && !s.frames[id].dirty ==> s.frames[id].base == At(s.files, id)
  }

  /** The byte the oldest remaining undo entry for (id, k) would put back. */
  function FirstUndo(undo: seq<UndoEntry>, id: PageId, k: nat): Option<byte> {
    if undo == [] then None
    else
      var first := FirstUndo(undo[..|undo| - 1], id, k);
      var u := undo[|undo| - 1];
      if first.Some? then first
      else if u.page == id && u.off <= k < u.off + |u.bytes| then Some(u.bytes[k - u.off])
      else None
  }

  /** No surviving record says anything about (id, k). */
  ghost predicate Untouched(s: State, id: PageId, k: nat) {
    && LastAfter(s.log, Committed(s.log), id, k).None?
    && FirstBefore(s.log, Aborted(s.log), id, k).None?
    && FirstBefore(s.log, Active(s), id, k).None?
  }

  ghost predicate ByteInv(s: State, id: PageId, k: nat)
    requires k < PAGE_SIZE
  {
    var c := s.committed(id)[k];
    var m := Marked(s, id)[k];
    var last := LastAfter(s.log, Committed(s.log), id, k);
    // redoing the committed transactions over the base gives the committed contents
    && c == GetOr(last, s.base(id)[k])
    // an aborted transaction that met a byte first found the base value in it
    && (last.None? && FirstBefore(s.log, Aborted(s.log), id, k).Some? ==>
          FirstBefore(s.log, Aborted(s.log), id, k).value == s.base(id)[k])
    && (Untouched(s, id, k) ==> At(s.files, id)[k] == m == s.base(id)[k])
    && (id.fid in s.unlinks ==> last.Some? && c == 0)
    && (s.txn.None? && id.fid !in s.unlinks ==> m == c)
    && (s.txn.Some? ==> ActiveInv(s, id, k))
  }

  ghost predicate ActiveInv(s: State, id: PageId, k: nat)
    requires k < PAGE_SIZE && s.txn.Some?
  {
    var t := s.txn.value;
    ActiveByte(s.committed(id)[k], Marked(s, id)[k], LastAfter(s.log, {t.id}, id, k), FirstBefore(s.log, {t.id}, id, k),
               FirstUndo(t.undo, id, k), t.rolling, id.fid in t.drops)
  }

  /** A committed byte, its marked value, and what log and undo list of the active transaction say about it. */
  predicate ActiveByte(c: byte, m: byte, last: Option<byte>, first: Option<byte>, undo: Option<byte>, rolling: bool, dropped: bool) {
    // both the log and the undo list lead back to the committed contents
    && (first.Some? ==> first.value == c)
    && (undo.Some? ==> first.Some? && undo.value == c)
    && (undo.None? ==> m == c)
    // until rollback starts, the log also leads forward to the marked contents
    && (!rolling && !dropped ==> m == GetOr(last, c))
    && (dropped ==> last == Some(0))
  }

  ghost predicate Inv(s: State) {
    && Serial(s)
    && Unlinking(s)
    && CleanFrames(s)
    && forall id, k :: 0 <= k < PAGE_SIZE ==> ByteInv(s, id, k)
  }

  // ---- how one more log record changes what the log says ----

  lemma {:induction false} LastAfterSnoc(log: seq<Rec>, r: Rec, sel: set<nat>, id: PageId, k: nat)
    ensures LastAfter(log + [r], sel, id, k) ==
            if r.txn in sel && r.PatchRec? && r.patch.Covers(id, k) then Some(r.patch.after[k - r.patch.off])
            else if r.txn in sel && r.DropRec? && r.fid == id.fid then Some(0)
            else LastAfter(log, sel, id, k)
  {
    assert (log + [r])[..|log|] == log;
  }

  lemma {:induction false} FirstBeforeSnoc(log: seq<Rec>, r: Rec, sel: set<nat>, id: PageId, k: nat)
    ensures FirstBefore(log + [r], sel, id, k) ==
            if FirstBefore(log, sel, id, k).Some? then FirstBefore(log, sel, id, k)
            else if r.txn in sel && r.PatchRec? && r.patch.Covers(id, k) then Some(r.patch.before[k - r.patch.off])
            else None
  {
    assert (log + [r])[..|log|] == log;
  }

  lemma {:induction false} FirstUndoSnoc(undo: seq<UndoEntry>, u: UndoEntry, id: PageId, k: nat)
    ensures FirstUndo(undo + [u], id, k) ==
            if FirstUndo(undo, id, k).Some? then FirstUndo(undo, id, k)
            else if u.page == id && u.off <= k < u.off + |u.bytes| then Some(u.bytes[k - u.off])
            else None
  {
    assert (undo + [u])[..|undo|] == undo;
  }

  lemma {:induction false} SetsSnoc(log: seq<Rec>, r: Rec)
    ensures Committed(log + [r]) == if r.CommitRec? then Committed(log) + {r.txn} else Committed(log)
    ensures Aborted(log + [r]) == if r.AbortRec? then Aborted(log) + {r.txn} else Aborted(log)
  {
    var log' := log + [r];
    forall x | x in log' ensures x in log || x == r {}
    forall x | x in log ensures x in log' {}
    assert r == log'[|log|];
    assert r in log';
  }

  /** Nothing selected, nothing said. */
  lemma {:induction false} NoneSelected(log: seq<Rec>, sel: set<nat>, id: PageId, k: nat)
    requires forall i :: 0 <= i < |log| ==> log[i].txn !in sel
    ensures LastAfter(log, sel, id, k).None? && FirstBefore(log, sel, id, k).None?
  {
    if log != [] {
      NoneSelected(log[..|log| - 1], sel, id, k);
    }
  }

  /** A transaction that owns a suffix of the log has the last word on redo, and the others the
      first word on undo. */
  lemma {:induction false} SplitSuffix(log: seq<Rec>, start: nat, sel: set<nat>, t: nat, id: PageId, k: nat)
    requires start <= |log| && t !in sel
    requires forall i :: 0 <= i < start ==> log[i].txn != t
    requires forall i :: start <= i < |log| ==> log[i].txn == t
    ensures LastAfter(log, sel + {t}, id, k) ==
            if LastAfter(log, {t}, id, k).Some? then LastAfter(log, {t}, id, k) else LastAfter(log, sel, id, k)
    ensures FirstBefore(log, sel + {t}, id, k) ==
            if FirstBefore(log, sel, id, k).Some? then FirstBefore(log, sel, id, k) else FirstBefore(log, {t}, id, k)
    decreases |log|
  {
    if start < |log| {
      SplitSuffix(log[..|log| - 1], start, sel, t, id, k);
    } else if log != [] {
      NoneSelected(log, {t}, id, k);
      SameSelection(log, sel, sel + {t}, id, k);
    }
  }

  lemma {:induction false} SameSelection(log: seq<Rec>, sel: set<nat>, sel': set<nat>, id: PageId, k: nat)
    requires forall i :: 0 <= i < |log| ==> (log[i].txn in sel <==> log[i].txn in sel')
    ensures LastAfter(log, sel, id, k) == LastAfter(log, sel', id, k)
    ensures FirstBefore(log, sel, id, k) == FirstBefore(log, sel', id, k)
  {
    if log != [] {
      SameSelection(log[..|log| - 1], sel, sel', id, k);
    }
  }

  /** A byte with an undo value has a redo value as well. */
  lemma {:induction false} BeforeAndAfter(log: seq<Rec>, sel: set<nat>, id: PageId, k: nat)
    ensures FirstBefore(log, sel, id, k).Some? ==> LastAfter(log, sel, id, k).Some?
  {
    if log != [] {
      BeforeAndAfter(log[..|log| - 1], sel, id, k);
    }
  }

  // ---- one lemma per kind of step ----

  lemma {:induction false} BeginKeeps(s: State)
    requires Inv(s) && Enabled(s, Begin)
    ensures Inv(Apply(s, Begin))
  {
    var s' := Apply(s, Begin);
    forall id, k | 0 <= k < PAGE_SIZE ensures ByteInv(s', id, k) {
      assert ByteInv(s, id, k);
      NoneSelected(s.log, {s.next}, id, k);
      NoneSelected(s.log, {}, id, k);
    }
  }

  /** Steps that leave the log, the transaction and the marked contents alone. */
  lemma {:induction false} QuietKeeps(s: State, s': State)
    requires Inv(s)
    requires s' == s.(frames := s'.frames, files := s'.files)
    requires CleanFrames(s') && Unlinking(s')
    requires forall id :: Marked(s', id) == Marked(s, id)
    requires forall id :: At(s'.files, id) == At(s.files, id) || At(s'.files, id) == Marked(s, id)
    ensures Inv(s')
  {
    forall id, k | 0 <= k < PAGE_SIZE ensures ByteInv(s', id, k) {
      assert ByteInv(s, id, k);
      assert Marked(s', id) == Marked(s, id);
    }
  }

  lemma {:induction false} FrameStepKeeps(s: State, step: Step)
    requires Inv(s) && Enabled(s, step)
    requires step.Modify? || step.SetDirty? || step.Load? || step.Allocate? || step.Evict? || step.Flush?
    ensures Inv(Apply(s, step))
    ensures forall id :: Marked(Apply(s, step), id) == Marked(s, id)
  {
    var s' := Apply(s, step);
    forall id
      ensures Marked(s', id) == Marked(s, id)
      ensures At(s'.files, id) == At(s.files, id) || At(s'.files, id) == Marked(s, id)
      ensures id in s'.frames && !s'.frames[id].dirty ==> s'.frames[id].base == At(s'.files, id)
    {
      if (step.Evict? || step.Flush?) && s.frames[step.id].dirty {
        AtWrite(s.files, step.id, s.frames[step.id].data, id);
      }
    }
    QuietKeeps(s, s');
  }

  lemma {:induction false} LogPatchKeeps(s: State, id: PageId, off: nat, len: nat)
    requires Inv(s) && Enabled(s, LogPatch(id, off, len))
    ensures Inv(Apply(s, LogPatch(id, off, len)))
  {
    var s' := Apply(s, LogPatch(id, off, len));
    var r := s'.log[|s.log|];
    SetsSnoc(s.log, r);
    NotFinished(s);
    forall id', k | 0 <= k < PAGE_SIZE ensures ByteInv(s', id', k) {
      LogPatchMarked(s, id, off, len, id', k);
      LogPatchByte(s, s', r.patch, id', k);
    }
  }

  /** The marked contents change only where the patch covers them; its before-bytes are what was marked. */
  lemma {:induction false} LogPatchMarked(s: State, id: PageId, off: nat, len: nat, id': PageId, k: nat)
    requires k < PAGE_SIZE && Enabled(s, LogPatch(id, off, len))
    ensures var s' := Apply(s, LogPatch(id, off, len));
            var p := s'.log[|s.log|].patch;
            && Marked(s', id')[k] == (if p.Covers(id', k) then p.after[k - p.off] else Marked(s, id')[k])
            && (p.Covers(id', k) ==> p.before[k - p.off] == Marked(s, id')[k])
  {
    var f := s.frames[id];
    OverwriteByte(f.base, off, f.data[off..off + len], k);
  }

  /** One more patch of the active transaction, seen from one byte. */
  lemma {:induction false} PatchActive(c: byte, m: byte, m': byte, t: Txn, log: seq<Rec>, p: PagePatch, id: PageId, k: nat)
    requires k < PAGE_SIZE && !t.rolling && p.page.fid !in t.drops
    requires ActiveByte(c, m, LastAfter(log, {t.id}, id, k), FirstBefore(log, {t.id}, id, k), FirstUndo(t.undo, id, k),
                        false, id.fid in t.drops)
    requires m' == if p.Covers(id, k) then p.after[k - p.off] else m
    requires p.Covers(id, k) ==> p.before[k - p.off] == m
    ensures var log' := log + [PatchRec(t.id, p)];
            ActiveByte(c, m', LastAfter(log', {t.id}, id, k), FirstBefore(log', {t.id}, id, k),
                       FirstUndo(t.undo + [Undone(p.page, p.off, p.before)], id, k), false, id.fid in t.drops)
  {
    var r := PatchRec(t.id, p);
    LastAfterSnoc(log, r, {t.id}, id, k);
    FirstBeforeSnoc(log, r, {t.id}, id, k);
    FirstUndoSnoc(t.undo, Undone(p.page, p.off, p.before), id, k);
  }

  lemma {:induction false} LogPatchByte(s: State, s': State, p: PagePatch, id: PageId, k: nat)
    requires k < PAGE_SIZE && ByteInv(s, id, k) && s.txn.Some? && s.unlinks == []
    requires !s.txn.value.rolling && p.page.fid !in s.txn.value.drops
    requires s.txn.value.id !in Committed(s.log) + Aborted(s.log)
    requires s' == s.(frames := s'.frames, log := s.log + [PatchRec(s.txn.value.id, p)],
                      txn := Some(s.txn.value.(undo := s.txn.value.undo + [Undone(p.page, p.off, p.before)])))
    requires Committed(s'.log) == Committed(s.log) && Aborted(s'.log) == Aborted(s.log)
    requires Marked(s', id)[k] == if p.Covers(id, k) then p.after[k - p.off] else Marked(s, id)[k]
    requires p.Covers(id, k) ==> p.before[k - p.off] == Marked(s, id)[k]
    ensures ByteInv(s', id, k)
  {
    var t := s.txn.value;
    var r := PatchRec(t.id, p);
    LastAfterSnoc(s.log, r, Committed(s.log), id, k);
    FirstBeforeSnoc(s.log, r, Aborted(s.log), id, k);
    FirstBeforeSnoc(s.log, r, {t.id}, id, k);
    PatchActive(s.committed(id)[k], Marked(s, id)[k], Marked(s', id)[k], t, s.log, p, id, k);
  }

  /** The active transaction is neither committed nor aborted. */
  lemma {:induction false} NotFinished(s: State)
    requires Serial(s) && s.txn.Some?
    ensures s.txn.value.id !in Committed(s.log) && s.txn.value.id !in Aborted(s.log)
  {
  }

  /** The drop of a file, seen from one byte. */
  lemma {:induction false} DropActive(c: byte, m: byte, t: Txn, log: seq<Rec>, fid: nat, id: PageId, k: nat)
    requires k < PAGE_SIZE && !t.rolling
    requires ActiveByte(c, m, LastAfter(log, {t.id}, id, k), FirstBefore(log, {t.id}, id, k), FirstUndo(t.undo, id, k),
                        false, id.fid in t.drops)
    ensures var log' := log + [DropRec(t.id, fid)];
            ActiveByte(c, m, LastAfter(log', {t.id}, id, k), FirstBefore(log', {t.id}, id, k), FirstUndo(t.undo, id, k),
                       false, id.fid in t.drops + [fid])
  {
    var r := DropRec(t.id, fid);
    LastAfterSnoc(log, r, {t.id}, id, k);
    FirstBeforeSnoc(log, r, {t.id}, id, k);
  }

  lemma {:induction false} DropFileByte(s: State, fid: nat, id: PageId, k: nat)
    requires Serial(s) && Enabled(s, DropFile(fid)) && k < PAGE_SIZE && ByteInv(s, id, k)
    ensures ByteInv(Apply(s, DropFile(fid)), id, k)
  {
    var t := s.txn.value;
    var r := DropRec(t.id, fid);
    SetsSnoc(s.log, r);
    NotFinished(s);
    LastAfterSnoc(s.log, r, Committed(s.log), id, k);
    FirstBeforeSnoc(s.log, r, Aborted(s.log), id, k);
    DropActive(s.committed(id)[k], Marked(s, id)[k], t, s.log, fid, id, k);
  }

  lemma {:induction false} DropFileKeeps(s: State, fid: nat)
    requires Inv(s) && Enabled(s, DropFile(fid))
    ensures Inv(Apply(s, DropFile(fid)))
  {
    var s' := Apply(s, DropFile(fid));
    SetsSnoc(s.log, s'.log[|s.log|]);
    NotFinished(s);
    forall id, k | 0 <= k < PAGE_SIZE ensures ByteInv(s', id, k) {
      DropFileByte(s, fid, id, k);
    }
  }

  lemma {:induction false} CommitKeeps(s: State)
    requires Inv(s) && Enabled(s, Commit)
    ensures Inv(Apply(s, Commit))
  {
    var s' := Apply(s, Commit);
    var t := s.txn.value;
    var r := CommitRec(t.id);
    SetsSnoc(s.log, r);
    NotFinished(s);
    forall id, k | 0 <= k < PAGE_SIZE ensures ByteInv(s', id, k) {
      CommitByte(s, id, k);
    }
  }

  lemma {:induction false} CommitByte(s: State, id: PageId, k: nat)
    requires Inv(s) && Enabled(s, Commit) && k < PAGE_SIZE
    ensures ByteInv(Apply(s, Commit), id, k)
  {
    var t := s.txn.value;
    var r := CommitRec(t.id);
    SetsSnoc(s.log, r);
    NotFinished(s);
    assert ByteInv(s, id, k);
    if Wrote(s) {
      LastAfterSnoc(s.log, r, Committed(s.log) + {t.id}, id, k);
      FirstBeforeSnoc(s.log, r, Aborted(s.log), id, k);
      SplitSuffix(s.log, t.start, Committed(s.log), t.id, id, k);
      BeforeAndAfter(s.log, {t.id}, id, k);
    } else {
      NoneSelected(s.log, {t.id}, id, k);
    }
  }

  lemma {:induction false} UnlinkKeeps(s: State)
    requires Inv(s) && Enabled(s, Unlink)
    ensures Inv(Apply(s, Unlink))
  {
    var s' := Apply(s, Unlink);
    forall id, k | 0 <= k < PAGE_SIZE ensures ByteInv(s', id, k) {
      assert ByteInv(s, id, k);
      AtRemove(s.files, s.unlinks[0], id);
    }
  }

  lemma {:induction false} UndoOneKeeps(s: State)
    requires Inv(s) && Enabled(s, UndoOne)
    ensures Inv(Apply(s, UndoOne))
  {
    var s' := Apply(s, UndoOne);
    var t := s.txn.value;
    var u := t.undo[|t.undo| - 1];
    forall id, k | 0 <= k < PAGE_SIZE ensures ByteInv(s', id, k) {
      UndoOneMarked(s, id, k);
      UndoOneByte(s, s', u, id, k);
    }
    forall id | id in s'.frames && !s'.frames[id].dirty ensures s'.frames[id].base == At(s'.files, id) {
      AtWrite(s.files, u.page, Overwrite(At(s.files, u.page), u.off, u.bytes), id);
    }
  }

  predicate Puts(u: UndoEntry, id: PageId, k: nat) {
    u.page == id && u.off <= k < u.off + |u.bytes|
  }

  /** The only bytes one undo entry changes, in the marked contents and on disk. */
  lemma {:induction false} UndoOneMarked(s: State, id: PageId, k: nat)
    requires k < PAGE_SIZE && Enabled(s, UndoOne)
    ensures var s', u := Apply(s, UndoOne), s.txn.value.undo[|s.txn.value.undo| - 1];
            && Marked(s', id)[k] == (if Puts(u, id, k) then u.bytes[k - u.off] else Marked(s, id)[k])
            && (!Puts(u, id, k) ==> At(s'.files, id)[k] == At(s.files, id)[k])
  {
    var u := s.txn.value.undo[|s.txn.value.undo| - 1];
    OverwriteByte(Marked(s, u.page), u.off, u.bytes, k);
    AtWrite(s.files, u.page, Overwrite(At(s.files, u.page), u.off, u.bytes), id);
  }

  lemma {:induction false} UndoOneByte(s: State, s': State, u: UndoEntry, id: PageId, k: nat)
    requires k < PAGE_SIZE && ByteInv(s, id, k) && s.txn.Some? && s.txn.value.undo != []
    requires u == s.txn.value.undo[|s.txn.value.undo| - 1]
    requires s' == s.(frames := s'.frames, files := s'.files, txn := Some(s.txn.value.(
                       undo := s.txn.value.undo[..|s.txn.value.undo| - 1], rolling := true)))
    requires Marked(s', id)[k] == if Puts(u, id, k) then u.bytes[k - u.off] else Marked(s, id)[k]
    requires !Puts(u, id, k) ==> At(s'.files, id)[k] == At(s.files, id)[k]
    ensures ByteInv(s', id, k)
  {
    assert ActiveInv(s, id, k);
    if Puts(u, id, k) {
      assert FirstUndo(s.txn.value.undo, id, k).Some?;
      assert !Untouched(s, id, k);
    }
    assert ActiveInv(s', id, k);
  }

  lemma {:induction false} AbortKeeps(s: State)
    requires Inv(s) && Enabled(s, Abort)
    ensures Inv(Apply(s, Abort))
  {
    var s' := Apply(s, Abort);
    var t := s.txn.value;
    var r := AbortRec(t.id);
    SetsSnoc(s.log, r);
    NotFinished(s);
    forall id, k | 0 <= k < PAGE_SIZE ensures ByteInv(s', id, k) {
      assert ByteInv(s, id, k);
      if Wrote(s) {
        LastAfterSnoc(s.log, r, Committed(s.log), id, k);
        FirstBeforeSnoc(s.log, r, Aborted(s.log) + {t.id}, id, k);
        SplitSuffix(s.log, t.start, Aborted(s.log), t.id, id, k);
      } else {
        NoneSelected(s.log, {t.id}, id, k);
      }
    }
  }

  lemma {:induction false} ResetKeeps(s: State)
    requires Inv(s) && Enabled(s, Reset)
    ensures Inv(Apply(s, Reset))
  {
    var s' := Apply(s, Reset);
    forall id, k | 0 <= k < PAGE_SIZE ensures ByteInv(s', id, k) {
      assert ByteInv(s, id, k);
    }
  }

  lemma {:induction false} StepKeepsInv(s: State, step: Step)
    requires Inv(s) && Enabled(s, step)
    ensures Inv(Apply(s, step))
  {
    match step
    case Begin => BeginKeeps(s);
    case LogPatch(id, off, len) => LogPatchKeeps(s, id, off, len);
    case DropFile(fid) => DropFileKeeps(s, fid);
    case Commit => CommitKeeps(s);
    case Unlink => UnlinkKeeps(s);
    case UndoOne => UndoOneKeeps(s);
    case Abort => AbortKeeps(s);
    case Reset => ResetKeeps(s);
    case _ => FrameStepKeeps(s, step);
  }

  lemma {:induction false} OpenedInv(files: Files)
    ensures Inv(Opened(files))
  {
  }

  /** The invariant holds after every run. */
  lemma {:induction false} RunKeepsInv(s: State, steps: seq<Step>)
    requires Inv(s) && CanRun(s, steps)
    ensures Inv(Run(s, steps))
    decreases |steps|
  {
    if steps != [] {
      StepKeepsInv(s, steps[0]);
      RunKeepsInv(Apply(s, steps[0]), steps[1..]);
    }
  }
}
