/** The transactional storage as a step system over frames, data files, log, active
    transaction and undo list. Every step is a point at which the process may die, so one call of the
    engine is in general several steps: mark_dirty is one LogPatch per patch record and a SetDirty, commit is Commit
    followed by one Unlink per dropped file, rollback is one UndoOne per undo entry followed by Abort,
    checkpoint is one Flush per dirty frame followed by Reset. */
module TxnSystem {
  import opened Bytes
  import opened Disk
  import opened LogRecords

  /** A cached page: current content, content as of the last log record, not-yet-written flag. */
  datatype Frame = Frame(data: Page, base: Page, dirty: bool)

  datatype Undone = Undone(page: PageId, off: nat, bytes: seq<byte>) {
    predicate Ok() {
      0 < |bytes| && off + |bytes| <= PAGE_SIZE
    }
  }

  type UndoEntry = u: Undone | u.Ok() witness Undone(PageId(1, 0), 0, [0])

  datatype Txn = Txn(
    id: nat,
    undo: seq<UndoEntry>,
    drops: seq<nat>,
    rolling: bool, // rollback has begun: nothing is logged any more
    start: nat)    // length of the log at begin

  type Content = PageId -> Page

  datatype State = State(
    frames: map<PageId, Frame>,
    files: Files,
    log: seq<Rec>,
    txn: Option<Txn>,
    next: nat,            // next transaction id
    unlinks: seq<nat>,    // files of a committed transaction that are still to be removed
    base: Content,        // history: page contents when the log was last empty
    committed: Content)   // history: page contents as of the last Commit

  datatype Step =
    | Begin
    | Modify(id: PageId, pg: Page)
    | Load(id: PageId)
    | Allocate(id: PageId)
    | Evict(id: PageId)
    | Flush(id: PageId)
    | LogPatch(id: PageId, off: nat, len: nat)
    | SetDirty(id: PageId)
    | DropFile(fid: nat)
    | Commit
    | Unlink
    | UndoOne
    | Abort
    | Reset

  /** The content of a page as far as the log knows it: the frame's baseline, or the file. */
  function Marked(s: State, id: PageId): Page {
    if id in s.frames then s.frames[id].base else At(s.files, id)
  }

  /** The content a reader of the pool sees. */
  function Seen(s: State, id: PageId): Page {
    if id in s.frames then s.frames[id].data else At(s.files, id)
  }

  predicate Writable(s: State, f: Frame) {
    // write_back stops the process on a dirty page with changes that are not in the log
    f.dirty ==> f.data == f.base
  }

  predicate Enabled(s: State, step: Step) {
    && (step.Unlink? || step.Evict? || step.Flush? || s.unlinks == [])
    && match step
       case Begin => s.txn.None?
       case Modify(id, _) => s.txn.Some? && id in s.frames
       case Load(id) => id !in s.frames
       case Allocate(id) => id !in s.frames && At(s.files, id) == ZeroPage()
       case Evict(id) => id in s.frames && Writable(s, s.frames[id])
       case Flush(id) => id in s.frames && Writable(s, s.frames[id])
       case LogPatch(id, off, len) =>
         && s.txn.Some? && !s.txn.value.rolling && id.fid !in s.txn.value.drops
         && id in s.frames && 0 < len && off + len <= PAGE_SIZE
       case SetDirty(id) => s.txn.Some? && id in s.frames
       case DropFile(fid) => s.txn.Some? && !s.txn.value.rolling
       case Commit =>
         // the dropped files have no frame left: drop_table removed them, nothing looks them up again
         s.txn.Some? && !s.txn.value.rolling && forall id | id in s.frames :: id.fid !in s.txn.value.drops
       case Unlink => s.unlinks != []
       case UndoOne => s.txn.Some? && s.txn.value.undo != []
       case Abort => s.txn.Some? && s.txn.value.undo == []
       case Reset => s.txn.None? && forall id | id in s.frames :: !s.frames[id].dirty
  }

  function WriteBack(s: State, id: PageId): Files
    requires id in s.frames
  {
    if s.frames[id].dirty then WritePage(s.files, id, s.frames[id].data) else s.files
  }

  function Restored(f: Frame, u: UndoEntry): Frame {
    Frame(Overwrite(f.data, u.off, u.bytes), Overwrite(f.base, u.off, u.bytes), true)
  }

  function Wrote(s: State): bool
    requires s.txn.Some?
  {
    s.txn.value.start < |s.log|
  }


  function Apply(s: State, step: Step): State
    requires Enabled(s, step)
  {
    match step
    case Begin =>
      s.(txn := Some(Txn(s.next, [], [], false, |s.log|)), next := s.next + 1)
    case Modify(id, pg) =>
      s.(frames := s.frames[id := s.frames[id].(data := pg)])
    case Load(id) =>
      s.(frames := s.frames[id := Frame(At(s.files, id), At(s.files, id), false)])
    case Allocate(id) =>
      s.(frames := s.frames[id := Frame(ZeroPage(), ZeroPage(), true)])
    case Evict(id) =>
      s.(files := WriteBack(s, id), frames := s.frames - {id})
    case Flush(id) =>
      s.(files := WriteBack(s, id), frames := s.frames[id := s.frames[id].(dirty := false)])
    case LogPatch(id, off, len) =>
      var f := s.frames[id];
      var t := s.txn.value;
      var before := f.base[off..off + len];
      var after := f.data[off..off + len];
      s.(frames := s.frames[id := Frame(f.data, Overwrite(f.base, off, after), true)],
         log := s.log + [PatchRec(t.id, Patch(id, off, after, before))],
         txn := Some(t.(undo := t.undo + [Undone(id, off, before)])))
    case SetDirty(id) =>
      s.(frames := s.frames[id := s.frames[id].(dirty := true)])
    case DropFile(fid) =>
      var t := s.txn.value;
      s.(log := s.log + [DropRec(t.id, fid)], txn := Some(t.(drops := t.drops + [fid])))
    case Commit =>
      var t := s.txn.value;
      s.(log := if Wrote(s) then s.log + [CommitRec(t.id)] else s.log,
         txn := None,
         unlinks := t.drops,
         committed := (id: PageId) => if id.fid in t.drops then ZeroPage() else Marked(s, id))
    case Unlink =>
      s.(files := RemoveFile(s.files, s.unlinks[0]), unlinks := s.unlinks[1..])
    case UndoOne =>
      var t := s.txn.value;
      var u := t.undo[|t.undo| - 1];
      var s' := s.(txn := Some(t.(undo := t.undo[..|t.undo| - 1], rolling := true)));
      if u.page in s.frames then s'.(frames := s.frames[u.page := Restored(s.frames[u.page], u)])
      else s'.(files := WritePage(s.files, u.page, Overwrite(At(s.files, u.page), u.off, u.bytes)))
    case Abort =>
      s.(log := if Wrote(s) then s.log + [AbortRec(s.txn.value.id)] else s.log, txn := None)
    case Reset =>
      s.(log := [], base := s.committed)
  }

  predicate CanRun(s: State, steps: seq<Step>)
    decreases |steps|
  {
    steps == [] || (Enabled(s, steps[0]) && CanRun(Apply(s, steps[0]), steps[1..]))
  }

  function Run(s: State, steps: seq<Step>): State
    requires CanRun(s, steps)
    decreases |steps|
  {
    if steps == [] then s else Run(Apply(s, steps[0]), steps[1..])
  }

  lemma {:induction false} RunAppend(s: State, a: seq<Step>, b: seq<Step>)
    requires CanRun(s, a + b)
    ensures CanRun(s, a) && CanRun(Run(s, a), b) && Run(s, a + b) == Run(Run(s, a), b)
    decreases |a|
  {
    if a == [] {
      assert a + b == b;
    } else {
      assert (a + b)[1..] == a[1..] + b;
      RunAppend(Apply(s, a[0]), a[1..], b);
    }
  }

  lemma {:induction false} RunConcat(s: State, a: seq<Step>, b: seq<Step>)
    requires CanRun(s, a) && CanRun(Run(s, a), b)
    ensures CanRun(s, a + b) && Run(s, a + b) == Run(Run(s, a), b)
    decreases |a|
  {
    if a == [] {
      assert a + b == b;
    } else {
      assert (a + b)[1..] == a[1..] + b;
      RunConcat(Apply(s, a[0]), a[1..], b);
    }
  }

  lemma {:induction false} RunOne(s: State, step: Step)
    requires Enabled(s, step)
    ensures CanRun(s, [step]) && Run(s, [step]) == Apply(s, step)
  {
    assert [step][1..] == [];
  }

  /** One more step at the end of a run. */
  lemma {:induction false} RunSnoc(s: State, steps: seq<Step>, step: Step)
    requires CanRun(s, steps) && Enabled(Run(s, steps), step)
    ensures CanRun(s, steps + [step]) && Run(s, steps + [step]) == Apply(Run(s, steps), step)
  {
    RunOne(Run(s, steps), step);
    RunConcat(s, steps, [step]);
  }

  /** A freshly opened engine: recovery has emptied the log, the pool is empty. */
  function Opened(files: Files): State {
    State(map[], files, [], None, 1, [], id => At(files, id), id => At(files, id))
  }
}
