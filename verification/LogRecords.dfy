/** The meaning of log records, and what the three recovery passes compute from them
    (src/storage/wal.h, src/storage/recovery.cpp). */
module LogRecords {
  import opened Bytes
  import opened Disk

  /** A two-way page patch: bytes after the change (redo) and before it (undo). */
  datatype Patch = Patch(page: PageId, off: nat, after: seq<byte>, before: seq<byte>) {
    predicate Ok() {
      0 < |after| == |before| && off + |after| <= PAGE_SIZE
    }

    predicate Covers(id: PageId, k: nat) {
      page == id && off <= k < off + |after|
    }
  }

  type PagePatch = p: Patch | p.Ok() witness Patch(PageId(1, 0), 0, [0], [0])

  datatype Rec =
    | PatchRec(txn: nat, patch: PagePatch)
    | DropRec(txn: nat, fid: nat)
    | CommitRec(txn: nat)
    | AbortRec(txn: nat)

  function Committed(log: seq<Rec>): set<nat> {
    set r | r in log && r.CommitRec? :: r.txn
  }

  function Aborted(log: seq<Rec>): set<nat> {
    set r | r in log && r.AbortRec? :: r.txn
  }

  /** The transactions recovery undoes: those with neither a Commit nor an Abort record. */
  function Losers(log: seq<Rec>): set<nat> {
    (set r | r in log :: r.txn) - Committed(log) - Aborted(log)
  }

  function ApplyPatch(d: Files, p: PagePatch, undo: bool): Files {
    WritePage(d, p.page, Overwrite(At(d, p.page), p.off, if undo then p.before else p.after))
  }

  /** Second pass: in log order, the after-bytes and file removals of the selected transactions. */
  function Redo(d: Files, log: seq<Rec>, sel: set<nat>): Files {
    if log == [] then d
    else
      var n := |log| - 1;
      var d' := Redo(d, log[..n], sel);
      if log[n].txn !in sel then d'
      else match log[n]
        case PatchRec(_, p) => ApplyPatch(d', p, false)
        case DropRec(_, fid) => RemoveFile(d', fid)
        case _ => d'
  }

  /** Third pass: in reverse log order, the before-bytes of the selected transactions. */
  function Undo(d: Files, log: seq<Rec>, sel: set<nat>): Files
    decreases |log|
  {
    if log == [] then d
    else
      var n := |log| - 1;
      var d' := if log[n].txn in sel && log[n].PatchRec? then ApplyPatch(d, log[n].patch, true) else d;
      Undo(d', log[..n], sel)
  }

  /** What recovery makes of the files it finds and the records it can read. */
  function Recover(d: Files, log: seq<Rec>): Files {
    Undo(Redo(d, log, Committed(log)), log, Losers(log))
  }

  datatype Option<+T> = None | Some(value: T)

  /** The byte the last selected record that determines (id, k) gives it; a removed file reads as zero. */
  function LastAfter(log: seq<Rec>, sel: set<nat>, id: PageId, k: nat): Option<byte> {
    if log == [] then None
    else
      var r := log[|log| - 1];
      if r.txn in sel && r.PatchRec? && r.patch.Covers(id, k) then Some(r.patch.after[k - r.patch.off])
      else if r.txn in sel && r.DropRec? && r.fid == id.fid then Some(0)
      else LastAfter(log[..|log| - 1], sel, id, k)
  }

  /** The byte (id, k) held before the first selected patch that covers it. */
  function FirstBefore(log: seq<Rec>, sel: set<nat>, id: PageId, k: nat): Option<byte> {
    if log == [] then None
    else
      var first := FirstBefore(log[..|log| - 1], sel, id, k);
      var r := log[|log| - 1];
      if first.Some? then first
      else if r.txn in sel && r.PatchRec? && r.patch.Covers(id, k) then Some(r.patch.before[k - r.patch.off])
      else None
  }

  function GetOr(o: Option<byte>, default: byte): byte {
    if o.Some? then o.value else default
  }

  lemma {:induction false} ApplyPatchByte(d: Files, p: PagePatch, undo: bool, id: PageId, k: nat)
    requires k < PAGE_SIZE
    ensures At(ApplyPatch(d, p, undo), id)[k] ==
            if p.Covers(id, k) then (if undo then p.before else p.after)[k - p.off] else At(d, id)[k]
  {
    var bytes := if undo then p.before else p.after;
    AtWrite(d, p.page, Overwrite(At(d, p.page), p.off, bytes), id);
    OverwriteByte(At(d, p.page), p.off, bytes, k);
  }

  lemma {:induction false} RedoByte(d: Files, log: seq<Rec>, sel: set<nat>, id: PageId, k: nat)
    requires k < PAGE_SIZE
    ensures At(Redo(d, log, sel), id)[k] == GetOr(LastAfter(log, sel, id, k), At(d, id)[k])
  {
    if log != [] {
      var n := |log| - 1;
      RedoByte(d, log[..n], sel, id, k);
      var d' := Redo(d, log[..n], sel);
      match log[n]
      case PatchRec(_, p) => ApplyPatchByte(d', p, false, id, k);
      case DropRec(_, fid) => AtRemove(d', fid, id);
      case _ =>
    }
  }

  lemma {:induction false} UndoByte(d: Files, log: seq<Rec>, sel: set<nat>, id: PageId, k: nat)
    requires k < PAGE_SIZE
    ensures At(Undo(d, log, sel), id)[k] == GetOr(FirstBefore(log, sel, id, k), At(d, id)[k])
    decreases |log|
  {
    if log != [] {
      var n := |log| - 1;
      if log[n].txn in sel && log[n].PatchRec? {
        ApplyPatchByte(d, log[n].patch, true, id, k);
        UndoByte(ApplyPatch(d, log[n].patch, true), log[..n], sel, id, k);
      } else {
        UndoByte(d, log[..n], sel, id, k);
      }
    }
  }

  /** Every byte recovery leaves behind: a loser's first before-byte, else the last committed
      after-byte, else whatever the crash left on disk. */
  lemma {:induction false} RecoverByte(d: Files, log: seq<Rec>, id: PageId, k: nat)
    requires k < PAGE_SIZE
    ensures At(Recover(d, log), id)[k] ==
            GetOr(FirstBefore(log, Losers(log), id, k),
                  GetOr(LastAfter(log, Committed(log), id, k), At(d, id)[k]))
  {
    RedoByte(d, log, Committed(log), id, k);
    UndoByte(Redo(d, log, Committed(log)), log, Losers(log), id, k);
  }
}
