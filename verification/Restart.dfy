/** Recovery from the crashed bytes, and recovery interrupted and started over. */
module Restart {
  import opened Bytes
  import opened Disk
  import opened LogRecords
  import opened RecordCodec
  import opened Recovery
  import opened TxnSystem
  import opened CrashRecovery

  // ---- a log file cut inside its last record ----

  /** The log as the file holds it, with the sequence numbers the records were given. */
  function AsWritten(log: seq<Rec>, lsns: seq<u64>): (ws: seq<WalRecord>)
    requires |lsns| == |log| && forall r :: r in log ==> Fits(r)
    ensures Small(ws) && |ws| == |log|
  {
    if log == [] then []
    else
      var n := |log| - 1;
      assert log[n] in log && Fits(log[n]) && log[n].txn < U64;
      AsWritten(log[..n], lsns[..n]) + [WalRecord(lsns[n], log[n].txn, OpOf(log[n]), PayloadOf(log[n]))]
  }

  lemma {:induction false} DecodeAsWritten(log: seq<Rec>, lsns: seq<u64>)
    requires |lsns| == |log| && forall r :: r in log ==> Fits(r)
    ensures DecodeAll(AsWritten(log, lsns)) == Some(log)
  {
    if log != [] {
      var n := |log| - 1;
      assert AsWritten(log, lsns)[..n] == AsWritten(log[..n], lsns[..n]);
      DecodeAsWritten(log[..n], lsns[..n]);
      assert log[n] in log;
      DecodeEncoded(log[n], lsns[n]);
      assert log[..n] + [log[n]] == log;
    }
  }

  /** From the bytes on disk: the process died while the next record was being appended (or between two
      records, with cut 0). Recovery of the file restores the committed contents iff the disk is repaired. */
  lemma {:induction false} CrashBytesTheorem(files: Files, steps: seq<Step>, crc: Crc, lsns: seq<u64>, next: WalRecord, cut: nat)
    requires CanRun(Opened(files), steps)
    requires |next.payload| <= WAL_PAYLOAD_MAX && cut < |Encode(crc, next)|
    requires var s := Run(Opened(files), steps);
             |lsns| == |s.log| && forall r :: r in s.log ==> Fits(r)
    ensures var s := Run(Opened(files), steps);
            var file := EncodeLog(crc, AsWritten(s.log, lsns)) + Encode(crc, next)[..cut];
            var parsed := ReadLog(crc, file);
            && parsed == Some(s.log)
            && ((forall id :: At(Recover(s.files, parsed.value), id) == s.committed(id))
                <==> Repaired(s.files, s.log))
  {
    var s := Run(Opened(files), steps);
    LogReadBack(crc, AsWritten(s.log, lsns), next, cut);
    DecodeAsWritten(s.log, lsns);
    ReadLogIsDecodeAll(crc, EncodeLog(crc, AsWritten(s.log, lsns)) + Encode(crc, next)[..cut]);
    CrashTheorem(files, steps);
  }

  // ---- recovery as a list of writes ----

  /** One file-system call of recovery. */
  datatype Op = Write(id: PageId, off: nat, bytes: seq<byte>) | Remove(fid: nat) {
    predicate Ok() {
      Write? ==> off + |bytes| <= PAGE_SIZE
    }
  }

  type FileOp = o: Op | o.Ok() witness Remove(0)

  function Do(d: Files, o: FileOp): Files {
    match o
    case Write(id, off, bytes) => WritePage(d, id, Overwrite(At(d, id), off, bytes))
    case Remove(fid) => RemoveFile(d, fid)
  }

  function DoAll(d: Files, ops: seq<FileOp>): Files {
    if ops == [] then d else Do(DoAll(d, ops[..|ops| - 1]), ops[|ops| - 1])
  }

  function UndoOps(log: seq<Rec>, sel: set<nat>): seq<FileOp> {
    if log == [] then []
    else
      var n := |log| - 1;
      var r := log[n];
      (if r.txn in sel && r.PatchRec? then [Write(r.patch.page, r.patch.off, r.patch.before)] else [])
      + UndoOps(log[..n], sel)
  }

  /** Everything recovery does to the files, in order. */
  function RecoveryOps(log: seq<Rec>): seq<FileOp> {
    RedoOps(log, Committed(log)) + UndoOps(log, Losers(log))
  }

  lemma {:induction false} DoAllConcat(d: Files, a: seq<FileOp>, b: seq<FileOp>)
    ensures DoAll(d, a + b) == DoAll(DoAll(d, a), b)
  {
    if b == [] {
      assert a + b == a;
    } else {
      DoAllConcat(d, a, b[..|b| - 1]);
      assert (a + b)[..|a + b| - 1] == a + b[..|b| - 1];
    }
  }

  function OpOfRec(r: Rec): FileOp
    requires IsData(r)
  {
    match r
    case PatchRec(_, p) => Write(p.page, p.off, p.after)
    case DropRec(_, fid) => Remove(fid)
  }

  function RedoOps(log: seq<Rec>, sel: set<nat>): seq<FileOp> {
    if log == [] then []
    else
      var r := log[|log| - 1];
      RedoOps(log[..|log| - 1], sel) + if r.txn in sel && IsData(r) then [OpOfRec(r)] else []
  }

  lemma {:induction false} DoOne(d: Files, o: FileOp)
    ensures DoAll(d, [o]) == Do(d, o) && DoAll(d, []) == d
  {
    assert [o][..0] == [];
  }

  lemma {:induction false} RedoIsOps(d: Files, log: seq<Rec>, sel: set<nat>)
    ensures DoAll(d, RedoOps(log, sel)) == Redo(d, log, sel)
  {
    if log != [] {
      var r := log[|log| - 1];
      var front := log[..|log| - 1];
      RedoIsOps(d, front, sel);
      if r.txn in sel && IsData(r) {
        DoAllConcat(d, RedoOps(front, sel), [OpOfRec(r)]);
        DoOne(Redo(d, front, sel), OpOfRec(r));
      } else {
        assert RedoOps(log, sel) == RedoOps(front, sel);
      }
    }
  }

  lemma {:induction false} UndoIsOps(d: Files, log: seq<Rec>, sel: set<nat>)
    ensures DoAll(d, UndoOps(log, sel)) == Undo(d, log, sel)
    decreases |log|
  {
    if log != [] {
      var n := |log| - 1;
      var r := log[n];
      if r.txn in sel && r.PatchRec? {
        var o: FileOp := Write(r.patch.page, r.patch.off, r.patch.before);
        DoAllConcat(d, [o], UndoOps(log[..n], sel));
        DoOne(d, o);
        UndoIsOps(ApplyPatch(d, r.patch, true), log[..n], sel);
      } else {
        assert UndoOps(log, sel) == UndoOps(log[..n], sel);
        UndoIsOps(d, log[..n], sel);
      }
    }
  }

  /** The operations, carried out in order, are recovery. */
  lemma {:induction false} RecoverIsOps(d: Files, log: seq<Rec>)
    ensures DoAll(d, RecoveryOps(log)) == Recover(d, log)
  {
    DoAllConcat(d, RedoOps(log, Committed(log)), UndoOps(log, Losers(log)));
    RedoIsOps(d, log, Committed(log));
    UndoIsOps(Redo(d, log, Committed(log)), log, Losers(log));
  }

  // ---- interrupted recovery ----

  /** What the operations make of byte (id, k); None when they leave it alone. */
  function LastSet(ops: seq<FileOp>, id: PageId, k: nat): Option<byte> {
    if ops == [] then None
    else
      var o := ops[|ops| - 1];
      if o.Write? && o.id == id && o.off <= k < o.off + |o.bytes| then Some(o.bytes[k - o.off])
      else if o.Remove? && o.fid == id.fid then Some(0)
      else LastSet(ops[..|ops| - 1], id, k)
  }

  lemma {:induction false} DoAllByte(d: Files, ops: seq<FileOp>, id: PageId, k: nat)
    requires k < PAGE_SIZE
    ensures At(DoAll(d, ops), id)[k] == GetOr(LastSet(ops, id, k), At(d, id)[k])
  {
    if ops != [] {
      var n := |ops| - 1;
      var d' := DoAll(d, ops[..n]);
      DoAllByte(d, ops[..n], id, k);
      DoByte(d', ops[n], id, k);
    }
  }

  lemma {:induction false} DoByte(d: Files, o: FileOp, id: PageId, k: nat)
    requires k < PAGE_SIZE
    ensures At(Do(d, o), id)[k] ==
            if o.Write? && o.id == id && o.off <= k < o.off + |o.bytes| then o.bytes[k - o.off]
            else if o.Remove? && o.fid == id.fid then 0
            else At(d, id)[k]
  {
    match o
    case Write(w, off, bytes) =>
      AtWrite(d, w, Overwrite(At(d, w), off, bytes), id);
      OverwriteByte(At(d, w), off, bytes, k);
    case Remove(fid) => AtRemove(d, fid, id);
  }

  lemma {:induction false} LastSetGrows(a: seq<FileOp>, b: seq<FileOp>, id: PageId, k: nat)
    ensures LastSet(a, id, k).Some? ==> LastSet(a + b, id, k).Some?
  {
    if b == [] {
      assert a + b == a;
    } else {
      LastSetGrows(a, b[..|b| - 1], id, k);
      assert (a + b)[..|a + b| - 1] == a + b[..|b| - 1];
    }
  }

  /** Pages of a file, -1 when the file does not exist. */
  function Length(d: Files, fid: nat): int {
    if fid in d then |d[fid]| else -1
  }

  function Max(a: int, b: int): int {
    if a > b then a else b
  }

  /** Length of a file after the operations, from its length before. */
  function LengthAfter(ops: seq<FileOp>, fid: nat, length: int): int {
    if ops == [] then length
    else
      var before := LengthAfter(ops[..|ops| - 1], fid, length);
      match ops[|ops| - 1]
      case Write(id, _, _) => if id.fid == fid then Max(before, id.no + 1) else before
      case Remove(f) => if f == fid then -1 else before
  }

  lemma {:induction false} DoAllLength(d: Files, ops: seq<FileOp>, fid: nat)
    ensures Length(DoAll(d, ops), fid) == LengthAfter(ops, fid, Length(d, fid))
  {
    if ops != [] {
      DoAllLength(d, ops[..|ops| - 1], fid);
    }
  }

  predicate Removes(ops: seq<FileOp>, fid: nat) {
    Remove(fid) in ops
  }

  /** A removal forgets the length before; without one, lengths only grow to a fixed mark. */
  lemma {:induction false} LengthShape(ops: seq<FileOp>, fid: nat, length: int)
    requires length >= -1
    ensures LengthAfter(ops, fid, -1) >= -1
    ensures LengthAfter(ops, fid, length) ==
            if Removes(ops, fid) then LengthAfter(ops, fid, -1) else Max(length, LengthAfter(ops, fid, -1))
  {
    if ops != [] {
      var n := |ops| - 1;
      LengthShape(ops[..n], fid, length);
      assert ops == ops[..n] + [ops[n]];
    }
  }

  lemma {:induction false} LengthTwice(ops: seq<FileOp>, more: seq<FileOp>, fid: nat, length: int)
    requires length >= -1
    ensures LengthAfter(ops + more, fid, LengthAfter(ops, fid, length)) == LengthAfter(ops + more, fid, length)
  {
    LengthShape(ops, fid, length);
    LengthShape(ops, fid, LengthAfter(ops, fid, length));
    LengthConcat(ops, more, fid, LengthAfter(ops, fid, length));
    LengthConcat(ops, more, fid, length);
  }

  lemma {:induction false} LengthConcat(a: seq<FileOp>, b: seq<FileOp>, fid: nat, length: int)
    ensures LengthAfter(a + b, fid, length) == LengthAfter(b, fid, LengthAfter(a, fid, length))
  {
    if b == [] {
      assert a + b == a;
    } else {
      LengthConcat(a, b[..|b| - 1], fid, length);
      assert (a + b)[..|a + b| - 1] == a + b[..|b| - 1];
    }
  }

  /** Files are determined by their lengths and their pages. */
  lemma {:induction false} SameFiles(a: Files, b: Files)
    requires forall fid :: Length(a, fid) == Length(b, fid)
    requires forall id :: At(a, id) == At(b, id)
    ensures a == b
  {
    forall fid ensures fid in a <==> fid in b {
      assert Length(a, fid) == Length(b, fid);
    }
    forall fid | fid in a ensures a[fid] == b[fid] {
      assert Length(a, fid) == Length(b, fid);
      forall no | 0 <= no < |a[fid]| ensures a[fid][no] == b[fid][no] {
        assert At(a, PageId(fid, no)) == At(b, PageId(fid, no));
      }
    }
  }

  /** Stopped after any number of its operations and run again on the same log, recovery ends with the
      same files - contents, lengths and existence - as when it is never interrupted. */
  lemma {:induction false} RecoveryRestarts(d: Files, log: seq<Rec>, stop: nat)
    requires stop <= |RecoveryOps(log)|
    ensures Recover(DoAll(d, RecoveryOps(log)[..stop]), log) == Recover(d, log)
  {
    var ops := RecoveryOps(log);
    var done, rest := ops[..stop], ops[stop..];
    assert ops == done + rest;
    var d' := DoAll(d, done);
    RecoverIsOps(d, log);
    RecoverIsOps(d', log);
    forall fid ensures Length(DoAll(d', ops), fid) == Length(DoAll(d, ops), fid) {
      DoAllLength(d, done, fid);
      DoAllLength(d', ops, fid);
      DoAllLength(d, ops, fid);
      LengthTwice(done, rest, fid, Length(d, fid));
    }
    forall id ensures At(DoAll(d', ops), id) == At(DoAll(d, ops), id) {
      forall k | 0 <= k < PAGE_SIZE ensures At(DoAll(d', ops), id)[k] == At(DoAll(d, ops), id)[k] {
        DoAllByte(d, done, id, k);
        DoAllByte(d', ops, id, k);
        DoAllByte(d, ops, id, k);
        LastSetGrows(done, rest, id, k);
      }
    }
    SameFiles(DoAll(d', ops), DoAll(d, ops));
  }
}
