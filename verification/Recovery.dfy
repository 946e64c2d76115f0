/** Startup recovery: three passes over the log file (src/storage/recovery.cpp). */
module Recovery {
  import opened Bytes
  import opened Disk
  import opened LogRecords
  import opened RecordCodec
  import opened Seqs
  import opened Wal

  // ---- the passes only look at patches and drops ----

  predicate IsData(r: Rec) {
    r.PatchRec? || r.DropRec?
  }

  function Data(log: seq<Rec>): (d: seq<Rec>)
    ensures forall r :: r in d <==> r in log && IsData(r)
  {
    if log == [] then []
    else
      var front := Data(log[..|log| - 1]);
      assert log == log[..|log| - 1] + [log[|log| - 1]];
      if IsData(log[|log| - 1]) then front + [log[|log| - 1]] else front
  }

  lemma {:induction false} RedoData(d: Files, log: seq<Rec>, sel: set<nat>)
    ensures Redo(d, Data(log), sel) == Redo(d, log, sel)
  {
    if log != [] {
      var n := |log| - 1;
      RedoData(d, log[..n], sel);
      if IsData(log[n]) {
        assert (Data(log[..n]) + [log[n]])[..|Data(log[..n])|] == Data(log[..n]);
      }
    }
  }

  lemma {:induction false} UndoData(d: Files, log: seq<Rec>, sel: set<nat>)
    ensures Undo(d, Data(log), sel) == Undo(d, log, sel)
    decreases |log|
  {
    if log != [] {
      var n := |log| - 1;
      var d' := if log[n].txn in sel && log[n].PatchRec? then ApplyPatch(d, log[n].patch, true) else d;
      UndoData(d', log[..n], sel);
      if IsData(log[n]) {
        assert (Data(log[..n]) + [log[n]])[..|Data(log[..n])|] == Data(log[..n]);
      }
    }
  }

  lemma {:induction false} SetsOfSnoc(log: seq<Rec>, r: Rec)
    ensures Committed(log + [r]) == if r.CommitRec? then Committed(log) + {r.txn} else Committed(log)
    ensures Aborted(log + [r]) == if r.AbortRec? then Aborted(log) + {r.txn} else Aborted(log)
  {
    forall x | x in log + [r] ensures x in log || x == r {}
    forall x | x in log ensures x in log + [r] {}
    assert (log + [r])[|log|] == r;
  }

  // ---- recovery itself ----

  /** The data directory. */
  class FileManager {
    var files: Files

    constructor (files: Files)
      ensures this.files == files
    {
      this.files := files;
    }

    method ReadPage(id: PageId) returns (pg: Page)
      ensures pg == At(files, id)
    {
      pg := At(files, id);
    }

    method WritePageAt(id: PageId, pg: Page)
      modifies this
      ensures files == WritePage(old(files), id, pg)
    {
      files := WritePage(files, id, pg);
    }

    method RemoveTableFile(fid: nat)
      modifies this
      ensures files == RemoveFile(old(files), fid)
    {
      files := RemoveFile(files, fid);
    }
  }

  method ApplyPatchTo(fm: FileManager, p: PagePatch, undo: bool)
    modifies fm
    ensures fm.files == ApplyPatch(old(fm.files), p, undo)
  {
    var page := fm.ReadPage(p.page);
    page := Overwrite(page, p.off, if undo then p.before else p.after);
    fm.WritePageAt(p.page, page);
  }

  /** What the first pass gathers: the data records in order, the committed and aborted transactions, the
      number of records. */
  datatype Gathered = Gathered(records: seq<Rec>, committed: set<nat>, aborted: set<nat>, count: nat) {
    function Add(r: Rec): Gathered {
      Gathered(if IsData(r) then records + [r] else records,
               if r.CommitRec? then committed + {r.txn} else committed,
               if r.AbortRec? then aborted + {r.txn} else aborted,
               count + 1)
    }
  }

  function Gather(log: seq<Rec>): Gathered {
    Gathered(Data(log), Committed(log), Aborted(log), |log|)
  }

  lemma {:induction false} GatherOne(log: seq<Rec>, r: Rec)
    ensures Gather(log + [r]) == Gather(log).Add(r)
  {
    SetsOfSnoc(log, r);
    DataSnoc(log, r);
  }

  /** First pass. False stands for the stop on a malformed record. */
  method Collect(crc: Crc, file: seq<byte>) returns (ok: bool, g: Gathered)
    ensures ok == ReadLog(crc, file).Some?
    ensures ok ==> g == Gather(ReadLog(crc, file).value)
  {
    var reader := new WalReader(crc, file);
    g := Gathered([], {}, {}, 0);
    ghost var log: seq<Rec> := [];
    assert g == Gather(log);
    ThenEmpty(ReadLog(crc, file));
    while true
      invariant fresh(reader) && reader.Valid() && reader.crc == crc
      invariant Then(log, ReadLog(crc, reader.Rest())) == ReadLog(crc, file)
      invariant g == Gather(log)
      decreases |reader.Rest()|
    {
      ghost var rest := reader.Rest();
      var next := reader.Next();
      if next.None? {
        Assoc(log, [], []);
        return true, g;
      }
      var r := Decode(next.value);
      if r.None? { return false, g; }
      ThenOne(log, r.value, ReadLog(crc, reader.Rest()));
      GatherOne(log, r.value);
      log := log + [r.value];
      g := g.Add(r.value);
    }
  }

  lemma {:induction false} ThenEmpty(rest: Option<seq<Rec>>)
    ensures Then([], rest) == rest
  {
    if rest.Some? {
      Assoc([], rest.value, []);
    }
  }

  lemma {:induction false} ThenOne(log: seq<Rec>, r: Rec, rest: Option<seq<Rec>>)
    ensures Then(log, Then([r], rest)) == Then(log + [r], rest)
  {
    if rest.Some? {
      Assoc(log, [r], rest.value);
    }
  }

  lemma {:induction false} DataSnoc(log: seq<Rec>, r: Rec)
    ensures Data(log + [r]) == if IsData(r) then Data(log) + [r] else Data(log)
  {
    assert (log + [r])[..|log|] == log;
  }

  method RedoPass(fm: FileManager, records: seq<Rec>, committed: set<nat>)
    requires forall r :: r in records ==> IsData(r)
    modifies fm
    ensures fm.files == Redo(old(fm.files), records, committed)
  {
    for i := 0 to |records|
      invariant fm.files == Redo(old(fm.files), records[..i], committed)
    {
      var r := records[i];
      assert records[..i + 1][..i] == records[..i];
      assert r in records;
      if r.txn in committed {
        if r.PatchRec? {
          ApplyPatchTo(fm, r.patch, false);
        } else if r.fid in fm.files {
          fm.RemoveTableFile(r.fid);
        } else {
          assert RemoveFile(fm.files, r.fid) == fm.files;
        }
      }
    }
    assert records[..|records|] == records;
  }

  method UndoPass(fm: FileManager, records: seq<Rec>, committed: set<nat>, aborted: set<nat>, ghost log: seq<Rec>)
    requires committed == Committed(log) && aborted == Aborted(log)
    requires forall r :: r in records ==> r in log
    modifies fm
    ensures fm.files == Undo(old(fm.files), records, Losers(log))
  {
    assert records[..|records|] == records;
    for i := |records| downto 0
      invariant Undo(fm.files, records[..i], Losers(log)) == Undo(old(fm.files), records, Losers(log))
    {
      var r := records[i];
      assert records[..i + 1][..i] == records[..i];
      assert r in records;
      if r.txn !in committed && r.txn !in aborted && r.PatchRec? {
        ApplyPatchTo(fm, r.patch, true);
      }
    }
  }

  /** Recovery from the bytes of the log file. A malformed record stops it before any page is written. */
  method RecoverFiles(fm: FileManager, wal: WalFile) returns (ok: bool)
    modifies fm, wal`file, wal`bytesSinceReset, wal`records, wal`log
    ensures ok == ReadLog(wal.crc, old(wal.file)).Some?
    ensures !ok ==> fm.files == old(fm.files) && wal.file == old(wal.file)
    ensures ok ==>
              && fm.files == Recover(old(fm.files), ReadLog(wal.crc, old(wal.file)).value)
              && wal.file == []
  {
    var g;
    ok, g := Collect(wal.crc, wal.file);
    if !ok { return; }
    ghost var log := ReadLog(wal.crc, wal.file).value;

    RedoPass(fm, g.records, g.committed);
    RedoData(old(fm.files), log, g.committed);
    UndoPass(fm, g.records, g.committed, g.aborted, log);
    UndoData(Redo(old(fm.files), log, g.committed), log, Losers(log));
    if g.count == 0 {
      if |wal.file| > 0 {
        wal.Reset(); // nothing but garbage: clear it so that new records can follow
      }
      return;
    }
    wal.Reset();
  }
}
