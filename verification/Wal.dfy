/** The log file: appending, emptying, and the cursor recovery reads it with (src/storage/wal.cpp). */
module Wal {
  import opened Bytes
  import opened LogRecords
  import opened RecordCodec

  const READ_CHUNK := 16 * 1024

  // ---- the writing side ----

  /** The file holds exactly these records, and they mean this log. */
  ghost predicate IsLogFile(crc: Crc, file: seq<byte>, records: seq<WalRecord>, log: seq<Rec>) {
    Small(records) && file == EncodeLog(crc, records) && DecodeAll(records) == Some(log)
  }

  lemma {:induction false} LogFileSnoc(crc: Crc, file: seq<byte>, records: seq<WalRecord>, log: seq<Rec>, rec: Rec, lsn: u64)
    requires IsLogFile(crc, file, records, log) && Fits(rec)
    ensures var r := WalRecord(lsn, rec.txn, OpOf(rec), PayloadOf(rec));
            IsLogFile(crc, file + Encode(crc, r), records + [r], log + [rec])
  {
    var r := WalRecord(lsn, rec.txn, OpOf(rec), PayloadOf(rec));
    DecodeEncoded(rec, lsn);
    DecodeSnoc(records, r);
    assert (records + [r])[..|records|] == records;
  }

  /** The log file and its counters. */
  class WalFile {
    const crc: Crc
    var file: seq<byte>
    var nextLsn: u64
    var nextTxn: nat
    var bytesSinceReset: nat
    ghost var records: seq<WalRecord> // what has been appended since the last reset
    ghost var log: seq<Rec>           // and what those records mean

    ghost predicate Valid()
      reads this
    {
      IsLogFile(crc, file, records, log) && bytesSinceReset == |file|
    }

    constructor (crc: Crc)
      ensures Valid() && log == [] && nextTxn == 1 && this.crc == crc
    {
      this.crc := crc;
      file, nextLsn, nextTxn, bytesSinceReset, records, log := [], 1, 1, 0, [], [];
    }

    /** write(2) until all of buf is taken. The system may take it in several pieces: at every moment the
        file is what it was and a prefix of buf. */
    method WriteFully(buf: seq<byte>)
      modifies this`file
      ensures file == old(file) + buf
    {
      var done := 0;
      while done < |buf|
        invariant done <= |buf| && file == old(file) + buf[..done]
      {
        var n :| 1 <= n <= |buf| - done;
        file := file + buf[done..done + n];
        done := done + n;
      }
      assert buf[..done] == buf;
    }

    method Append(rec: Rec) returns (lsn: u64)
      requires Valid() && Fits(rec)
      modifies this`file, this`nextLsn, this`bytesSinceReset, this`records, this`log
      ensures Valid() && log == old(log) + [rec]
      ensures lsn == old(nextLsn) && nextLsn == (lsn + 1) % U64
    {
      lsn := nextLsn;
      var r := WalRecord(lsn, rec.txn, OpOf(rec), PayloadOf(rec));
      var buf := Encode(crc, r);
      LogFileSnoc(crc, file, records, log, rec, lsn);
      WriteFully(buf);
      nextLsn := (nextLsn + 1) % U64;
      bytesSinceReset := bytesSinceReset + |buf|;
      records, log := records + [r], log + [rec];
    }

    method AllocTxnId() returns (id: nat)
      modifies this`nextTxn
      ensures id == old(nextTxn) && nextTxn == id + 1
    {
      id := nextTxn;
      nextTxn := nextTxn + 1;
    }

    /** Checkpoint end: empty the file. Sequence numbers go on. */
    method Reset()
      modifies this`file, this`bytesSinceReset, this`records, this`log
      ensures Valid() && log == [] && file == []
    {
      file, bytesSinceReset, records, log := [], 0, [], [];
    }
  }

  // ---- the reading side ----

  lemma {:induction false} SubSlice(file: seq<byte>, from: nat, to: nat, i: nat, j: nat)
    requires from <= to <= |file| && i <= j <= to - from
    ensures file[from..to][i..j] == file[from..][i..j]
  {
    var b := file[from..to];
    assert forall k :: 0 <= k < to - from ==> b[k] == file[from + k];
    assert b[i..j] == file[from + i..from + j];
    assert file[from..][i..j] == file[from + i..from + j];
  }

  /** Sequential cursor over a log file, filled in chunks of whatever size the system returns. */
  class WalReader {
    const crc: Crc
    const file: seq<byte>
    var pos: nat            // bytes taken from the file
    var buf: seq<byte>      // taken but not yet consumed
    var validBytes: nat

    ghost predicate Valid()
      reads this
    {
      pos <= |file| && validBytes + |buf| == pos && buf == file[validBytes..pos]
    }

    /** The part of the file no record has been made of yet. */
    ghost function Rest(): seq<byte>
      reads this
      requires Valid()
    {
      file[validBytes..]
    }

    constructor (crc: Crc, file: seq<byte>)
      ensures Valid() && Rest() == file && this.crc == crc && this.file == file && validBytes == 0
    {
      this.crc, this.file := crc, file;
      pos, buf, validBytes := 0, [], 0;
    }

    method Fill() returns (more: bool)
      requires Valid()
      modifies this`pos, this`buf
      ensures Valid() && more == (old(pos) < |file|)
      ensures if more then pos > old(pos) else pos == old(pos)
    {
      if pos == |file| {
        return false;
      }
      var n :| 1 <= n <= |file| - pos && n <= READ_CHUNK by { assert 1 <= |file| - pos; }
      buf := buf + file[pos..pos + n];
      pos := pos + n;
      more := true;
    }

    method Next() returns (r: Option<WalRecord>)
      requires Valid()
      modifies this
      ensures Valid() && r == ParseOne(crc, old(Rest()))
      ensures validBytes == old(validBytes) + if r.Some? then WAL_HEADER_SIZE + |r.value.payload| else 0
      ensures r.Some? ==> Rest() == old(Rest())[WAL_HEADER_SIZE + |r.value.payload|..]
    {
      while |buf| < WAL_HEADER_SIZE
        invariant Valid() && validBytes == old(validBytes)
        decreases |file| - pos
      {
        var more := Fill();
        if !more { return None; }
      }
      var len := Get(buf[..4]);
      assert buf[..4] == Rest()[..4];
      if len > WAL_PAYLOAD_MAX { return None; }
      while |buf| < WAL_HEADER_SIZE + len
        invariant Valid() && validBytes == old(validBytes) && |buf| >= WAL_HEADER_SIZE && len == Get(Rest()[..4])
        decreases |file| - pos
      {
        var more := Fill();
        if !more { return None; }
      }
      SubSlice(file, validBytes, pos, 4, 12);
      SubSlice(file, validBytes, pos, 12, 20);
      SubSlice(file, validBytes, pos, 4, 21);
      SubSlice(file, validBytes, pos, 21, 25);
      SubSlice(file, validBytes, pos, 25, 25 + len);
      if crc(buf[4..21] + buf[25..25 + len]) != Get(buf[21..25]) { return None; }
      Pow256Values();
      r := Some(WalRecord(Get(buf[4..12]), Get(buf[12..20]), buf[20], buf[25..25 + len]));
      buf := buf[WAL_HEADER_SIZE + len..];
      validBytes := validBytes + WAL_HEADER_SIZE + len;
    }
  }
}
