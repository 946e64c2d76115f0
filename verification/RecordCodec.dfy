/** Log records as bytes (src/storage/wal.h): the frame around every record, the payload of each kind, and
    reading both back. The CRC is an arbitrary function of the bytes it covers. */
module RecordCodec {
  import opened Bytes
  import opened Disk
  import opened LogRecords
  import opened Seqs

  const WAL_HEADER_SIZE := 25
  const WAL_PATCH_HEADER_SIZE := 20
  const WAL_PAYLOAD_MAX := 20 + 2 * 4096

  type Crc = seq<byte> -> u32

  datatype WalRecord = WalRecord(lsn: u64, txn: u64, op: byte, payload: seq<byte>)

  /** The bytes the checksum covers: sequence number, transaction, operation, payload. */
  function Covered(r: WalRecord): seq<byte> {
    Put(8, r.lsn) + Put(8, r.txn) + [r.op] + r.payload
  }

  function Encode(crc: Crc, r: WalRecord): (b: seq<byte>)
    requires |r.payload| <= WAL_PAYLOAD_MAX
    ensures |b| == WAL_HEADER_SIZE + |r.payload|
  {
    Put(4, |r.payload|) + Put(8, r.lsn) + Put(8, r.txn) + [r.op] + Put(4, crc(Covered(r))) + r.payload
  }

  predicate Small(rs: seq<WalRecord>) {
    forall r :: r in rs ==> |r.payload| <= WAL_PAYLOAD_MAX
  }

  function EncodeLog(crc: Crc, rs: seq<WalRecord>): seq<byte>
    requires Small(rs)
  {
    if rs == [] then [] else EncodeLog(crc, rs[..|rs| - 1]) + Encode(crc, rs[|rs| - 1])
  }

  /** One record off the front of the bytes; None where the log is cut or damaged. */
  function ParseOne(crc: Crc, b: seq<byte>): (r: Option<WalRecord>)
    ensures r.Some? ==> |b| >= WAL_HEADER_SIZE + |r.value.payload| && |r.value.payload| <= WAL_PAYLOAD_MAX
  {
    if |b| < WAL_HEADER_SIZE then None
    else
      var len := Get(b[..4]);
      if len > WAL_PAYLOAD_MAX || |b| < WAL_HEADER_SIZE + len then None
      else
        Pow256Values();
        var r := WalRecord(Get(b[4..12]), Get(b[12..20]), b[20], b[25..25 + len]);
        if crc(b[4..21] + r.payload) != Get(b[21..25]) then None else Some(r)
  }

  function ParseAll(crc: Crc, b: seq<byte>): seq<WalRecord>
    decreases |b|
  {
    var r := ParseOne(crc, b);
    if r.None? then [] else [r.value] + ParseAll(crc, b[WAL_HEADER_SIZE + |r.value.payload|..])
  }

  lemma {:induction false} ParseEncoded(crc: Crc, r: WalRecord, rest: seq<byte>)
    requires |r.payload| <= WAL_PAYLOAD_MAX
    ensures ParseOne(crc, Encode(crc, r) + rest) == Some(r)
  {
    var b := Encode(crc, r) + rest;
    Pow256Values();
    GetPut(4, |r.payload|);
    GetPut(8, r.lsn);
    GetPut(8, r.txn);
    GetPut(4, crc(Covered(r)));
    SevenParts(Put(4, |r.payload|), Put(8, r.lsn), Put(8, r.txn), [r.op], Put(4, crc(Covered(r))), r.payload, rest);
    assert b[20..21][0] == r.op;
  }

  /** A record that was only partly written is never mistaken for a whole one, whatever the checksum. */
  lemma {:induction false} TornRecord(crc: Crc, r: WalRecord, cut: nat)
    requires |r.payload| <= WAL_PAYLOAD_MAX && cut < |Encode(crc, r)|
    ensures ParseOne(crc, Encode(crc, r)[..cut]).None?
  {
    var b := Encode(crc, r)[..cut];
    if cut >= WAL_HEADER_SIZE {
      Pow256Values();
      GetPut(4, |r.payload|);
      assert b[..4] == Put(4, |r.payload|);
    }
  }

  lemma {:induction false} EncodeFront(crc: Crc, rs: seq<WalRecord>)
    requires Small(rs) && rs != []
    ensures Small(rs[1..])
    ensures EncodeLog(crc, rs) == Encode(crc, rs[0]) + EncodeLog(crc, rs[1..])
  {
    var n := |rs| - 1;
    if n > 0 {
      EncodeFront(crc, rs[..n]);
      var mid := rs[..n][1..];
      assert rs[1..][..n - 1] == mid;
      Assoc(Encode(crc, rs[0]), EncodeLog(crc, mid), Encode(crc, rs[n]));
    } else {
      Assoc([], Encode(crc, rs[0]), []);
    }
  }

  /** Whole records followed by anything that is no record read back as the whole ones. */
  lemma {:induction false} ReadBackBefore(crc: Crc, rs: seq<WalRecord>, tail: seq<byte>)
    requires Small(rs) && ParseOne(crc, tail).None?
    ensures ParseAll(crc, EncodeLog(crc, rs) + tail) == rs
    decreases |rs|
  {
    if rs == [] {
      assert EncodeLog(crc, rs) + tail == tail;
    } else {
      EncodeFront(crc, rs);
      var b := EncodeLog(crc, rs) + tail;
      var rest := EncodeLog(crc, rs[1..]) + tail;
      assert b == Encode(crc, rs[0]) + rest;
      ParseEncoded(crc, rs[0], rest);
      assert b[WAL_HEADER_SIZE + |rs[0].payload|..] == rest;
      ReadBackBefore(crc, rs[1..], tail);
    }
  }

  /** Reading the log back gives the records that were completely written, in order, when the crash cut
      the file inside the next one. */
  lemma {:induction false} LogReadBack(crc: Crc, rs: seq<WalRecord>, next: WalRecord, cut: nat)
    requires Small(rs) && |next.payload| <= WAL_PAYLOAD_MAX && cut < |Encode(crc, next)|
    ensures ParseAll(crc, EncodeLog(crc, rs) + Encode(crc, next)[..cut]) == rs
  {
    TornRecord(crc, next, cut);
    ReadBackBefore(crc, rs, Encode(crc, next)[..cut]);
  }

  /** A record whose checksum is not that of its bytes. */
  predicate Damaged(crc: Crc, b: seq<byte>) {
    |b| >= WAL_HEADER_SIZE &&
    var end := WAL_HEADER_SIZE + Get(b[..4]);
    |b| >= end && crc(b[4..21] + b[25..end]) != Get(b[21..25])
  }

  /** Reading stops at a damaged record; what comes before it is read back. */
  lemma {:induction false} DamageStopsReading(crc: Crc, rs: seq<WalRecord>, tail: seq<byte>)
    requires Small(rs) && Damaged(crc, tail)
    ensures ParseAll(crc, EncodeLog(crc, rs) + tail) == rs
  {
    assert ParseOne(crc, tail).None?;
    ReadBackBefore(crc, rs, tail);
  }

  /** What is read off the front of the bytes is there, field by field, under its checksum. */
  lemma {:induction false} ParsedFields(crc: Crc, b: seq<byte>)
    requires ParseOne(crc, b).Some?
    ensures var r := ParseOne(crc, b).value;
            var end := 25 + |r.payload|;
            && end <= |b| && b[..4] == Put(4, |r.payload|) && b[4..12] == Put(8, r.lsn) && b[12..20] == Put(8, r.txn)
            && b[20] == r.op && b[21..25] == Put(4, crc(b[4..21] + r.payload)) && b[25..end] == r.payload
  {
    PutGet(b[..4]);
    PutGet(b[4..12]);
    PutGet(b[12..20]);
    PutGet(b[21..25]);
  }

  /** Exactly the encoded records are read. */
  lemma {:induction false} ParseIffEncoded(crc: Crc, b: seq<byte>, r: WalRecord)
    ensures ParseOne(crc, b) == Some(r) <==> |r.payload| <= WAL_PAYLOAD_MAX && Encode(crc, r) <= b
  {
    if ParseOne(crc, b) == Some(r) {
      ParsedIsEncoded(crc, b, r);
    }
    if |r.payload| <= WAL_PAYLOAD_MAX && Encode(crc, r) <= b {
      IsPrefix(Encode(crc, r), b);
      ParseEncoded(crc, r, b[|Encode(crc, r)|..]);
    }
  }

  lemma {:induction false} ParsedIsEncoded(crc: Crc, b: seq<byte>, r: WalRecord)
    requires ParseOne(crc, b) == Some(r)
    ensures |r.payload| <= WAL_PAYLOAD_MAX && Encode(crc, r) <= b
  {
    var end := WAL_HEADER_SIZE + |r.payload|;
    ParsedFields(crc, b);
    OneByte(b, 20);
    ThreeSlices(b, 4, 12, 20, 21);
    PrefixSlices(b, 4, 12, 20, 21, 25, end);
    IsPrefix(Encode(crc, r), b);
  }

  lemma {:induction false} OneByte(b: seq<byte>, i: nat)
    requires i < |b|
    ensures b[i..i + 1] == [b[i]]
  {
  }

  const OP_PATCH: byte := 1
  const OP_DROP: byte := 2
  const OP_COMMIT: byte := 3
  const OP_ABORT: byte := 4

  // ---- records as bytes ----

  /** A record whose fields fit their widths; file ids are never 0. */
  predicate Fits(r: Rec) {
    && r.txn < U64
    && (r.PatchRec? ==> 0 < r.patch.page.fid < U64 && r.patch.page.no < U32)
    && (r.DropRec? ==> 0 < r.fid < U64)
  }

  function OpOf(r: Rec): byte {
    match r
    case PatchRec(_, _) => OP_PATCH
    case DropRec(_, _) => OP_DROP
    case CommitRec(_) => OP_COMMIT
    case AbortRec(_) => OP_ABORT
  }

  function PayloadOf(r: Rec): (b: seq<byte>)
    ensures |b| <= WAL_PAYLOAD_MAX
  {
    match r
    case PatchRec(_, p) =>
      Put(8, p.page.fid) + Put(4, p.page.no) + Put(4, p.off) + Put(4, |p.after|) + p.after + p.before
    case DropRec(_, fid) => Put(8, fid)
    case _ => []
  }

  /** The checks recovery makes on a record with a good checksum; None stops the process. A patch payload
      shorter than its own header, which the code reads past, counts as malformed as well. */
  function Decode(w: WalRecord): Option<Rec> {
    if w.op == OP_PATCH then
      if |w.payload| < WAL_PATCH_HEADER_SIZE then None
      else
        var fid := Get(w.payload[..8]);
        var off := Get(w.payload[12..16]);
        var len := Get(w.payload[16..20]);
        if fid == 0 || off > PAGE_SIZE || len == 0 || len > PAGE_SIZE - off then None
        else if |w.payload| != WAL_PATCH_HEADER_SIZE + 2 * len then None
        else Some(PatchRec(w.txn, Patch(PageId(fid, Get(w.payload[8..12])), off,
                                        w.payload[20..20 + len], w.payload[20 + len..])))
    else if w.op == OP_DROP then
      if |w.payload| != 8 || Get(w.payload) == 0 then None else Some(DropRec(w.txn, Get(w.payload)))
    else if w.op == OP_COMMIT || w.op == OP_ABORT then
      if w.payload != [] then None
      else if w.op == OP_COMMIT then Some(CommitRec(w.txn)) else Some(AbortRec(w.txn))
    else None
  }

  lemma {:induction false} DecodeEncoded(r: Rec, lsn: u64)
    requires Fits(r)
    ensures Decode(WalRecord(lsn, r.txn, OpOf(r), PayloadOf(r))) == Some(r)
  {
    Pow256Values();
    var b := PayloadOf(r);
    match r
    case PatchRec(_, p) =>
      GetPut(8, p.page.fid);
      GetPut(4, p.page.no);
      GetPut(4, p.off);
      GetPut(4, |p.after|);
      assert b[..8] == Put(8, p.page.fid) && b[8..12] == Put(4, p.page.no);
      assert b[12..16] == Put(4, p.off) && b[16..20] == Put(4, |p.after|);
      assert b[20..20 + |p.after|] == p.after && b[20 + |p.after|..] == p.before;
    case DropRec(_, fid) => GetPut(8, fid);
    case _ =>
  }

  /** Exactly the payloads of legal records pass the checks; everything else stops recovery. */
  lemma {:induction false} DecodeIffEncoded(w: WalRecord, r: Rec)
    ensures Decode(w) == Some(r) <==> Fits(r) && w.txn == r.txn && w.op == OpOf(r) && w.payload == PayloadOf(r)
  {
    if Decode(w) == Some(r) {
      if r.PatchRec? {
        PatchPayload(w.payload, r);
      } else if r.DropRec? {
        PutGet(w.payload);
      }
    }
    if Fits(r) && w.txn == r.txn && w.op == OpOf(r) && w.payload == PayloadOf(r) {
      DecodeEncoded(r, w.lsn);
    }
  }

  lemma {:induction false} PatchPayload(b: seq<byte>, r: Rec)
    requires r.PatchRec? && |b| == 20 + 2 * |r.patch.after|
    requires r.patch.page.fid == Get(b[..8]) && r.patch.page.no == Get(b[8..12]) && r.patch.off == Get(b[12..16])
    requires |r.patch.after| == Get(b[16..20]) && r.patch.after == b[20..20 + |r.patch.after|] && r.patch.before == b[20 + |r.patch.after|..]
    ensures b == PayloadOf(r) && r.patch.page.fid < U64 && r.patch.page.no < U32
  {
    Pow256Values();
    PutGet(b[..8]);
    PutGet(b[8..12]);
    PutGet(b[12..16]);
    PutGet(b[16..20]);
    SixSlices(b, 8, 12, 16, 20, 20 + |r.patch.after|);
  }

  /** All records of the file, or None where one of them is malformed. */
  function DecodeAll(ws: seq<WalRecord>): (r: Option<seq<Rec>>)
    ensures r.Some? ==> |r.value| == |ws|
  {
    if ws == [] then Some([])
    else
      Extend(DecodeAll(ws[..|ws| - 1]), Decode(ws[|ws| - 1]))
  }

  function Extend(front: Option<seq<Rec>>, last: Option<Rec>): Option<seq<Rec>> {
    if front.None? || last.None? then None else Some(front.value + [last.value])
  }

  lemma {:induction false} DecodeSnoc(ws: seq<WalRecord>, w: WalRecord)
    ensures DecodeAll(ws + [w]) == Extend(DecodeAll(ws), Decode(w))
  {
    Snoc(ws, w);
  }

  // ---- a whole file ----

  /** What a log followed by the rest of a reading amounts to; a malformed record spoils all of it. */
  function Then(log: seq<Rec>, rest: Option<seq<Rec>>): Option<seq<Rec>> {
    if rest.None? then None else Some(log + rest.value)
  }

  /** The log a file holds: its records up to the first that is cut or damaged, each of them decoded. */
  function ReadLog(crc: Crc, b: seq<byte>): Option<seq<Rec>>
    decreases |b|
  {
    var w := ParseOne(crc, b);
    if w.None? then Some([])
    else
      var r := Decode(w.value);
      FromFirst(r, ReadLog(crc, b[WAL_HEADER_SIZE + |w.value.payload|..]))
  }

  lemma {:induction false} ReadLogIsDecodeAll(crc: Crc, b: seq<byte>)
    ensures ReadLog(crc, b) == DecodeAll(ParseAll(crc, b))
    decreases |b|
  {
    var w := ParseOne(crc, b);
    if w.Some? {
      var rest := b[WAL_HEADER_SIZE + |w.value.payload|..];
      ReadLogIsDecodeAll(crc, rest);
      DecodeFront(w.value, ParseAll(crc, rest));
    }
  }

  lemma {:induction false} DecodeFront(w: WalRecord, ws: seq<WalRecord>)
    ensures DecodeAll([w] + ws) == FromFirst(Decode(w), DecodeAll(ws))
  {
    if ws == [] {
      Assoc([], [w], []);
      DecodeSnoc([], w);
      FromFirstEmpty(Decode(w));
    } else {
      var front, last := ws[..|ws| - 1], ws[|ws| - 1];
      DecodeFront(w, front);
      Assoc([w], front, [last]);
      Split(ws);
      DecodeSnoc([w] + front, last);
      DecodeSnoc(front, last);
      FromFirstExtend(Decode(w), DecodeAll(front), Decode(last));
    }
  }

  function FromFirst(first: Option<Rec>, rest: Option<seq<Rec>>): Option<seq<Rec>> {
    if first.None? then None else Then([first.value], rest)
  }

  lemma {:induction false} FromFirstEmpty(first: Option<Rec>)
    ensures Extend(Some([]), first) == FromFirst(first, Some([]))
  {
    if first.Some? {
      Assoc([], [first.value], []);
      Assoc([first.value], [], []);
    }
  }

  lemma {:induction false} FromFirstExtend(first: Option<Rec>, rest: Option<seq<Rec>>, last: Option<Rec>)
    ensures Extend(FromFirst(first, rest), last) == FromFirst(first, Extend(rest, last))
  {
    if first.Some? && rest.Some? && last.Some? {
      Assoc([first.value], rest.value, [last.value]);
    }
  }
}
