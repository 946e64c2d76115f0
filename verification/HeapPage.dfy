/** The bytes of heap pages (src/storage/page.cpp): records grow forward, slots backward from the page end, and a
    deleted slot keeps its number for ever. */
module HeapPage {
  import opened Bytes
  import opened Disk
  import opened LogRecords
  import opened PageBytes

  const SLOT := 4
  const TYPE_HEAP: byte := 2
  const MAX_RECORD := 4068

  function SlotAt(i: nat): int {
    PAGE_SIZE - SLOT * (i + 1)
  }

  function SlotOff(p: Page, i: nat): nat
    requires SlotAt(i) >= 0
  {
    Field(p, SlotAt(i), 2)
  }

  function SlotLen(p: Page, i: nat): nat
    requires SlotAt(i) >= 0
  {
    Field(p, SlotAt(i) + 2, 2)
  }

  /** slot_tombstone. */
  predicate Tombstone(p: Page, i: nat)
    requires SlotAt(i) >= 0
  {
    SlotOff(p, i) == 0 && SlotLen(p, i) == 0
  }

  predicate SlotOk(p: Page, i: nat, begin: nat)
    requires SlotAt(i) >= 0
  {
    Tombstone(p, i) || (HEADER <= SlotOff(p, i) && SlotOff(p, i) + SlotLen(p, i) <= begin)
  }

  predicate Before(p: Page, i: nat, j: nat)
    requires SlotAt(i) >= 0 && SlotAt(j) >= 0
  {
    Tombstone(p, i) || Tombstone(p, j) || SlotOff(p, i) + SlotLen(p, i) <= SlotOff(p, j)
  }

  /** A heap page: records end at free_begin, slots start at free_end, records lie in slot order without overlap. */
  predicate HeapOk(p: Page) {
    && p[TYPE_AT] == TYPE_HEAP
    && HEADER <= FreeBegin(p) <= FreeEnd(p) && FreeEnd(p) == PAGE_SIZE - SLOT * Count(p)
    && (forall i :: 0 <= i < Count(p) ==> SlotOk(p, i, FreeBegin(p)))
    && (forall i, j :: 0 <= i < j < Count(p) ==> Before(p, i, j))
  }

  /** The record of a slot; none for a deleted one. */
  function RecordAt(p: Page, i: nat): Option<seq<byte>>
    requires HeapOk(p) && i < Count(p)
  {
    assert SlotOk(p, i, FreeBegin(p));
    if Tombstone(p, i) then None else Some(p[SlotOff(p, i)..SlotOff(p, i) + SlotLen(p, i)])
  }

  function Records(p: Page): (rs: seq<Option<seq<byte>>>)
    requires HeapOk(p)
    ensures |rs| == Count(p)
  {
    seq(Count(p), i requires 0 <= i < Count(p) => RecordAt(p, i))
  }

  // ---- heap_append ----

  function Appended(p: Page, rec: seq<byte>, checksum: seq<byte>): Page
    requires HeapOk(p) && |rec| + SLOT <= FreeSpace(p) && |checksum| == 4
  {
    var n, off := Count(p), FreeBegin(p);
    var p1 := Overwrite(p, off, rec);
    var p2 := Overwrite(p1, SlotAt(n), Put(2, off) + Put(2, |rec|));
    var p3 := Overwrite(p2, BEGIN_AT, Put(2, off + |rec|));
    var p4 := Overwrite(p3, END_AT, Put(2, FreeEnd(p) - SLOT));
    var p5 := Overwrite(p4, COUNT_AT, Put(2, n + 1));
    Overwrite(p5, CHECKSUM_AT, checksum)
  }

  /** Every byte from the records on. */
  lemma {:induction false} AppendedBytes(p: Page, rec: seq<byte>, checksum: seq<byte>, k: nat)
    requires HeapOk(p) && |rec| + SLOT <= FreeSpace(p) && |checksum| == 4 && HEADER <= k < PAGE_SIZE
    ensures var q, off, at := Appended(p, rec, checksum), FreeBegin(p), SlotAt(Count(p));
            q[k] == if off <= k < off + |rec| then rec[k - off]
                    else if at <= k < at + SLOT then (Put(2, off) + Put(2, |rec|))[k - at] else p[k]
  {
  }

  lemma {:induction false} AppendedHeader(p: Page, rec: seq<byte>, checksum: seq<byte>)
    requires HeapOk(p) && |rec| + SLOT <= FreeSpace(p) && |checksum| == 4
    ensures var q := Appended(p, rec, checksum);
            && Count(q) == Count(p) + 1 && FreeBegin(q) == FreeBegin(p) + |rec| && FreeEnd(q) == FreeEnd(p) - SLOT
            && q[TYPE_AT] == p[TYPE_AT] && Field(q, NEXT_AT, 4) == Field(p, NEXT_AT, 4)
  {
    var q := Appended(p, rec, checksum);
    Pow256Values();
    FieldIs(q, COUNT_AT, 2, Count(p) + 1);
    FieldIs(q, BEGIN_AT, 2, FreeBegin(p) + |rec|);
    FieldIs(q, END_AT, 2, FreeEnd(p) - SLOT);
    FieldSame(p, NEXT_AT, q, NEXT_AT, 4);
  }

  lemma {:induction false} AppendedSlot(p: Page, rec: seq<byte>, checksum: seq<byte>, i: nat)
    requires HeapOk(p) && |rec| + SLOT <= FreeSpace(p) && |checksum| == 4 && i <= Count(p)
    ensures var q := Appended(p, rec, checksum);
            && SlotOff(q, i) == (if i == Count(p) then FreeBegin(p) else SlotOff(p, i))
            && SlotLen(q, i) == (if i == Count(p) then |rec| else SlotLen(p, i))
  {
    var q, at := Appended(p, rec, checksum), SlotAt(i);
    Pow256Values();
    forall k | at <= k < at + SLOT
      ensures q[k] == if i == Count(p) then (Put(2, FreeBegin(p)) + Put(2, |rec|))[k - at] else p[k]
    {
      AppendedBytes(p, rec, checksum, k);
    }
    if i == Count(p) {
      FieldIs(q, at, 2, FreeBegin(p));
      FieldIs(q, at + 2, 2, |rec|);
    } else {
      FieldSame(p, at, q, at, 2);
      FieldSame(p, at + 2, q, at + 2, 2);
    }
  }

  lemma {:induction false} AppendedOk(p: Page, rec: seq<byte>, checksum: seq<byte>)
    requires HeapOk(p) && |rec| + SLOT <= FreeSpace(p) && |checksum| == 4
    ensures HeapOk(Appended(p, rec, checksum))
  {
    var q, n := Appended(p, rec, checksum), Count(p);
    AppendedHeader(p, rec, checksum);
    forall i | 0 <= i <= n ensures SlotOk(q, i, FreeBegin(q)) {
      AppendedSlot(p, rec, checksum, i);
      assert i < n ==> SlotOk(p, i, FreeBegin(p));
    }
    forall i, j | 0 <= i < j <= n ensures Before(q, i, j) {
      AppendedSlot(p, rec, checksum, i);
      AppendedSlot(p, rec, checksum, j);
      assert SlotOk(p, i, FreeBegin(p)) && (j < n ==> Before(p, i, j));
    }
  }

  lemma {:induction false} AppendedRecord(p: Page, rec: seq<byte>, checksum: seq<byte>, i: nat)
    requires HeapOk(p) && |rec| + SLOT <= FreeSpace(p) && |checksum| == 4 && i <= Count(p)
    requires HeapOk(Appended(p, rec, checksum)) && Count(Appended(p, rec, checksum)) == Count(p) + 1
    ensures RecordAt(Appended(p, rec, checksum), i) == if i == Count(p) then Some(rec) else RecordAt(p, i)
  {
    var q := Appended(p, rec, checksum);
    AppendedSlot(p, rec, checksum, i);
    if i == Count(p) || !Tombstone(p, i) {
      assert i < Count(p) ==> SlotOk(p, i, FreeBegin(p));
      var off, len := SlotOff(q, i), SlotLen(q, i);
      forall k | off <= k < off + len ensures q[k] == if i == Count(p) then rec[k - off] else p[k] {
        AppendedBytes(p, rec, checksum, k);
      }
      if i == Count(p) {
        assert q[off..off + len] == rec;
      } else {
        SameSlice(q, off, p, off, len);
      }
    }
  }

  /** heap_append puts the record into the next slot and touches no other. */
  lemma {:induction false} AppendedIs(p: Page, rec: seq<byte>, checksum: seq<byte>)
    requires HeapOk(p) && |rec| + SLOT <= FreeSpace(p) && |checksum| == 4
    ensures var q := Appended(p, rec, checksum);
            && HeapOk(q) && Records(q) == Records(p) + [Some(rec)] && FreeSpace(q) == FreeSpace(p) - |rec| - SLOT
            && Field(q, NEXT_AT, 4) == Field(p, NEXT_AT, 4)
  {
    AppendedHeader(p, rec, checksum);
    AppendedOk(p, rec, checksum);
    var q := Appended(p, rec, checksum);
    forall i | 0 <= i <= Count(p) ensures Records(q)[i] == (Records(p) + [Some(rec)])[i] {
      AppendedRecord(p, rec, checksum, i);
    }
  }

  method HeapAppend(page: array<byte>, rec: seq<byte>, checksum: seq<byte>) returns (ok: bool, slot: nat)
    requires page.Length == PAGE_SIZE && HeapOk(page[..]) && |checksum| == 4
    modifies page
    ensures ok == (|rec| + SLOT <= old(FreeSpace(page[..])))
    ensures !ok ==> page[..] == old(page[..])
    ensures ok ==> HeapOk(page[..]) && Records(page[..]) == old(Records(page[..])) + [Some(rec)]
    ensures ok ==> slot == old(Count(page[..])) && FreeSpace(page[..]) == old(FreeSpace(page[..])) - |rec| - SLOT
    ensures ok ==> Field(page[..], NEXT_AT, 4) == old(Field(page[..], NEXT_AT, 4))
  {
    ghost var p: Page := page[..];
    var n, off, end := GetAt(page, COUNT_AT, 2), GetAt(page, BEGIN_AT, 2), GetAt(page, END_AT, 2);
    slot := n;
    if |rec| + SLOT > end - off {
      return false, slot;
    }
    AppendedIs(p, rec, checksum);
    PutAt(page, off, rec);
    PutAt(page, SlotAt(n), Put(2, off) + Put(2, |rec|));
    PutAt(page, BEGIN_AT, Put(2, off + |rec|));
    PutAt(page, END_AT, Put(2, end - SLOT));
    PutAt(page, COUNT_AT, Put(2, n + 1));
    PutAt(page, CHECKSUM_AT, checksum);
    ok := true;
    assert page[..] == Appended(p, rec, checksum);
  }

  // ---- heap_delete ----

  function Deleted(p: Page, slot: nat, checksum: seq<byte>): Page
    requires HeapOk(p) && slot < Count(p) && |checksum| == 4
  {
    Overwrite(Overwrite(p, SlotAt(slot), [0, 0, 0, 0]), CHECKSUM_AT, checksum)
  }

  lemma {:induction false} DeletedSlot(p: Page, slot: nat, checksum: seq<byte>, i: nat)
    requires HeapOk(p) && slot < Count(p) && i < Count(p) && |checksum| == 4
    ensures var q := Deleted(p, slot, checksum);
            && SlotOff(q, i) == (if i == slot then 0 else SlotOff(p, i))
            && SlotLen(q, i) == (if i == slot then 0 else SlotLen(p, i))
  {
    var q, at := Deleted(p, slot, checksum), SlotAt(i);
    assert Put(2, 0) == [0, 0] && Pow256(2) > 0;
    if i == slot {
      FieldIs(q, at, 2, 0);
      FieldIs(q, at + 2, 2, 0);
    } else {
      FieldSame(p, at, q, at, 2);
      FieldSame(p, at + 2, q, at + 2, 2);
    }
  }

  lemma {:induction false} DeletedHeader(p: Page, slot: nat, checksum: seq<byte>)
    requires HeapOk(p) && slot < Count(p) && |checksum| == 4
    ensures var q := Deleted(p, slot, checksum);
            && Count(q) == Count(p) && FreeBegin(q) == FreeBegin(p) && FreeEnd(q) == FreeEnd(p)
            && q[TYPE_AT] == p[TYPE_AT] && Field(q, NEXT_AT, 4) == Field(p, NEXT_AT, 4)
  {
    var q := Deleted(p, slot, checksum);
    FieldSame(p, COUNT_AT, q, COUNT_AT, 2);
    FieldSame(p, BEGIN_AT, q, BEGIN_AT, 2);
    FieldSame(p, END_AT, q, END_AT, 2);
    FieldSame(p, NEXT_AT, q, NEXT_AT, 4);
  }

  lemma {:induction false} DeletedOk(p: Page, slot: nat, checksum: seq<byte>)
    requires HeapOk(p) && slot < Count(p) && |checksum| == 4
    ensures HeapOk(Deleted(p, slot, checksum))
  {
    var q := Deleted(p, slot, checksum);
    DeletedHeader(p, slot, checksum);
    forall i | 0 <= i < Count(p) ensures SlotOk(q, i, FreeBegin(q)) {
      DeletedSlot(p, slot, checksum, i);
      assert SlotOk(p, i, FreeBegin(p));
    }
    forall i, j | 0 <= i < j < Count(p) ensures Before(q, i, j) {
      DeletedSlot(p, slot, checksum, i);
      DeletedSlot(p, slot, checksum, j);
      assert Before(p, i, j);
    }
  }

  lemma {:induction false} DeletedRecord(p: Page, slot: nat, checksum: seq<byte>, i: nat)
    requires HeapOk(p) && slot < Count(p) && i < Count(p) && |checksum| == 4
    requires HeapOk(Deleted(p, slot, checksum)) && Count(Deleted(p, slot, checksum)) == Count(p)
    ensures RecordAt(Deleted(p, slot, checksum), i) == if i == slot then None else RecordAt(p, i)
  {
    var q := Deleted(p, slot, checksum);
    DeletedSlot(p, slot, checksum, i);
    assert SlotOk(p, i, FreeBegin(p));
    if i != slot && !Tombstone(p, i) {
      SameSlice(q, SlotOff(p, i), p, SlotOff(p, i), SlotLen(p, i));
    }
  }

  /** heap_delete leaves a tombstone: the slot keeps its number, all other records stay. */
  lemma {:induction false} DeletedIs(p: Page, slot: nat, checksum: seq<byte>)
    requires HeapOk(p) && slot < Count(p) && |checksum| == 4
    ensures var q := Deleted(p, slot, checksum);
            && HeapOk(q) && Records(q) == Records(p)[slot := None] && FreeSpace(q) == FreeSpace(p)
            && Field(q, NEXT_AT, 4) == Field(p, NEXT_AT, 4)
  {
    DeletedHeader(p, slot, checksum);
    DeletedOk(p, slot, checksum);
    var before, after := Records(p), Records(Deleted(p, slot, checksum));
    forall i | 0 <= i < Count(p) ensures after[i] == before[slot := None][i] {
      DeletedRecord(p, slot, checksum, i);
    }
  }

  method HeapDelete(page: array<byte>, slot: nat, checksum: seq<byte>)
    requires page.Length == PAGE_SIZE && HeapOk(page[..]) && slot < Count(page[..]) && |checksum| == 4
    modifies page
    ensures HeapOk(page[..]) && Records(page[..]) == old(Records(page[..]))[slot := None]
    ensures FreeSpace(page[..]) == old(FreeSpace(page[..])) && Field(page[..], NEXT_AT, 4) == old(Field(page[..], NEXT_AT, 4))
  {
    ghost var p: Page := page[..];
    DeletedIs(p, slot, checksum);
    PutAt(page, SlotAt(slot), [0, 0, 0, 0]);
    PutAt(page, CHECKSUM_AT, checksum);
  }

  /** A fresh heap page has no slots and room for the longest record. */
  lemma {:induction false} FreshHeapPage(magic: u32, checksum: seq<byte>)
    requires |checksum| == 4
    ensures var p := Blank(magic, TYPE_HEAP, checksum); HeapOk(p) && Records(p) == [] && FreeSpace(p) == MAX_RECORD + SLOT
  {
    BlankIs(magic, TYPE_HEAP, checksum);
  }

  // ---- heap_compact ----

  /** The live records in slot order. */
  function Live(rs: seq<Option<seq<byte>>>): seq<seq<byte>> {
    if rs == [] then []
    else
      var last := rs[|rs| - 1];
      Live(rs[..|rs| - 1]) + if last.Some? then [last.value] else []
  }

  function Size(recs: seq<seq<byte>>): nat {
    if recs == [] then 0 else Size(recs[..|recs| - 1]) + |recs[|recs| - 1]|
  }

  lemma {:induction false} SizePrefix(recs: seq<seq<byte>>, k: nat)
    requires k < |recs|
    ensures Size(recs[..k]) + |recs[k]| <= Size(recs)
    decreases |recs|
  {
    if k < |recs| - 1 {
      SizePrefix(recs[..|recs| - 1], k);
      assert recs[..|recs| - 1][..k] == recs[..k];
    }
  }

  lemma {:induction false} LiveStep(rs: seq<Option<seq<byte>>>, i: nat)
    requires i < |rs|
    ensures Live(rs[..i + 1]) == if rs[i].Some? then Live(rs[..i]) + [rs[i].value] else Live(rs[..i])
  {
    assert rs[..i + 1][..i] == rs[..i];
  }

  lemma {:induction false} SizeSnoc(recs: seq<seq<byte>>, rec: seq<byte>)
    ensures Size(recs + [rec]) == Size(recs) + |rec|
  {
    assert (recs + [rec])[..|recs|] == recs;
  }

  /** More records after it do not matter to a slot. */
  lemma {:induction false} PackedMore(q: Page, recs: seq<seq<byte>>, rec: seq<byte>, k: nat)
    requires k < |recs| && SlotAt(k) >= 0 && PackedAt(q, recs, k)
    ensures PackedAt(q, recs + [rec], k)
  {
    assert (recs + [rec])[..k] == recs[..k];
  }

  /** Slot k of q holds the k-th of the packed records. */
  predicate PackedAt(q: Page, recs: seq<seq<byte>>, k: nat)
    requires k < |recs| && SlotAt(k) >= 0
  {
    && SlotOff(q, k) == HEADER + Size(recs[..k]) && SlotLen(q, k) == |recs[k]|
    && HEADER + Size(recs[..k]) + |recs[k]| <= PAGE_SIZE
    && q[HEADER + Size(recs[..k])..HEADER + Size(recs[..k]) + |recs[k]|] == recs[k]
  }

  /** Slot j of q is still that of p, and its record lies where the packed ones have not come to. */
  predicate Untouched(p: Page, q: Page, off: nat, j: nat)
    requires HeapOk(p) && j < Count(p)
  {
    assert SlotOk(p, j, FreeBegin(p));
    && SlotOff(q, j) == SlotOff(p, j) && SlotLen(q, j) == SlotLen(p, j)
    && (!Tombstone(p, j) ==>
         && off <= SlotOff(p, j)
         && q[SlotOff(p, j)..SlotOff(p, j) + SlotLen(p, j)] == p[SlotOff(p, j)..SlotOff(p, j) + SlotLen(p, j)])
  }

  predicate Packed(p: Page, q: Page, i: nat, off: nat, recs: seq<seq<byte>>)
    requires HeapOk(p) && i <= Count(p)
  {
    && recs == Live(Records(p)[..i]) && |recs| <= i && off == HEADER + Size(recs) && off <= FreeBegin(p)
    && (forall k :: 0 <= k < |recs| ==> PackedAt(q, recs, k))
    && (forall j :: i <= j < Count(p) ==> Untouched(p, q, off, j))
    && forall b :: 0 <= b < HEADER ==> q[b] == p[b]
  }

  lemma {:induction false} PackedStart(p: Page)
    requires HeapOk(p)
    ensures Packed(p, p, 0, HEADER, [])
  {
    forall j | 0 <= j < Count(p) ensures Untouched(p, p, HEADER, j) {
      assert SlotOk(p, j, FreeBegin(p));
    }
  }

  /** A tombstone is passed over. */
  lemma {:induction false} PackedSkip(p: Page, q: Page, i: nat, off: nat, recs: seq<seq<byte>>)
    requires HeapOk(p) && i < Count(p) && Packed(p, q, i, off, recs) && Tombstone(p, i)
    ensures Packed(p, q, i + 1, off, recs)
  {
    LiveStep(Records(p), i);
  }

  /** The page after the two stores for a live slot i. */
  function Moved(p: Page, q: Page, i: nat, off: nat, recs: seq<seq<byte>>): Page
    requires HeapOk(p) && i < Count(p) && Packed(p, q, i, off, recs) && !Tombstone(p, i)
  {
    assert SlotOk(p, i, FreeBegin(p)) && Untouched(p, q, off, i);
    var len := SlotLen(p, i);
    Overwrite(Overwrite(q, off, Part(q, SlotOff(p, i), len)), SlotAt(|recs|), Put(2, off) + Put(2, len))
  }

  lemma {:induction false} MovedBytes(p: Page, q: Page, i: nat, off: nat, recs: seq<seq<byte>>, k: nat)
    requires HeapOk(p) && i < Count(p) && Packed(p, q, i, off, recs) && !Tombstone(p, i) && k < PAGE_SIZE
    ensures var len, at := SlotLen(p, i), SlotAt(|recs|);
            && off + len <= SlotOff(p, i) + len <= FreeBegin(p) && FreeBegin(p) <= SlotAt(i)
            && Moved(p, q, i, off, recs)[k] == if off <= k < off + len then p[SlotOff(p, i) + k - off]
                                          else if at <= k < at + SLOT then (Put(2, off) + Put(2, len))[k - at] else q[k]
  {
    assert SlotOk(p, i, FreeBegin(p)) && Untouched(p, q, off, i);
    var from, len, at := SlotOff(p, i), SlotLen(p, i), SlotAt(|recs|);
    assert q[from..from + len] == p[from..from + len];
    var q1 := Overwrite(q, off, Part(q, from, len));
    OverwriteByte(q, off, Part(q, from, len), k);
    OverwriteByte(q1, at, Put(2, off) + Put(2, len), k);
    if off <= k < off + len {
      assert q[from..from + len][k - off] == p[from..from + len][k - off];
    }
  }

  lemma {:induction false} MovedNewSlot(p: Page, q: Page, i: nat, off: nat, recs: seq<seq<byte>>)
    requires HeapOk(p) && i < Count(p) && Packed(p, q, i, off, recs) && !Tombstone(p, i)
    ensures SlotOff(Moved(p, q, i, off, recs), |recs|) == off
    ensures SlotLen(Moved(p, q, i, off, recs), |recs|) == SlotLen(p, i)
  {
    var r, len, at := Moved(p, q, i, off, recs), SlotLen(p, i), SlotAt(|recs|);
    assert SlotOk(p, i, FreeBegin(p));
    Pow256Values();
    forall b | at <= b < at + SLOT ensures r[b] == (Put(2, off) + Put(2, len))[b - at] {
      MovedBytes(p, q, i, off, recs, b);
    }
    FieldIs(r, at, 2, off);
    FieldIs(r, at + 2, 2, len);
  }

  lemma {:induction false} MovedNewBytes(p: Page, q: Page, i: nat, off: nat, recs: seq<seq<byte>>)
    requires HeapOk(p) && i < Count(p) && Packed(p, q, i, off, recs) && !Tombstone(p, i)
    ensures off + SlotLen(p, i) <= PAGE_SIZE
    ensures Moved(p, q, i, off, recs)[off..off + SlotLen(p, i)] == RecordAt(p, i).value
  {
    var r, len := Moved(p, q, i, off, recs), SlotLen(p, i);
    assert SlotOk(p, i, FreeBegin(p));
    MovedBytes(p, q, i, off, recs, 0);
    forall b | off <= b < off + len ensures r[b] == p[SlotOff(p, i) + b - off] {
      MovedBytes(p, q, i, off, recs, b);
    }
    SameSlice(r, off, p, SlotOff(p, i), len);
  }

  /** The record just moved. */
  lemma {:induction false} MovedNew(p: Page, q: Page, i: nat, off: nat, recs: seq<seq<byte>>)
    requires HeapOk(p) && i < Count(p) && Packed(p, q, i, off, recs) && !Tombstone(p, i)
    ensures PackedAt(Moved(p, q, i, off, recs), recs + [RecordAt(p, i).value], |recs|)
  {
    assert (recs + [RecordAt(p, i).value])[..|recs|] == recs;
    MovedNewSlot(p, q, i, off, recs);
    MovedNewBytes(p, q, i, off, recs);
  }

  /** The records packed before. */
  lemma {:induction false} MovedOld(p: Page, q: Page, i: nat, off: nat, recs: seq<seq<byte>>, k: nat)
    requires HeapOk(p) && i < Count(p) && Packed(p, q, i, off, recs) && !Tombstone(p, i) && k < |recs|
    ensures PackedAt(Moved(p, q, i, off, recs), recs, k)
  {
    var r, at := Moved(p, q, i, off, recs), SlotAt(k);
    assert PackedAt(q, recs, k);
    SizePrefix(recs, k);
    forall b | at <= b < at + SLOT ensures r[b] == q[b] {
      MovedBytes(p, q, i, off, recs, b);
    }
    FieldSame(q, at, r, at, 2);
    FieldSame(q, at + 2, r, at + 2, 2);
    var o := HEADER + Size(recs[..k]);
    forall b | o <= b < o + |recs[k]| ensures r[b] == q[b] {
      MovedBytes(p, q, i, off, recs, b);
    }
    SameSlice(r, o, q, o, |recs[k]|);
  }

  lemma {:induction false} MovedUntouched(p: Page, q: Page, i: nat, off: nat, recs: seq<seq<byte>>, j: nat)
    requires HeapOk(p) && i < j < Count(p) && Packed(p, q, i, off, recs) && !Tombstone(p, i)
    ensures Untouched(p, Moved(p, q, i, off, recs), off + SlotLen(p, i), j)
  {
    var r, at := Moved(p, q, i, off, recs), SlotAt(j);
    assert Untouched(p, q, off, j) && SlotOk(p, j, FreeBegin(p));
    forall b | at <= b < at + SLOT ensures r[b] == q[b] {
      MovedBytes(p, q, i, off, recs, b);
    }
    FieldSame(q, at, r, at, 2);
    FieldSame(q, at + 2, r, at + 2, 2);
    if !Tombstone(p, j) {
      LaterRecordStays(p, q, i, off, recs, j);
    }
  }

  lemma {:induction false} LaterRecordStays(p: Page, q: Page, i: nat, off: nat, recs: seq<seq<byte>>, j: nat)
    requires HeapOk(p) && i < j < Count(p) && Packed(p, q, i, off, recs) && !Tombstone(p, i) && !Tombstone(p, j)
    ensures HEADER <= SlotOff(p, j) && SlotOff(p, j) + SlotLen(p, j) <= PAGE_SIZE && off + SlotLen(p, i) <= SlotOff(p, j)
    ensures Moved(p, q, i, off, recs)[SlotOff(p, j)..SlotOff(p, j) + SlotLen(p, j)] == q[SlotOff(p, j)..SlotOff(p, j) + SlotLen(p, j)]
  {
    assert Before(p, i, j) && SlotOk(p, j, FreeBegin(p));
    var r, from, len := Moved(p, q, i, off, recs), SlotOff(p, j), SlotLen(p, j);
    MovedBytes(p, q, i, off, recs, 0);
    forall b | from <= b < from + len ensures r[b] == q[b] {
      MovedBytes(p, q, i, off, recs, b);
    }
    SameSlice(r, from, q, from, len);
  }

  lemma {:induction false} MovedSlots(p: Page, q: Page, i: nat, off: nat, recs: seq<seq<byte>>)
    requires HeapOk(p) && i < Count(p) && Packed(p, q, i, off, recs) && !Tombstone(p, i)
    ensures var r, all := Moved(p, q, i, off, recs), recs + [RecordAt(p, i).value];
            forall k :: 0 <= k < |all| ==> PackedAt(r, all, k)
  {
    MovedNew(p, q, i, off, recs);
    forall k | 0 <= k < |recs| ensures PackedAt(Moved(p, q, i, off, recs), recs + [RecordAt(p, i).value], k) {
      MovedOld(p, q, i, off, recs, k);
      PackedMore(Moved(p, q, i, off, recs), recs, RecordAt(p, i).value, k);
    }
  }

  lemma {:induction false} MovedRest(p: Page, q: Page, i: nat, off: nat, recs: seq<seq<byte>>)
    requires HeapOk(p) && i < Count(p) && Packed(p, q, i, off, recs) && !Tombstone(p, i)
    ensures var r, off' := Moved(p, q, i, off, recs), off + SlotLen(p, i);
            && (forall j :: i + 1 <= j < Count(p) ==> Untouched(p, r, off', j))
            && forall b :: 0 <= b < HEADER ==> r[b] == p[b]
  {
    var r, off' := Moved(p, q, i, off, recs), off + SlotLen(p, i);
    forall j | i + 1 <= j < Count(p) ensures Untouched(p, r, off', j) {
      MovedUntouched(p, q, i, off, recs, j);
    }
    forall b | 0 <= b < HEADER ensures r[b] == p[b] {
      MovedBytes(p, q, i, off, recs, b);
    }
  }

  /** A live record is moved down behind the packed ones. */
  lemma {:induction false} PackedMove(p: Page, q: Page, i: nat, off: nat, recs: seq<seq<byte>>)
    requires HeapOk(p) && i < Count(p) && Packed(p, q, i, off, recs) && !Tombstone(p, i)
    ensures Packed(p, Moved(p, q, i, off, recs), i + 1, off + SlotLen(p, i), recs + [RecordAt(p, i).value])
  {
    assert SlotOk(p, i, FreeBegin(p));
    LiveStep(Records(p), i);
    SizeSnoc(recs, RecordAt(p, i).value);
    MovedBytes(p, q, i, off, recs, 0);
    MovedSlots(p, q, i, off, recs);
    MovedRest(p, q, i, off, recs);
  }

  /** The header of the compacted page. */
  function Closed(q: Page, off: nat, dst: nat, checksum: seq<byte>): Page
    requires SlotAt(dst) >= -SLOT && |checksum| == 4
  {
    var q1 := Overwrite(q, COUNT_AT, Put(2, dst));
    var q2 := Overwrite(q1, BEGIN_AT, Put(2, off));
    var q3 := Overwrite(q2, END_AT, Put(2, PAGE_SIZE - SLOT * dst));
    Overwrite(q3, CHECKSUM_AT, checksum)
  }

  lemma {:induction false} ClosedSlot(p: Page, q: Page, recs: seq<seq<byte>>, checksum: seq<byte>, k: nat)
    requires HeapOk(p) && Packed(p, q, Count(p), HEADER + Size(recs), recs) && k < |recs| && |checksum| == 4
    ensures var r := Closed(q, HEADER + Size(recs), |recs|, checksum); PackedAt(r, recs, k)
  {
    var r, at := Closed(q, HEADER + Size(recs), |recs|, checksum), SlotAt(k);
    assert PackedAt(q, recs, k);
    FieldSame(q, at, r, at, 2);
    FieldSame(q, at + 2, r, at + 2, 2);
    var o := HEADER + Size(recs[..k]);
    SameSlice(r, o, q, o, |recs[k]|);
  }

  function Kept(recs: seq<seq<byte>>): (rs: seq<Option<seq<byte>>>)
    ensures |rs| == |recs|
  {
    seq(|recs|, k requires 0 <= k < |recs| => Some(recs[k]))
  }

  lemma {:induction false} SizeBetween(recs: seq<seq<byte>>, i: nat, j: nat)
    requires i < j <= |recs|
    ensures Size(recs[..i]) + |recs[i]| <= Size(recs[..j])
  {
    SizePrefix(recs[..j], i);
    assert recs[..j][..i] == recs[..i];
  }

  lemma {:induction false} ClosedHeader(q: Page, off: nat, dst: nat, checksum: seq<byte>)
    requires SLOT * dst <= PAGE_SIZE && off <= PAGE_SIZE && |checksum| == 4
    ensures var r := Closed(q, off, dst, checksum);
            && Count(r) == dst && FreeBegin(r) == off && FreeEnd(r) == PAGE_SIZE - SLOT * dst
            && r[TYPE_AT] == q[TYPE_AT] && Field(r, NEXT_AT, 4) == Field(q, NEXT_AT, 4)
  {
    var r := Closed(q, off, dst, checksum);
    Pow256Values();
    FieldIs(r, COUNT_AT, 2, dst);
    FieldIs(r, BEGIN_AT, 2, off);
    FieldIs(r, END_AT, 2, PAGE_SIZE - SLOT * dst);
    FieldSame(q, NEXT_AT, r, NEXT_AT, 4);
  }

  lemma {:induction false} SameHeader(p: Page, q: Page)
    requires forall b :: 0 <= b < HEADER ==> q[b] == p[b]
    ensures q[TYPE_AT] == p[TYPE_AT] && Field(q, NEXT_AT, 4) == Field(p, NEXT_AT, 4)
  {
    FieldSame(p, NEXT_AT, q, NEXT_AT, 4);
  }

  /** A page whose slots hold packed records is a heap page with those records. */
  lemma {:induction false} PackedIsHeap(r: Page, recs: seq<seq<byte>>)
    requires r[TYPE_AT] == TYPE_HEAP && Count(r) == |recs| && FreeBegin(r) == HEADER + Size(recs)
    requires FreeEnd(r) == PAGE_SIZE - SLOT * |recs| && FreeBegin(r) <= FreeEnd(r)
    requires forall k :: 0 <= k < |recs| ==> PackedAt(r, recs, k)
    ensures HeapOk(r) && Records(r) == Kept(recs)
  {
    forall k | 0 <= k < |recs| ensures SlotOk(r, k, FreeBegin(r)) {
      assert PackedAt(r, recs, k);
      SizePrefix(recs, k);
    }
    forall i, j | 0 <= i < j < |recs| ensures Before(r, i, j) {
      assert PackedAt(r, recs, i) && PackedAt(r, recs, j);
      SizeBetween(recs, i, j);
    }
    forall k | 0 <= k < |recs| ensures Records(r)[k] == Kept(recs)[k] {
      assert PackedAt(r, recs, k);
    }
  }

  lemma {:induction false} ClosedIs(p: Page, q: Page, off: nat, recs: seq<seq<byte>>, checksum: seq<byte>)
    requires HeapOk(p) && Packed(p, q, Count(p), off, recs) && |checksum| == 4
    ensures var r := Closed(q, off, |recs|, checksum);
            && HeapOk(r) && Records(r) == Kept(recs)
            && FreeSpace(r) == PAGE_SIZE - HEADER - Size(recs) - SLOT * |recs|
            && Field(r, NEXT_AT, 4) == Field(p, NEXT_AT, 4)
  {
    var r := Closed(q, off, |recs|, checksum);
    ClosedHeader(q, off, |recs|, checksum);
    SameHeader(p, q);
    forall k | 0 <= k < |recs| ensures PackedAt(r, recs, k) {
      ClosedSlot(p, q, recs, checksum, k);
    }
    PackedIsHeap(r, recs);
  }

  /** Move a record and point a slot at it. */
  method Relocate(page: array<byte>, to: nat, from: nat, len: nat, slot: nat)
    requires page.Length == PAGE_SIZE && to + len <= PAGE_SIZE && from + len <= PAGE_SIZE && SlotAt(slot) >= 0
    modifies page
    ensures page[..] == Overwrite(Overwrite(old(page[..]), to, Part(old(page[..]), from, len)), SlotAt(slot), Put(2, to) + Put(2, len))
  {
    MoveTo(page, to, from, len);
    PutAt(page, SlotAt(slot), Put(2, to) + Put(2, len));
  }

  /** Page, end of the packed records, and these records after one turn of the loop of heap_compact. */
  function Turned(p: Page, q: Page, i: nat, off: nat, recs: seq<seq<byte>>): (Page, nat, seq<seq<byte>>)
    requires HeapOk(p) && i < Count(p) && Packed(p, q, i, off, recs)
  {
    if Tombstone(p, i) then (q, off, recs)
    else (Moved(p, q, i, off, recs), off + SlotLen(p, i), recs + [RecordAt(p, i).value])
  }

  lemma {:induction false} PackedTurn(p: Page, q: Page, i: nat, off: nat, recs: seq<seq<byte>>)
    requires HeapOk(p) && i < Count(p) && Packed(p, q, i, off, recs)
    ensures var (q', off', recs') := Turned(p, q, i, off, recs);
            Packed(p, q', i + 1, off', recs') && |recs'| == if Tombstone(p, i) then |recs| else |recs| + 1
  {
    if Tombstone(p, i) {
      PackedSkip(p, q, i, off, recs);
    } else {
      PackedMove(p, q, i, off, recs);
    }
  }

  /** Slot i still says what it said before the compaction. */
  method ReadSlot(page: array<byte>, ghost p: Page, i: nat, ghost off: nat, ghost recs: seq<seq<byte>>) returns (dead: bool, len: nat)
    requires page.Length == PAGE_SIZE && HeapOk(p) && i < Count(p) && Packed(p, page[..], i, off, recs)
    ensures dead == Tombstone(p, i) && len == SlotLen(p, i) && SlotOff(page[..], i) == SlotOff(p, i)
  {
    assert Untouched(p, page[..], off, i);
    var from := GetAt(page, SlotAt(i), 2);
    len := GetAt(page, SlotAt(i) + 2, 2);
    dead := from == 0 && len == 0;
  }

  /** One turn of the loop. */
  method CompactSlot(page: array<byte>, ghost p: Page, i: nat, off: nat, dst: nat, ghost recs: seq<seq<byte>>)
    returns (off': nat, dst': nat)
    requires page.Length == PAGE_SIZE && HeapOk(p) && i < Count(p) && Packed(p, page[..], i, off, recs) && dst == |recs|
    modifies page
    ensures var (q', end, recs') := Turned(p, old(page[..]), i, off, recs);
            page[..] == q' && off' == end && dst' == |recs'|
  {
    ghost var q: Page := page[..];
    var dead, len := ReadSlot(page, p, i, off, recs);
    off', dst' := off, dst;
    if !dead {
      MovedBytes(p, q, i, off, recs, 0);
      var from := GetAt(page, SlotAt(i), 2);
      Relocate(page, off, from, len, dst);
      off', dst' := off + len, dst + 1;
    }
  }

  method Close(page: array<byte>, off: nat, dst: nat, checksum: seq<byte>)
    requires page.Length == PAGE_SIZE && |checksum| == 4 && SLOT * dst <= PAGE_SIZE
    modifies page
    ensures page[..] == Closed(old(page[..]), off, dst, checksum)
  {
    PutAt(page, COUNT_AT, Put(2, dst));
    PutAt(page, BEGIN_AT, Put(2, off));
    PutAt(page, END_AT, Put(2, PAGE_SIZE - SLOT * dst));
    PutAt(page, CHECKSUM_AT, checksum);
  }

  /** Compaction keeps the live records in order, drops the tombstones, and frees all other space. */
  method HeapCompact(page: array<byte>, checksum: seq<byte>)
    requires page.Length == PAGE_SIZE && HeapOk(page[..]) && |checksum| == 4
    modifies page
    ensures HeapOk(page[..]) && Records(page[..]) == Kept(Live(old(Records(page[..]))))
    ensures var recs := Live(old(Records(page[..]))); FreeSpace(page[..]) == PAGE_SIZE - HEADER - Size(recs) - SLOT * |recs|
    ensures Field(page[..], NEXT_AT, 4) == old(Field(page[..], NEXT_AT, 4))
  {
    ghost var p: Page, recs: seq<seq<byte>> := page[..], [];
    PackedStart(p);
    var n := GetAt(page, COUNT_AT, 2);
    var off: nat, dst: nat := HEADER, 0;
    for i := 0 to n
      invariant Packed(p, page[..], i, off, recs) && dst == |recs|
    {
      ghost var q: Page, off0 := page[..], off;
      off, dst := CompactSlot(page, p, i, off, dst, recs);
      PackedTurn(p, q, i, off0, recs);
      recs := Turned(p, q, i, off0, recs).2;
    }
    assert Records(p)[..n] == Records(p);
    ClosedIs(p, page[..], off, recs, checksum);
    Close(page, off, dst, checksum);
  }
}
