/** The bytes of B+ tree pages (src/storage/btree.cpp, src/storage/page.cpp): the in-place operations insert into,
    or slice, the entries, separators and children the bytes stand for. */
module BTreePage {
  import opened Bytes
  import opened Disk
  import opened KeyOrder
  import opened TreeModel
  import opened PageBytes

  const SLOT := 4
  const CELL := 15
  const CHILD := 4
  const TYPE_LEAF: byte := 3
  const TYPE_INNER: byte := 4
  const MAGIC_LEAF := 0x464C5442

  /** A cell: key 8 bytes, NULL flag 1, heap page 4, slot 2. */
  function Cell(e: Entry): (s: seq<byte>)
    ensures |s| == CELL
  {
    Put(8, e.key.val) + [if e.key.isNull then 1 else 0] + Put(4, e.page) + Put(2, e.slot)
  }

  function ReadCell(s: seq<byte>): Entry
    requires |s| == CELL
  {
    Pow256Values();
    Entry(IndexKey(Get(s[..8]), s[8] != 0), Get(s[9..13]), Get(s[13..]))
  }

  lemma {:induction false} CellRead(e: Entry)
    ensures ReadCell(Cell(e)) == e
  {
    Pow256Values();
    GetPut(8, e.key.val);
    GetPut(4, e.page);
    GetPut(2, e.slot);
    var s := Cell(e);
    assert s[..8] == Put(8, e.key.val) && s[9..13] == Put(4, e.page) && s[13..] == Put(2, e.slot);
  }

  function SlotOff(p: Page, i: nat): nat
    requires HEADER + SLOT * i + SLOT <= PAGE_SIZE
  {
    Field(p, HEADER + SLOT * i, 2)
  }

  function SlotLen(p: Page, i: nat): nat
    requires HEADER + SLOT * i + SLOT <= PAGE_SIZE
  {
    Field(p, HEADER + SLOT * i + 2, 2)
  }

  predicate SlotOk(p: Page, i: nat)
    requires HEADER + SLOT * i + SLOT <= PAGE_SIZE
  {
    FreeEnd(p) <= SlotOff(p, i) <= PAGE_SIZE - CELL && SlotLen(p, i) == CELL
  }

  /** A leaf page: slots end at free_begin, cells start at free_end, and the two areas do not meet. */
  predicate LeafOk(p: Page) {
    && Count(p) <= CAPACITY && p[TYPE_AT] == TYPE_LEAF
    && FreeBegin(p) == HEADER + SLOT * Count(p) && FreeEnd(p) == PAGE_SIZE - CELL * Count(p)
    && forall i :: 0 <= i < Count(p) ==> SlotOk(p, i)
  }

  function LeafEntry(p: Page, i: nat): Entry
    requires LeafOk(p) && i < Count(p)
  {
    assert SlotOk(p, i);
    ReadCell(p[SlotOff(p, i)..SlotOff(p, i) + CELL])
  }

  function LeafEntries(p: Page): (es: seq<Entry>)
    requires LeafOk(p)
    ensures |es| == Count(p)
  {
    seq(Count(p), i requires 0 <= i < Count(p) => LeafEntry(p, i))
  }

  function SepAt(p: Page, i: nat): Entry
    requires HEADER + CELL * i + CELL <= PAGE_SIZE
  {
    ReadCell(p[HEADER + CELL * i..HEADER + CELL * i + CELL])
  }

  function ChildAt(p: Page, j: nat): u32
    requires CHILD * (j + 1) <= PAGE_SIZE
  {
    Pow256Values();
    Field(p, PAGE_SIZE - CHILD * (j + 1), 4)
  }

  /** An inner page: separators end at free_begin, children start at free_end. */
  predicate NodeOk(p: Page) {
    && Count(p) <= CAPACITY && p[TYPE_AT] == TYPE_INNER
    && FreeBegin(p) == HEADER + CELL * Count(p) && FreeEnd(p) == PAGE_SIZE - CHILD * (Count(p) + 1)
  }

  function Seps(p: Page): (es: seq<Entry>)
    requires Count(p) <= CAPACITY
    ensures |es| == Count(p)
  {
    seq(Count(p), i requires 0 <= i < Count(p) => SepAt(p, i))
  }

  function Children(p: Page): (cs: seq<u32>)
    requires Count(p) <= CAPACITY
    ensures |cs| == Count(p) + 1
  {
    seq(Count(p) + 1, j requires 0 <= j <= Count(p) => ChildAt(p, j))
  }

  function NextOf(p: Page): u32 {
    Pow256Values();
    Field(p, NEXT_AT, 4)
  }

  /** The node a page stands for. */
  function NodeOf(p: Page): Node
    requires LeafOk(p) || NodeOk(p)
  {
    if p[TYPE_AT] == TYPE_LEAF then Leaf(LeafEntries(p), NextOf(p)) else Inner(Seps(p), Children(p))
  }

  /** The free space the insertion tests look at depends only on the number of entries. */
  lemma {:induction false} FreeSpaceOfNode(p: Page)
    requires LeafOk(p) || NodeOk(p)
    ensures LeafOk(p) ==> FreeSpace(p) == PAGE_SIZE - HEADER - |LeafEntries(p)| * (SLOT + CELL)
    ensures NodeOk(p) ==> FreeSpace(p) == PAGE_SIZE - HEADER - |Seps(p)| * CELL - |Children(p)| * CHILD
  {
  }

  // ---- leaf_insert_at ----

  /** leaf_insert_at first moves the slots from pos on up, then lowers free_end and writes the cell there. */
  function LeafStored(p: Page, pos: nat, e: Entry): Page
    requires LeafOk(p) && pos <= Count(p) < CAPACITY
  {
    var n, fe := Count(p), FreeEnd(p) - CELL;
    var p1 := Overwrite(p, HEADER + SLOT * (pos + 1), Part(p, HEADER + SLOT * pos, SLOT * (n - pos)));
    Overwrite(Overwrite(p1, END_AT, Put(2, fe)), fe, Cell(e))
  }

  /** Then it writes the new slot, free_begin and slot_count. */
  function LeafInserted(p: Page, pos: nat, e: Entry): Page
    requires LeafOk(p) && pos <= Count(p) < CAPACITY
  {
    var p4 := Overwrite(LeafStored(p, pos, e), HEADER + SLOT * pos, Put(2, FreeEnd(p) - CELL) + Put(2, CELL));
    Overwrite(Overwrite(p4, BEGIN_AT, Put(2, FreeBegin(p) + SLOT)), COUNT_AT, Put(2, Count(p) + 1))
  }

  lemma {:induction false} LeafStoredBytes(p: Page, pos: nat, e: Entry, k: nat)
    requires LeafOk(p) && pos <= Count(p) < CAPACITY && k < PAGE_SIZE
    ensures var q, n, fe, at := LeafStored(p, pos, e), Count(p), FreeEnd(p) - CELL, HEADER + SLOT * pos;
            q[k] == if END_AT <= k < END_AT + 2 then Put(2, fe)[k - END_AT]
                    else if at + SLOT <= k < HEADER + SLOT * (n + 1) then p[k - SLOT]
                    else if fe <= k < fe + CELL then Cell(e)[k - fe]
                    else p[k]
  {
  }

  /** Every byte of the page afterwards. */
  lemma {:induction false} LeafInsertedBytes(p: Page, pos: nat, e: Entry, k: nat)
    requires LeafOk(p) && pos <= Count(p) < CAPACITY && k < PAGE_SIZE
    ensures var q, n, fe, at := LeafInserted(p, pos, e), Count(p), FreeEnd(p) - CELL, HEADER + SLOT * pos;
            q[k] == if COUNT_AT <= k < BEGIN_AT then Put(2, n + 1)[k - COUNT_AT]
                    else if BEGIN_AT <= k < END_AT then Put(2, FreeBegin(p) + SLOT)[k - BEGIN_AT]
                    else if END_AT <= k < END_AT + 2 then Put(2, fe)[k - END_AT]
                    else if at <= k < at + SLOT then (Put(2, fe) + Put(2, CELL))[k - at]
                    else if at + SLOT <= k < HEADER + SLOT * (n + 1) then p[k - SLOT]
                    else if fe <= k < fe + CELL then Cell(e)[k - fe]
                    else p[k]
  {
    LeafStoredBytes(p, pos, e, k);
  }

  lemma {:induction false} LeafInsertedHeader(p: Page, pos: nat, e: Entry)
    requires LeafOk(p) && pos <= Count(p) < CAPACITY
    ensures var q := LeafInserted(p, pos, e);
            && Count(q) == Count(p) + 1 && FreeBegin(q) == FreeBegin(p) + SLOT && FreeEnd(q) == FreeEnd(p) - CELL
            && q[..COUNT_AT] == p[..COUNT_AT] && q[TYPE_AT] == p[TYPE_AT]
            && Field(q, NEXT_AT, 4) == Field(p, NEXT_AT, 4)
  {
    var q := LeafInserted(p, pos, e);
    Pow256Values();
    forall k | 0 <= k < HEADER
      ensures q[k] == if COUNT_AT <= k < BEGIN_AT then Put(2, Count(p) + 1)[k - COUNT_AT]
                      else if BEGIN_AT <= k < END_AT then Put(2, FreeBegin(p) + SLOT)[k - BEGIN_AT]
                      else if END_AT <= k < END_AT + 2 then Put(2, FreeEnd(p) - CELL)[k - END_AT] else p[k]
    {
      LeafInsertedBytes(p, pos, e, k);
    }
    FieldIs(q, COUNT_AT, 2, Count(p) + 1);
    FieldIs(q, BEGIN_AT, 2, FreeBegin(p) + SLOT);
    FieldIs(q, END_AT, 2, FreeEnd(p) - CELL);
    FieldSame(p, NEXT_AT, q, NEXT_AT, 4);
  }

  /** The slot at pos points at the new cell. */
  lemma {:induction false} LeafInsertedNewSlot(p: Page, pos: nat, e: Entry)
    requires LeafOk(p) && pos <= Count(p) < CAPACITY
    ensures SlotOff(LeafInserted(p, pos, e), pos) == FreeEnd(p) - CELL && SlotLen(LeafInserted(p, pos, e), pos) == CELL
  {
    var q, at := LeafInserted(p, pos, e), HEADER + SLOT * pos;
    Pow256Values();
    forall k | at <= k < at + SLOT ensures q[k] == (Put(2, FreeEnd(p) - CELL) + Put(2, CELL))[k - at] {
      LeafInsertedBytes(p, pos, e, k);
    }
    FieldIs(q, at, 2, FreeEnd(p) - CELL);
    FieldIs(q, at + 2, 2, CELL);
  }

  /** Slots before pos stay, those from pos on move up one. */
  lemma {:induction false} LeafInsertedOldSlot(p: Page, pos: nat, e: Entry, i: nat)
    requires LeafOk(p) && pos <= Count(p) < CAPACITY && i < Count(p)
    ensures var q, j := LeafInserted(p, pos, e), if i < pos then i else i + 1;
            SlotOff(q, j) == SlotOff(p, i) && SlotLen(q, j) == SlotLen(p, i)
  {
    var q, at, to := LeafInserted(p, pos, e), HEADER + SLOT * i, HEADER + SLOT * (if i < pos then i else i + 1);
    forall k | to <= k < to + SLOT ensures q[k] == p[k - to + at] {
      LeafInsertedBytes(p, pos, e, k);
    }
    FieldSame(p, at, q, to, 2);
    FieldSame(p, at + 2, q, to + 2, 2);
  }

  lemma {:induction false} LeafInsertedSlot(p: Page, pos: nat, e: Entry, i: nat)
    requires LeafOk(p) && pos <= Count(p) < CAPACITY && i <= Count(p)
    ensures var q, j := LeafInserted(p, pos, e), if i < pos || i == 0 then i else i - 1;
            && SlotOff(q, i) == (if i == pos then FreeEnd(p) - CELL else SlotOff(p, j))
            && SlotLen(q, i) == (if i == pos then CELL else SlotLen(p, j))
  {
    if i == pos {
      LeafInsertedNewSlot(p, pos, e);
    } else {
      LeafInsertedOldSlot(p, pos, e, if i < pos then i else i - 1);
    }
  }

  /** Old cells stay as they are, the new one is read back. */
  lemma {:induction false} LeafInsertedCell(p: Page, pos: nat, e: Entry, off: nat)
    requires LeafOk(p) && pos <= Count(p) < CAPACITY
    requires FreeEnd(p) <= off <= PAGE_SIZE - CELL || off == FreeEnd(p) - CELL
    ensures ReadCell(LeafInserted(p, pos, e)[off..off + CELL]) ==
            if off == FreeEnd(p) - CELL then e else ReadCell(p[off..off + CELL])
  {
    var q := LeafInserted(p, pos, e);
    forall k | off <= k < off + CELL ensures q[k] == if off == FreeEnd(p) - CELL then Cell(e)[k - off] else p[k] {
      LeafInsertedBytes(p, pos, e, k);
    }
    if off == FreeEnd(p) - CELL {
      SliceIs(q, off, Cell(e));
      CellRead(e);
    } else {
      SameSlice(q, off, p, off, CELL);
    }
  }

  lemma {:induction false} LeafInsertedOk(p: Page, pos: nat, e: Entry)
    requires LeafOk(p) && pos <= Count(p) < CAPACITY
    ensures LeafOk(LeafInserted(p, pos, e))
  {
    var q, n := LeafInserted(p, pos, e), Count(p);
    LeafInsertedHeader(p, pos, e);
    forall i | 0 <= i <= n ensures SlotOk(q, i) {
      LeafInsertedSlot(p, pos, e, i);
      assert i < pos ==> SlotOk(p, i);
      assert i > pos ==> SlotOk(p, i - 1);
    }
  }

  lemma {:induction false} EntryIs(p: Page, i: nat, off: nat)
    requires LeafOk(p) && i < Count(p) && SlotOff(p, i) == off
    ensures off + CELL <= PAGE_SIZE && LeafEntry(p, i) == ReadCell(p[off..off + CELL])
  {
    assert SlotOk(p, i);
  }

  lemma {:induction false} LeafInsertedNewEntry(p: Page, pos: nat, e: Entry)
    requires LeafOk(p) && pos <= Count(p) < CAPACITY && LeafOk(LeafInserted(p, pos, e)) && pos < Count(LeafInserted(p, pos, e))
    ensures LeafEntry(LeafInserted(p, pos, e), pos) == e
  {
    LeafInsertedNewSlot(p, pos, e);
    LeafInsertedCell(p, pos, e, FreeEnd(p) - CELL);
    EntryIs(LeafInserted(p, pos, e), pos, FreeEnd(p) - CELL);
  }

  lemma {:induction false} LeafInsertedOldEntry(p: Page, pos: nat, e: Entry, i: nat)
    requires LeafOk(p) && pos <= Count(p) < CAPACITY && i < Count(p)
    requires LeafOk(LeafInserted(p, pos, e)) && Count(LeafInserted(p, pos, e)) == Count(p) + 1
    ensures LeafEntry(LeafInserted(p, pos, e), if i < pos then i else i + 1) == LeafEntry(p, i)
  {
    var off, j := SlotOff(p, i), if i < pos then i else i + 1;
    assert SlotOk(p, i);
    LeafInsertedOldSlot(p, pos, e, i);
    LeafInsertedCell(p, pos, e, off);
    EntryIs(p, i, off);
    EntryIs(LeafInserted(p, pos, e), j, off);
  }

  lemma {:induction false} LeafInsertedEntry(p: Page, pos: nat, e: Entry, i: nat)
    requires LeafOk(p) && pos <= Count(p) < CAPACITY && i <= Count(p) && LeafOk(LeafInserted(p, pos, e))
    requires Count(LeafInserted(p, pos, e)) == Count(p) + 1
    ensures LeafEntry(LeafInserted(p, pos, e), i) ==
            if i < pos then LeafEntry(p, i) else if i == pos then e else LeafEntry(p, i - 1)
  {
    if i == pos {
      LeafInsertedNewEntry(p, pos, e);
    } else {
      LeafInsertedOldEntry(p, pos, e, if i < pos then i else i - 1);
    }
  }

  /** leaf_insert_at inserts into the entries. */
  lemma {:induction false} LeafInsertedIs(p: Page, pos: nat, e: Entry)
    requires LeafOk(p) && pos <= Count(p) < CAPACITY
    ensures var q := LeafInserted(p, pos, e);
            && LeafOk(q) && LeafEntries(q) == Replaced(LeafEntries(p), pos, [e], pos)
            && Field(q, NEXT_AT, 4) == Field(p, NEXT_AT, 4)
  {
    var q, n := LeafInserted(p, pos, e), Count(p);
    LeafInsertedHeader(p, pos, e);
    LeafInsertedOk(p, pos, e);
    var before, after := LeafEntries(p), LeafEntries(q);
    ReplacedAt(before, pos, [e], pos);
    forall i | 0 <= i <= n ensures after[i] == Replaced(before, pos, [e], pos)[i] {
      LeafInsertedEntry(p, pos, e, i);
    }
  }

  method LeafStore(page: array<byte>, pos: nat, e: Entry)
    requires page.Length == PAGE_SIZE && LeafOk(page[..]) && pos <= Count(page[..]) < CAPACITY
    modifies page
    ensures page[..] == LeafStored(old(page[..]), pos, e)
  {
    var n, fe := GetAt(page, COUNT_AT, 2), GetAt(page, END_AT, 2) - CELL;
    MoveTo(page, HEADER + SLOT * (pos + 1), HEADER + SLOT * pos, SLOT * (n - pos));
    PutAt(page, END_AT, Put(2, fe));
    PutAt(page, fe, Cell(e));
  }

  method LeafInsertAt(page: array<byte>, pos: nat, e: Entry)
    requires page.Length == PAGE_SIZE && LeafOk(page[..]) && pos <= Count(page[..])
    requires SLOT + CELL <= FreeSpace(page[..])
    modifies page
    ensures LeafOk(page[..]) && LeafEntries(page[..]) == Replaced(old(LeafEntries(page[..])), pos, [e], pos)
    ensures Field(page[..], NEXT_AT, 4) == old(Field(page[..], NEXT_AT, 4))
  {
    ghost var p0: Page := page[..];
    FreeSpaceOfNode(p0);
    LeafInsertedIs(p0, pos, e);
    var n, begin, fe := GetAt(page, COUNT_AT, 2), GetAt(page, BEGIN_AT, 2), GetAt(page, END_AT, 2) - CELL;
    LeafStore(page, pos, e);
    PutAt(page, HEADER + SLOT * pos, Put(2, fe) + Put(2, CELL));
    PutAt(page, BEGIN_AT, Put(2, begin + SLOT));
    PutAt(page, COUNT_AT, Put(2, n + 1));
    assert page[..] == LeafInserted(p0, pos, e);
  }

  // ---- leaf_build ----

  /** Rebuild a leaf from a slice of the entries. */
  method LeafBuild(page: array<byte>, entries: seq<Entry>, lo: nat, hi: nat, checksum: seq<byte>)
    requires page.Length == PAGE_SIZE && |checksum| == 4 && lo <= hi <= |entries| && hi - lo <= CAPACITY
    modifies page
    ensures LeafOk(page[..]) && LeafEntries(page[..]) == entries[lo..hi] && Field(page[..], NEXT_AT, 4) == 0
  {
    InitPage(page, MAGIC_LEAF, TYPE_LEAF, checksum);
    BlankIs(MAGIC_LEAF, TYPE_LEAF, checksum);
    for i := lo to hi
      invariant LeafOk(page[..]) && LeafEntries(page[..]) == entries[lo..i] && Field(page[..], NEXT_AT, 4) == 0
    {
      FreeSpaceOfNode(page[..]);
      AppendSlice(entries, lo, i);
      LeafInsertAt(page, i - lo, entries[i]);
    }
  }

  lemma {:induction false} AppendSlice<T>(s: seq<T>, lo: nat, i: nat)
    requires lo <= i < |s|
    ensures Replaced(s[lo..i], i - lo, [s[i]], i - lo) == s[lo..i + 1]
  {
  }

  // ---- node_insert_at ----

  /** node_insert_at first moves the separators from i on and the children from i + 1 on one place outwards. */
  function NodeShifted(p: Page, i: nat): Page
    requires NodeOk(p) && i <= Count(p) < CAPACITY
  {
    Shifted(p, Count(p), i)
  }

  function Shifted(p: Page, n: nat, i: nat): Page
    requires i <= n < CAPACITY
  {
    var p1 := Overwrite(p, HEADER + CELL * (i + 1), Part(p, HEADER + CELL * i, CELL * (n - i)));
    Overwrite(p1, PAGE_SIZE - CHILD * (n + 2), Part(p1, PAGE_SIZE - CHILD * (n + 1), CHILD * (n - i)))
  }

  /** Then it stores the new separator and child and the header fields. */
  function NodeInserted(p: Page, i: nat, sep: Entry, right: u32): Page
    requires NodeOk(p) && i <= Count(p) < CAPACITY
  {
    var p3 := Overwrite(NodeShifted(p, i), HEADER + CELL * i, Cell(sep));
    var p4 := Overwrite(p3, PAGE_SIZE - CHILD * (i + 2), Put(4, right));
    var p5 := Overwrite(p4, BEGIN_AT, Put(2, FreeBegin(p) + CELL));
    var p6 := Overwrite(p5, END_AT, Put(2, FreeEnd(p) - CHILD));
    Overwrite(p6, COUNT_AT, Put(2, Count(p) + 1))
  }

  lemma {:induction false} NodeShiftedSeps(p: Page, i: nat, k: nat)
    requires NodeOk(p) && i <= Count(p) < CAPACITY && HEADER <= k < HEADER + CELL * (Count(p) + 1)
    ensures NodeShifted(p, i)[k] == if k < HEADER + CELL * (i + 1) then p[k] else p[k - CELL]
  {
  }

  lemma {:induction false} NodeShiftedChildren(p: Page, i: nat, k: nat)
    requires NodeOk(p) && i <= Count(p) < CAPACITY && PAGE_SIZE - CHILD * (Count(p) + 2) <= k < PAGE_SIZE
    ensures NodeShifted(p, i)[k] == if k < PAGE_SIZE - CHILD * (i + 2) then p[k + CHILD] else p[k]
  {
    var n := Count(p);
    var p1 := Overwrite(p, HEADER + CELL * (i + 1), Part(p, HEADER + CELL * i, CELL * (n - i)));
    if k < PAGE_SIZE - CHILD * (i + 2) {
      assert p1[k + CHILD] == p[k + CHILD];
    } else {
      assert p1[k] == p[k];
    }
  }

  lemma {:induction false} NodeInsertedSepBytes(p: Page, i: nat, sep: Entry, right: u32, k: nat)
    requires NodeOk(p) && i <= Count(p) < CAPACITY && HEADER <= k < HEADER + CELL * (Count(p) + 1)
    ensures var q, at := NodeInserted(p, i, sep, right), HEADER + CELL * i;
            q[k] == if k < at then p[k] else if k < at + CELL then Cell(sep)[k - at] else p[k - CELL]
  {
    NodeShiftedSeps(p, i, k);
  }

  lemma {:induction false} NodeInsertedChildBytes(p: Page, i: nat, sep: Entry, right: u32, k: nat)
    requires NodeOk(p) && i <= Count(p) < CAPACITY && PAGE_SIZE - CHILD * (Count(p) + 2) <= k < PAGE_SIZE
    ensures var q, at := NodeInserted(p, i, sep, right), PAGE_SIZE - CHILD * (i + 2);
            q[k] == if k < at then p[k + CHILD] else if k < at + CHILD then Put(4, right)[k - at] else p[k]
  {
    NodeShiftedChildren(p, i, k);
  }

  lemma {:induction false} NodeInsertedHeader(p: Page, i: nat, sep: Entry, right: u32)
    requires NodeOk(p) && i <= Count(p) < CAPACITY
    ensures var q := NodeInserted(p, i, sep, right);
            NodeOk(q) && Count(q) == Count(p) + 1
  {
    var q := NodeInserted(p, i, sep, right);
    Pow256Values();
    FieldIs(q, COUNT_AT, 2, Count(p) + 1);
    FieldIs(q, BEGIN_AT, 2, FreeBegin(p) + CELL);
    FieldIs(q, END_AT, 2, FreeEnd(p) - CHILD);
  }

  lemma {:induction false} NodeInsertedSep(p: Page, i: nat, sep: Entry, right: u32, j: nat)
    requires NodeOk(p) && i <= Count(p) < CAPACITY && j <= Count(p)
    ensures SepAt(NodeInserted(p, i, sep, right), j) ==
            if j < i then SepAt(p, j) else if j == i then sep else SepAt(p, j - 1)
  {
    var q, at := NodeInserted(p, i, sep, right), HEADER + CELL * j;
    if j == i {
      NodeInsertedNewSep(p, i, sep, right);
    } else {
      forall k | at <= k < at + CELL ensures q[k] == if j < i then p[k] else p[k - CELL] {
        NodeInsertedSepBytes(p, i, sep, right, k);
      }
      SameSlice(q, at, p, if j < i then at else at - CELL, CELL);
    }
  }

  lemma {:induction false} NodeInsertedNewSep(p: Page, i: nat, sep: Entry, right: u32)
    requires NodeOk(p) && i <= Count(p) < CAPACITY
    ensures SepAt(NodeInserted(p, i, sep, right), i) == sep
  {
    var q, at := NodeInserted(p, i, sep, right), HEADER + CELL * i;
    forall k | at <= k < at + CELL ensures q[k] == Cell(sep)[k - at] {
      NodeInsertedSepBytes(p, i, sep, right, k);
    }
    SliceIs(q, at, Cell(sep));
    CellRead(sep);
  }

  lemma {:induction false} NodeInsertedChild(p: Page, i: nat, sep: Entry, right: u32, j: nat)
    requires NodeOk(p) && i <= Count(p) < CAPACITY && j <= Count(p) + 1
    ensures ChildAt(NodeInserted(p, i, sep, right), j) ==
            if j <= i then ChildAt(p, j) else if j == i + 1 then right else ChildAt(p, j - 1)
  {
    var q, at := NodeInserted(p, i, sep, right), PAGE_SIZE - CHILD * (j + 1);
    forall k | at <= k < at + CHILD
      ensures q[k] == if j <= i then p[k] else if j == i + 1 then Put(4, right)[k - at] else p[k + CHILD]
    {
      NodeInsertedChildBytes(p, i, sep, right, k);
    }
    Pow256Values();
    if j == i + 1 {
      FieldIs(q, at, CHILD, right);
    } else {
      FieldSame(p, if j <= i then at else at + CHILD, q, at, CHILD);
    }
  }

  lemma {:induction false} NodeInsertedSeps(p: Page, i: nat, sep: Entry, right: u32)
    requires NodeOk(p) && i <= Count(p) < CAPACITY
    requires NodeOk(NodeInserted(p, i, sep, right)) && Count(NodeInserted(p, i, sep, right)) == Count(p) + 1
    ensures Seps(NodeInserted(p, i, sep, right)) == Replaced(Seps(p), i, [sep], i)
  {
    var after := Seps(NodeInserted(p, i, sep, right));
    ReplacedAt(Seps(p), i, [sep], i);
    forall j | 0 <= j <= Count(p) ensures after[j] == Replaced(Seps(p), i, [sep], i)[j] {
      NodeInsertedSep(p, i, sep, right, j);
    }
  }

  /** node_insert_at inserts a separator at i and a child at i + 1. */
  lemma {:induction false} NodeInsertedIs(p: Page, i: nat, sep: Entry, right: u32)
    requires NodeOk(p) && i <= Count(p) < CAPACITY
    ensures var q := NodeInserted(p, i, sep, right);
            && NodeOk(q) && Seps(q) == Replaced(Seps(p), i, [sep], i)
            && Children(q) == Replaced(Children(p), i + 1, [right], i + 1)
  {
    NodeInsertedHeader(p, i, sep, right);
    NodeInsertedSeps(p, i, sep, right);
    var after := Children(NodeInserted(p, i, sep, right));
    ReplacedAt(Children(p), i + 1, [right], i + 1);
    forall j | 0 <= j <= Count(p) + 1 ensures after[j] == Replaced(Children(p), i + 1, [right], i + 1)[j] {
      NodeInsertedChild(p, i, sep, right, j);
    }
  }

  method NodeShift(page: array<byte>, i: nat)
    requires page.Length == PAGE_SIZE && NodeOk(page[..]) && i <= Count(page[..]) < CAPACITY
    modifies page
    ensures page[..] == NodeShifted(old(page[..]), i)
  {
    var n := GetAt(page, COUNT_AT, 2);
    ShiftBoth(page, n, i);
  }

  method ShiftBoth(page: array<byte>, n: nat, i: nat)
    requires page.Length == PAGE_SIZE && i <= n < CAPACITY
    modifies page
    ensures page[..] == Shifted(old(page[..]), n, i)
  {
    MoveTo(page, HEADER + CELL * (i + 1), HEADER + CELL * i, CELL * (n - i));
    MoveTo(page, PAGE_SIZE - CHILD * (n + 2), PAGE_SIZE - CHILD * (n + 1), CHILD * (n - i));
  }

  /** The stores after the shift. */
  method NodeStore(page: array<byte>, ghost p: Page, i: nat, sep: Entry, right: u32, n: nat, begin: nat, end: nat)
    requires page.Length == PAGE_SIZE && NodeOk(p) && i <= Count(p) < CAPACITY && page[..] == NodeShifted(p, i)
    requires n == Count(p) && begin == FreeBegin(p) && end == FreeEnd(p)
    modifies page
    ensures page[..] == NodeInserted(p, i, sep, right)
  {
    PutAt(page, HEADER + CELL * i, Cell(sep));
    ghost var p3: Page := page[..];
    PutAt(page, PAGE_SIZE - CHILD * (i + 2), Put(4, right));
    ghost var p4: Page := page[..];
    PutAt(page, BEGIN_AT, Put(2, begin + CELL));
    ghost var p5: Page := page[..];
    PutAt(page, END_AT, Put(2, end - CHILD));
    ghost var p6: Page := page[..];
    PutAt(page, COUNT_AT, Put(2, n + 1));
    assert p3 == Overwrite(NodeShifted(p, i), HEADER + CELL * i, Cell(sep));
    assert p4 == Overwrite(p3, PAGE_SIZE - CHILD * (i + 2), Put(4, right));
    assert p6 == Overwrite(p5, END_AT, Put(2, end - CHILD));
  }

  method NodeInsertAt(page: array<byte>, i: nat, sep: Entry, right: u32)
    requires page.Length == PAGE_SIZE && NodeOk(page[..]) && i <= Count(page[..])
    requires CELL + CHILD <= FreeSpace(page[..])
    modifies page
    ensures NodeOk(page[..]) && Seps(page[..]) == Replaced(old(Seps(page[..])), i, [sep], i)
    ensures Children(page[..]) == Replaced(old(Children(page[..])), i + 1, [right], i + 1)
  {
    ghost var p: Page := page[..];
    NodeInsertedIs(p, i, sep, right);
    var n, begin, end := GetAt(page, COUNT_AT, 2), GetAt(page, BEGIN_AT, 2), GetAt(page, END_AT, 2);
    NodeShift(page, i);
    NodeStore(page, p, i, sep, right, n, begin, end);
  }

  // ---- node_build ----

  /** Separators and children already in place, before the header says how many there are. */
  predicate Laid(p: Page, seps: seq<Entry>, kids: seq<u32>)
    requires |seps| <= CAPACITY && |kids| <= CAPACITY + 1
  {
    && (forall j :: 0 <= j < |seps| ==> SepAt(p, j) == seps[j])
    && (forall j :: 0 <= j < |kids| ==> ChildAt(p, j) == kids[j])
  }

  lemma {:induction false} LaidSep(p: Page, q: Page, seps: seq<Entry>, kids: seq<u32>, sep: Entry)
    requires |seps| < CAPACITY && |kids| <= CAPACITY + 1 && Laid(p, seps, kids)
    requires q == Overwrite(p, HEADER + CELL * |seps|, Cell(sep))
    ensures Laid(q, seps + [sep], kids) && q[TYPE_AT] == p[TYPE_AT]
  {
    var at := HEADER + CELL * |seps|;
    forall j | 0 <= j <= |seps| ensures SepAt(q, j) == (seps + [sep])[j] {
      if j < |seps| {
        FieldKept(p, at, Cell(sep), HEADER + CELL * j, CELL);
        assert SepAt(p, j) == seps[j];
      } else {
        assert q[at..at + CELL] == Cell(sep);
        CellRead(sep);
      }
    }
    forall j | 0 <= j < |kids| ensures ChildAt(q, j) == kids[j] {
      FieldKept(p, at, Cell(sep), PAGE_SIZE - CHILD * (j + 1), CHILD);
      assert ChildAt(p, j) == kids[j];
    }
  }

  lemma {:induction false} LaidChild(p: Page, q: Page, seps: seq<Entry>, kids: seq<u32>, kid: u32)
    requires |seps| <= CAPACITY && |kids| <= CAPACITY && Laid(p, seps, kids)
    requires q == Overwrite(p, PAGE_SIZE - CHILD * (|kids| + 1), Put(4, kid))
    ensures Laid(q, seps, kids + [kid]) && q[TYPE_AT] == p[TYPE_AT]
  {
    forall j | 0 <= j < |seps| ensures SepAt(q, j) == seps[j] {
      LaidSepKept(p, q, seps, kids, kid, j);
    }
    forall j | 0 <= j <= |kids| ensures ChildAt(q, j) == (kids + [kid])[j] {
      LaidKid(p, q, seps, kids, kid, j);
    }
  }

  lemma {:induction false} LaidSepKept(p: Page, q: Page, seps: seq<Entry>, kids: seq<u32>, kid: u32, j: nat)
    requires |seps| <= CAPACITY && |kids| <= CAPACITY && Laid(p, seps, kids) && j < |seps|
    requires q == Overwrite(p, PAGE_SIZE - CHILD * (|kids| + 1), Put(4, kid))
    ensures SepAt(q, j) == seps[j]
  {
    FieldKept(p, PAGE_SIZE - CHILD * (|kids| + 1), Put(4, kid), HEADER + CELL * j, CELL);
    assert SepAt(p, j) == seps[j];
  }

  lemma {:induction false} LaidKid(p: Page, q: Page, seps: seq<Entry>, kids: seq<u32>, kid: u32, j: nat)
    requires |seps| <= CAPACITY && |kids| <= CAPACITY && Laid(p, seps, kids) && j <= |kids|
    requires q == Overwrite(p, PAGE_SIZE - CHILD * (|kids| + 1), Put(4, kid))
    ensures ChildAt(q, j) == (kids + [kid])[j]
  {
    var at := PAGE_SIZE - CHILD * (|kids| + 1);
    Pow256Values();
    if j < |kids| {
      FieldKept(p, at, Put(4, kid), PAGE_SIZE - CHILD * (j + 1), CHILD);
      assert ChildAt(p, j) == kids[j];
    } else {
      FieldWritten(p, at, CHILD, kid);
    }
  }

  lemma {:induction false} LaidHeader(p: Page, q: Page, seps: seq<Entry>, kids: seq<u32>)
    requires |seps| <= CAPACITY && |kids| == |seps| + 1 && Laid(p, seps, kids) && p[TYPE_AT] == TYPE_INNER
    requires var b := Overwrite(p, BEGIN_AT, Put(2, HEADER + CELL * |seps|));
             var c := Overwrite(b, END_AT, Put(2, PAGE_SIZE - CHILD * (|seps| + 1)));
             q == Overwrite(c, COUNT_AT, Put(2, |seps|))
    ensures NodeOk(q) && Seps(q) == seps && Children(q) == kids
  {
    Pow256Values();
    FieldIs(q, COUNT_AT, 2, |seps|);
    FieldIs(q, BEGIN_AT, 2, HEADER + CELL * |seps|);
    FieldIs(q, END_AT, 2, PAGE_SIZE - CHILD * (|seps| + 1));
    forall j | 0 <= j < |seps| ensures SepAt(q, j) == seps[j] {
      SameSlice(q, HEADER + CELL * j, p, HEADER + CELL * j, CELL);
      assert SepAt(p, j) == seps[j];
    }
    forall j | 0 <= j < |kids| ensures ChildAt(q, j) == kids[j] {
      FieldSame(p, PAGE_SIZE - CHILD * (j + 1), q, PAGE_SIZE - CHILD * (j + 1), CHILD);
      assert ChildAt(p, j) == kids[j];
    }
  }

  lemma {:induction false} SliceSnoc<T>(s: seq<T>, lo: nat, i: nat)
    requires lo <= i < |s|
    ensures s[lo..i + 1] == s[lo..i] + [s[i]]
  {
  }

  /** free_begin, free_end and slot_count of a page whose separators and children are in place. */
  method NodeFinish(page: array<byte>, ghost seps: seq<Entry>, ghost kids: seq<u32>, m: nat)
    requires page.Length == PAGE_SIZE && m == |seps| && |kids| == m + 1 && m <= CAPACITY
    requires Laid(page[..], seps, kids) && page[..][TYPE_AT] == TYPE_INNER
    modifies page
    ensures NodeOk(page[..]) && Seps(page[..]) == seps && Children(page[..]) == kids
  {
    ghost var p: Page := page[..];
    PutAt(page, BEGIN_AT, Put(2, HEADER + CELL * m));
    PutAt(page, END_AT, Put(2, PAGE_SIZE - CHILD * (m + 1)));
    PutAt(page, COUNT_AT, Put(2, m));
    LaidHeader(p, page[..], seps, kids);
  }

  /** set_node_sep of the next separator. */
  method PutSep(page: array<byte>, ghost seps: seq<Entry>, ghost kids: seq<u32>, sep: Entry, m: nat)
    requires page.Length == PAGE_SIZE && m == |seps| < CAPACITY && |kids| <= CAPACITY + 1
    requires Laid(page[..], seps, kids)
    modifies page
    ensures Laid(page[..], seps + [sep], kids) && page[..][TYPE_AT] == old(page[..])[TYPE_AT]
  {
    ghost var p: Page := page[..];
    PutAt(page, HEADER + CELL * m, Cell(sep));
    LaidSep(p, page[..], seps, kids, sep);
  }

  /** set_node_child of the next child. */
  method PutChild(page: array<byte>, ghost seps: seq<Entry>, ghost kids: seq<u32>, kid: u32, m: nat)
    requires page.Length == PAGE_SIZE && |seps| <= CAPACITY && m == |kids| <= CAPACITY
    requires Laid(page[..], seps, kids)
    modifies page
    ensures Laid(page[..], seps, kids + [kid]) && page[..][TYPE_AT] == old(page[..])[TYPE_AT]
  {
    ghost var p: Page := page[..];
    PutAt(page, PAGE_SIZE - CHILD * (m + 1), Put(4, kid));
    LaidChild(p, page[..], seps, kids, kid);
  }

  /** Rebuild an inner page from separators [lo, hi) and children [lo, hi]. */
  method NodeBuild(page: array<byte>, seps: seq<Entry>, kids: seq<u32>, lo: nat, hi: nat, checksum: seq<byte>)
    requires page.Length == PAGE_SIZE && |checksum| == 4
    requires lo <= hi <= |seps| && hi < |kids| && hi - lo <= CAPACITY
    modifies page
    ensures NodeOk(page[..]) && Seps(page[..]) == seps[lo..hi] && Children(page[..]) == kids[lo..hi + 1]
  {
    InitPage(page, MAGIC_LEAF, TYPE_INNER, checksum);
    BlankIs(MAGIC_LEAF, TYPE_INNER, checksum);
    for i := lo to hi
      invariant Laid(page[..], seps[lo..i], kids[lo..i]) && page[..][TYPE_AT] == TYPE_INNER
    {
      SliceSnoc(seps, lo, i);
      SliceSnoc(kids, lo, i);
      PutSep(page, seps[lo..i], kids[lo..i], seps[i], i - lo);
      PutChild(page, seps[lo..i + 1], kids[lo..i], kids[i], i - lo);
    }
    SliceSnoc(kids, lo, hi);
    PutChild(page, seps[lo..hi], kids[lo..hi], kids[hi], hi - lo);
    NodeFinish(page, seps[lo..hi], kids[lo..hi + 1], hi - lo);
  }
}
