/** Index keys, entries and their total order (src/storage/btree.h, src/storage/btree.cpp). */
module KeyOrder {
  import opened Bytes

  type u16 = x: int | 0 <= x < 0x1_0000

  /** Order-preserving code of a column value; NULL sorts last. */
  datatype IndexKey = IndexKey(val: u64, isNull: bool)

  /** A key and the heap position of its row. */
  datatype Entry = Entry(key: IndexKey, page: u32, slot: u16)

  function KeyCmp(a: IndexKey, b: IndexKey): int {
    if a.isNull != b.isNull then if a.isNull then 1 else -1
    else if a.val != b.val then if a.val < b.val then -1 else 1
    else 0
  }

  function EntryCmp(a: Entry, b: Entry): int {
    var c := KeyCmp(a.key, b.key);
    if c != 0 then c
    else if a.page != b.page then if a.page < b.page then -1 else 1
    else if a.slot != b.slot then if a.slot < b.slot then -1 else 1
    else 0
  }

  const KEY_SPAN := 0x2_0000_0000_0000_0000
  const PLACES := 0x1_0000_0000_0000

  /** Position of a key among all keys. */
  function KeyOrd(k: IndexKey): (r: int)
    ensures 0 <= r < KEY_SPAN
  {
    (if k.isNull then U64 else 0) + k.val
  }

  /** Position of an entry among all entries. */
  function Ord(e: Entry): (r: int)
    ensures 0 <= r < KEY_SPAN * PLACES
  {
    KeyOrd(e.key) * PLACES + e.page * 0x1_0000 + e.slot
  }

  /** The comparisons are the order of the integers Ord maps the entries to, one to one: a total order. */
  lemma {:induction false} OrdIsOrder(a: Entry, b: Entry)
    ensures KeyCmp(a.key, b.key) < 0 <==> KeyOrd(a.key) < KeyOrd(b.key)
    ensures KeyCmp(a.key, b.key) == 0 <==> a.key == b.key
    ensures KeyOrd(a.key) == KeyOrd(b.key) <==> a.key == b.key
    ensures EntryCmp(a, b) < 0 <==> Ord(a) < Ord(b)
    ensures EntryCmp(a, b) == 0 <==> a == b
    ensures Ord(a) == Ord(b) <==> a == b
  {
  }

  predicate Ascending(es: seq<Entry>) {
    forall i, j :: 0 <= i < j < |es| ==> Ord(es[i]) < Ord(es[j])
  }
}
