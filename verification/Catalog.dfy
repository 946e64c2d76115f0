/** Rows in the heap and entries in the indexes: every change writes both (src/catalog/catalog_dml.cpp,
    src/storage/engine.cpp). Operations that raise are rolled back, so only the others change the state. */
module Catalog {
  import opened Bytes
  import opened Decimal
  import opened LogRecords
  import opened KeyOrder
  import opened Values
  import opened Casts
  import opened IndexKeys
  import opened IndexSelect
  import opened IndexPlan
  import RowCodec
  import HeapPage
  import PageBytes
  import Disk

  /** A heap page: its slots, deleted ones included, and the bytes left between records and slots. */
  datatype HPage = HPage(slots: seq<Option<seq<byte>>>, free: nat)

  datatype Ix = Ix(fid: nat, ordinal: nat, entries: set<Entry>)

  /** Pages by number, the last page (0: none yet), and the table's indexes. */
  datatype Db = Db(pages: map<nat, HPage>, tail: nat, indexes: seq<Ix>)

  /** What heap_append, heap_delete and init_page do to a page (module HeapPage). */
  function Fresh(): HPage {
    HPage([], HeapPage.MAX_RECORD + HeapPage.SLOT)
  }

  predicate HasRoom(p: HPage, rec: seq<byte>) {
    |rec| + HeapPage.SLOT <= p.free
  }

  function With(p: HPage, rec: seq<byte>): HPage
    requires HasRoom(p, rec)
  {
    HPage(p.slots + [Some(rec)], p.free - |rec| - HeapPage.SLOT)
  }

  lemma {:induction false} PageBytesDoThis(p: Disk.Page, rec: seq<byte>, checksum: seq<byte>)
    requires HeapPage.HeapOk(p) && |checksum| == 4 && PageBytes.FreeSpace(p) >= 0
    ensures var page := HPage(HeapPage.Records(p), PageBytes.FreeSpace(p));
            HasRoom(page, rec) ==>
              var q := HeapPage.Appended(p, rec, checksum);
              HeapPage.HeapOk(q) && PageBytes.FreeSpace(q) >= 0
              && HPage(HeapPage.Records(q), PageBytes.FreeSpace(q)) == With(page, rec)
  {
    if |rec| + HeapPage.SLOT <= PageBytes.FreeSpace(p) {
      HeapPage.AppendedIs(p, rec, checksum);
    }
  }

  // ---- one row ----

  /** The page a record goes to: the last one while it has room, else a new one after it and after the file's end. */
  function Target(db: Db, rec: seq<byte>, filePages: nat): nat {
    if db.tail == 0 then 1
    else if db.tail in db.pages && HasRoom(db.pages[db.tail], rec) then db.tail
    else Max(filePages, db.tail + 1)
  }

  const MAX_PAGE: int := 0x1_0000_0000

  /** The heap with one more record, and its place. */
  function Append(db: Db, rec: seq<byte>, filePages: nat): Outcome<(Db, nat, nat)> {
    var n := Target(db, rec, filePages);
    var p := if n in db.pages then db.pages[n] else Fresh();
    if n >= MAX_PAGE || !HasRoom(p, rec) then Raise
    else Ok((Db(db.pages[n := With(p, rec)], n, db.indexes), n, |p.slots|))
  }

  /** The entry of a row at a place, in each index. */
  function AddEntries(env: Env, cols: seq<Column>, values: seq<Value>, n: nat, s: nat, ixs: seq<Ix>): Outcome<seq<Ix>> {
    if ixs == [] then Ok([])
    else
      var ix, front := ixs[|ixs| - 1], AddEntries(env, cols, values, n, s, ixs[..|ixs| - 1]);
      if front.Raise? || ix.ordinal >= |values| || ix.ordinal >= |cols| || n >= MAX_PAGE || s >= 0x1_0000 then Raise
      else
        var k := EncodeKey(env, cols[ix.ordinal].ty, values[ix.ordinal]);
        if k.Raise? then Raise
        else Ok(front.value + [ix.(entries := ix.entries + {Entry(k.value, n, s)})])
  }

  function Insert(env: Env, cols: seq<Column>, db: Db, values: seq<Value>, filePages: nat): Outcome<Db>
    requires RowCodec.AllInRange(values)
  {
    var rec := RowCodec.Encode(cols, values);
    if !rec.Done? || |rec.value| > HeapPage.MAX_RECORD then Raise
    else
      var a := Append(db, rec.value, filePages);
      if a.Raise? then Raise
      else
        var (db', n, s) := a.value;
        var ixs := AddEntries(env, cols, values, n, s, db.indexes);
        if ixs.Raise? then Raise else Ok(db'.(indexes := ixs.value))
  }

  predicate Allocated(db: Db, n: nat, s: nat) {
    n in db.pages && s < |db.pages[n].slots|
  }

  predicate LiveAt(db: Db, n: nat, s: nat) {
    Allocated(db, n, s) && db.pages[n].slots[s].Some?
  }

  /** Delete by place: 0 rows when the slot is dead or not there, an error when the page is not. */
  function Delete(db: Db, n: nat, s: nat): Outcome<(Db, nat)> {
    if n !in db.pages then Raise
    else if !LiveAt(db, n, s) then Ok((db, 0))
    else Ok((db.(pages := db.pages[n := db.pages[n].(slots := db.pages[n].slots[s := None])]), 1))
  }

  datatype RowUpdate = RowUpdate(page: nat, slot: nat, values: seq<Value>, filePages: nat)

  predicate UpdatesInRange(rows: seq<RowUpdate>) {
    forall i :: 0 <= i < |rows| ==> RowCodec.AllInRange(rows[i].values)
  }

  /** update_rows: each row is deleted and inserted again. */
  function Update(env: Env, cols: seq<Column>, db: Db, rows: seq<RowUpdate>): Outcome<Db>
    requires UpdatesInRange(rows)
  {
    if rows == [] then Ok(db)
    else
      var front := Update(env, cols, db, rows[..|rows| - 1]);
      if front.Raise? then Raise else UpdateOne(env, cols, front.value, rows[|rows| - 1])
  }

  /** The row must still be there. */
  function UpdateOne(env: Env, cols: seq<Column>, db: Db, row: RowUpdate): Outcome<Db>
    requires RowCodec.AllInRange(row.values)
  {
    var d := Delete(db, row.page, row.slot);
    if d.Raise? || d.value.1 == 0 then Raise else Insert(env, cols, d.value.0, row.values, row.filePages)
  }

  /** All slots of all pages dead. */
  function DeleteAll(db: Db): Db {
    db.(pages := map n | n in db.pages :: db.pages[n].(slots := seq(|db.pages[n].slots|, _ => None)))
  }

  /** The values of a live row. */
  function ValuesAt(cols: seq<Column>, db: Db, n: nat, s: nat): RowCodec.Coded<seq<Value>>
    requires LiveAt(db, n, s)
  {
    RowCodec.Decode(cols, db.pages[n].slots[s].value)
  }

  /** The key of a live row for an index on a column. */
  function KeyAt(env: Env, cols: seq<Column>, ordinal: nat, db: Db, n: nat, s: nat): Outcome<IndexKey>
    requires LiveAt(db, n, s)
  {
    var v := ValuesAt(cols, db, n, s);
    if v.Done? && ordinal < |cols| then RowKey(env, cols[ordinal].ty, ordinal, v.value) else Raise
  }

  // ---- the invariant ----

  predicate Points(e: Entry, n: nat, s: nat) {
    e.page == n && e.slot == s
  }

  /** The index has the entry of a live row. */
  ghost predicate Entered(ix: Ix, n: nat, s: nat, k: IndexKey) {
    exists e :: e in ix.entries && Points(e, n, s) && e.key == k
  }

  /** Each live row has its entry; each entry is at an allocated slot, and has the row's key while the slot is live. */
  ghost predicate IxOk(env: Env, cols: seq<Column>, db: Db, ix: Ix) {
    && ix.ordinal < |cols|
    && (forall n: nat, s: nat :: LiveAt(db, n, s) ==>
          KeyAt(env, cols, ix.ordinal, db, n, s).Ok? && Entered(ix, n, s, KeyAt(env, cols, ix.ordinal, db, n, s).value))
    && (forall e :: e in ix.entries ==> Allocated(db, e.page, e.slot))
    && (forall e :: e in ix.entries && LiveAt(db, e.page, e.slot) ==> KeyAt(env, cols, ix.ordinal, db, e.page, e.slot) == Ok(e.key))
  }

  /** The types of columns as the type table defines them. */
  predicate Sane(ty: TypeAttr) {
    match ty.rep
    case Bool => ty == K_BOOL
    case Str => ty.family == Text
    case NoRep => false
    case _ => ty.family == Num
  }

  predicate SaneCols(cols: seq<Column>) {
    forall i :: 0 <= i < |cols| ==> Sane(cols[i].ty)
  }

  /** A stored row decodes to values of the column types that the columns take: no NULL in a NOT NULL column. */
  predicate RowOk(cols: seq<Column>, v: RowCodec.Coded<seq<Value>>) {
    && v.Done? && |v.value| == |cols|
    && forall i :: 0 <= i < |cols| ==> StoredAs(cols[i].ty, v.value[i]) && RowCodec.Storable(cols[i], v.value[i])
  }

  /** Slots and free space share a page. */
  predicate PageOk(p: HPage) {
    p.free + HeapPage.SLOT * |p.slots| <= HeapPage.MAX_RECORD + HeapPage.SLOT
  }

  ghost predicate HeapInv(cols: seq<Column>, db: Db) {
    && (forall n :: n in db.pages ==> 0 < n <= db.tail && PageOk(db.pages[n]))
    && (db.tail > 0 ==> db.tail in db.pages)
    && db.tail < MAX_PAGE
    && (forall n: nat, s: nat :: LiveAt(db, n, s) ==> RowOk(cols, ValuesAt(cols, db, n, s)))
  }

  ghost predicate Inv(env: Env, cols: seq<Column>, db: Db) {
    && HeapInv(cols, db)
    && forall i :: 0 <= i < |db.indexes| ==> IxOk(env, cols, db, db.indexes[i])
  }

  // ---- insert ----

  lemma {:induction false} StampedAt(cols: seq<Column>, values: seq<Value>, i: nat, k: nat)
    requires |cols| == |values| && i <= k < |cols|
    ensures |RowCodec.StampedRow(cols, values, i)| == |cols| - i
    ensures RowCodec.StampedRow(cols, values, i)[k - i] == RowCodec.Stamped(cols[k], values[k])
    decreases |cols| - i
  {
    StampedLen(cols, values, i);
    if i < k {
      StampedAt(cols, values, i + 1, k);
    }
  }

  lemma {:induction false} StampedLen(cols: seq<Column>, values: seq<Value>, i: nat)
    requires |cols| == |values| && i <= |cols|
    ensures |RowCodec.StampedRow(cols, values, i)| == |cols| - i
    decreases |cols| - i
  {
    if i < |cols| {
      StampedLen(cols, values, i + 1);
    }
  }

  lemma {:induction false} FieldOf(cols: seq<Column>, values: seq<Value>, i: nat)
    requires |cols| == |values| && i < |cols| && RowCodec.AllInRange(values)
    requires RowCodec.Fields(cols, values, |cols|).Done? && !values[i].Null?
    ensures RowCodec.Field(cols[i], values[i]).Done?
  {
    var rest := RowCodec.FieldsSplit(cols, values, i + 1, |cols|);
  }

  /** What is stored of a value has the column's type and the value's key. */
  lemma {:induction false} StampedKeeps(env: Env, col: Column, v: Value)
    requires Sane(col.ty) && RowCodec.InRange(v) && (!v.Null? ==> RowCodec.Field(col, v).Done?)
    ensures StoredAs(col.ty, RowCodec.Stamped(col, v))
    ensures RowCodec.Storable(col, v) ==> RowCodec.Storable(col, RowCodec.Stamped(col, v))
    ensures EncodeKey(env, col.ty, v).Ok? ==> EncodeKey(env, col.ty, RowCodec.Stamped(col, v)) == EncodeKey(env, col.ty, v)
  {
  }

  /** A record that was encoded decodes to a row of the table, with the keys of the values it was made from. */
  lemma {:induction false} EncodedRow(env: Env, cols: seq<Column>, values: seq<Value>)
    requires SaneCols(cols) && RowCodec.AllInRange(values) && RowCodec.Encode(cols, values).Done?
    requires |RowCodec.Encode(cols, values).value| <= HeapPage.MAX_RECORD
    ensures var v := RowCodec.Decode(cols, RowCodec.Encode(cols, values).value);
            && RowOk(cols, v) && |values| == |cols|
            && forall i :: 0 <= i < |cols| && EncodeKey(env, cols[i].ty, values[i]).Ok? ==>
                 RowKey(env, cols[i].ty, i, v.value) == EncodeKey(env, cols[i].ty, values[i])
  {
    RowCodec.RowRoundTrip(cols, values);
    RowCodec.EncodeTakes(cols, values);
    StampedLen(cols, values, 0);
    var v := RowCodec.StampedRow(cols, values, 0);
    forall i | 0 <= i < |cols|
      ensures StoredAs(cols[i].ty, v[i]) && RowCodec.Storable(cols[i], v[i])
      ensures EncodeKey(env, cols[i].ty, values[i]).Ok? ==> RowKey(env, cols[i].ty, i, v) == EncodeKey(env, cols[i].ty, values[i])
    {
      StampedAt(cols, values, 0, i);
      if !values[i].Null? {
        FieldOf(cols, values, i);
      }
      StampedKeeps(env, cols[i], values[i]);
    }
  }

  /** Appending allocates a slot that was never allocated, and leaves all others alone. */
  lemma {:induction false} AppendFresh(cols: seq<Column>, db: Db, rec: seq<byte>, filePages: nat)
    requires HeapInv(cols, db) && Append(db, rec, filePages).Ok? && |rec| <= HeapPage.MAX_RECORD
    requires RowOk(cols, RowCodec.Decode(cols, rec))
    ensures var (db', n, s) := Append(db, rec, filePages).value;
            && !Allocated(db, n, s) && s < 0x1_0000
            && (forall m: nat, t: nat :: Allocated(db', m, t) <==> Allocated(db, m, t) || (m == n && t == s))
            && (forall m: nat, t: nat :: Allocated(db, m, t) ==> db'.pages[m].slots[t] == db.pages[m].slots[t])
            && db'.pages[n].slots[s] == Some(rec)
            && HeapInv(cols, db')
  {
    var (db', n, s) := Append(db, rec, filePages).value;
    assert s < 0x1_0000 by {
      if n in db.pages {
        assert PageOk(db.pages[n]);
      }
    }
    forall m: nat, t: nat | LiveAt(db', m, t) ensures RowOk(cols, ValuesAt(cols, db', m, t)) {
      if m != n || t != s {
        assert LiveAt(db, m, t);
      }
    }
  }

  /** A record of legal length always finds room: at worst a fresh page takes it. */
  lemma {:induction false} AlwaysRoom(cols: seq<Column>, db: Db, rec: seq<byte>, filePages: nat)
    requires HeapInv(cols, db) && |rec| <= HeapPage.MAX_RECORD && filePages < MAX_PAGE && db.tail + 1 < MAX_PAGE
    ensures Append(db, rec, filePages).Ok?
  {
  }

  /** Pages after a row has been put at a fresh place. */
  ghost predicate RowAdded(cols: seq<Column>, db: Db, db': Db, n: nat, s: nat) {
    && !Allocated(db, n, s) && LiveAt(db', n, s)
    && (forall m: nat, t: nat :: Allocated(db', m, t) <==> Allocated(db, m, t) || (m == n && t == s))
    && (forall m: nat, t: nat :: Allocated(db, m, t) ==> db'.pages[m].slots[t] == db.pages[m].slots[t])
  }

  /** The new entry was in no index: the tree's requirement that entries are unique holds. */
  lemma {:induction false} EntryIsNew(env: Env, cols: seq<Column>, db: Db, ix: Ix, e: Entry)
    requires IxOk(env, cols, db, ix) && !Allocated(db, e.page, e.slot)
    ensures e !in ix.entries
  {
  }

  lemma {:induction false} IxRowAdded(env: Env, cols: seq<Column>, db: Db, db': Db, ix: Ix, n: nat, s: nat, e: Entry)
    requires IxOk(env, cols, db, ix) && RowAdded(cols, db, db', n, s) && Points(e, n, s)
    requires KeyAt(env, cols, ix.ordinal, db', n, s) == Ok(e.key)
    ensures IxOk(env, cols, db', ix.(entries := ix.entries + {e}))
  {
    var ix' := ix.(entries := ix.entries + {e});
    forall m: nat, t: nat | LiveAt(db', m, t)
      ensures KeyAt(env, cols, ix.ordinal, db', m, t).Ok? && Entered(ix', m, t, KeyAt(env, cols, ix.ordinal, db', m, t).value)
    {
      if m == n && t == s {
        assert e in ix'.entries && Points(e, m, t);
      } else {
        assert LiveAt(db, m, t);
        var k := KeyAt(env, cols, ix.ordinal, db, m, t).value;
        assert Entered(ix, m, t, k);
        var x :| x in ix.entries && Points(x, m, t) && x.key == k;
        assert x in ix'.entries;
      }
    }
  }

  lemma {:induction false} AddEntriesOk(env: Env, cols: seq<Column>, db: Db, db': Db, values: seq<Value>, n: nat, s: nat, ixs: seq<Ix>)
    requires forall i :: 0 <= i < |ixs| ==> IxOk(env, cols, db, ixs[i])
    requires RowAdded(cols, db, db', n, s) && AddEntries(env, cols, values, n, s, ixs).Ok? && |values| == |cols|
    requires forall i :: 0 <= i < |cols| && EncodeKey(env, cols[i].ty, values[i]).Ok? ==>
               KeyAt(env, cols, i, db', n, s) == EncodeKey(env, cols[i].ty, values[i])
    ensures var out := AddEntries(env, cols, values, n, s, ixs).value;
            |out| == |ixs| && forall i :: 0 <= i < |ixs| ==> out[i].fid == ixs[i].fid && IxOk(env, cols, db', out[i])
  {
    if ixs != [] {
      var front, ix := ixs[..|ixs| - 1], ixs[|ixs| - 1];
      AddEntriesOk(env, cols, db, db', values, n, s, front);
      var k := EncodeKey(env, cols[ix.ordinal].ty, values[ix.ordinal]).value;
      assert IxOk(env, cols, db, ix);
      IxRowAdded(env, cols, db, db', ix, n, s, Entry(k, n, s));
    }
  }

  lemma {:induction false} InsertKeeps(env: Env, cols: seq<Column>, db: Db, values: seq<Value>, filePages: nat)
    requires SaneCols(cols) && Inv(env, cols, db) && RowCodec.AllInRange(values) && Insert(env, cols, db, values, filePages).Ok?
    ensures Inv(env, cols, Insert(env, cols, db, values, filePages).value)
  {
    var rec := RowCodec.Encode(cols, values).value;
    var (db1, n, s) := Append(db, rec, filePages).value;
    EncodedRow(env, cols, values);
    AppendFresh(cols, db, rec, filePages);
    AddEntriesOk(env, cols, db, db1, values, n, s, db.indexes);
    var db' := Insert(env, cols, db, values, filePages).value;
    forall m: nat, t: nat | LiveAt(db', m, t) ensures LiveAt(db1, m, t) && ValuesAt(cols, db', m, t) == ValuesAt(cols, db1, m, t) {
    }
    forall i | 0 <= i < |db'.indexes| ensures IxOk(env, cols, db', db'.indexes[i]) {
      SamePages(env, cols, db1, db', db'.indexes[i]);
    }
  }

  lemma {:induction false} SamePages(env: Env, cols: seq<Column>, db: Db, db': Db, ix: Ix)
    requires db.pages == db'.pages && IxOk(env, cols, db, ix)
    ensures IxOk(env, cols, db', ix)
  {
    forall m: nat, t: nat | LiveAt(db', m, t)
      ensures KeyAt(env, cols, ix.ordinal, db', m, t).Ok? && Entered(ix, m, t, KeyAt(env, cols, ix.ordinal, db', m, t).value)
    {
      assert LiveAt(db, m, t);
    }
  }

  // ---- delete, update ----

  /** Slots only die: same slots, the live ones unchanged. */
  ghost predicate OnlyDies(db: Db, db': Db) {
    && (forall m: nat, t: nat :: Allocated(db', m, t) <==> Allocated(db, m, t))
    && (forall m: nat, t: nat :: LiveAt(db', m, t) ==> LiveAt(db, m, t) && db'.pages[m].slots[t] == db.pages[m].slots[t])
  }

  lemma {:induction false} IxOnlyDies(env: Env, cols: seq<Column>, db: Db, db': Db, ix: Ix)
    requires IxOk(env, cols, db, ix) && OnlyDies(db, db')
    ensures IxOk(env, cols, db', ix)
  {
    forall m: nat, t: nat | LiveAt(db', m, t)
      ensures KeyAt(env, cols, ix.ordinal, db', m, t).Ok? && Entered(ix, m, t, KeyAt(env, cols, ix.ordinal, db', m, t).value)
    {
      assert LiveAt(db, m, t);
    }
  }

  lemma {:induction false} HeapOnlyDies(cols: seq<Column>, db: Db, db': Db)
    requires HeapInv(cols, db) && OnlyDies(db, db') && db'.tail == db.tail && db'.pages.Keys == db.pages.Keys
    requires forall n :: n in db'.pages ==> |db'.pages[n].slots| == |db.pages[n].slots| && db'.pages[n].free == db.pages[n].free
    ensures HeapInv(cols, db')
  {
    forall n | n in db'.pages ensures 0 < n <= db'.tail && PageOk(db'.pages[n]) {
      assert n in db.pages;
    }
    forall m: nat, t: nat | LiveAt(db', m, t) ensures RowOk(cols, ValuesAt(cols, db', m, t)) {
      assert LiveAt(db, m, t);
    }
  }

  lemma {:induction false} DyingKeeps(env: Env, cols: seq<Column>, db: Db, db': Db)
    requires Inv(env, cols, db) && OnlyDies(db, db') && db'.tail == db.tail && db'.indexes == db.indexes
    requires db'.pages.Keys == db.pages.Keys
    requires forall n :: n in db'.pages ==> |db'.pages[n].slots| == |db.pages[n].slots| && db'.pages[n].free == db.pages[n].free
    ensures Inv(env, cols, db')
  {
    HeapOnlyDies(cols, db, db');
    forall i | 0 <= i < |db'.indexes| ensures IxOk(env, cols, db', db'.indexes[i]) {
      IxOnlyDies(env, cols, db, db', db.indexes[i]);
    }
  }

  lemma {:induction false} DeleteKeeps(env: Env, cols: seq<Column>, db: Db, n: nat, s: nat)
    requires Inv(env, cols, db) && Delete(db, n, s).Ok?
    ensures Inv(env, cols, Delete(db, n, s).value.0)
  {
    DyingKeeps(env, cols, db, Delete(db, n, s).value.0);
  }

  lemma {:induction false} DeleteAllKeeps(env: Env, cols: seq<Column>, db: Db)
    requires Inv(env, cols, db)
    ensures Inv(env, cols, DeleteAll(db))
  {
    DyingKeeps(env, cols, db, DeleteAll(db));
  }

  lemma {:induction false} UpdateKeeps(env: Env, cols: seq<Column>, db: Db, rows: seq<RowUpdate>)
    requires SaneCols(cols) && Inv(env, cols, db) && UpdatesInRange(rows) && Update(env, cols, db, rows).Ok?
    ensures Inv(env, cols, Update(env, cols, db, rows).value)
  {
    if rows != [] {
      UpdateKeeps(env, cols, db, rows[..|rows| - 1]);
      UpdateOneKeeps(env, cols, Update(env, cols, db, rows[..|rows| - 1]).value, rows[|rows| - 1]);
    }
  }

  lemma {:induction false} UpdateOneKeeps(env: Env, cols: seq<Column>, db: Db, row: RowUpdate)
    requires SaneCols(cols) && Inv(env, cols, db) && RowCodec.AllInRange(row.values) && UpdateOne(env, cols, db, row).Ok?
    ensures Inv(env, cols, UpdateOne(env, cols, db, row).value)
  {
    DeleteKeeps(env, cols, db, row.page, row.slot);
    InsertKeeps(env, cols, Delete(db, row.page, row.slot).value.0, row.values, row.filePages);
  }

  // ---- scanning the heap ----

  /** The live rows among the first k slots of a page. */
  function RowsOfPage(cols: seq<Column>, db: Db, n: nat, k: nat): seq<Stored>
    requires n in db.pages && k <= |db.pages[n].slots|
  {
    if k == 0 then []
    else
      RowsOfPage(cols, db, n, k - 1)
      + if LiveAt(db, n, k - 1) && ValuesAt(cols, db, n, k - 1).Done?
        then [Stored(n, k - 1, ValuesAt(cols, db, n, k - 1).value)] else []
  }

  /** The live rows of the pages below n, page by page along the chain. */
  function RowsBelow(cols: seq<Column>, db: Db, n: nat): seq<Stored> {
    if n == 0 then []
    else
      RowsBelow(cols, db, n - 1)
      + if n - 1 in db.pages then RowsOfPage(cols, db, n - 1, |db.pages[n - 1].slots|) else []
  }

  function HeapRows(cols: seq<Column>, db: Db): seq<Stored> {
    RowsBelow(cols, db, db.tail + 1)
  }

  predicate IsRow(cols: seq<Column>, db: Db, r: Stored) {
    LiveAt(db, r.page, r.slot) && ValuesAt(cols, db, r.page, r.slot) == RowCodec.Done(r.values)
  }

  predicate PlaceBefore(a: Stored, b: Stored) {
    a.page < b.page || (a.page == b.page && a.slot < b.slot)
  }

  ghost predicate InPlaceOrder(rows: seq<Stored>) {
    forall i, j :: 0 <= i < j < |rows| ==> PlaceBefore(rows[i], rows[j])
  }

  lemma {:induction false} PageRowsAre(cols: seq<Column>, db: Db, n: nat, k: nat)
    requires n in db.pages && k <= |db.pages[n].slots|
    ensures InPlaceOrder(RowsOfPage(cols, db, n, k))
    ensures forall r :: r in RowsOfPage(cols, db, n, k) <==> IsRow(cols, db, r) && r.page == n && r.slot < k
  {
    if k > 0 {
      PageRowsAre(cols, db, n, k - 1);
      var front, rows := RowsOfPage(cols, db, n, k - 1), RowsOfPage(cols, db, n, k);
      forall i | 0 <= i < |front| ensures front[i].page == n && front[i].slot < k - 1 {
        assert front[i] in front;
      }
    }
  }

  lemma {:induction false} RowsBelowAre(cols: seq<Column>, db: Db, n: nat)
    ensures InPlaceOrder(RowsBelow(cols, db, n))
    ensures forall r :: r in RowsBelow(cols, db, n) <==> IsRow(cols, db, r) && r.page < n
  {
    if n > 0 {
      RowsBelowAre(cols, db, n - 1);
      var front := RowsBelow(cols, db, n - 1);
      forall i | 0 <= i < |front| ensures front[i].page < n - 1 {
        assert front[i] in front;
      }
      if n - 1 in db.pages {
        var k := |db.pages[n - 1].slots|;
        PageRowsAre(cols, db, n - 1, k);
        var last := RowsOfPage(cols, db, n - 1, k);
        forall i | 0 <= i < |last| ensures last[i].page == n - 1 {
          assert last[i] in last;
        }
      }
    }
  }

  /** The scan returns each live row once, in the order of their places. */
  lemma {:induction false} HeapRowsAre(cols: seq<Column>, db: Db)
    requires HeapInv(cols, db)
    ensures DistinctPlaces(HeapRows(cols, db)) && InPlaceOrder(HeapRows(cols, db))
    ensures forall r :: r in HeapRows(cols, db) <==> IsRow(cols, db, r)
  {
    RowsBelowAre(cols, db, db.tail + 1);
    var rows := HeapRows(cols, db);
    forall i, j | 0 <= i < j < |rows| ensures rows[i].page != rows[j].page || rows[i].slot != rows[j].slot {
      assert PlaceBefore(rows[i], rows[j]);
    }
  }

  // ---- create index ----

  function EntriesOf(env: Env, ty: TypeAttr, ordinal: nat, rows: seq<Stored>): Outcome<set<Entry>> {
    if rows == [] then Ok({})
    else
      var last, front := rows[|rows| - 1], EntriesOf(env, ty, ordinal, rows[..|rows| - 1]);
      var k := RowKey(env, ty, ordinal, last.values);
      if front.Raise? || k.Raise? || last.page >= MAX_PAGE || last.slot >= 0x1_0000 then Raise
      else Ok(front.value + {Entry(k.value, last.page, last.slot)})
  }

  function CreateIndex(env: Env, cols: seq<Column>, db: Db, fid: nat, ordinal: nat): Outcome<Db> {
    if ordinal >= |cols| then Raise
    else
      var es := EntriesOf(env, cols[ordinal].ty, ordinal, HeapRows(cols, db));
      if es.Raise? then Raise else Ok(db.(indexes := db.indexes + [Ix(fid, ordinal, es.value)]))
  }

  ghost predicate EntryFor(env: Env, ty: TypeAttr, ordinal: nat, e: Entry, r: Stored) {
    Points(e, r.page, r.slot) && RowKey(env, ty, ordinal, r.values) == Ok(e.key)
  }

  ghost predicate EntryOfSome(env: Env, ty: TypeAttr, ordinal: nat, e: Entry, rows: seq<Stored>) {
    exists r :: r in rows && EntryFor(env, ty, ordinal, e, r)
  }

  ghost predicate RowEntered(env: Env, ty: TypeAttr, ordinal: nat, es: set<Entry>, r: Stored) {
    exists e :: e in es && EntryFor(env, ty, ordinal, e, r)
  }

  lemma {:induction false} EntriesAre(env: Env, ty: TypeAttr, ordinal: nat, rows: seq<Stored>)
    requires EntriesOf(env, ty, ordinal, rows).Ok?
    ensures var es := EntriesOf(env, ty, ordinal, rows).value;
            && (forall e :: e in es ==> EntryOfSome(env, ty, ordinal, e, rows))
            && (forall r :: r in rows ==> RowEntered(env, ty, ordinal, es, r))
  {
    if rows != [] {
      var front, last := rows[..|rows| - 1], rows[|rows| - 1];
      EntriesAre(env, ty, ordinal, front);
      var before, es := EntriesOf(env, ty, ordinal, front).value, EntriesOf(env, ty, ordinal, rows).value;
      var e0 := Entry(RowKey(env, ty, ordinal, last.values).value, last.page, last.slot);
      assert rows == front + [last];
      forall e | e in es ensures EntryOfSome(env, ty, ordinal, e, rows) {
        if e in before {
          assert EntryOfSome(env, ty, ordinal, e, front);
          var r :| r in front && EntryFor(env, ty, ordinal, e, r);
          assert r in rows;
        } else {
          assert e == e0 && last in rows && EntryFor(env, ty, ordinal, e, last);
        }
      }
      forall r | r in rows ensures RowEntered(env, ty, ordinal, es, r) {
        if r in front {
          assert RowEntered(env, ty, ordinal, before, r);
          var e :| e in before && EntryFor(env, ty, ordinal, e, r);
          assert e in es;
        } else {
          assert r == last && e0 in es && EntryFor(env, ty, ordinal, e0, r);
        }
      }
    }
  }

  lemma {:induction false} CreateKeeps(env: Env, cols: seq<Column>, db: Db, fid: nat, ordinal: nat)
    requires Inv(env, cols, db) && CreateIndex(env, cols, db, fid, ordinal).Ok?
    ensures Inv(env, cols, CreateIndex(env, cols, db, fid, ordinal).value)
  {
    var ty, rows, db' := cols[ordinal].ty, HeapRows(cols, db), CreateIndex(env, cols, db, fid, ordinal).value;
    var es := EntriesOf(env, ty, ordinal, rows).value;
    HeapRowsAre(cols, db);
    EntriesAre(env, ty, ordinal, rows);
    var ix := Ix(fid, ordinal, es);
    forall n: nat, s: nat | LiveAt(db, n, s)
      ensures KeyAt(env, cols, ordinal, db, n, s).Ok? && Entered(ix, n, s, KeyAt(env, cols, ordinal, db, n, s).value)
    {
      var r := Stored(n, s, ValuesAt(cols, db, n, s).value);
      assert IsRow(cols, db, r) && r in rows;
      assert RowEntered(env, ty, ordinal, es, r);
      var e :| e in es && EntryFor(env, ty, ordinal, e, r);
      assert e in ix.entries && Points(e, n, s);
    }
    forall e | e in es
      ensures Allocated(db, e.page, e.slot)
      ensures LiveAt(db, e.page, e.slot) ==> KeyAt(env, cols, ordinal, db, e.page, e.slot) == Ok(e.key)
    {
      assert EntryOfSome(env, ty, ordinal, e, rows);
      var r :| r in rows && EntryFor(env, ty, ordinal, e, r);
      assert IsRow(cols, db, r);
    }
    assert IxOk(env, cols, db, ix);
    forall n: nat, s: nat | LiveAt(db', n, s) ensures RowOk(cols, ValuesAt(cols, db', n, s)) {
      assert LiveAt(db, n, s);
    }
    forall i | 0 <= i < |db'.indexes| ensures IxOk(env, cols, db', db'.indexes[i]) {
      SamePages(env, cols, db, db', db'.indexes[i]);
    }
  }

  // ---- runs ----

  datatype Op =
    | InsertOp(values: seq<Value>, filePages: nat)
    | DeleteOp(page: nat, slot: nat)
    | DeleteAllOp
    | UpdateOp(rows: seq<RowUpdate>)
    | CreateIndexOp(fid: nat, ordinal: nat)

  predicate OpInRange(op: Op) {
    match op
    case InsertOp(values, _) => RowCodec.AllInRange(values)
    case UpdateOp(rows) => UpdatesInRange(rows)
    case _ => true
  }

  function Apply(env: Env, cols: seq<Column>, db: Db, op: Op): Outcome<Db>
    requires OpInRange(op)
  {
    match op
    case InsertOp(values, filePages) => Insert(env, cols, db, values, filePages)
    case DeleteOp(n, s) =>
      var d := Delete(db, n, s);
      if d.Raise? then Raise else Ok(d.value.0)
    case DeleteAllOp => Ok(DeleteAll(db))
    case UpdateOp(rows) => Update(env, cols, db, rows)
    case CreateIndexOp(fid, ordinal) => CreateIndex(env, cols, db, fid, ordinal)
  }

  predicate OpsInRange(ops: seq<Op>) {
    forall i :: 0 <= i < |ops| ==> OpInRange(ops[i])
  }

  /** The state after a list of statements; one that raises is rolled back. */
  function Run(env: Env, cols: seq<Column>, db: Db, ops: seq<Op>): Db
    requires OpsInRange(ops)
  {
    if ops == [] then db
    else
      var before := Run(env, cols, db, ops[..|ops| - 1]);
      var r := Apply(env, cols, before, ops[|ops| - 1]);
      if r.Raise? then before else r.value
  }

  const EMPTY := Db(map[], 0, [])

  /** After any run of statements on a new table, heap and indexes agree. */
  lemma {:induction false} RunKeeps(env: Env, cols: seq<Column>, ops: seq<Op>)
    requires SaneCols(cols) && OpsInRange(ops)
    ensures Inv(env, cols, Run(env, cols, EMPTY, ops))
  {
    if ops != [] {
      var op := ops[|ops| - 1];
      RunKeeps(env, cols, ops[..|ops| - 1]);
      var before := Run(env, cols, EMPTY, ops[..|ops| - 1]);
      if Apply(env, cols, before, op).Ok? {
        match op
        case InsertOp(values, filePages) => InsertKeeps(env, cols, before, values, filePages);
        case DeleteOp(n, s) => DeleteKeeps(env, cols, before, n, s);
        case DeleteAllOp => DeleteAllKeeps(env, cols, before);
        case UpdateOp(rows) => UpdateKeeps(env, cols, before, rows);
        case CreateIndexOp(fid, ordinal) => CreateKeeps(env, cols, before, fid, ordinal);
      }
    }
  }

  /** Two entries of an index that point at one live row are the same entry. */
  lemma {:induction false} OneEntryPerRow(env: Env, cols: seq<Column>, db: Db, ix: Ix, n: nat, s: nat, d: Entry, e: Entry)
    requires IxOk(env, cols, db, ix) && LiveAt(db, n, s)
    requires d in ix.entries && e in ix.entries && Points(d, n, s) && Points(e, n, s)
    ensures d == e
  {
    assert KeyAt(env, cols, ix.ordinal, db, d.page, d.slot) == Ok(d.key);
    assert KeyAt(env, cols, ix.ordinal, db, e.page, e.slot) == Ok(e.key);
  }

  function Types(cols: seq<Column>): (ts: seq<TypeAttr>)
    ensures |ts| == |cols|
  {
    seq(|cols|, i requires 0 <= i < |cols| => cols[i].ty)
  }

  /** What index selection relies on: rows well typed, places distinct, and the index in agreement with the heap, its
      entries being read in tree order. */
  lemma {:induction false} InvAgrees(env: Env, cols: seq<Column>, db: Db, i: nat, es: seq<Entry>)
    requires SaneCols(cols) && Inv(env, cols, db) && i < |db.indexes|
    requires Ascending(es) && forall e :: e in es <==> e in db.indexes[i].entries
    ensures var heap, ix := HeapRows(cols, db), db.indexes[i];
            && WellTyped(Types(cols), heap) && DistinctPlaces(heap)
            && ix.ordinal < |cols| && Agrees(env, Types(cols)[ix.ordinal], ix.ordinal, heap, es)
  {
    var heap, ix := HeapRows(cols, db), db.indexes[i];
    HeapWellTyped(cols, db);
    HeapRowsAre(cols, db);
    assert IxOk(env, cols, db, ix);
    forall r | r in heap ensures HasEntry(r, es) {
      assert IsRow(cols, db, r) && LiveAt(db, r.page, r.slot);
      var k := KeyAt(env, cols, ix.ordinal, db, r.page, r.slot).value;
      assert Entered(ix, r.page, r.slot, k);
      var e :| e in ix.entries && Points(e, r.page, r.slot) && e.key == k;
      var j :| 0 <= j < |es| && es[j] == e;
      assert At(r, es[j]);
    }
    forall a, b | 0 <= a < |heap| && 0 <= b < |es| && At(heap[a], es[b])
      ensures RowKey(env, cols[ix.ordinal].ty, ix.ordinal, heap[a].values) == Ok(es[b].key)
    {
      assert heap[a] in heap && es[b] in es;
      assert LiveAt(db, es[b].page, es[b].slot);
      assert KeyAt(env, cols, ix.ordinal, db, es[b].page, es[b].slot) == Ok(es[b].key);
    }
  }

  lemma {:induction false} HeapWellTyped(cols: seq<Column>, db: Db)
    requires HeapInv(cols, db)
    ensures WellTyped(Types(cols), HeapRows(cols, db))
  {
    var heap := HeapRows(cols, db);
    HeapRowsAre(cols, db);
    forall i | 0 <= i < |heap|
      ensures |heap[i].values| == |cols| && forall c :: 0 <= c < |cols| ==> StoredAs(cols[c].ty, heap[i].values[c])
    {
      assert heap[i] in heap && IsRow(cols, db, heap[i]);
      assert RowOk(cols, ValuesAt(cols, db, heap[i].page, heap[i].slot));
    }
  }

  /** It holds of every index after every run. */
  lemma {:induction false} RunsAgree(env: Env, cols: seq<Column>, ops: seq<Op>, i: nat, es: seq<Entry>)
    requires SaneCols(cols) && OpsInRange(ops)
    requires var db := Run(env, cols, EMPTY, ops); i < |db.indexes| && forall e :: e in es <==> e in db.indexes[i].entries
    requires Ascending(es)
    ensures var db := Run(env, cols, EMPTY, ops);
            var heap, ix := HeapRows(cols, db), db.indexes[i];
            && WellTyped(Types(cols), heap) && DistinctPlaces(heap)
            && ix.ordinal < |cols| && Agrees(env, Types(cols)[ix.ordinal], ix.ordinal, heap, es)
  {
    RunKeeps(env, cols, ops);
    InvAgrees(env, cols, Run(env, cols, EMPTY, ops), i, es);
  }
}
