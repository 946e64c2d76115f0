/** Which statements succeed, and what columns may count on (src/catalog/catalog_dml.cpp, src/storage/engine.cpp,
    src/storage/codec.cpp). */
module StatementLaws {
  import opened Decimal
  import opened Values
  import opened Casts
  import opened IndexKeys
  import opened IndexPlan
  import opened Catalog
  import opened TableRows
  import HeapPage
  import RowCodec
  import Seqs

  // ---- NOT NULL ----

  /** After every run of statements every row holds, in each column, a value the column takes: none is NULL where the
      column is NOT NULL. */
  lemma {:induction false} ColumnsHold(env: Env, cols: seq<Column>, ops: seq<Op>, r: Stored, i: nat)
    requires SaneCols(cols) && OpsInRange(ops) && i < |cols|
    requires r in HeapRows(cols, Run(env, cols, EMPTY, ops))
    ensures i < |r.values| && RowCodec.Storable(cols[i], r.values[i]) && (cols[i].notNull ==> !r.values[i].Null?)
  {
    var db := Run(env, cols, EMPTY, ops);
    RunKeeps(env, cols, ops);
    HeapRowsAre(cols, db);
    assert IsRow(cols, db, r);
    assert RowOk(cols, ValuesAt(cols, db, r.page, r.slot));
  }

  // ---- inserting ----

  /** Columns whose values have index keys. */
  predicate Indexable(ty: TypeAttr) {
    ty.rep == Bool || ty.rep == Int64 || ty.rep == Float || ty.rep == Double
  }

  lemma {:induction false} KeyExists(env: Env, col: Column, v: Value)
    requires RowCodec.Storable(col, v)
    ensures EncodeKey(env, col.ty, v).Ok? <==> v.Null? || Indexable(col.ty)
  {
  }

  predicate IndexesTake(cols: seq<Column>, values: seq<Value>, ixs: seq<Ix>)
    requires |cols| == |values|
  {
    forall i :: 0 <= i < |ixs| ==>
      ixs[i].ordinal < |cols| && (values[ixs[i].ordinal].Null? || Indexable(cols[ixs[i].ordinal].ty))
  }

  lemma {:induction false} EntriesExist(env: Env, cols: seq<Column>, values: seq<Value>, n: nat, s: nat, ixs: seq<Ix>)
    requires |cols| == |values| && n < MAX_PAGE && s < 0x1_0000
    requires forall k :: 0 <= k < |cols| ==> RowCodec.Storable(cols[k], values[k])
    ensures AddEntries(env, cols, values, n, s, ixs).Ok? <==> IndexesTake(cols, values, ixs)
    ensures AddEntries(env, cols, values, n, s, ixs).Ok? ==> SameColumns(ixs, AddEntries(env, cols, values, n, s, ixs).value)
  {
    if ixs != [] {
      var front, ix := ixs[..|ixs| - 1], ixs[|ixs| - 1];
      EntriesExist(env, cols, values, n, s, front);
      Seqs.Split(ixs);
      if ix.ordinal < |cols| {
        KeyExists(env, cols[ix.ordinal], values[ix.ordinal]);
      }
    }
  }

  /** Indexes on the same columns. */
  predicate SameColumns(a: seq<Ix>, b: seq<Ix>) {
    |a| == |b| && forall i :: 0 <= i < |a| ==> a[i].ordinal == b[i].ordinal
  }

  /** A row the table takes: a value for every column that the column takes, a record that fits a page, keys for the
      indexes. */
  predicate RowFits(cols: seq<Column>, ixs: seq<Ix>, values: seq<Value>) {
    && |values| == |cols| && (forall k :: 0 <= k < |cols| ==> RowCodec.Storable(cols[k], values[k]))
    && 2 + (|cols| + 7) / 8 + RowCodec.Widths(cols, values, |cols|) <= HeapPage.MAX_RECORD
    && IndexesTake(cols, values, ixs)
  }

  /** An insertion succeeds exactly for such a row, as long as there are page numbers. */
  lemma {:induction false} InsertTakes(env: Env, cols: seq<Column>, db: Db, values: seq<Value>, filePages: nat)
    requires SaneCols(cols) && Inv(env, cols, db) && RowCodec.AllInRange(values)
    requires filePages < MAX_PAGE && db.tail + 1 < MAX_PAGE
    ensures Insert(env, cols, db, values, filePages).Ok? <==> RowFits(cols, db.indexes, values)
    ensures Insert(env, cols, db, values, filePages).Ok? ==>
              var db' := Insert(env, cols, db, values, filePages).value;
              && SameColumns(db.indexes, db'.indexes)
              && db'.tail <= Max(filePages, db.tail + 1)
  {
    RowCodec.EncodeTakes(cols, values);
    var rec := RowCodec.Encode(cols, values);
    if rec.Done? {
      RowCodec.EncodedLength(cols, values, |cols|);
      if |rec.value| <= HeapPage.MAX_RECORD {
        AlwaysRoom(cols, db, rec.value, filePages);
        EncodedRow(env, cols, values);
        AppendFresh(cols, db, rec.value, filePages);
        var (db', n, s) := Append(db, rec.value, filePages).value;
        EntriesExist(env, cols, values, n, s, db.indexes);
      }
    }
  }

  /** A row stays on the last page while that has room for it; otherwise exactly one page is added, behind all others and
      behind the end of the file. */
  lemma {:induction false} InsertStaysOnPage(env: Env, cols: seq<Column>, db: Db, values: seq<Value>, filePages: nat)
    requires SaneCols(cols) && Inv(env, cols, db) && RowCodec.AllInRange(values) && Insert(env, cols, db, values, filePages).Ok?
    ensures var db', size := Insert(env, cols, db, values, filePages).value, |RowCodec.Encode(cols, values).value|;
            if db.tail > 0 && size + HeapPage.SLOT <= db.pages[db.tail].free then db'.tail == db.tail && db'.pages.Keys == db.pages.Keys
            else db'.tail > db.tail && db'.pages.Keys == db.pages.Keys + {db'.tail} && (db.tail > 0 ==> db'.tail >= filePages)
  {
  }

  // ---- deleting, updating ----

  lemma {:induction false} DeleteTakes(db: Db, n: nat, s: nat)
    ensures Delete(db, n, s).Ok? <==> n in db.pages
    ensures n in db.pages ==> Delete(db, n, s).value.1 == if LiveAt(db, n, s) then 1 else 0
  {
  }

  ghost predicate OtherRows(rows: seq<RowUpdate>) {
    forall i, j :: 0 <= i < j < |rows| ==> rows[i].page != rows[j].page || rows[i].slot != rows[j].slot
  }

  ghost predicate AllLive(db: Db, rows: seq<RowUpdate>) {
    forall i :: 0 <= i < |rows| ==> LiveAt(db, rows[i].page, rows[i].slot)
  }

  /** Page numbers are left for every row of an update. */
  ghost predicate PagesLeft(db: Db, rows: seq<RowUpdate>, bound: nat) {
    db.tail < bound && bound + |rows| + 1 < MAX_PAGE && forall i :: 0 <= i < |rows| ==> rows[i].filePages < bound
  }

  lemma {:induction false} UpdateOneTakes(env: Env, cols: seq<Column>, db: Db, row: RowUpdate)
    requires SaneCols(cols) && Inv(env, cols, db) && RowCodec.AllInRange(row.values)
    requires row.filePages < MAX_PAGE && db.tail + 1 < MAX_PAGE
    ensures UpdateOne(env, cols, db, row).Ok? <==> LiveAt(db, row.page, row.slot) && RowFits(cols, db.indexes, row.values)
    ensures UpdateOne(env, cols, db, row).Ok? ==>
              var db' := UpdateOne(env, cols, db, row).value;
              SameColumns(db.indexes, db'.indexes) && db'.tail <= Max(row.filePages, db.tail + 1)
  {
    if LiveAt(db, row.page, row.slot) {
      DeleteKeeps(env, cols, db, row.page, row.slot);
      InsertTakes(env, cols, Delete(db, row.page, row.slot).value.0, row.values, row.filePages);
    }
  }

  /** A row that no earlier reference of an update names is still there when its turn comes; one that is named again is
      not. */
  lemma {:induction false} TurnComes(env: Env, cols: seq<Column>, db: Db, rows: seq<RowUpdate>)
    requires SaneCols(cols) && Inv(env, cols, db) && UpdatesInRange(rows) && rows != [] && AllLive(db, rows)
    requires Update(env, cols, db, rows[..|rows| - 1]).Ok?
    ensures var last, mid := rows[|rows| - 1], Update(env, cols, db, rows[..|rows| - 1]).value;
            LiveAt(mid, last.page, last.slot) <==>
            forall i :: 0 <= i < |rows| - 1 ==> rows[i].page != last.page || rows[i].slot != last.slot
  {
    var front, last := rows[..|rows| - 1], rows[|rows| - 1];
    var mid := Update(env, cols, db, front).value;
    var places := UpdateReplacesRows(env, cols, db, front);
    UpdateKeeps(env, cols, db, front);
    NamedOrThere(cols, db, mid, front, places, last.page, last.slot);
    Seqs.Split(rows);
  }

  predicate Named(rows: seq<RowUpdate>, n: nat, s: nat) {
    exists i :: 0 <= i < |rows| && rows[i].page == n && rows[i].slot == s
  }

  lemma {:induction false} NamedOrThere(cols: seq<Column>, db: Db, mid: Db, rows: seq<RowUpdate>, places: seq<Place>, n: nat, s: nat)
    requires HeapInv(cols, db) && HeapInv(cols, mid) && Replaces(cols, db, mid, rows, places) && LiveAt(db, n, s)
    ensures LiveAt(mid, n, s) <==> !Named(rows, n, s)
  {
    if Named(rows, n, s) {
      NamedIsGone(cols, db, mid, rows, places, n, s);
    } else {
      var r := Stored(n, s, ValuesAt(cols, db, n, s).value);
      assert IsRow(cols, db, r) && !Superseded(rows, r);
      assert IsRow(cols, mid, r);
    }
  }

  lemma {:induction false} NamedIsGone(cols: seq<Column>, db: Db, mid: Db, rows: seq<RowUpdate>, places: seq<Place>, n: nat, s: nat)
    requires HeapInv(cols, mid) && Replaces(cols, db, mid, rows, places) && LiveAt(db, n, s) && Named(rows, n, s)
    ensures !LiveAt(mid, n, s)
  {
    StillThere(cols, db, mid, rows, places, (n, s));
    if LiveAt(mid, n, s) {
      var r := Stored(n, s, ValuesAt(cols, mid, n, s).value);
      assert IsRow(cols, mid, r) && IsAt(r, (n, s));
    }
  }

  /** An update of rows of the table succeeds exactly when no row is named twice and the table takes all the new rows. */
  lemma {:induction false} UpdateTakes(env: Env, cols: seq<Column>, db: Db, rows: seq<RowUpdate>, bound: nat)
    requires SaneCols(cols) && Inv(env, cols, db) && UpdatesInRange(rows) && AllLive(db, rows) && PagesLeft(db, rows, bound)
    ensures Update(env, cols, db, rows).Ok? <==>
            OtherRows(rows) && forall i :: 0 <= i < |rows| ==> RowFits(cols, db.indexes, rows[i].values)
    ensures Update(env, cols, db, rows).Ok? ==>
              var db' := Update(env, cols, db, rows).value;
              SameColumns(db.indexes, db'.indexes) && db'.tail < bound + |rows|
  {
    if rows != [] {
      var front, last := rows[..|rows| - 1], rows[|rows| - 1];
      UpdateTakes(env, cols, db, front, bound);
      Seqs.Split(rows);
      if Update(env, cols, db, front).Ok? {
        var mid := Update(env, cols, db, front).value;
        UpdateKeeps(env, cols, db, front);
        TurnComes(env, cols, db, rows);
        UpdateOneTakes(env, cols, mid, last);
        SameFit(cols, db.indexes, mid.indexes, last.values);
        OtherRowsSnoc(front, last);
      }
    }
  }

  lemma {:induction false} SameFit(cols: seq<Column>, a: seq<Ix>, b: seq<Ix>, values: seq<Value>)
    requires SameColumns(a, b)
    ensures RowFits(cols, a, values) <==> RowFits(cols, b, values)
  {
    if |cols| == |values| {
      forall i | 0 <= i < |a| ensures a[i].ordinal == b[i].ordinal {
      }
    }
  }

  lemma {:induction false} OtherRowsSnoc(front: seq<RowUpdate>, last: RowUpdate)
    ensures OtherRows(front + [last]) <==>
            OtherRows(front) && forall i :: 0 <= i < |front| ==> front[i].page != last.page || front[i].slot != last.slot
  {
    var all := front + [last];
    assert forall i :: 0 <= i < |front| ==> all[i] == front[i];
    assert all[|front|] == last;
  }

  // ---- creating an index ----

  /** An index can be built exactly on a column of the table whose values have keys, or that holds nothing but NULLs. */
  lemma {:induction false} CreateTakes(env: Env, cols: seq<Column>, db: Db, fid: nat, ordinal: nat)
    requires Inv(env, cols, db)
    ensures CreateIndex(env, cols, db, fid, ordinal).Ok? <==>
            ordinal < |cols| && forall r :: r in HeapRows(cols, db) ==>
              ordinal < |r.values| && (r.values[ordinal].Null? || Indexable(cols[ordinal].ty))
  {
    if ordinal < |cols| {
      HeapRowsAre(cols, db);
      var rows := HeapRows(cols, db);
      forall r | r in rows
        ensures ordinal < |r.values| && RowCodec.Storable(cols[ordinal], r.values[ordinal]) && r.page < MAX_PAGE && r.slot < 0x1_0000
      {
        assert IsRow(cols, db, r) && RowOk(cols, ValuesAt(cols, db, r.page, r.slot)) && PageOk(db.pages[r.page]);
      }
      EntriesOfExist(env, cols[ordinal], ordinal, rows);
    }
  }

  lemma {:induction false} EntriesOfExist(env: Env, col: Column, ordinal: nat, rows: seq<Stored>)
    requires forall r :: r in rows ==>
               ordinal < |r.values| && RowCodec.Storable(col, r.values[ordinal]) && r.page < MAX_PAGE && r.slot < 0x1_0000
    ensures EntriesOf(env, col.ty, ordinal, rows).Ok? <==>
            forall r :: r in rows ==> r.values[ordinal].Null? || Indexable(col.ty)
  {
    if rows != [] {
      var last := rows[|rows| - 1];
      Seqs.Split(rows);
      EntriesOfExist(env, col, ordinal, rows[..|rows| - 1]);
      KeyExists(env, col, last.values[ordinal]);
      assert forall r :: r in rows <==> r in rows[..|rows| - 1] || r == last;
    }
  }
}
