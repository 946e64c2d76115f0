/** What statements do to the rows a table scan returns, whatever pages the rows are on (src/catalog/catalog_dml.cpp,
    src/storage/engine.cpp). */
module TableRows {
  import opened Decimal
  import opened Values
  import opened Casts
  import opened IndexPlan
  import opened Catalog
  import RowCodec
  import Seqs

  type Place = (nat, nat)

  predicate IsAt(r: Stored, p: Place) {
    r.page == p.0 && r.slot == p.1
  }

  predicate Free(db: Db, p: Place) {
    !Allocated(db, p.0, p.1)
  }

  function NewRow(cols: seq<Column>, values: seq<Value>, p: Place): Stored
    requires |cols| == |values|
  {
    Stored(p.0, p.1, RowCodec.StampedRow(cols, values, 0))
  }

  /** Inserting adds the row of the given values, as the column types stamp them, at a place never used before. */
  lemma {:induction false} InsertAddsRow(env: Env, cols: seq<Column>, db: Db, values: seq<Value>, filePages: nat) returns (p: Place)
    requires SaneCols(cols) && Inv(env, cols, db) && RowCodec.AllInRange(values) && Insert(env, cols, db, values, filePages).Ok?
    ensures Free(db, p) && |values| == |cols|
    ensures var db' := Insert(env, cols, db, values, filePages).value;
            && (forall r :: IsRow(cols, db', r) <==> IsRow(cols, db, r) || r == NewRow(cols, values, p))
            && (forall q: Place :: Free(db', q) <==> Free(db, q) && q != p)
  {
    var rec := RowCodec.Encode(cols, values).value;
    var (db1, n, s) := Append(db, rec, filePages).value;
    p := (n, s);
    EncodedRow(env, cols, values);
    AppendFresh(cols, db, rec, filePages);
    RowCodec.RowRoundTrip(cols, values);
    var db' := Insert(env, cols, db, values, filePages).value;
    assert db'.pages == db1.pages;
    forall q: Place ensures Free(db', q) <==> Free(db, q) && q != p {
      assert Allocated(db1, q.0, q.1) <==> Allocated(db, q.0, q.1) || (q.0 == n && q.1 == s);
    }
    forall r ensures IsRow(cols, db', r) <==> IsRow(cols, db, r) || r == NewRow(cols, values, p) {
      assert Allocated(db1, r.page, r.slot) <==> Allocated(db, r.page, r.slot) || (r.page == n && r.slot == s);
    }
  }

  /** Deleting takes away the row at the place, and that row only; the count says whether there was one. */
  lemma {:induction false} DeleteTakesRow(cols: seq<Column>, db: Db, p: Place)
    requires HeapInv(cols, db) && Delete(db, p.0, p.1).Ok?
    ensures var (db', count) := Delete(db, p.0, p.1).value;
            && (forall r :: IsRow(cols, db', r) <==> IsRow(cols, db, r) && !IsAt(r, p))
            && (forall q: Place :: Free(db', q) <==> Free(db, q))
            && (count == 1 <==> exists r :: IsRow(cols, db, r) && IsAt(r, p))
            && count <= 1
  {
    if LiveAt(db, p.0, p.1) {
      assert IsRow(cols, db, Stored(p.0, p.1, ValuesAt(cols, db, p.0, p.1).value));
    }
  }

  /** Afterwards there are none. */
  lemma {:induction false} DeleteAllEmpties(cols: seq<Column>, db: Db)
    requires HeapInv(cols, db)
    ensures forall r :: r !in HeapRows(cols, DeleteAll(db))
  {
    RowsBelowAre(cols, DeleteAll(db), db.tail + 1);
  }

  /** The row is one an update refers to. */
  predicate Superseded(rows: seq<RowUpdate>, r: Stored) {
    exists i :: 0 <= i < |rows| && IsAt(r, (rows[i].page, rows[i].slot))
  }

  /** The row is one an update puts in. */
  ghost predicate Renewed(cols: seq<Column>, rows: seq<RowUpdate>, places: seq<Place>, r: Stored)
    requires |places| == |rows|
  {
    exists i :: 0 <= i < |rows| && |rows[i].values| == |cols| && r == NewRow(cols, rows[i].values, places[i])
  }

  ghost predicate Distinct(places: seq<Place>) {
    forall i, j :: 0 <= i < j < |places| ==> places[i] != places[j]
  }

  /** From db to db', each row referred to has been replaced by one of its new values at a fresh place. */
  ghost predicate Replaces(cols: seq<Column>, db: Db, db': Db, rows: seq<RowUpdate>, places: seq<Place>) {
    && |places| == |rows| && Distinct(places)
    && (forall i :: 0 <= i < |rows| ==> Free(db, places[i]) && |rows[i].values| == |cols|)
    && (forall i, j :: 0 <= i < j < |rows| ==> rows[i].page != rows[j].page || rows[i].slot != rows[j].slot)
    && (forall r :: IsRow(cols, db', r) <==> (IsRow(cols, db, r) && !Superseded(rows, r)) || Renewed(cols, rows, places, r))
    && (forall q: Place :: Free(db', q) <==> Free(db, q) && q !in places)
  }

  lemma {:induction false} SupersededSnoc(rows: seq<RowUpdate>, last: RowUpdate, r: Stored)
    ensures Superseded(rows + [last], r) <==> Superseded(rows, r) || IsAt(r, (last.page, last.slot))
  {
    var all := rows + [last];
    if Superseded(rows, r) {
      var i :| 0 <= i < |rows| && IsAt(r, (rows[i].page, rows[i].slot));
      assert all[i] == rows[i];
    }
    assert all[|rows|] == last;
  }

  lemma {:induction false} RenewedSnoc(cols: seq<Column>, rows: seq<RowUpdate>, places: seq<Place>, last: RowUpdate, p: Place, r: Stored)
    requires |places| == |rows| && |last.values| == |cols|
    ensures Renewed(cols, rows + [last], places + [p], r) <==>
            Renewed(cols, rows, places, r) || r == NewRow(cols, last.values, p)
  {
    var all, ps := rows + [last], places + [p];
    if Renewed(cols, rows, places, r) {
      var i :| 0 <= i < |rows| && |rows[i].values| == |cols| && r == NewRow(cols, rows[i].values, places[i]);
      assert all[i] == rows[i] && ps[i] == places[i];
    }
    assert all[|rows|] == last && ps[|rows|] == p;
  }

  /** A reference to a row that is still there has not been used before, and is none of the new rows. */
  lemma {:induction false} StillThere(cols: seq<Column>, db: Db, mid: Db, rows: seq<RowUpdate>, places: seq<Place>, p: Place)
    requires Replaces(cols, db, mid, rows, places) && !Free(db, p)
    ensures forall r :: Renewed(cols, rows, places, r) ==> !IsAt(r, p)
    ensures (exists r :: IsRow(cols, mid, r) && IsAt(r, p)) ==>
              forall i :: 0 <= i < |rows| ==> rows[i].page != p.0 || rows[i].slot != p.1
  {
  }

  lemma {:induction false} ReplacesOneMore(cols: seq<Column>, db: Db, mid: Db, db': Db, rows: seq<RowUpdate>, places: seq<Place>,
                                           last: RowUpdate, p: Place)
    requires Replaces(cols, db, mid, rows, places) && Free(mid, p) && |last.values| == |cols|
    requires !Free(db, (last.page, last.slot)) && exists r :: IsRow(cols, mid, r) && IsAt(r, (last.page, last.slot))
    requires forall r :: IsRow(cols, db', r) <==>
                         (IsRow(cols, mid, r) && !IsAt(r, (last.page, last.slot))) || r == NewRow(cols, last.values, p)
    requires forall q: Place :: Free(db', q) <==> Free(mid, q) && q != p
    ensures Replaces(cols, db, db', rows + [last], places + [p])
  {
    var all, ps := rows + [last], places + [p];
    StillThere(cols, db, mid, rows, places, (last.page, last.slot));
    forall r ensures IsRow(cols, db', r) <==> (IsRow(cols, db, r) && !Superseded(all, r)) || Renewed(cols, all, ps, r) {
      SupersededSnoc(rows, last, r);
      RenewedSnoc(cols, rows, places, last, p, r);
    }
  }

  /** Updating one row: it is there before, and a row of the new values at a fresh place is there instead afterwards. */
  lemma {:induction false} UpdateOneReplaces(env: Env, cols: seq<Column>, db: Db, row: RowUpdate) returns (p: Place)
    requires SaneCols(cols) && Inv(env, cols, db) && RowCodec.AllInRange(row.values) && UpdateOne(env, cols, db, row).Ok?
    ensures Free(db, p) && |row.values| == |cols|
    ensures exists r :: IsRow(cols, db, r) && IsAt(r, (row.page, row.slot))
    ensures var db' := UpdateOne(env, cols, db, row).value;
            && (forall r :: IsRow(cols, db', r) <==>
                  (IsRow(cols, db, r) && !IsAt(r, (row.page, row.slot))) || r == NewRow(cols, row.values, p))
            && (forall q: Place :: Free(db', q) <==> Free(db, q) && q != p)
  {
    DeleteTakesRow(cols, db, (row.page, row.slot));
    DeleteKeeps(env, cols, db, row.page, row.slot);
    p := InsertAddsRow(env, cols, Delete(db, row.page, row.slot).value.0, row.values, row.filePages);
  }

  lemma {:induction false} ReplacesStep(env: Env, cols: seq<Column>, db: Db, mid: Db, rows: seq<RowUpdate>, before: seq<Place>,
                                        last: RowUpdate, db': Db, all: seq<RowUpdate>)
    returns (places: seq<Place>)
    requires all == rows + [last]
    requires SaneCols(cols) && Inv(env, cols, mid) && Replaces(cols, db, mid, rows, before)
    requires RowCodec.AllInRange(last.values) && UpdateOne(env, cols, mid, last) == Ok(db') && LiveAt(db, last.page, last.slot)
    ensures Replaces(cols, db, db', all, places)
  {
    var p := UpdateOneReplaces(env, cols, mid, last);
    places := before + [p];
    ReplacesOneMore(cols, db, mid, db', rows, before, last, p);
  }

  /** Updating rows of a scan replaces each of them by one row of its new values, and leaves the other rows alone. */
  lemma {:induction false} UpdateReplacesRows(env: Env, cols: seq<Column>, db: Db, rows: seq<RowUpdate>) returns (places: seq<Place>)
    requires SaneCols(cols) && Inv(env, cols, db) && UpdatesInRange(rows) && Update(env, cols, db, rows).Ok?
    requires forall i :: 0 <= i < |rows| ==> LiveAt(db, rows[i].page, rows[i].slot)
    ensures Replaces(cols, db, Update(env, cols, db, rows).value, rows, places)
  {
    if rows == [] {
      places := [];
    } else {
      var front, last := rows[..|rows| - 1], rows[|rows| - 1];
      var before := UpdateReplacesRows(env, cols, db, front);
      UpdateKeeps(env, cols, db, front);
      Seqs.Split(rows);
      places := ReplacesStep(env, cols, db, Update(env, cols, db, front).value, front, before, last,
                             Update(env, cols, db, rows).value, rows);
    }
  }
}
