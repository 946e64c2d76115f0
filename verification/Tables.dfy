/** Tables as the statements change them: heap pages and the trees of the indexes (src/catalog/catalog_dml.cpp,
    src/catalog/catalog_ddl.cpp, src/storage/engine.cpp). */
module Tables {
  import opened Bytes
  import opened Decimal
  import opened LogRecords
  import opened KeyOrder
  import opened Values
  import opened Casts
  import opened IndexKeys
  import opened IndexPlan
  import opened IndexSelect
  import opened Catalog
  import BTree
  import Disk
  import HeapPage
  import RowCodec

  lemma {:induction false} AddEntriesRaise(env: Env, cols: seq<Column>, values: seq<Value>, n: nat, s: nat, ixs: seq<Ix>, i: nat)
    requires i <= |ixs| && AddEntries(env, cols, values, n, s, ixs[..i]).Raise?
    ensures AddEntries(env, cols, values, n, s, ixs).Raise?
    decreases |ixs| - i
  {
    if i < |ixs| {
      assert ixs[..i + 1][..i] == ixs[..i];
      AddEntriesRaise(env, cols, values, n, s, ixs, i + 1);
    } else {
      assert ixs[..i] == ixs;
    }
  }

  /** The key of a row for one index, or the reasons why there is none. */
  function EntryKey(env: Env, cols: seq<Column>, values: seq<Value>, s: nat, ix: Ix): Outcome<IndexKey> {
    if ix.ordinal >= |values| || ix.ordinal >= |cols| || s >= 0x1_0000 then Raise
    else EncodeKey(env, cols[ix.ordinal].ty, values[ix.ordinal])
  }

  lemma {:induction false} NextEntry(env: Env, cols: seq<Column>, values: seq<Value>, n: nat, s: nat, ixs: seq<Ix>, i: nat, out: seq<Ix>)
    requires i < |ixs| && n < MAX_PAGE && AddEntries(env, cols, values, n, s, ixs[..i]) == Ok(out)
    ensures var k := EntryKey(env, cols, values, s, ixs[i]);
            if k.Raise? then AddEntries(env, cols, values, n, s, ixs).Raise?
            else s < 0x1_0000 && AddEntries(env, cols, values, n, s, ixs[..i + 1])
                   == Ok(out + [ixs[i].(entries := ixs[i].entries + {Entry(k.value, n, s)})])
  {
    assert ixs[..i + 1][..i] == ixs[..i];
    if EntryKey(env, cols, values, s, ixs[i]).Raise? {
      AddEntriesRaise(env, cols, values, n, s, ixs, i + 1);
    }
  }

  lemma {:induction false} Advance<T>(cur: seq<T>, before: seq<T>, i: nat, x: T)
    requires i < |cur| == |before| && cur[i..] == before[i..]
    ensures cur[i := x][..i + 1] == cur[..i] + [x] && cur[i := x][i + 1..] == before[i + 1..]
  {
    assert forall k :: i < k < |cur| ==> cur[k] == cur[i..][k - i] == before[k];
  }

  lemma {:induction false} UpdateRaise(env: Env, cols: seq<Column>, db: Db, rows: seq<RowUpdate>, i: nat)
    requires i <= |rows| && UpdatesInRange(rows) && Update(env, cols, db, rows[..i]).Raise?
    ensures Update(env, cols, db, rows).Raise?
    decreases |rows| - i
  {
    if i < |rows| {
      assert rows[..i + 1][..i] == rows[..i];
      UpdateRaise(env, cols, db, rows, i + 1);
    } else {
      assert rows[..i] == rows;
    }
  }

  lemma {:induction false} EntriesRaise(env: Env, ty: TypeAttr, ordinal: nat, rows: seq<Stored>, i: nat)
    requires i <= |rows| && EntriesOf(env, ty, ordinal, rows[..i]).Raise?
    ensures EntriesOf(env, ty, ordinal, rows).Raise?
    decreases |rows| - i
  {
    if i < |rows| {
      assert rows[..i + 1][..i] == rows[..i];
      EntriesRaise(env, ty, ordinal, rows, i + 1);
    } else {
      assert rows[..i] == rows;
    }
  }

  /** The state after the first k of the places have been deleted. */
  ghost predicate Cleared(db: Db, db': Db, refs: seq<Stored>, k: nat)
    requires k <= |refs|
  {
    && db'.pages.Keys == db.pages.Keys && db'.tail == db.tail && db'.indexes == db.indexes
    && (forall n :: n in db.pages ==> |db'.pages[n].slots| == |db.pages[n].slots| && db'.pages[n].free == db.pages[n].free)
    && (forall n: nat, s: nat :: LiveAt(db', n, s) ==> LiveAt(db, n, s) && forall i :: 0 <= i < k ==> !(refs[i].page == n && refs[i].slot == s))
  }

  lemma {:induction false} ClearOne(db: Db, db': Db, refs: seq<Stored>, k: nat)
    requires k < |refs| && Cleared(db, db', refs, k)
    ensures var d := Delete(db', refs[k].page, refs[k].slot); Cleared(db, if d.Ok? then d.value.0 else db', refs, k + 1)
  {
  }

  /** Once every live row has been deleted, all slots are dead. */
  lemma {:induction false} AllCleared(cols: seq<Column>, db: Db, db': Db, refs: seq<Stored>)
    requires HeapInv(cols, db) && refs == HeapRows(cols, db) && Cleared(db, db', refs, |refs|)
    ensures db' == DeleteAll(db)
  {
    HeapRowsAre(cols, db);
    forall n: nat, s: nat | LiveAt(db, n, s) ensures !LiveAt(db', n, s) {
      var r := Stored(n, s, ValuesAt(cols, db, n, s).value);
      assert IsRow(cols, db, r) && r in refs;
      var i :| 0 <= i < |refs| && refs[i] == r;
      assert refs[i].page == n && refs[i].slot == s;
    }
    forall n | n in db.pages ensures db'.pages[n] == DeleteAll(db).pages[n] {
      forall s | 0 <= s < |db.pages[n].slots| ensures db'.pages[n].slots[s] == None {
        assert !LiveAt(db', n, s);
      }
    }
  }

  /** A row goes to a place that was never allocated. */
  lemma {:induction false} PlaceIsNew(env: Env, cols: seq<Column>, db: Db, values: seq<Value>, filePages: nat)
    requires SaneCols(cols) && HeapInv(cols, db) && RowCodec.AllInRange(values) && RowCodec.Encode(cols, values).Done?
    requires |RowCodec.Encode(cols, values).value| <= HeapPage.MAX_RECORD
    requires Append(db, RowCodec.Encode(cols, values).value, filePages).Ok?
    ensures var (_, n, s) := Append(db, RowCodec.Encode(cols, values).value, filePages).value; !Allocated(db, n, s) && n < MAX_PAGE
  {
    EncodedRow(env, cols, values);
    AppendFresh(cols, db, RowCodec.Encode(cols, values).value, filePages);
  }

  /** A scan looks at the heap only. */
  lemma {:induction false} HeapRowsOf(cols: seq<Column>, db: Db, ixs: seq<Ix>)
    ensures HeapRows(cols, db.(indexes := ixs)) == HeapRows(cols, db)
  {
    RowsBelowOf(cols, db, ixs, db.tail + 1);
  }

  lemma {:induction false} RowsBelowOf(cols: seq<Column>, db: Db, ixs: seq<Ix>, n: nat)
    ensures RowsBelow(cols, db.(indexes := ixs), n) == RowsBelow(cols, db, n)
  {
    if n > 0 {
      RowsBelowOf(cols, db, ixs, n - 1);
      if n - 1 in db.pages {
        RowsOfPageOf(cols, db, ixs, n - 1, |db.pages[n - 1].slots|);
      }
    }
  }

  lemma {:induction false} RowsOfPageOf(cols: seq<Column>, db: Db, ixs: seq<Ix>, n: nat, k: nat)
    requires n in db.pages && k <= |db.pages[n].slots|
    ensures RowsOfPage(cols, db.(indexes := ixs), n, k) == RowsOfPage(cols, db, n, k)
  {
    if k > 0 {
      RowsOfPageOf(cols, db, ixs, n, k - 1);
    }
  }

  /** A row of a scan gets an entry that no row before it got. */
  lemma {:induction false} EntryIsNext(env: Env, ty: TypeAttr, ordinal: nat, rows: seq<Stored>, i: nat, e: Entry)
    requires DistinctPlaces(rows) && i < |rows| && EntriesOf(env, ty, ordinal, rows[..i]).Ok? && Points(e, rows[i].page, rows[i].slot)
    ensures e !in EntriesOf(env, ty, ordinal, rows[..i]).value
  {
    EntriesAre(env, ty, ordinal, rows[..i]);
    forall r | r in rows[..i] ensures !EntryFor(env, ty, ordinal, e, r) {
      var j :| 0 <= j < i && rows[j] == r;
    }
  }

  /** An index of a table and the tree that holds it. */
  datatype IndexRef = IndexRef(fid: nat, ordinal: nat, tree: BTree.Index)

  ghost predicate Keeps(ref: IndexRef, ix: Ix)
    reads ref.tree
  {
    ref.fid == ix.fid && ref.ordinal == ix.ordinal && ref.tree.Valid() && ref.tree.Entries() == ix.entries
  }

  predicate Separate(refs: seq<IndexRef>) {
    forall i, j :: 0 <= i < j < |refs| ==> refs[i].fid != refs[j].fid && refs[i].tree != refs[j].tree
  }

  ghost function TreesOf(refs: seq<IndexRef>): set<BTree.Index> {
    set i | 0 <= i < |refs| :: refs[i].tree
  }

  /** Each index has a tree of its own, which holds its entries. */
  ghost predicate AllHeld(refs: seq<IndexRef>, ixs: seq<Ix>)
    reads TreesOf(refs)
  {
    |refs| == |ixs| && Separate(refs) && forall i {:trigger Keeps(refs[i], ixs[i])} :: 0 <= i < |refs| ==> Keeps(refs[i], ixs[i])
  }

  class Table {
    const env: Env
    const cols: seq<Column>
    const sum: Disk.Page -> u32   // page_checksum
    var pages: map<nat, HPage>
    var tail: nat
    var refs: seq<IndexRef>
    ghost var indexes: seq<Ix>    // the entries of the trees
    ghost var done: seq<Op>       // the statements so far

    ghost function State(): Db
      reads this
    {
      Db(pages, tail, indexes)
    }

    ghost function Trees(): set<BTree.Index>
      reads this`refs
    {
      TreesOf(refs)
    }

    ghost predicate Linked()
      reads this`refs, this`indexes, Trees()
    {
      AllHeld(refs, indexes)
    }

    /** Page numbers are left for k more entries in every tree. */
    ghost predicate Room(k: nat)
      reads this`refs, Trees()
    {
      forall i :: 0 <= i < |refs| ==> refs[i].tree.Top() + k * BTree.MOST_NEW <= U32
    }

    /** The table is what a run of statements on a new one leaves, its indexes held by trees. */
    ghost predicate Valid()
      reads this, Trees()
    {
      && Linked() && SaneCols(cols) && OpsInRange(done)
      && State() == Run(env, cols, EMPTY, done)
    }

    /** A new table. */
    constructor (env: Env, cols: seq<Column>, sum: Disk.Page -> u32)
      requires SaneCols(cols)
      ensures Valid() && done == [] && this.env == env && this.cols == cols && Trees() == {}
    {
      this.env, this.cols, this.sum, pages, tail, refs := env, cols, sum, map[], 0, [];
      indexes, done := [], [];
    }

    /** insert_row: append to the last page, adding pages until the record fits. */
    method InsertRow(values: seq<Value>, filePages: nat) returns (r: Outcome<(nat, nat)>)
      requires RowCodec.AllInRange(values) && HeapInv(cols, State())
      modifies this`pages, this`tail
      ensures var rec := RowCodec.Encode(cols, values);
              if !rec.Done? || |rec.value| > HeapPage.MAX_RECORD || Append(old(State()), rec.value, filePages).Raise? then r.Raise?
              else r.Ok? && Append(old(State()), rec.value, filePages).value == (State(), r.value.0, r.value.1)
    {
      var rec := RowCodec.EncodeRow(cols, values);
      if !rec.Done? || |rec.value| > HeapPage.MAX_RECORD {
        return Raise;
      }
      var pgs: map<nat, HPage>, n: nat := pages, tail;
      if n == 0 {
        n := 1;
        pgs := pgs[n := Fresh()];
      }
      while !HasRoom(pgs[n], rec.value)
        invariant n in pgs
        invariant if n in pages then n == tail && pgs == pages
                  else pgs == pages[n := Fresh()] && n == Target(old(State()), rec.value, filePages)
        decreases n in pages
      {
        n := Max(filePages, n + 1);
        pgs := pgs[n := Fresh()];
      }
      if n >= MAX_PAGE {
        return Raise;
      }
      var s := |pgs[n].slots|;
      assert pgs[n := With(pgs[n], rec.value)] == pages[n := With(pgs[n], rec.value)];
      pages, tail := pgs[n := With(pgs[n], rec.value)], n;
      r := Ok((n, s));
    }

    /** The entry of a new row goes into the tree of one index. */
    method EnterOne(ref: IndexRef, values: seq<Value>, n: nat, s: nat, ghost ix: Ix, ghost db: Db) returns (k: Outcome<IndexKey>)
      requires Keeps(ref, ix) && ref.tree.Top() + BTree.MOST_NEW <= U32
      requires !Allocated(db, n, s) && n < MAX_PAGE && IxOk(env, cols, db, ix)
      modifies ref.tree
      ensures k == EntryKey(env, cols, values, s, ix)
      ensures k.Ok? ==> s < 0x1_0000 && Keeps(ref, ix.(entries := ix.entries + {Entry(k.value, n, s)}))
      ensures ref.tree.Top() <= old(ref.tree.Top()) + BTree.MOST_NEW
    {
      var o := ref.ordinal;
      if o >= |values| || o >= |cols| || s >= 0x1_0000 {
        return Raise;
      }
      k := EncodeKey(env, cols[o].ty, values[o]);
      if k.Raise? {
        return;
      }
      EntryIsNew(env, cols, db, ix, Entry(k.value, n, s));
      ref.tree.Insert(Entry(k.value, n, s));
    }

    /** The other trees are left alone. */
    method EnterAt(refs: seq<IndexRef>, i: nat, values: seq<Value>, n: nat, s: nat, ghost cur: seq<Ix>, ghost db: Db) returns (k: Outcome<IndexKey>)
      requires AllHeld(refs, cur) && i < |refs| && refs[i].tree.Top() + BTree.MOST_NEW <= U32
      requires !Allocated(db, n, s) && n < MAX_PAGE && IxOk(env, cols, db, cur[i])
      modifies refs[i].tree
      ensures k == EntryKey(env, cols, values, s, cur[i])
      ensures k.Ok? ==> s < 0x1_0000 && AllHeld(refs, cur[i := cur[i].(entries := cur[i].entries + {Entry(k.value, n, s)})])
      ensures refs[i].tree.Top() <= old(refs[i].tree.Top()) + BTree.MOST_NEW
      ensures forall j :: 0 <= j < |refs| && j != i ==> refs[j].tree != refs[i].tree
    {
      k := EnterOne(refs[i], values, n, s, cur[i], db);
    }

    method EnterEach(refs: seq<IndexRef>, values: seq<Value>, n: nat, s: nat, ghost before: seq<Ix>, ghost db: Db)
      returns (ok: bool, ghost cur: seq<Ix>)
      requires AllHeld(refs, before) && n < MAX_PAGE && forall i :: 0 <= i < |refs| ==> refs[i].tree.Top() + BTree.MOST_NEW <= U32
      requires !Allocated(db, n, s) && forall i :: 0 <= i < |before| ==> IxOk(env, cols, db, before[i])
      modifies TreesOf(refs)
      ensures var want := AddEntries(env, cols, values, n, s, before);
              if want.Raise? then !ok else ok && cur == want.value && AllHeld(refs, cur)
      ensures forall i :: 0 <= i < |refs| ==> refs[i].tree.Top() <= old(refs[i].tree.Top()) + BTree.MOST_NEW
    {
      cur := before;
      for i := 0 to |refs|
        invariant AllHeld(refs, cur) && cur[i..] == before[i..]
        invariant AddEntries(env, cols, values, n, s, before[..i]) == Ok(cur[..i])
        invariant forall j :: i <= j < |refs| ==> refs[j].tree.Top() == old(refs[j].tree.Top())
        invariant forall j :: 0 <= j < i ==> refs[j].tree.Top() <= old(refs[j].tree.Top()) + BTree.MOST_NEW
      {
        NextEntry(env, cols, values, n, s, before, i, cur[..i]);
        assert cur[i] == cur[i..][0] == before[i..][0] == before[i];
        var k := EnterAt(refs, i, values, n, s, cur, db);
        if k.Raise? {
          return false, cur;
        }
        Advance(cur, before, i, before[i].(entries := before[i].entries + {Entry(k.value, n, s)}));
        cur := cur[i := before[i].(entries := before[i].entries + {Entry(k.value, n, s)})];
      }
      assert before[..|before|] == before && cur[..|cur|] == cur;
      ok := true;
    }

    /** The entry of a new row goes into the tree of every index. */
    method EnterAll(values: seq<Value>, n: nat, s: nat, ghost db: Db) returns (ok: bool)
      requires Linked() && Room(1) && n < MAX_PAGE
      requires !Allocated(db, n, s) && forall i :: 0 <= i < |indexes| ==> IxOk(env, cols, db, indexes[i])
      modifies this`indexes, Trees()
      ensures var want := AddEntries(env, cols, values, n, s, old(indexes));
              if want.Raise? then !ok else ok && indexes == want.value && Linked()
      ensures forall i :: 0 <= i < |refs| ==> refs[i].tree.Top() <= old(refs[i].tree.Top()) + BTree.MOST_NEW
    {
      ghost var out;
      ok, out := EnterEach(refs, values, n, s, indexes, db);
      indexes := out;
    }

    /** insert: the row, then its entry in every index. */
    method InsertValues(values: seq<Value>, filePages: nat) returns (r: Outcome<(nat, nat)>)
      requires Linked() && Room(1) && SaneCols(cols) && Inv(env, cols, State()) && RowCodec.AllInRange(values)
      modifies this`pages, this`tail, this`indexes, Trees()
      ensures var want := Insert(env, cols, old(State()), values, filePages);
              if want.Raise? then r.Raise? else r.Ok? && State() == want.value && Linked()
      ensures forall i :: 0 <= i < |refs| ==> refs[i].tree.Top() <= old(refs[i].tree.Top()) + BTree.MOST_NEW
    {
      ghost var db := State();
      r := InsertRow(values, filePages);
      if r.Raise? {
        return;
      }
      var (n, s) := r.value;
      PlaceIsNew(env, cols, db, values, filePages);
      var ok := EnterAll(values, n, s, db);
      if !ok {
        r := Raise;
      }
    }

    /** delete_row: a tombstone; the number of rows deleted. */
    method DeleteRow(n: nat, s: nat) returns (r: Outcome<nat>)
      modifies this`pages
      ensures var want := Delete(old(State()), n, s);
              if want.Raise? then r.Raise? && State() == old(State()) else r.Ok? && want.value == (State(), r.value)
    {
      if n !in pages {
        return Raise;
      }
      if s >= |pages[n].slots| || pages[n].slots[s].None? {
        return Ok(0);
      }
      pages := pages[n := pages[n].(slots := pages[n].slots[s := None])];
      r := Ok(1);
    }

    /** One turn of the loop of update_rows. */
    method UpdateRow(row: RowUpdate) returns (ok: bool)
      requires Linked() && Room(1) && SaneCols(cols) && Inv(env, cols, State()) && RowCodec.AllInRange(row.values)
      modifies this`pages, this`tail, this`indexes, Trees()
      ensures var want := UpdateOne(env, cols, old(State()), row);
              if want.Raise? then !ok else ok && State() == want.value && Linked()
      ensures forall i :: 0 <= i < |refs| ==> refs[i].tree.Top() <= old(refs[i].tree.Top()) + BTree.MOST_NEW
    {
      ghost var before := State();
      var d := DeleteRow(row.page, row.slot);
      if d.Raise? || d.value == 0 {
        return false;
      }
      DeleteKeeps(env, cols, before, row.page, row.slot);
      var p := InsertValues(row.values, row.filePages);
      ok := p.Ok?;
    }

    method UpdateRows(rows: seq<RowUpdate>) returns (r: Outcome<nat>)
      requires Linked() && Room(|rows|) && SaneCols(cols) && Inv(env, cols, State()) && UpdatesInRange(rows)
      modifies this`pages, this`tail, this`indexes, Trees()
      ensures var want := Update(env, cols, old(State()), rows);
              if want.Raise? then r.Raise? else r == Ok(|rows|) && State() == want.value && Linked()
    {
      ghost var db := State();
      for i := 0 to |rows|
        invariant Update(env, cols, db, rows[..i]) == Ok(State()) && Linked()
        invariant forall j :: 0 <= j < |refs| ==> refs[j].tree.Top() <= old(refs[j].tree.Top()) + i * BTree.MOST_NEW
      {
        assert rows[..i + 1][..i] == rows[..i];
        UpdateKeeps(env, cols, db, rows[..i]);
        var ok := UpdateRow(rows[i]);
        if !ok {
          UpdateRaise(env, cols, db, rows, i + 1);
          return Raise;
        }
      }
      assert rows[..|rows|] == rows;
      r := Ok(|rows|);
    }

    /** delete_all_rows: collect the live rows, then delete each. */
    method DeleteAllRows() returns (n: nat)
      requires HeapInv(cols, State())
      modifies this`pages
      ensures State() == DeleteAll(old(State())) && n == |HeapRows(cols, old(State()))|
    {
      ghost var db := State();
      var refs := HeapRows(cols, Db(pages, tail, []));
      HeapRowsOf(cols, db, []);
      for k := 0 to |refs|
        invariant Cleared(db, State(), refs, k)
      {
        ClearOne(db, State(), refs, k);
        var d := DeleteRow(refs[k].page, refs[k].slot);
      }
      AllCleared(cols, db, State(), refs);
      n := |refs|;
    }

    /** build_index: a new tree with one entry for each row of a scan. */
    method BuildIndex(fid: nat, ordinal: nat) returns (r: Outcome<nat>)
      requires Linked() && HeapInv(cols, State()) && forall i :: 0 <= i < |refs| ==> refs[i].fid != fid
      requires 2 + |HeapRows(cols, State())| * BTree.MOST_NEW <= U32
      modifies this`refs, this`indexes
      ensures var want := CreateIndex(env, cols, old(State()), fid, ordinal);
              if want.Raise? then r.Raise? && State() == old(State()) else r.Ok? && State() == want.value && Linked()
      ensures fresh(Trees() - old(Trees()))
    {
      if ordinal >= |cols| {
        return Raise;
      }
      var rows := HeapRows(cols, Db(pages, tail, []));
      HeapRowsOf(cols, State(), []);
      HeapRowsAre(cols, State());
      var tree, ok := FillTree(rows, ordinal);
      if !ok {
        return Raise;
      }
      indexes := indexes + [Ix(fid, ordinal, tree.Entries())];
      refs := refs + [IndexRef(fid, ordinal, tree)];
      r := Ok(|rows|);
    }

    method FillTree(rows: seq<Stored>, ordinal: nat) returns (tree: BTree.Index, ok: bool)
      requires ordinal < |cols| && DistinctPlaces(rows) && 2 + |rows| * BTree.MOST_NEW <= U32
      ensures fresh(tree)
      ensures var want := EntriesOf(env, cols[ordinal].ty, ordinal, rows);
              ok == want.Ok? && (ok ==> tree.Valid() && tree.Entries() == want.value)
    {
      tree := new BTree.Index(sum);
      for i := 0 to |rows|
        invariant fresh(tree) && tree.Valid() && tree.Top() <= 2 + i * BTree.MOST_NEW
        invariant EntriesOf(env, cols[ordinal].ty, ordinal, rows[..i]) == Ok(tree.Entries())
      {
        assert rows[..i + 1][..i] == rows[..i];
        var k := RowKey(env, cols[ordinal].ty, ordinal, rows[i].values);
        if k.Raise? || rows[i].page >= MAX_PAGE || rows[i].slot >= 0x1_0000 {
          EntriesRaise(env, cols[ordinal].ty, ordinal, rows, i + 1);
          return tree, false;
        }
        var e := Entry(k.value, rows[i].page, rows[i].slot);
        EntryIsNext(env, cols[ordinal].ty, ordinal, rows, i, e);
        tree.Insert(e);
      }
      assert rows[..|rows|] == rows;
      ok := true;
    }

    /** What a statement needs besides a valid table: room in the trees, and a number of its own for a new index. */
    ghost predicate Feasible(op: Op)
      reads this, Trees()
    {
      match op
      case InsertOp(_, _) => Room(1)
      case UpdateOp(rows) => Room(|rows|)
      case CreateIndexOp(fid, _) =>
        (forall i :: 0 <= i < |refs| ==> refs[i].fid != fid) && 2 + |HeapRows(cols, State())| * BTree.MOST_NEW <= U32
      case _ => true
    }

    /** One statement. One that raises leaves the table to the rollback of its transaction. */
    method Execute(op: Op) returns (ok: bool)
      requires Valid() && OpInRange(op) && Feasible(op)
      modifies this, Trees()
      ensures ok == Apply(env, cols, old(State()), op).Ok?
      ensures ok ==> Valid() && done == old(done) + [op] && fresh(Trees() - old(Trees()))
    {
      RunKeeps(env, cols, done);
      RunMore(env, cols, done, op);
      match op {
        case InsertOp(values, filePages) =>
          var r := InsertValues(values, filePages);
          ok := r.Ok?;
        case DeleteOp(n, s) =>
          var r := DeleteRow(n, s);
          ok := r.Ok?;
        case DeleteAllOp =>
          var _ := DeleteAllRows();
          ok := true;
        case UpdateOp(rows) =>
          var r := UpdateRows(rows);
          ok := r.Ok?;
        case CreateIndexOp(fid, ordinal) =>
          var r := BuildIndex(fid, ordinal);
          ok := r.Ok?;
      }
      done := done + [op];
    }
  }

  lemma {:induction false} RunMore(env: Env, cols: seq<Column>, ops: seq<Op>, op: Op)
    requires OpsInRange(ops) && OpInRange(op)
    ensures OpsInRange(ops + [op])
    ensures var before := Run(env, cols, EMPTY, ops); var r := Apply(env, cols, before, op);
            Run(env, cols, EMPTY, ops + [op]) == if r.Raise? then before else r.value
  {
    assert (ops + [op])[..|ops|] == ops;
  }
}
