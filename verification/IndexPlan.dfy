/** The rewritten plan and its meaning (src/planner/index_select.cpp, src/executor/operator.cpp): given that index and
    heap agree, it returns the same rows as the filtered sequential scan. */
module IndexPlan {
  import opened Decimal
  import opened LogRecords
  import opened KeyOrder
  import opened KeyRanges
  import opened Values
  import opened Casts
  import opened Expressions
  import opened ProperEval
  import opened IndexKeys
  import opened IndexSelect

  /** A live row of the heap with its place. */
  datatype Stored = Stored(page: nat, slot: nat, values: seq<Value>)

  /** What becomes of Filter(SeqScan): left alone, no rows, or Fetch over IndexScan with a residual filter or none. */
  datatype Plan = Unchanged | Empty | Fetched(fid: nat, ranges: seq<Range>, residual: Option<Expr>)

  // ---- operators ----

  /** FilterOp over all rows of its child: raises when the predicate raises on one of them. */
  function FilterRows(env: Env, pred: Expr, rows: seq<Stored>): Outcome<seq<Stored>> {
    if rows == [] then Ok([])
    else
      var m, rest := WhereMatch(env, pred, rows[0].values), FilterRows(env, pred, rows[1..]);
      if m.Raise? || rest.Raise? then Raise else Ok((if m.value then [rows[0]] else []) + rest.value)
  }

  /** IndexScanOp: the ranges one after the other. */
  function ScanRanges(entries: seq<Entry>, ranges: seq<Range>): seq<Entry> {
    if ranges == [] then []
    else ScanRanges(entries, ranges[..|ranges| - 1]) + Pick(entries, ranges[|ranges| - 1].lo, ranges[|ranges| - 1].hi)
  }

  predicate At(r: Stored, e: Entry) {
    r.page == e.page && r.slot == e.slot
  }

  /** Reading a heap row by its place; nothing for a dead one. */
  function Lookup(heap: seq<Stored>, e: Entry): (r: seq<Stored>)
    ensures |r| <= 1
    ensures r != [] ==> r[0] in heap && At(r[0], e)
    ensures r == [] ==> forall i :: 0 <= i < |heap| ==> !At(heap[i], e)
  {
    if heap == [] then [] else if At(heap[0], e) then [heap[0]] else Lookup(heap[1..], e)
  }

  /** FetchOp: dead references are skipped. */
  function FetchRows(heap: seq<Stored>, es: seq<Entry>): seq<Stored> {
    if es == [] then [] else Lookup(heap, es[0]) + FetchRows(heap, es[1..])
  }

  function RunPlan(env: Env, plan: Plan, pred: Expr, heap: seq<Stored>, entries: nat -> seq<Entry>): Outcome<seq<Stored>> {
    match plan
    case Unchanged => FilterRows(env, pred, heap)
    case Empty => Ok([])
    case Fetched(fid, ranges, residual) =>
      var rows := FetchRows(heap, ScanRanges(entries(fid), ranges));
      if residual.Some? then FilterRows(env, residual.value, rows) else Ok(rows)
  }

  // ---- agreement of heap and index ----

  ghost predicate DistinctPlaces(heap: seq<Stored>) {
    forall i, j :: 0 <= i < j < |heap| ==> heap[i].page != heap[j].page || heap[i].slot != heap[j].slot
  }

  /** The rows are of the table's column types. */
  ghost predicate WellTyped(cols: seq<TypeAttr>, heap: seq<Stored>) {
    && (forall i :: 0 <= i < |heap| ==> |heap[i].values| == |cols|)
    && (forall i, c :: 0 <= i < |heap| && 0 <= c < |cols| ==> StoredAs(cols[c], heap[i].values[c]))
  }

  /** Some entry points at the row's place. */
  ghost predicate HasEntry(r: Stored, entries: seq<Entry>) {
    exists j :: 0 <= j < |entries| && At(r, entries[j])
  }

  /** Every live row has an entry; an entry at a live row's place has that row's key; entries are in tree order. */
  ghost predicate Agrees(env: Env, col: TypeAttr, ordinal: nat, heap: seq<Stored>, entries: seq<Entry>) {
    && Ascending(entries)
    && (forall i :: 0 <= i < |heap| ==> HasEntry(heap[i], entries))
    && (forall i, j :: 0 <= i < |heap| && 0 <= j < |entries| && At(heap[i], entries[j]) ==>
          RowKey(env, col, ordinal, heap[i].values) == Ok(entries[j].key))
  }

  // ---- the rewrite ----

  predicate HitBy(hits: seq<Hit>, i: nat) {
    exists j :: 0 <= j < |hits| && hits[j].conj == i
  }

  /** The conjuncts that no hit stands for. */
  function Residual(conj: seq<Expr>, hits: seq<Hit>, n: nat): seq<Expr>
    requires n <= |conj|
  {
    if n == 0 then []
    else Residual(conj, hits, n - 1) + if HitBy(hits, n - 1) then [] else [conj[n - 1]]
  }

  /** `plan` is the rewrite of a filter by the given index. */
  ghost predicate RewrittenBy(env: Env, pred: Expr, cols: seq<TypeAttr>, x: IndexEntry, plan: Plan) {
    && x.ordinal < |cols|
    && var conj := Flatten(pred);
       var hits := AllHits(env, conj, cols, x);
       && hits.Ok? && hits.value != []
       && match plan
          case Unchanged => false
          case Empty => forall k :: !InAll(k, hits.value)
          case Fetched(fid, ranges, residual) =>
            && fid == x.fid && RangesAscend(ranges) && (forall k :: KeyIn(k, ranges) <==> InAll(k, hits.value))
            && var rest := Residual(conj, hits.value, |conj|);
               residual == if rest == [] then None else Some(JoinAnd(rest))
  }

  /** Hits are ascending in their conjuncts; each is the match of its conjunct. */
  lemma {:induction false} HitsAre(env: Env, conj: seq<Expr>, col: TypeAttr, ordinal: nat, n: nat)
    requires n <= |conj| && Hits(env, conj, col, ordinal, n).Ok?
    ensures var hits := Hits(env, conj, col, ordinal, n).value;
            && (forall j :: 0 <= j < |hits| ==> hits[j].conj < n && MatchHit(env, conj[hits[j].conj], col, ordinal, hits[j].conj) == Ok(Some(hits[j])))
            && (forall i :: 0 <= i < n && !HitBy(hits, i) ==> MatchHit(env, conj[i], col, ordinal, i) == Ok(None))
  {
    if n > 0 {
      HitsAre(env, conj, col, ordinal, n - 1);
      var front, hits := Hits(env, conj, col, ordinal, n - 1).value, Hits(env, conj, col, ordinal, n).value;
      var h := MatchHit(env, conj[n - 1], col, ordinal, n - 1).value;
      assert forall j :: 0 <= j < |front| ==> hits[j] == front[j];
      if h.Some? {
        assert hits[|front|].conj == n - 1;
      }
    }
  }

  lemma {:induction false} HitsAscend(env: Env, conj: seq<Expr>, col: TypeAttr, ordinal: nat)
    requires Hits(env, conj, col, ordinal, |conj|).Ok?
    ensures var hits := Hits(env, conj, col, ordinal, |conj|).value;
            forall j :: 0 <= j < |hits| ==> RangesAscend(hits[j].ranges)
  {
    HitsAre(env, conj, col, ordinal, |conj|);
    var hits := Hits(env, conj, col, ordinal, |conj|).value;
    forall j | 0 <= j < |hits| ensures RangesAscend(hits[j].ranges) {
      HitAscends(env, conj[hits[j].conj], col, ordinal, hits[j].conj);
    }
  }

  lemma {:induction false} HitAscends(env: Env, e: Expr, col: TypeAttr, ordinal: nat, conj: nat)
    requires MatchHit(env, e, col, ordinal, conj).Ok? && MatchHit(env, e, col, ordinal, conj).value.Some?
    ensures RangesAscend(MatchHit(env, e, col, ordinal, conj).value.value.ranges)
  {
    match e
    case Compare(op, l, r) =>
      var c, op' := if IsCol(l, ordinal) then r.v else l.v, if IsCol(l, ordinal) then op else Mirror(op);
      KeyOfConst(env, col, c);
      CmpRangesExact(op', KeyOf(env, col, c).value.value, NULL_KEY);
    case IsNull(_, negate) =>
      NullRangesExact(negate, NULL_KEY);
  }

  /** The conjuncts that were not hit, joined again. */
  method TakeResidual(conj: seq<Expr>, hits: seq<Hit>) returns (residual: Option<Expr>)
    ensures var rest := Residual(conj, hits, |conj|); residual == if rest == [] then None else Some(JoinAnd(rest))
  {
    var rest := [];
    for i := 0 to |conj|
      invariant rest == Residual(conj, hits, i)
    {
      if !HitBy(hits, i) {
        rest := rest + [conj[i]];
      }
    }
    residual := None;
    if rest != [] {
      var e := JoinParts(rest);
      residual := Some(e);
    }
  }

  ghost predicate NoHit(env: Env, pred: Expr, cols: seq<TypeAttr>, idxs: seq<IndexEntry>) {
    forall i :: 0 <= i < |idxs| ==> idxs[i].ordinal < |cols| && AllHits(env, Flatten(pred), cols, idxs[i]) == Ok([])
  }

  /** The index is the most preferred one for this predicate. */
  ghost predicate Chosen(env: Env, pred: Expr, cols: seq<TypeAttr>, idxs: seq<IndexEntry>, b: nat)
    requires forall i :: 0 <= i < |idxs| ==> idxs[i].ordinal < |cols|
  {
    && b < |idxs| && AllHits(env, Flatten(pred), cols, idxs[b]).Ok?
    && Best(env, idxs, |idxs|, cols, Flatten(pred), b, AllHits(env, Flatten(pred), cols, idxs[b]).value)
  }

  /** rewrite_scan: the most preferred index serves the filter; without a hit the plan stays as it is. */
  method RewriteScan(env: Env, pred: Expr, idxs: seq<IndexEntry>, cols: seq<TypeAttr>) returns (r: Outcome<Plan>)
    requires forall i :: 0 <= i < |idxs| ==> idxs[i].ordinal < |cols|
    ensures r.Raise? <==> exists i :: 0 <= i < |idxs| && AllHits(env, Flatten(pred), cols, idxs[i]).Raise?
    ensures r == Ok(Unchanged) ==> NoHit(env, pred, cols, idxs)
    ensures r.Ok? && r.value != Unchanged ==>
              exists b :: 0 <= b < |idxs| && Chosen(env, pred, cols, idxs, b) && RewrittenBy(env, pred, cols, idxs[b], r.value)
  {
    if idxs == [] {
      return Ok(Unchanged);
    }
    var conj := FlattenTake(pred, []);
    assert conj == Flatten(pred);
    var pick := PickIndex(env, idxs, cols, conj);
    if pick.Raise? {
      return Raise;
    }
    if pick.value.None? {
      return Ok(Unchanged);
    }
    var (b, hits) := pick.value.value;
    HitsAscend(env, conj, cols[idxs[b].ordinal], idxs[b].ordinal);
    var ranges := IntersectRanges(hits);
    if ranges == [] {
      forall k ensures !InAll(k, hits) {
        assert !KeyIn(k, ranges);
      }
      assert Chosen(env, pred, cols, idxs, b) && RewrittenBy(env, pred, cols, idxs[b], Empty);
      return Ok(Empty);
    }
    var residual := TakeResidual(conj, hits);
    var plan := Fetched(idxs[b].fid, ranges, residual);
    assert Chosen(env, pred, cols, idxs, b) && RewrittenBy(env, pred, cols, idxs[b], plan);
    r := Ok(plan);
  }

  // ---- one row ----

  /** On a row, the predicate is true exactly when its key is in all hits and the residual conjuncts are true. */
  lemma {:induction false} RowSplit(env: Env, pred: Expr, col: TypeAttr, ordinal: nat, hits: seq<Hit>, row: seq<Value>)
    requires ProperEnv(env) && ProperExpr(pred) && ordinal < |row| && StoredAs(col, row[ordinal])
    requires Hits(env, Flatten(pred), col, ordinal, |Flatten(pred)|) == Ok(hits)
    requires WhereMatch(env, pred, row).Ok? && RowKey(env, col, ordinal, row).Ok?
    ensures var rest := Residual(Flatten(pred), hits, |Flatten(pred)|);
            && AllHave(env, rest, row)
            && (WhereMatch(env, pred, row).value <==>
                  InAll(RowKey(env, col, ordinal, row).value, hits) && AllTrue(env, rest, row))
  {
    var conj, key := Flatten(pred), RowKey(env, col, ordinal, row).value;
    FlattenMatches(env, pred, row);
    FlattenProper(pred);
    HitsAre(env, conj, col, ordinal, |conj|);
    ResidualMatches(env, conj, hits, |conj|, row);
    forall j | 0 <= j < |hits| ensures KeyIn(key, hits[j].ranges) <==> WhereMatch(env, conj[hits[j].conj], row).value {
      HitExact(env, conj[hits[j].conj], col, ordinal, hits[j].conj, row);
    }
    if AllTrue(env, conj, row) {
      assert InAll(key, hits);
    }
    if InAll(key, hits) && forall i :: 0 <= i < |conj| && !HitBy(hits, i) ==> WhereMatch(env, conj[i], row) == Ok(true) {
      forall i | 0 <= i < |conj| ensures WhereMatch(env, conj[i], row) == Ok(true) {
        if HitBy(hits, i) {
          var j :| 0 <= j < |hits| && hits[j].conj == i;
          assert KeyIn(key, hits[j].ranges);
        }
      }
    }
  }

  lemma {:induction false} ResidualMatches(env: Env, conj: seq<Expr>, hits: seq<Hit>, n: nat, row: seq<Value>)
    requires n <= |conj| && AllHave(env, conj, row)
    ensures AllHave(env, Residual(conj, hits, n), row)
    ensures AllTrue(env, Residual(conj, hits, n), row) <==>
            forall i :: 0 <= i < n && !HitBy(hits, i) ==> WhereMatch(env, conj[i], row) == Ok(true)
  {
    if n > 0 {
      ResidualMatches(env, conj, hits, n - 1, row);
      var last := if HitBy(hits, n - 1) then [] else [conj[n - 1]];
      AllConcat(env, Residual(conj, hits, n - 1), last, row);
      if !HitBy(hits, n - 1) {
        assert last[0] == conj[n - 1];
      }
    }
  }

  /** What is left to test are the conjuncts without a hit. */
  lemma {:induction false} ResidualIs(conj: seq<Expr>, hits: seq<Hit>, n: nat)
    requires n <= |conj|
    ensures forall e :: e in Residual(conj, hits, n) <==> LeftOver(conj, hits, n, e)
  {
    if n > 0 {
      ResidualIs(conj, hits, n - 1);
      forall e ensures LeftOver(conj, hits, n, e) <==> LeftOver(conj, hits, n - 1, e) || (!HitBy(hits, n - 1) && conj[n - 1] == e) {
      }
    }
  }

  predicate LeftOver(conj: seq<Expr>, hits: seq<Hit>, n: nat, e: Expr)
    requires n <= |conj|
  {
    exists i :: 0 <= i < n && !HitBy(hits, i) && conj[i] == e
  }

  // ---- all rows ----

  predicate NoDup<T(==)>(s: seq<T>) {
    forall i, j :: 0 <= i < j < |s| ==> s[i] != s[j]
  }

  lemma {:induction false} CountOnce<T>(s: seq<T>, x: T)
    requires NoDup(s)
    ensures multiset(s)[x] == if x in s then 1 else 0
  {
    if s != [] {
      var rest := s[1..];
      assert s == [s[0]] + rest;
      assert NoDup(rest) by {
        assert forall i :: 0 <= i < |rest| ==> rest[i] == s[i + 1];
      }
      CountOnce(rest, x);
      assert s[0] !in rest by {
        assert forall i :: 0 <= i < |rest| ==> rest[i] == s[i + 1];
      }
    }
  }

  /** Lists without repetition that have the same members are the same multiset. */
  lemma {:induction false} SameMembers<T>(a: seq<T>, b: seq<T>)
    requires NoDup(a) && NoDup(b) && forall x :: x in a <==> x in b
    ensures multiset(a) == multiset(b)
  {
    forall x ensures multiset(a)[x] == multiset(b)[x] {
      CountOnce(a, x);
      CountOnce(b, x);
    }
  }

  /** What a filter keeps. */
  lemma {:induction false} FilterIs(env: Env, pred: Expr, rows: seq<Stored>)
    requires forall i :: 0 <= i < |rows| ==> WhereMatch(env, pred, rows[i].values).Ok?
    ensures FilterRows(env, pred, rows).Ok?
    ensures forall x :: x in FilterRows(env, pred, rows).value <==> x in rows && WhereMatch(env, pred, x.values) == Ok(true)
    ensures NoDup(rows) ==> NoDup(FilterRows(env, pred, rows).value)
  {
    if rows != [] {
      var rest := rows[1..];
      assert rows == [rows[0]] + rest;
      FilterIs(env, pred, rest);
      if NoDup(rows) {
        assert forall i :: 0 <= i < |rest| ==> rest[i] == rows[i + 1];
        assert rows[0] !in rest;
      }
    }
  }

  lemma {:induction false} ScanIs(entries: seq<Entry>, ranges: seq<Range>)
    requires Ascending(entries) && RangesAscend(ranges)
    ensures Ascending(ScanRanges(entries, ranges))
    ensures forall e :: e in ScanRanges(entries, ranges) <==> e in entries && KeyIn(e.key, ranges)
  {
    if ranges != [] {
      var front, last := ranges[..|ranges| - 1], ranges[|ranges| - 1];
      AscendSplit(ranges);
      ScanIs(entries, front);
      PickExact(entries, last.lo, last.hi);
      var a, b := ScanRanges(entries, front), Pick(entries, last.lo, last.hi);
      forall e: Entry ensures KeyIn(e.key, ranges) <==> KeyIn(e.key, front) || Within(e.key, last) {
        KeyInSplit(e.key, ranges);
      }
      forall i, j | 0 <= i < |a| && 0 <= j < |b| ensures Ord(a[i]) < Ord(b[j]) {
        assert a[i] in a && b[j] in b;
        KeyInOne(b[j].key, last);
        OrdIsOrder(a[i], b[j]);
      }
      AscendingConcat(a, b);
    }
  }

  lemma {:induction false} AscendingConcat(a: seq<Entry>, b: seq<Entry>)
    requires Ascending(a) && Ascending(b) && forall i, j :: 0 <= i < |a| && 0 <= j < |b| ==> Ord(a[i]) < Ord(b[j])
    ensures Ascending(a + b)
  {
  }

  lemma {:induction false} LookupIs(heap: seq<Stored>, e: Entry, x: Stored)
    requires DistinctPlaces(heap)
    ensures Lookup(heap, e) == [x] <==> x in heap && At(x, e)
  {
    if heap != [] {
      var rest := heap[1..];
      assert heap == [heap[0]] + rest;
      assert forall i :: 0 <= i < |rest| ==> rest[i] == heap[i + 1];
      LookupIs(rest, e, x);
    }
  }

  ghost predicate PointedAt(x: Stored, es: seq<Entry>) {
    exists j :: 0 <= j < |es| && At(x, es[j])
  }

  /** No two entries point at the same row. */
  ghost predicate PointedOnce(heap: seq<Stored>, es: seq<Entry>) {
    forall i, j, k :: 0 <= i < |heap| && 0 <= j < k < |es| ==> !(At(heap[i], es[j]) && At(heap[i], es[k]))
  }

  lemma {:induction false} PointedSplit(x: Stored, es: seq<Entry>)
    requires es != []
    ensures PointedAt(x, es) <==> At(x, es[0]) || PointedAt(x, es[1..])
  {
    assert forall j :: 1 <= j < |es| ==> es[j] == es[1..][j - 1];
    if PointedAt(x, es[1..]) {
      var j :| 0 <= j < |es[1..]| && At(x, es[1..][j]);
      assert At(x, es[j + 1]);
    }
  }

  lemma {:induction false} PointedOnceRest(heap: seq<Stored>, es: seq<Entry>)
    requires es != [] && PointedOnce(heap, es)
    ensures PointedOnce(heap, es[1..])
    ensures forall x :: x in heap && At(x, es[0]) ==> !PointedAt(x, es[1..])
  {
    var rest := es[1..];
    assert forall j :: 0 <= j < |rest| ==> rest[j] == es[j + 1];
    forall x | x in heap && At(x, es[0]) ensures !PointedAt(x, rest) {
      var i :| 0 <= i < |heap| && heap[i] == x;
      forall j | 0 <= j < |rest| ensures !At(x, rest[j]) {
        assert !(At(heap[i], es[0]) && At(heap[i], es[j + 1]));
      }
    }
  }

  lemma {:induction false} FetchMembers(heap: seq<Stored>, es: seq<Entry>)
    requires DistinctPlaces(heap)
    ensures forall x :: x in FetchRows(heap, es) <==> x in heap && PointedAt(x, es)
  {
    if es != [] {
      FetchMembers(heap, es[1..]);
      forall x ensures x in FetchRows(heap, es) <==> x in heap && PointedAt(x, es) {
        FetchedFirst(heap, es[0], x);
        PointedSplit(x, es);
      }
    }
  }

  lemma {:induction false} FetchedFirst(heap: seq<Stored>, e: Entry, x: Stored)
    requires DistinctPlaces(heap)
    ensures x in Lookup(heap, e) <==> x in heap && At(x, e)
  {
    LookupIs(heap, e, x);
    if x in Lookup(heap, e) {
      assert Lookup(heap, e) == [x];
    }
  }

  lemma {:induction false} NoDupJoined<T>(first: seq<T>, rest: seq<T>)
    requires |first| <= 1 && NoDup(rest) && (first != [] ==> first[0] !in rest)
    ensures NoDup(first + rest)
  {
  }

  lemma {:induction false} FetchNoDup(heap: seq<Stored>, es: seq<Entry>)
    requires DistinctPlaces(heap) && PointedOnce(heap, es)
    ensures NoDup(FetchRows(heap, es))
  {
    if es != [] {
      PointedOnceRest(heap, es);
      FetchNoDup(heap, es[1..]);
      FetchMembers(heap, es[1..]);
      NoDupJoined(Lookup(heap, es[0]), FetchRows(heap, es[1..]));
    }
  }

  /** Entries at one live row's place are one entry. */
  lemma {:induction false} SameEntry(env: Env, col: TypeAttr, ordinal: nat, heap: seq<Stored>, entries: seq<Entry>,
                                     i: nat, e: Entry, f: Entry)
    requires Agrees(env, col, ordinal, heap, entries) && i < |heap| && e in entries && f in entries
    ensures At(heap[i], e) && At(heap[i], f) ==> e == f
  {
    var a :| 0 <= a < |entries| && entries[a] == e;
    var b :| 0 <= b < |entries| && entries[b] == f;
    if At(heap[i], entries[a]) && At(heap[i], entries[b]) {
      assert e.key == f.key;
    }
  }

  /** The rows the index plan fetches are those whose key lies in the ranges, once each. */
  lemma {:induction false} FetchedRows(env: Env, col: TypeAttr, ordinal: nat, heap: seq<Stored>, entries: seq<Entry>,
                                       ranges: seq<Range>)
    requires DistinctPlaces(heap) && Agrees(env, col, ordinal, heap, entries) && RangesAscend(ranges)
    ensures var rows := FetchRows(heap, ScanRanges(entries, ranges));
            && NoDup(rows)
            && forall x :: x in rows <==> x in heap && RowKey(env, col, ordinal, x.values).Ok?
                                          && KeyIn(RowKey(env, col, ordinal, x.values).value, ranges)
  {
    var es := ScanRanges(entries, ranges);
    ScanIs(entries, ranges);
    forall i, j, k | 0 <= i < |heap| && 0 <= j < k < |es| ensures !(At(heap[i], es[j]) && At(heap[i], es[k])) {
      assert es[j] in es && es[k] in es;
      SameEntry(env, col, ordinal, heap, entries, i, es[j], es[k]);
      OrdIsOrder(es[j], es[k]);
    }
    FetchMembers(heap, es);
    FetchNoDup(heap, es);
    forall x | x in heap
      ensures PointedAt(x, es) <==>
              RowKey(env, col, ordinal, x.values).Ok? && KeyIn(RowKey(env, col, ordinal, x.values).value, ranges)
    {
      var i :| 0 <= i < |heap| && heap[i] == x;
      assert HasEntry(heap[i], entries);
      var a :| 0 <= a < |entries| && At(heap[i], entries[a]);
      if PointedAt(x, es) {
        var j :| 0 <= j < |es| && At(x, es[j]);
        assert es[j] in entries;
        var b :| 0 <= b < |entries| && entries[b] == es[j];
        assert At(heap[i], entries[b]);
      }
      if KeyIn(entries[a].key, ranges) {
        assert entries[a] in entries && entries[a] in es;
        var j :| 0 <= j < |es| && es[j] == entries[a];
        assert At(x, es[j]);
      }
    }
  }

  /** The rewritten plan returns the same rows, each once, as the filter over the sequential scan, whenever the
      predicate raises on no live row and index and heap agree. */
  lemma {:induction false} RewriteKeepsRows(env: Env, pred: Expr, cols: seq<TypeAttr>, x: IndexEntry, plan: Plan, heap: seq<Stored>,
                         entries: nat -> seq<Entry>)
    requires ProperEnv(env) && ProperExpr(pred) && RewrittenBy(env, pred, cols, x, plan)
    requires WellTyped(cols, heap) && DistinctPlaces(heap)
    requires Agrees(env, cols[x.ordinal], x.ordinal, heap, entries(x.fid))
    requires forall i :: 0 <= i < |heap| ==> WhereMatch(env, pred, heap[i].values).Ok?
    ensures var want, got := FilterRows(env, pred, heap), RunPlan(env, plan, pred, heap, entries);
            want.Ok? && got.Ok? && multiset(got.value) == multiset(want.value)
  {
    var col, ord := cols[x.ordinal], x.ordinal;
    var conj := Flatten(pred);
    var hits := AllHits(env, conj, cols, x).value;
    var rest := Residual(conj, hits, |conj|);
    assert NoDup(heap);
    FilterIs(env, pred, heap);
    forall r | r in heap
      ensures RowKey(env, col, ord, r.values).Ok? && AllHave(env, rest, r.values)
      ensures WhereMatch(env, pred, r.values).value <==>
                InAll(RowKey(env, col, ord, r.values).value, hits) && AllTrue(env, rest, r.values)
    {
      var i :| 0 <= i < |heap| && heap[i] == r;
      KeyExists(env, col, ord, heap, entries(x.fid), i);
      RowSplit(env, pred, col, ord, hits, r.values);
    }
    if plan.Empty? {
      SameMembers([], FilterRows(env, pred, heap).value);
    } else {
      FetchedRows(env, col, ord, heap, entries(x.fid), plan.ranges);
      var rows := FetchRows(heap, ScanRanges(entries(x.fid), plan.ranges));
      if plan.residual.Some? {
        ResidualFilter(env, rest, rows, heap);
      } else {
        forall r | r in heap ensures AllTrue(env, rest, r.values) {
        }
      }
      SameMembers(RunPlan(env, plan, pred, heap, entries).value, FilterRows(env, pred, heap).value);
    }
  }

  lemma {:induction false} KeyExists(env: Env, col: TypeAttr, ordinal: nat, heap: seq<Stored>, entries: seq<Entry>, i: nat)
    requires Agrees(env, col, ordinal, heap, entries) && i < |heap|
    ensures RowKey(env, col, ordinal, heap[i].values).Ok?
  {
    assert HasEntry(heap[i], entries);
    var j :| 0 <= j < |entries| && At(heap[i], entries[j]);
    assert RowKey(env, col, ordinal, heap[i].values) == Ok(entries[j].key);
  }

  /** The residual filter raises on no fetched row and keeps those on which all residual conjuncts are true. */
  lemma {:induction false} ResidualFilter(env: Env, rest: seq<Expr>, rows: seq<Stored>, heap: seq<Stored>)
    requires rest != [] && NoDup(rows) && (forall r :: r in rows ==> r in heap)
    requires forall r :: r in heap ==> AllHave(env, rest, r.values)
    ensures var f := FilterRows(env, JoinAnd(rest), rows);
            f.Ok? && NoDup(f.value) && forall r :: r in f.value <==> r in rows && AllTrue(env, rest, r.values)
  {
    forall r | r in heap
      ensures WhereMatch(env, JoinAnd(rest), r.values).Ok?
      ensures WhereMatch(env, JoinAnd(rest), r.values) == Ok(true) <==> AllTrue(env, rest, r.values)
    {
      JoinMatches(env, rest, r.values);
    }
    assert forall i :: 0 <= i < |rows| ==> rows[i] in rows;
    FilterIs(env, JoinAnd(rest), rows);
  }
}
