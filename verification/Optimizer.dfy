/** The optimizer's passes over Filter(SeqScan) one after the other: constant folding, pruning of constant filters,
    index selection (src/planner/const_fold.cpp, src/planner/filter_prune.cpp, src/planner/index_select.cpp). */
module Optimizer {
  import opened Decimal
  import opened KeyOrder
  import opened Values
  import opened Casts
  import opened Expressions
  import opened ProperEval
  import opened Folding
  import opened IndexSelect
  import opened IndexPlan
  import IndexKeys

  // ---- filter_prune.cpp ----

  datatype ConstPred = NotConst | AlwaysTrue | AlwaysFalse

  function ClassifyPred(pred: Expr): Outcome<ConstPred> {
    if !pred.Const? then Ok(NotConst)
    else if pred.v.BoolV? then Ok(if pred.v.b then AlwaysTrue else AlwaysFalse)
    else if pred.v.Null? then Ok(AlwaysFalse)
    else Raise
  }

  /** What is left of Filter(SeqScan): the scan alone, no rows, or a predicate with the plan index selection makes. */
  datatype Optimized = ScanAlone | NoRows | Select(pred: Expr, plan: Plan)

  function RunOptimized(env: Env, o: Optimized, heap: seq<Stored>, entries: nat -> seq<Entry>): Outcome<seq<Stored>> {
    match o
    case ScanAlone => Ok(heap)
    case NoRows => Ok([])
    case Select(pred, plan) => RunPlan(env, plan, pred, heap, entries)
  }

  /** A constant predicate decides for all rows at once; any other constant than a truth value makes every row raise. */
  lemma {:induction false} ClassifyDecides(env: Env, pred: Expr, row: seq<Value>)
    ensures ClassifyPred(pred).Raise? ==> WhereMatch(env, pred, row).Raise?
    ensures ClassifyPred(pred) == Ok(AlwaysTrue) ==> WhereMatch(env, pred, row) == Ok(true)
    ensures ClassifyPred(pred) == Ok(AlwaysFalse) ==> WhereMatch(env, pred, row) == Ok(false)
    ensures ClassifyPred(pred) == Ok(NotConst) <==> !pred.Const?
  {
  }

  /** optimize: fold, prune, select. */
  method Optimize(env: Env, pred: Expr, idxs: seq<IndexEntry>, cols: seq<TypeAttr>) returns (r: Outcome<Optimized>)
    requires forall i :: 0 <= i < |idxs| ==> idxs[i].ordinal < |cols|
    ensures r.Raise? <==> PlanningRaises(env, pred, idxs, cols)
    ensures r.Ok? ==> OptimizedFrom(env, pred, idxs, cols, r.value)
  {
    var folded := Fold(env, pred, true);
    if folded.Raise? {
      return Raise;
    }
    var c := ClassifyPred(folded.value);
    if c.Raise? {
      return Raise;
    }
    match c.value
    case AlwaysTrue => r := Ok(ScanAlone);
    case AlwaysFalse => r := Ok(NoRows);
    case NotConst =>
      var plan := RewriteScan(env, folded.value, idxs, cols);
      r := if plan.Raise? then Raise else Ok(Select(folded.value, plan.value));
  }

  /** How an optimized plan comes about. */
  ghost predicate OptimizedFrom(env: Env, pred: Expr, idxs: seq<IndexEntry>, cols: seq<TypeAttr>, o: Optimized) {
    var f := Fold(env, pred, true);
    && f.Ok?
    && match o
       case ScanAlone => ClassifyPred(f.value) == Ok(AlwaysTrue)
       case NoRows => ClassifyPred(f.value) == Ok(AlwaysFalse)
       case Select(p, plan) =>
         && p == f.value && ClassifyPred(p) == Ok(NotConst)
         && (plan == Unchanged ==> NoHit(env, p, cols, idxs))
         && (plan != Unchanged ==>
               && (forall i :: 0 <= i < |idxs| ==> idxs[i].ordinal < |cols|)
               && exists b :: 0 <= b < |idxs| && Chosen(env, p, cols, idxs, b) && RewrittenBy(env, p, cols, idxs[b], plan))
  }

  /** Folding, pruning or the conversion of a constant to an index key raises. */
  ghost predicate PlanningRaises(env: Env, pred: Expr, idxs: seq<IndexEntry>, cols: seq<TypeAttr>) {
    var f := Fold(env, pred, true);
    f.Raise? || ClassifyPred(f.value).Raise? || (!f.value.Const? && KeyRaises(env, f.value, idxs, cols))
  }

  ghost predicate KeyRaises(env: Env, f: Expr, idxs: seq<IndexEntry>, cols: seq<TypeAttr>) {
    exists i :: 0 <= i < |idxs| && idxs[i].ordinal < |cols| && AllHits(env, Flatten(f), cols, idxs[i]).Raise?
  }

  /** The heap and each of the indexes agree. */
  ghost predicate AllAgree(env: Env, idxs: seq<IndexEntry>, cols: seq<TypeAttr>, heap: seq<Stored>, entries: nat -> seq<Entry>)
  {
    forall i :: 0 <= i < |idxs| ==>
      idxs[i].ordinal < |cols| && Agrees(env, cols[idxs[i].ordinal], idxs[i].ordinal, heap, entries(idxs[i].fid))
  }

  /** The two predicates keep the same rows, so filtering by either gives the same list. */
  lemma {:induction false} FilterSame(env: Env, p: Expr, q: Expr, rows: seq<Stored>)
    requires forall i :: 0 <= i < |rows| ==> WhereMatch(env, p, rows[i].values).Ok?
    requires forall i :: 0 <= i < |rows| ==> WhereMatch(env, q, rows[i].values) == WhereMatch(env, p, rows[i].values)
    ensures FilterRows(env, q, rows) == FilterRows(env, p, rows)
  {
    if rows != [] {
      var rest := rows[1..];
      assert forall i :: 0 <= i < |rest| ==> rest[i] == rows[i + 1];
      FilterSame(env, p, q, rest);
      assert WhereMatch(env, q, rows[0].values) == WhereMatch(env, p, rows[0].values);
    }
  }

  lemma {:induction false} FilterConst(env: Env, p: Expr, rows: seq<Stored>, b: bool)
    requires forall i :: 0 <= i < |rows| ==> WhereMatch(env, p, rows[i].values) == Ok(b)
    ensures FilterRows(env, p, rows) == Ok(if b then rows else [])
  {
    if rows != [] {
      var rest := rows[1..];
      assert forall i :: 0 <= i < |rest| ==> rest[i] == rows[i + 1];
      FilterConst(env, p, rest, b);
      assert WhereMatch(env, p, rows[0].values) == Ok(b);
      var first: seq<Stored> := if b then [rows[0]] else [];
      assert first + (if b then rest else []) == if b then rows else [];
    }
  }

  lemma {:induction false} FilterOkRows(env: Env, p: Expr, rows: seq<Stored>)
    requires FilterRows(env, p, rows).Ok?
    ensures forall i :: 0 <= i < |rows| ==> WhereMatch(env, p, rows[i].values).Ok?
  {
    if rows != [] {
      FilterOkRows(env, p, rows[1..]);
      assert forall i :: 1 <= i < |rows| ==> rows[i] == rows[1..][i - 1];
    }
  }

  /** Every comparison the simplifier rewrites keeps its truth on every row. */
  predicate KeptOn(env: Env, pred: Expr, heap: seq<Stored>) {
    forall i :: 0 <= i < |heap| ==> AllKept(env, pred, heap[i].values)
  }

  lemma {:induction false} RowsProper(cols: seq<TypeAttr>, heap: seq<Stored>, i: nat)
    requires WellTyped(cols, heap) && i < |heap|
    ensures AllProper(heap[i].values)
  {
    var row := heap[i].values;
    forall c | 0 <= c < |row| ensures Proper(row[c]) {
      assert IndexKeys.StoredAs(cols[c], row[c]);
    }
  }

  /** When the original query raises on no row, the optimized one returns the same rows, each once. */
  lemma {:induction false} OptimizeKeepsRows(env: Env, pred: Expr, idxs: seq<IndexEntry>, cols: seq<TypeAttr>, o: Optimized,
                          heap: seq<Stored>, entries: nat -> seq<Entry>)
    requires ProperEnv(env) && ProperExpr(pred) && WellTyped(cols, heap) && KeptOn(env, pred, heap)
    requires DistinctPlaces(heap) && AllAgree(env, idxs, cols, heap, entries)
    requires OptimizedFrom(env, pred, idxs, cols, o) && FilterRows(env, pred, heap).Ok?
    ensures var want, got := FilterRows(env, pred, heap), RunOptimized(env, o, heap, entries);
            got.Ok? && multiset(got.value) == multiset(want.value)
  {
    var f := Fold(env, pred, true).value;
    FilterOkRows(env, pred, heap);
    FoldProper(env, pred, true);
    forall i | 0 <= i < |heap| ensures WhereMatch(env, f, heap[i].values) == WhereMatch(env, pred, heap[i].values) {
      RowsProper(cols, heap, i);
      WhereFolded(env, pred, heap[i].values);
      ClassifyDecides(env, f, heap[i].values);
    }
    FilterSame(env, pred, f, heap);
    match o
    case ScanAlone =>
      forall i | 0 <= i < |heap| ensures WhereMatch(env, f, heap[i].values) == Ok(true) {
        ClassifyDecides(env, f, heap[i].values);
      }
      FilterConst(env, f, heap, true);
    case NoRows =>
      forall i | 0 <= i < |heap| ensures WhereMatch(env, f, heap[i].values) == Ok(false) {
        ClassifyDecides(env, f, heap[i].values);
      }
      FilterConst(env, f, heap, false);
    case Select(p, plan) =>
      if plan != Unchanged {
        var b :| 0 <= b < |idxs| && Chosen(env, p, cols, idxs, b) && RewrittenBy(env, p, cols, idxs[b], plan);
        RewriteKeepsRows(env, p, cols, idxs[b], plan, heap, entries);
      }
  }

  /** Planning raises only where folding or pruning does: constants always have their keys. */
  lemma {:induction false} KeysNeverRaise(env: Env, pred: Expr, idxs: seq<IndexEntry>, cols: seq<TypeAttr>)
    requires ProperEnv(env) && ProperExpr(pred) && Fold(env, pred, true).Ok?
    ensures !KeyRaises(env, Fold(env, pred, true).value, idxs, cols)
  {
    var f := Fold(env, pred, true).value;
    FoldProper(env, pred, true);
    FlattenProper(f);
    forall i | 0 <= i < |idxs| && idxs[i].ordinal < |cols| ensures AllHits(env, Flatten(f), cols, idxs[i]).Ok? {
      HitsNeverRaise(env, Flatten(f), cols[idxs[i].ordinal], idxs[i].ordinal, |Flatten(f)|);
    }
  }

  /** When planning raises, the plain query raises as well, if and only if the table has a row: on an empty table it
      returns no rows. */
  lemma {:induction false} PlanningRaisesAlone(env: Env, pred: Expr, idxs: seq<IndexEntry>, cols: seq<TypeAttr>, heap: seq<Stored>)
    requires ProperEnv(env) && ProperExpr(pred) && WellTyped(cols, heap) && KeptOn(env, pred, heap)
    requires PlanningRaises(env, pred, idxs, cols)
    ensures FilterRows(env, pred, heap).Raise? <==> heap != []
  {
    if heap != [] {
      RowsProper(cols, heap, 0);
      WhereFolded(env, pred, heap[0].values);
      if Fold(env, pred, true).Ok? {
        KeysNeverRaise(env, pred, idxs, cols);
        ClassifyDecides(env, Fold(env, pred, true).value, heap[0].values);
      }
    }
  }
}
