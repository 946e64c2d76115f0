/** Running an optimized query over real trees: the loops of the scan, fetch and filter operators
    (src/executor/operator.cpp). */
module Executor {
  import opened Decimal
  import opened KeyOrder
  import opened KeyRanges
  import opened Values
  import opened Casts
  import opened Expressions
  import opened IndexSelect
  import opened IndexPlan
  import opened Optimizer
  import opened ProperEval
  import BTree
  import BTreeScan

  /** IndexScanOp: one scanner per range, drained one after the other. */
  method IndexScanAll(tree: BTree.Index, ranges: seq<Range>) returns (out: seq<Entry>)
    requires tree.Valid()
    ensures out == ScanRanges(BTreeScan.InOrder(tree.tree), ranges)
  {
    out := [];
    for i := 0 to |ranges|
      invariant out == ScanRanges(BTreeScan.InOrder(tree.tree), ranges[..i])
    {
      assert ranges[..i + 1][..i] == ranges[..i];
      var part := BTreeScan.ScanAll(tree, ranges[i].lo, ranges[i].hi);
      out := out + part;
    }
    assert ranges[..|ranges|] == ranges;
  }

  lemma {:induction false} FetchSnoc(heap: seq<Stored>, es: seq<Entry>, e: Entry)
    ensures FetchRows(heap, es + [e]) == FetchRows(heap, es) + Lookup(heap, e)
  {
    if es == [] {
      assert es + [e] == [e] && FetchRows(heap, [e][1..]) == [];
    } else {
      assert (es + [e])[1..] == es[1..] + [e];
      FetchSnoc(heap, es[1..], e);
    }
  }

  /** FetchOp: read each referenced row that is still alive. */
  method FetchAll(heap: seq<Stored>, es: seq<Entry>) returns (rows: seq<Stored>)
    ensures rows == FetchRows(heap, es)
  {
    rows := [];
    for i := 0 to |es|
      invariant rows == FetchRows(heap, es[..i])
    {
      assert es[..i + 1] == es[..i] + [es[i]];
      FetchSnoc(heap, es[..i], es[i]);
      rows := rows + Lookup(heap, es[i]);
    }
    assert es[..|es|] == es;
  }

  lemma {:induction false} FilterSplit(env: Env, pred: Expr, a: seq<Stored>, b: seq<Stored>)
    ensures var l, r, all := FilterRows(env, pred, a), FilterRows(env, pred, b), FilterRows(env, pred, a + b);
            if l.Raise? || r.Raise? then all.Raise? else all == Ok(l.value + r.value)
  {
    if a == [] {
      assert a + b == b;
      var r := FilterRows(env, pred, b);
      assert r.Ok? ==> [] + r.value == r.value;
    } else {
      assert (a + b)[1..] == a[1..] + b;
      FilterSplit(env, pred, a[1..], b);
      var m, l, r := WhereMatch(env, pred, a[0].values), FilterRows(env, pred, a[1..]), FilterRows(env, pred, b);
      if m.Ok? && l.Ok? && r.Ok? {
        var first: seq<Stored> := if m.value then [a[0]] else [];
        assert first + (l.value + r.value) == (first + l.value) + r.value;
      }
    }
  }

  lemma {:induction false} FilterOne(env: Env, pred: Expr, x: Stored)
    ensures var m := WhereMatch(env, pred, x.values);
            FilterRows(env, pred, [x]) == if m.Raise? then Raise else Ok(if m.value then [x] else [])
  {
    var none: seq<Stored> := [];
    assert [x][1..] == none && FilterRows(env, pred, none) == Ok(none);
    assert none + none == none && [x] + none == [x];
  }

  lemma {:induction false} SplitAt<T>(s: seq<T>, k: nat)
    requires k <= |s|
    ensures s == s[..k] + s[k..]
  {
  }

  /** FilterOp: stops at the first row on which the predicate raises. */
  method FilterAll(env: Env, pred: Expr, rows: seq<Stored>) returns (r: Outcome<seq<Stored>>)
    ensures r == FilterRows(env, pred, rows)
  {
    var out := [];
    for i := 0 to |rows|
      invariant FilterRows(env, pred, rows[..i]) == Ok(out)
    {
      assert rows[..i + 1] == rows[..i] + [rows[i]];
      FilterSplit(env, pred, rows[..i], [rows[i]]);
      FilterOne(env, pred, rows[i]);
      assert out + [] == out;
      var m := WhereMatch(env, pred, rows[i].values);
      if m.Raise? {
        SplitAt(rows, i + 1);
        FilterSplit(env, pred, rows[..i + 1], rows[i + 1..]);
        return Raise;
      }
      if m.value {
        out := out + [rows[i]];
      }
    }
    assert rows[..|rows|] == rows;
    r := Ok(out);
  }

  /** Optimize and run Filter(SeqScan). A plain query that raises on no row gives the same rows, except that on an empty
      table planning may raise. */
  method Query(env: Env, pred: Expr, cols: seq<TypeAttr>, idxs: seq<IndexEntry>, heap: seq<Stored>,
               trees: map<nat, BTree.Index>, ghost orders: nat -> seq<Entry>)
    returns (r: Outcome<seq<Stored>>)
    requires ProperEnv(env) && ProperExpr(pred) && WellTyped(cols, heap) && KeptOn(env, pred, heap)
    requires DistinctPlaces(heap) && AllAgree(env, idxs, cols, heap, orders)
    requires forall i :: 0 <= i < |idxs| ==> idxs[i].fid in trees
    requires forall f :: f in trees ==> trees[f].Valid() && orders(f) == BTreeScan.InOrder(trees[f].tree)
    ensures heap != [] && FilterRows(env, pred, heap).Ok? ==>
              r.Ok? && multiset(r.value) == multiset(FilterRows(env, pred, heap).value)
    ensures heap == [] ==> r == if PlanningRaises(env, pred, idxs, cols) then Raise else Ok([])
  {
    var o := Optimize(env, pred, idxs, cols);
    if o.Raise? {
      PlanningRaisesAlone(env, pred, idxs, cols, heap);
      return Raise;
    }
    if FilterRows(env, pred, heap).Ok? {
      OptimizeKeepsRows(env, pred, idxs, cols, o.value, heap, orders);
    }
    match o.value
    case ScanAlone => r := Ok(heap);
    case NoRows => r := Ok([]);
    case Select(p, plan) =>
      match plan {
        case Unchanged => r := FilterAll(env, p, heap);
        case Empty => r := Ok([]);
        case Fetched(fid, ranges, residual) =>
          var es := IndexScanAll(trees[fid], ranges);
          var rows := FetchAll(heap, es);
          if residual.Some? {
            r := FilterAll(env, residual.value, rows);
          } else {
            r := Ok(rows);
          }
      }
  }
}
