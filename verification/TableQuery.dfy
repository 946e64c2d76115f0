/** Queries over a table its statements have changed: the plan reads the trees they filled
    (src/catalog/catalog_dml.cpp, src/executor/operator.cpp, src/planner/const_fold.cpp). */
module TableQuery {
  import opened Decimal
  import opened KeyOrder
  import opened Values
  import opened Casts
  import opened Expressions
  import opened IndexSelect
  import opened IndexPlan
  import opened Optimizer
  import opened ProperEval
  import opened Catalog
  import opened Tables
  import BTree
  import BTreeScan
  import Executor

  /** The heap agrees with what a scan of the tree returns. */
  ghost predicate TreeAgrees(env: Env, cols: seq<Column>, heap: seq<Stored>, ref: IndexRef, entries: seq<Entry>) {
    ref.ordinal < |cols| && Agrees(env, Types(cols)[ref.ordinal], ref.ordinal, heap, entries)
  }

  lemma {:induction false} RowsAgree(table: Table)
    requires table.Valid()
    ensures WellTyped(Types(table.cols), HeapRows(table.cols, table.State())) && DistinctPlaces(HeapRows(table.cols, table.State()))
  {
    RunKeeps(table.env, table.cols, table.done);
    HeapWellTyped(table.cols, table.State());
    HeapRowsAre(table.cols, table.State());
  }

  lemma {:induction false} TreesAgree(table: Table, i: nat)
    requires table.Valid() && i < |table.refs|
    ensures table.refs[i].tree.Valid()
    ensures TreeAgrees(table.env, table.cols, HeapRows(table.cols, table.State()), table.refs[i],
                       BTreeScan.InOrder(table.refs[i].tree.tree))
  {
    var tree := table.refs[i].tree;
    RunKeeps(table.env, table.cols, table.done);
    assert Keeps(table.refs[i], table.indexes[i]);
    BTreeScan.InOrderGood(tree.tree, tree.height, 0, KEY_SPAN * PLACES, 0);
    BTreeScan.InOrderElems(tree.tree);
    InvAgrees(table.env, table.cols, table.State(), i, BTreeScan.InOrder(tree.tree));
  }

  function IndexList(refs: seq<IndexRef>): seq<IndexEntry> {
    seq(|refs|, i requires 0 <= i < |refs| => IndexEntry(refs[i].fid, refs[i].ordinal))
  }

  /** What the optimizer and the index scans are given: the table's indexes, and the tree of each. */
  method Indexes(refs: seq<IndexRef>)
    returns (idxs: seq<IndexEntry>, trees: map<nat, BTree.Index>, ghost lists: map<nat, seq<Entry>>)
    requires Separate(refs)
    ensures idxs == IndexList(refs)
    ensures forall j :: 0 <= j < |refs| ==> refs[j].fid in trees && refs[j].fid in lists
    ensures forall f :: f in trees ==> f in lists && ListOf(refs, f, trees[f], lists[f])
    ensures forall j :: 0 <= j < |refs| ==> lists[refs[j].fid] == BTreeScan.InOrder(refs[j].tree.tree)
  {
    idxs, trees, lists := [], map[], map[];
    for i := 0 to |refs|
      invariant idxs == IndexList(refs)[..i]
      invariant forall j :: 0 <= j < i ==> refs[j].fid in trees && refs[j].fid in lists
      invariant forall f :: f in trees ==> f in lists && ListOf(refs, f, trees[f], lists[f])
      invariant forall j :: 0 <= j < i ==> lists[refs[j].fid] == BTreeScan.InOrder(refs[j].tree.tree)
    {
      idxs := idxs + [IndexEntry(refs[i].fid, refs[i].ordinal)];
      trees := trees[refs[i].fid := refs[i].tree];
      lists := lists[refs[i].fid := BTreeScan.InOrder(refs[i].tree.tree)];
      assert IsTree(refs, i, refs[i].fid, trees[refs[i].fid]);
    }
  }

  predicate IsTree(refs: seq<IndexRef>, j: nat, f: nat, tree: BTree.Index)
    requires j < |refs|
  {
    refs[j].fid == f && refs[j].tree == tree
  }

  ghost predicate ListOf(refs: seq<IndexRef>, f: nat, tree: BTree.Index, es: seq<Entry>)
    reads tree
  {
    es == BTreeScan.InOrder(tree.tree) && exists j :: 0 <= j < |refs| && IsTree(refs, j, f, tree)
  }

  /** Optimize and run a query on a table: the rows are those of the plain query, whatever the statements were. */
  method QueryTable(table: Table, pred: Expr) returns (r: Outcome<seq<Stored>>)
    requires table.Valid() && ProperEnv(table.env) && ProperExpr(pred)
    requires KeptOn(table.env, pred, HeapRows(table.cols, table.State()))
    ensures var heap := HeapRows(table.cols, Run(table.env, table.cols, EMPTY, table.done));
            heap != [] && FilterRows(table.env, pred, heap).Ok? ==>
              r.Ok? && multiset(r.value) == multiset(FilterRows(table.env, pred, heap).value)
    ensures HeapRows(table.cols, Run(table.env, table.cols, EMPTY, table.done)) == [] ==>
              r == if PlanningRaises(table.env, pred, IndexList(table.refs), Types(table.cols)) then Raise else Ok([])
  {
    var heap := HeapRows(table.cols, Db(table.pages, table.tail, []));
    HeapRowsOf(table.cols, table.State(), []);
    RowsAgree(table);
    var idxs, trees;
    ghost var lists;
    idxs, trees, lists := Indexes(table.refs);
    ghost var orders: nat -> seq<Entry> := f => if f in lists then lists[f] else [];
    forall i | 0 <= i < |idxs|
      ensures idxs[i].ordinal < |table.cols|
      ensures Agrees(table.env, Types(table.cols)[idxs[i].ordinal], idxs[i].ordinal, heap, orders(idxs[i].fid))
    {
      TreesAgree(table, i);
    }
    forall f | f in trees ensures trees[f].Valid() && orders(f) == BTreeScan.InOrder(trees[f].tree) {
      assert ListOf(table.refs, f, trees[f], lists[f]);
      var j :| 0 <= j < |table.refs| && IsTree(table.refs, j, f, trees[f]);
      TreesAgree(table, j);
    }
    r := Executor.Query(table.env, pred, Types(table.cols), idxs, heap, trees, orders);
  }
}
