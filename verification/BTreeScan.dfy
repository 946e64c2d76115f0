/** Range scans along the leaf chain of a B+ tree (src/storage/btree.cpp, src/storage/btree.h). */
module BTreeScan {
  import opened LogRecords
  import opened KeyOrder
  import opened KeyRanges
  import opened TreeModel
  import opened BTree
  import opened Seqs

  // ---- the leaves of a tree, in order ----

  datatype LeafRec = LeafRec(no: nat, ents: seq<Entry>, next: nat)

  function Leaves(t: Tree): seq<LeafRec>
    decreases t, 0
  {
    match t
    case LeafT(no, ents, next) => [LeafRec(no, ents, next)]
    case InnerT(_, _, kids) => LeavesOf(kids)
  }

  function LeavesOf(ts: seq<Tree>): seq<LeafRec>
    decreases ts, 1
  {
    if ts == [] then [] else Leaves(ts[0]) + LeavesOf(ts[1..])
  }

  function AllEntries(ls: seq<LeafRec>): seq<Entry> {
    if ls == [] then [] else ls[0].ents + AllEntries(ls[1..])
  }

  /** All entries of a tree in leaf order. */
  function InOrder(t: Tree): seq<Entry> {
    AllEntries(Leaves(t))
  }

  lemma {:induction false} AllEntriesConcat(a: seq<LeafRec>, b: seq<LeafRec>)
    ensures AllEntries(a + b) == AllEntries(a) + AllEntries(b)
  {
    if a == [] {
      assert a + b == b;
    } else {
      assert (a + b)[1..] == a[1..] + b;
      AllEntriesConcat(a[1..], b);
    }
  }

  lemma {:induction false} LeavesOfConcat(a: seq<Tree>, b: seq<Tree>)
    ensures LeavesOf(a + b) == LeavesOf(a) + LeavesOf(b)
  {
    if a == [] {
      assert a + b == b;
    } else {
      assert (a + b)[1..] == a[1..] + b;
      LeavesOfConcat(a[1..], b);
    }
  }

  /** The leaf after leaf i. */
  function Next(ls: seq<LeafRec>, after: nat, i: nat): nat
    requires i < |ls|
  {
    if i + 1 < |ls| then ls[i + 1].no else after
  }

  predicate Chain(ls: seq<LeafRec>, after: nat) {
    forall i :: 0 <= i < |ls| ==> ls[i].next == Next(ls, after, i)
  }

  ghost predicate LeavesStored(nodes: map<nat, Node>, ls: seq<LeafRec>) {
    forall i :: 0 <= i < |ls| ==> ls[i].no in nodes && nodes[ls[i].no] == Leaf(ls[i].ents, ls[i].next)
  }

  /** Two stretches of the chain, one after the other. */
  lemma {:induction false} Append(a: seq<LeafRec>, b: seq<LeafRec>, after: nat, mid: int)
    requires b != [] && Chain(a, b[0].no) && Chain(b, after)
    requires Ascending(AllEntries(a)) && Ascending(AllEntries(b))
    requires AllBelow(AllEntries(a), mid) && AllFrom(AllEntries(b), mid)
    ensures Chain(a + b, after) && Ascending(AllEntries(a) + AllEntries(b))
  {
    var ls := a + b;
    assert forall i :: 0 <= i < |a| ==> ls[i] == a[i];
    assert forall i :: 0 <= i < |b| ==> ls[|a| + i] == b[i];
    forall i | 0 <= i < |ls| ensures ls[i].next == Next(ls, after, i) {
      if i < |a| {
        assert a[i].next == Next(a, b[0].no, i);
        assert i + 1 == |a| ==> ls[i + 1] == b[0];
      } else {
        assert b[i - |a|].next == Next(b, after, i - |a|);
      }
    }
  }

  predicate AllBelow(s: seq<Entry>, x: int) {
    forall i :: 0 <= i < |s| ==> Ord(s[i]) < x
  }

  predicate AllFrom(s: seq<Entry>, x: int) {
    forall i :: 0 <= i < |s| ==> Ord(s[i]) >= x
  }

  /** Entries of a tree lie within its bounds, ascend in leaf order, and its leaves are chained. */
  lemma {:induction false} InOrderGood(t: Tree, h: nat, lo: int, hi: int, after: nat)
    requires Good(t, h, lo, hi, after) && lo < hi
    ensures Ascending(InOrder(t)) && AllIn(InOrder(t), lo, hi)
    ensures Leaves(t) != [] && Leaves(t)[0].no == FirstLeaf(t) && Chain(Leaves(t), after)
    decreases t, 0
  {
    match t
    case LeafT(no, ents, next) =>
      assert AllEntries(Leaves(t)) == ents;
    case InnerT(no, seps, kids) =>
      KidsInOrder(kids, seps, h - 1, lo, hi, after, 0);
      assert kids[0..] == kids;
  }

  /** The same for the subtrees from i on. */
  lemma {:induction false} KidsInOrder(ts: seq<Tree>, seps: seq<Entry>, h: nat, lo: int, hi: int, after: nat, i: nat)
    requires Shape(ts, seps, lo, hi) && AllFit(ts, seps, h, lo, hi, after) && i < |ts| && lo < hi
    ensures Ascending(AllEntries(LeavesOf(ts[i..]))) && AllIn(AllEntries(LeavesOf(ts[i..])), Lo(seps, lo, i), hi)
    ensures var ls := LeavesOf(ts[i..]); ls != [] && ls[0].no == FirstLeaf(ts[i]) && Chain(ls, after)
    decreases ts, 1, |ts| - i
  {
    var rest := ts[i..];
    assert KidGood(ts, seps, h, lo, hi, after, i);
    InOrderGood(ts[i], h, Lo(seps, lo, i), Hi(seps, hi, i), After(ts, after, i));
    assert rest[0] == ts[i] && rest[1..] == ts[i + 1..];
    AllEntriesConcat(Leaves(ts[i]), LeavesOf(ts[i + 1..]));
    if i + 1 < |ts| {
      KidsInOrder(ts, seps, h, lo, hi, after, i + 1);
      Append(Leaves(ts[i]), LeavesOf(ts[i + 1..]), after, Ord(seps[i]));
    } else {
      assert LeavesOf(rest) == Leaves(ts[i]) && AllEntries(LeavesOf(rest)) == InOrder(ts[i]);
    }
  }

  /** The leaves hold exactly the tree's entries. */
  lemma {:induction false} InOrderElems(t: Tree)
    ensures forall e :: e in InOrder(t) <==> e in Elems(t)
    decreases t, 0
  {
    match t
    case LeafT(no, ents, next) =>
      assert AllEntries(Leaves(t)) == ents;
    case InnerT(no, seps, kids) =>
      KidsInOrderElems(kids);
  }

  lemma {:induction false} KidsInOrderElems(ts: seq<Tree>)
    ensures forall e :: e in AllEntries(LeavesOf(ts)) <==> e in ElemsOf(ts)
    decreases ts, 1
  {
    if ts != [] {
      InOrderElems(ts[0]);
      KidsInOrderElems(ts[1..]);
      AllEntriesConcat(Leaves(ts[0]), LeavesOf(ts[1..]));
      ElemsFirst(ts);
    }
  }

  lemma {:induction false} ElemsFirst(ts: seq<Tree>)
    requires ts != []
    ensures forall e :: e in ElemsOf(ts) <==> e in Elems(ts[0]) || e in ElemsOf(ts[1..])
  {
    forall e | e in ElemsOf(ts) ensures e in Elems(ts[0]) || e in ElemsOf(ts[1..]) {
      var i :| 0 <= i < |ts| && e in Elems(ts[i]);
      if i > 0 {
        assert ts[1..][i - 1] == ts[i];
      }
    }
    forall e | e in ElemsOf(ts[1..]) ensures e in ElemsOf(ts) {
      var i :| 0 <= i < |ts[1..]| && e in Elems(ts[1..][i]);
      assert ts[i + 1] == ts[1..][i];
    }
  }

  lemma {:induction false} LeavesAreStored(nodes: map<nat, Node>, t: Tree)
    requires Stored(nodes, t)
    ensures LeavesStored(nodes, Leaves(t))
    decreases t, 0
  {
    if t.InnerT? {
      KidLeavesStored(nodes, t.kids);
    }
  }

  lemma {:induction false} KidLeavesStored(nodes: map<nat, Node>, ts: seq<Tree>)
    requires AllStored(nodes, ts)
    ensures LeavesStored(nodes, LeavesOf(ts))
    decreases ts, 1
  {
    if ts != [] {
      LeavesAreStored(nodes, ts[0]);
      KidLeavesStored(nodes, ts[1..]);
    }
  }

  // ---- descending to the first leaf of a scan ----

  /** `t` is where a probe of position x belongs: everything in leaves before it is below x,
      everything in leaves after it is not. */
  ghost predicate Routed(whole: seq<LeafRec>, pre: seq<LeafRec>, t: Tree, post: seq<LeafRec>, x: int) {
    whole == pre + Leaves(t) + post && AllBelow(AllEntries(pre), x) && AllFrom(AllEntries(post), x)
  }

  /** The leaves of the children on either side of child j. */
  lemma {:induction false} KidsAround(ts: seq<Tree>, seps: seq<Entry>, x: int, h: nat, lo: int, hi: int, after: nat, j: nat)
    requires Shape(ts, seps, lo, hi) && AllFit(ts, seps, h, lo, hi, after) && j < |ts| && lo < hi
    requires forall i :: 0 <= i < j ==> Ord(seps[i]) <= x
    requires forall i :: j <= i < |seps| ==> Ord(seps[i]) > x
    ensures LeavesOf(ts) == LeavesOf(ts[..j]) + (Leaves(ts[j]) + LeavesOf(ts[j + 1..]))
    ensures AllBelow(AllEntries(LeavesOf(ts[..j])), x) && AllFrom(AllEntries(LeavesOf(ts[j + 1..])), x)
  {
    assert ts == ts[..j] + ts[j..] && ts[j..][1..] == ts[j + 1..];
    LeavesOfConcat(ts[..j], ts[j..]);
    KidsBefore(ts, seps, h, lo, hi, after, j);
    if j + 1 < |ts| {
      KidsInOrder(ts, seps, h, lo, hi, after, j + 1);
    }
  }

  lemma {:induction false} AllBelowConcat(a: seq<Entry>, b: seq<Entry>, x: int)
    requires AllBelow(a, x) && AllBelow(b, x)
    ensures AllBelow(a + b, x)
  {
  }

  lemma {:induction false} AllFromConcat(a: seq<Entry>, b: seq<Entry>, x: int)
    requires AllFrom(a, x) && AllFrom(b, x)
    ensures AllFrom(a + b, x)
  {
  }

  lemma {:induction false} Regroup<T>(a: seq<T>, b: seq<T>, c: seq<T>, d: seq<T>, e: seq<T>)
    ensures a + (b + (c + d)) + e == (a + b) + c + (d + e)
  {
  }

  /** Going down to the child an entry is routed to. */
  lemma {:induction false} RouteDown(whole: seq<LeafRec>, pre: seq<LeafRec>, t: Tree, post: seq<LeafRec>, x: int,
                  h: nat, lo: int, hi: int, after: nat, j: nat)
    requires Routed(whole, pre, t, post, x) && Good(t, h, lo, hi, after) && t.InnerT? && j < |t.kids| && lo < hi
    requires forall i :: 0 <= i < j && i < |t.seps| ==> Ord(t.seps[i]) <= x
    requires forall i :: j <= i < |t.seps| ==> Ord(t.seps[i]) > x
    ensures Routed(whole, pre + LeavesOf(t.kids[..j]), t.kids[j], LeavesOf(t.kids[j + 1..]) + post, x)
  {
    var front, back := LeavesOf(t.kids[..j]), LeavesOf(t.kids[j + 1..]);
    KidsAround(t.kids, t.seps, x, h - 1, lo, hi, after, j);
    Regroup(pre, front, Leaves(t.kids[j]), back, post);
    AllEntriesConcat(pre, front);
    AllEntriesConcat(back, post);
    AllBelowConcat(AllEntries(pre), AllEntries(front), x);
    AllFromConcat(AllEntries(back), AllEntries(post), x);
  }

  lemma {:induction false} KidsBefore(ts: seq<Tree>, seps: seq<Entry>, h: nat, lo: int, hi: int, after: nat, j: nat)
    requires Shape(ts, seps, lo, hi) && AllFit(ts, seps, h, lo, hi, after) && j < |ts| && lo < hi
    ensures AllBelow(AllEntries(LeavesOf(ts[..j])), Lo(seps, lo, j))
  {
    if j > 0 {
      KidsBefore(ts, seps, h, lo, hi, after, j - 1);
      assert ts[..j] == ts[..j - 1] + [ts[j - 1]];
      LeavesOfConcat(ts[..j - 1], [ts[j - 1]]);
      assert LeavesOf([ts[j - 1]]) == Leaves(ts[j - 1]) + LeavesOf([]) == Leaves(ts[j - 1]);
      AllEntriesConcat(LeavesOf(ts[..j - 1]), Leaves(ts[j - 1]));
      assert KidGood(ts, seps, h, lo, hi, after, j - 1);
      InOrderGood(ts[j - 1], h, Lo(seps, lo, j - 1), Hi(seps, hi, j - 1), After(ts, after, j - 1));
      assert Lo(seps, lo, j - 1) < Lo(seps, lo, j);
      AllBelowConcat(AllEntries(LeavesOf(ts[..j - 1])), InOrder(ts[j - 1]), Lo(seps, lo, j));
    }
  }

  /** The leaf a scan starts in: the descent of the constructor. */
  method FindLeaf(tree: Index, lower: Option<Bound>, probe: Entry) returns (no: nat, ghost pre: seq<LeafRec>, ghost post: seq<LeafRec>)
    requires tree.Valid() && (lower.Some? ==> probe == Entry(lower.value.key, 0, 0))
    ensures no in tree.nodes && tree.nodes[no].Leaf?
    ensures var leaf := LeafRec(no, tree.nodes[no].ents, tree.nodes[no].next);
            && Leaves(tree.tree) == pre + [leaf] + post && Ascending(leaf.ents)
            && AllBelow(AllEntries(pre), Probe(lower)) && AllFrom(AllEntries(post), Probe(lower))
  {
    no := tree.root;
    ghost var t, h, low, high, after := tree.tree, tree.height, 0, KEY_SPAN * PLACES, 0;
    ghost var whole, x := Leaves(t), Probe(lower);
    pre, post := [], [];
    assert whole == pre + Leaves(t) + post;
    var leaf := tree.IsLeaf(no);
    while !leaf
      invariant no in tree.nodes && leaf == tree.nodes[no].Leaf?
      invariant Good(t, h, low, high, after) && low < high && Stored(tree.nodes, t) && t.no == no
      invariant Routed(whole, pre, t, post, x)
      decreases t
    {
      ghost var seps := t.seps;
      var j := 0;
      if lower.Some? {
        j := tree.NodeChildIndex(no, probe);
      }
      RouteDown(whole, pre, t, post, x, h, low, high, after, j);
      assert KidGood(t.kids, seps, h - 1, low, high, after, j);
      pre, post := pre + LeavesOf(t.kids[..j]), LeavesOf(t.kids[j + 1..]) + post;
      no := tree.Child(no, j);
      h, low, high, after := h - 1, Lo(seps, low, j), Hi(seps, high, j), After(t.kids, after, j);
      t := t.kids[j];
      leaf := tree.IsLeaf(no);
    }
  }

  // ---- positions along the chain ----

  /** Entries in the leaves before leaf i. */
  function Offset(ls: seq<LeafRec>, i: nat): nat
    requires i <= |ls|
  {
    if i == 0 then 0 else Offset(ls, i - 1) + |ls[i - 1].ents|
  }

  lemma {:induction false} OffsetPrefix(ls: seq<LeafRec>, i: nat)
    requires i <= |ls|
    ensures Offset(ls, i) == |AllEntries(ls[..i])|
  {
    if i > 0 {
      OffsetPrefix(ls, i - 1);
      assert ls[..i] == ls[..i - 1] + [ls[i - 1]];
      AllEntriesConcat(ls[..i - 1], [ls[i - 1]]);
    }
  }

  /** Entry k of leaf i. */
  lemma {:induction false} EntryAt(ls: seq<LeafRec>, i: nat, k: nat)
    requires i < |ls| && k < |ls[i].ents|
    ensures Offset(ls, i) + k < |AllEntries(ls)| && AllEntries(ls)[Offset(ls, i) + k] == ls[i].ents[k]
  {
    OffsetPrefix(ls, i);
    assert ls == ls[..i] + ls[i..];
    AllEntriesConcat(ls[..i], ls[i..]);
    IndexInside(AllEntries(ls[..i]), ls[i].ents, AllEntries(ls[i..][1..]), k);
  }

  lemma {:induction false} IndexInside<T>(a: seq<T>, b: seq<T>, c: seq<T>, k: nat)
    requires k < |b|
    ensures (a + (b + c))[|a| + k] == b[k]
  {
  }

  lemma {:induction false} OffsetEnd(ls: seq<LeafRec>)
    ensures Offset(ls, |ls|) == |AllEntries(ls)|
  {
    OffsetPrefix(ls, |ls|);
    assert ls[..|ls|] == ls;
  }

  /** What the descent skips is below the probe and what is left is not. */
  lemma {:induction false} Landed(whole: seq<LeafRec>, pre: seq<LeafRec>, leaf: LeafRec, post: seq<LeafRec>, first: nat, x: int)
    requires whole == pre + [leaf] + post && first <= |leaf.ents|
    requires AllBelow(AllEntries(pre), x) && AllFrom(AllEntries(post), x)
    requires forall i :: 0 <= i < first ==> Ord(leaf.ents[i]) < x
    requires forall i :: first <= i < |leaf.ents| ==> Ord(leaf.ents[i]) >= x
    ensures whole[|pre|] == leaf
    ensures var all, p := AllEntries(whole), Offset(whole, |pre|) + first;
            && p <= |all|
            && (forall i :: 0 <= i < p ==> Ord(all[i]) < x) && (forall i :: p <= i < |all| ==> Ord(all[i]) >= x)
  {
    OffsetPrefix(whole, |pre|);
    assert whole[..|pre|] == pre;
    AllEntriesConcat(pre + [leaf], post);
    AllEntriesConcat(pre, [leaf]);
    assert AllEntries([leaf]) == leaf.ents;
    Parted(AllEntries(pre), leaf.ents, AllEntries(post), first, x);
  }

  lemma {:induction false} Parted(a: seq<Entry>, b: seq<Entry>, c: seq<Entry>, first: nat, x: int)
    requires AllBelow(a, x) && AllFrom(c, x) && first <= |b|
    requires forall i :: 0 <= i < first ==> Ord(b[i]) < x
    requires forall i :: first <= i < |b| ==> Ord(b[i]) >= x
    ensures var all, p := (a + b) + c, |a| + first;
            (forall i :: 0 <= i < p ==> Ord(all[i]) < x) && (forall i :: p <= i < |all| ==> Ord(all[i]) >= x)
  {
  }

  /** Position of the first entry a lower bound can admit. */
  function Probe(lower: Option<Bound>): int {
    if lower.Some? then Ord(Entry(lower.value.key, 0, 0)) else -1
  }

  /** Entries below the probe are out of range; the others are not below the bound. */
  lemma {:induction false} SkipsNothing(all: seq<Entry>, p: nat, lower: Option<Bound>, upper: Option<Bound>)
    requires p <= |all|
    requires forall i :: 0 <= i < p ==> Ord(all[i]) < Probe(lower)
    ensures Pick(all[p..], lower, upper) == Pick(all, lower, upper)
  {
    assert all == all[..p] + all[p..];
    PickConcat(all[..p], all[p..], lower, upper);
    PickNone(all[..p], lower, upper);
  }

  /** Keys never go down along ascending entries. */
  lemma {:induction false} KeysAscend(s: seq<Entry>, i: nat, j: nat)
    requires Ascending(s) && i <= j < |s|
    ensures KeyCmp(s[i].key, s[j].key) <= 0
  {
    OrdIsOrder(s[j], s[i]);
  }

  /** Once one key is beyond the upper bound, so are all that follow. */
  lemma {:induction false} BeyondHi(all: seq<Entry>, p: nat, lower: Option<Bound>, upper: Option<Bound>)
    requires Ascending(all) && p < |all| && !BelowHi(all[p].key, upper)
    ensures Pick(all[p..], lower, upper) == []
  {
    forall i | 0 <= i < |all| - p ensures !InRange(all[p..][i].key, lower, upper) {
      KeysAscend(all, p, p + i);
    }
    PickNone(all[p..], lower, upper);
  }

  lemma {:induction false} PickStep(all: seq<Entry>, p: nat, lower: Option<Bound>, upper: Option<Bound>)
    requires p < |all|
    ensures Pick(all[p..], lower, upper) ==
            (if InRange(all[p].key, lower, upper) then [all[p]] else []) + Pick(all[p + 1..], lower, upper)
  {
    assert all[p..][1..] == all[p + 1..];
  }

  lemma {:induction false} LeafNosPositive(t: Tree)
    requires 0 !in Nos(t)
    ensures forall i :: 0 <= i < |Leaves(t)| ==> Leaves(t)[i].no > 0
    decreases t, 0
  {
    if t.InnerT? {
      KidLeafNosPositive(t.kids);
    }
  }

  lemma {:induction false} KidLeafNosPositive(ts: seq<Tree>)
    requires 0 !in NosOf(ts)
    ensures forall i :: 0 <= i < |LeavesOf(ts)| ==> LeavesOf(ts)[i].no > 0
    decreases ts, 1
  {
    if ts != [] {
      LeafNosPositive(ts[0]);
      forall i | 0 <= i < |ts[1..]| ensures 0 !in Nos(ts[1..][i]) {
        assert ts[i + 1] == ts[1..][i];
      }
      KidLeafNosPositive(ts[1..]);
    }
  }

  // ---- the state of a scan ----

  /** The leaves, the place of the cursor among them, and the bounds. `loBound` is `lo` until the scan has
      left the key of an open lower bound; from then on it is None. */
  datatype View = View(nodes: map<nat, Node>, leaves: seq<LeafRec>, at: nat, slot: nat, lo: Option<Bound>, loBound: Option<Bound>,
                       hi: Option<Bound>)

  function Position(v: View): nat
    requires v.at <= |v.leaves|
  {
    Offset(v.leaves, v.at) + v.slot
  }

  /** What is left from position p on is not below the lower bound, and beyond it once the bound has been dropped. */
  predicate LoKept(all: seq<Entry>, p: nat, lo: Option<Bound>, loBound: Option<Bound>) {
    && (loBound == lo || (loBound.None? && lo.Some? && !lo.value.inclusive))
    && (lo.Some? && p < |all| ==>
         var c := KeyCmp(all[p].key, lo.value.key); if loBound.None? then c > 0 else c >= 0)
  }

  ghost predicate Consistent(v: View) {
    && LeavesStored(v.nodes, v.leaves) && Chain(v.leaves, 0) && Ascending(AllEntries(v.leaves))
    && (forall i :: 0 <= i < |v.leaves| ==> v.leaves[i].no > 0)
    && v.at <= |v.leaves| && v.slot <= (if v.at < |v.leaves| then |v.leaves[v.at].ents| else 0)
    && LoKept(AllEntries(v.leaves), Position(v), v.lo, v.loBound)
  }

  /** The entries still to be returned. */
  ghost function Left(v: View): seq<Entry>
    requires Consistent(v)
  {
    PositionIn(v);
    Pick(AllEntries(v.leaves)[Position(v)..], v.lo, v.hi)
  }

  lemma {:induction false} PositionIn(v: View)
    requires v.at <= |v.leaves| && v.slot <= (if v.at < |v.leaves| then |v.leaves[v.at].ents| else 0)
    ensures Position(v) <= |AllEntries(v.leaves)|
  {
    OffsetPrefix(v.leaves, v.at);
    assert v.leaves == v.leaves[..v.at] + v.leaves[v.at..];
    AllEntriesConcat(v.leaves[..v.at], v.leaves[v.at..]);
  }

  /** Moves a scan has left at most: over entries and from leaf to leaf. */
  ghost function Todo(v: View): nat
    requires Consistent(v)
  {
    PositionIn(v);
    (|v.leaves| - v.at) + (|AllEntries(v.leaves)| - Position(v))
  }

  ghost predicate OnEntry(v: View) {
    Consistent(v) && v.at < |v.leaves| && v.slot < |v.leaves[v.at].ents|
  }

  ghost function Current(v: View): Entry
    requires OnEntry(v)
  {
    v.leaves[v.at].ents[v.slot]
  }

  lemma {:induction false} StepOver(v: View)
    requires OnEntry(v)
    ensures var v' := v.(slot := v.slot + 1);
            Consistent(v') && Left(v) == (if InRange(Current(v).key, v.lo, v.hi) then [Current(v)] else []) + Left(v')
  {
    EntryAt(v.leaves, v.at, v.slot);
    StepAll(AllEntries(v.leaves), Position(v), v.lo, v.loBound, v.hi);
  }

  lemma {:induction false} StepAll(all: seq<Entry>, p: nat, lo: Option<Bound>, loBound: Option<Bound>, hi: Option<Bound>)
    requires Ascending(all) && p < |all| && LoKept(all, p, lo, loBound)
    ensures LoKept(all, p + 1, lo, loBound)
    ensures Pick(all[p..], lo, hi) == (if InRange(all[p].key, lo, hi) then [all[p]] else []) + Pick(all[p + 1..], lo, hi)
  {
    PickStep(all, p, lo, hi);
    if p + 1 < |all| {
      KeysAscend(all, p, p + 1);
    }
  }

  lemma {:induction false} DropLo(v: View)
    requires OnEntry(v) && v.lo.Some? && !v.lo.value.inclusive && KeyCmp(Current(v).key, v.lo.value.key) > 0
    ensures Consistent(v.(loBound := None)) && Left(v.(loBound := None)) == Left(v)
  {
    EntryAt(v.leaves, v.at, v.slot);
  }

  lemma {:induction false} NotBelowLo(v: View)
    requires OnEntry(v)
    ensures v.lo.Some? ==> KeyCmp(Current(v).key, v.lo.value.key) >= 0
    ensures v.loBound != v.lo ==> v.lo.Some? && KeyCmp(Current(v).key, v.lo.value.key) > 0
  {
    EntryAt(v.leaves, v.at, v.slot);
  }

  /** The scan is still held up at the key of an open lower bound. */
  ghost predicate AtOpenLo(v: View)
    requires OnEntry(v)
  {
    v.loBound.Some? && !v.loBound.value.inclusive && KeyCmp(Current(v).key, v.loBound.value.key) == 0
  }

  ghost function Taken(v: View): View {
    v.(slot := v.slot + 1, loBound := if v.loBound.Some? && !v.loBound.value.inclusive then None else v.loBound)
  }

  lemma {:induction false} Take(v: View)
    requires OnEntry(v) && BelowHi(Current(v).key, v.hi) && !AtOpenLo(v)
    ensures Consistent(Taken(v)) && [Current(v)] + Left(Taken(v)) == Left(v)
  {
    NotBelowLo(v);
    if v.loBound.Some? && !v.loBound.value.inclusive {
      TakeFirst(v);
    } else {
      StepOver(v);
    }
  }

  /** The first entry past an open lower bound. */
  lemma {:induction false} TakeFirst(v: View)
    requires OnEntry(v) && BelowHi(Current(v).key, v.hi)
    requires v.lo.Some? && v.loBound == v.lo && !v.lo.value.inclusive && KeyCmp(Current(v).key, v.lo.value.key) > 0
    ensures Consistent(Taken(v)) && [Current(v)] + Left(Taken(v)) == Left(v)
  {
    DropLo(v);
    StepOver(v.(loBound := None));
  }

  lemma {:induction false} PassOver(v: View)
    requires OnEntry(v) && AtOpenLo(v)
    ensures Consistent(v.(slot := v.slot + 1)) && Left(v.(slot := v.slot + 1)) == Left(v)
    ensures Todo(v.(slot := v.slot + 1)) < Todo(v)
  {
    NotBelowLo(v);
    StepOver(v);
  }

  lemma {:induction false} NextLeaf(v: View)
    requires Consistent(v) && v.at < |v.leaves| && v.slot == |v.leaves[v.at].ents|
    ensures Consistent(v.(at := v.at + 1, slot := 0)) && Left(v.(at := v.at + 1, slot := 0)) == Left(v)
    ensures Todo(v.(at := v.at + 1, slot := 0)) < Todo(v)
  {
  }

  lemma {:induction false} AtEnd(v: View)
    requires Consistent(v) && v.at == |v.leaves|
    ensures Left(v) == []
  {
    OffsetEnd(v.leaves);
  }

  lemma {:induction false} PastHi(v: View)
    requires OnEntry(v) && !BelowHi(Current(v).key, v.hi)
    ensures Left(v) == []
  {
    EntryAt(v.leaves, v.at, v.slot);
    BeyondHi(AllEntries(v.leaves), Position(v), v.lo, v.hi);
  }

  /** The state a scan starts in has everything in range still to come. */
  lemma {:induction false} Starts(nodes: map<nat, Node>, t: Tree, h: nat, pre: seq<LeafRec>, leaf: LeafRec, post: seq<LeafRec>, first: nat,
               lo: Option<Bound>, hi: Option<Bound>)
    requires Good(t, h, 0, KEY_SPAN * PLACES, 0) && Stored(nodes, t) && 0 !in Nos(t)
    requires Leaves(t) == pre + [leaf] + post && first <= |leaf.ents|
    requires AllBelow(AllEntries(pre), Probe(lo)) && AllFrom(AllEntries(post), Probe(lo))
    requires forall i :: 0 <= i < first ==> Ord(leaf.ents[i]) < Probe(lo)
    requires forall i :: first <= i < |leaf.ents| ==> Ord(leaf.ents[i]) >= Probe(lo)
    ensures Leaves(t)[|pre|] == leaf
    ensures Consistent(View(nodes, Leaves(t), |pre|, first, lo, lo, hi))
    ensures Left(View(nodes, Leaves(t), |pre|, first, lo, lo, hi)) == Pick(InOrder(t), lo, hi)
  {
    var whole, p := Leaves(t), Offset(Leaves(t), |pre|) + first;
    Landed(whole, pre, leaf, post, first, Probe(lo));
    ConsistentAt(nodes, t, h, |pre|, first, lo, hi);
    LeftAt(View(nodes, whole, |pre|, first, lo, lo, hi), p);
  }

  lemma {:induction false} LeftAt(v: View, p: nat)
    requires Consistent(v) && p == Position(v)
    requires forall i :: 0 <= i < p && i < |AllEntries(v.leaves)| ==> Ord(AllEntries(v.leaves)[i]) < Probe(v.lo)
    ensures Left(v) == Pick(AllEntries(v.leaves), v.lo, v.hi)
  {
    PositionIn(v);
    SkipsNothing(AllEntries(v.leaves), p, v.lo, v.hi);
  }

  lemma {:induction false} ConsistentAt(nodes: map<nat, Node>, t: Tree, h: nat, at: nat, first: nat, lo: Option<Bound>, hi: Option<Bound>)
    requires Good(t, h, 0, KEY_SPAN * PLACES, 0) && Stored(nodes, t) && 0 !in Nos(t)
    requires at < |Leaves(t)| && first <= |Leaves(t)[at].ents|
    requires forall i :: Offset(Leaves(t), at) + first <= i < |InOrder(t)| ==> Ord(InOrder(t)[i]) >= Probe(lo)
    ensures Consistent(View(nodes, Leaves(t), at, first, lo, lo, hi))
  {
    InOrderGood(t, h, 0, KEY_SPAN * PLACES, 0);
    LeafNosPositive(t);
    LeavesAreStored(nodes, t);
    var p := Offset(Leaves(t), at) + first;
    if lo.Some? && p < |InOrder(t)| {
      assert Ord(InOrder(t)[p]) >= Probe(lo);
    }
  }

  // ---- the scanner ----

  class Scanner {
    const index: Index
    var loBound: Option<Bound>     // reset once the scan has left the key of an open lower bound
    var hiBound: Option<Bound>
    var cur: Option<nat>           // the leaf the cursor is on
    var nextNo: nat                // the leaf to load next, 0 at the end of the chain
    var slot: nat
    var done: bool
    ghost var view: View

    ghost predicate Valid()
      reads this, index
    {
      && index.Pages() && index.nodes == view.nodes && Consistent(view)
      && (!done ==>
        && loBound == view.loBound && hiBound == view.hi
        && (if cur.Some? then view.at < |view.leaves| && cur.value == view.leaves[view.at].no && slot == view.slot
                              && nextNo == view.leaves[view.at].next
            else view.slot == 0 && nextNo == if view.at < |view.leaves| then view.leaves[view.at].no else 0))
    }

    /** The entries the scan will still return. */
    ghost function Remaining(): seq<Entry>
      requires Consistent(view)
      reads this
    {
      if done then [] else Left(view)
    }

    /** From the root down to the leaf of the lower bound, or to the leftmost one. */
    constructor (tree: Index, lower: Option<Bound>, upper: Option<Bound>)
      requires tree.Valid()
      ensures Valid() && index == tree && Remaining() == Pick(InOrder(tree.tree), lower, upper)
    {
      var probe := Entry(if lower.Some? then lower.value.key else IndexKey(0, false), 0, 0);
      var no;
      ghost var pre, post;
      no, pre, post := FindLeaf(tree, lower, probe);
      ghost var ents := tree.nodes[no].ents;
      var _, next := tree.LeafHeader(no);
      var first := 0;
      if lower.Some? {
        first := tree.LeafLowerBound(no, probe);
      }
      Starts(tree.nodes, tree.tree, tree.height, pre, LeafRec(no, ents, next), post, first, lower, upper);
      index, loBound, hiBound, done := tree, lower, upper, false;
      cur, nextNo, slot := Some(no), next, first;
      view := View(tree.nodes, Leaves(tree.tree), |pre|, first, lower, lower, upper);
    }

    /** Load the next leaf of the chain, if there is one. */
    method Load()
      requires Valid() && !done && cur.None?
      modifies this`cur, this`nextNo, this`slot, this`done
      ensures Valid() && Remaining() == old(Remaining())
      ensures !done ==> cur.Some?
    {
      if nextNo == 0 {
        AtEnd(view);
        done := true;
        return;
      }
      cur := Some(nextNo);
      var _, next := index.LeafHeader(nextNo);
      nextNo := next;
      slot := 0;
    }

    /** Move past an entry the open lower bound excludes. */
    method Pass()
      requires Valid() && !done && cur.Some? && OnEntry(view) && AtOpenLo(view)
      modifies this`slot, this`view
      ensures Valid() && Remaining() == old(Remaining()) && Todo(view) < old(Todo(view))
    {
      PassOver(view);
      slot := slot + 1;
      view := view.(slot := slot);
    }

    /** Return an entry; an open lower bound has been left behind. */
    method Return(open: bool)
      requires Valid() && !done && cur.Some? && OnEntry(view) && BelowHi(Current(view).key, view.hi) && !AtOpenLo(view)
      requires open == (loBound.Some? && !loBound.value.inclusive)
      modifies this`slot, this`loBound, this`view
      ensures Valid() && [old(Current(view))] + Remaining() == old(Remaining())
    {
      Take(view);
      loBound := if open then None else loBound;
      slot := slot + 1;
      view := Taken(view);
    }

    /** Look at the entry under the cursor: return it, pass over it, or end the scan. */
    method Step() returns (found: bool, e: Entry)
      requires Valid() && !done && cur.Some? && OnEntry(view)
      modifies this`slot, this`done, this`loBound, this`view
      ensures Valid() && (found ==> !done && [e] + Remaining() == old(Remaining()))
      ensures !found ==> Remaining() == old(Remaining()) && (!done ==> Todo(view) < old(Todo(view)))
    {
      e := index.EntryAt(cur.value, slot);
      found := false;
      var past := hiBound.Some? && var c := KeyCmp(e.key, hiBound.value.key);
                                   if hiBound.value.inclusive then c > 0 else c >= 0;
      var open := loBound.Some? && !loBound.value.inclusive;
      if past {
        PastHi(view);
        done := true;
      } else if open && KeyCmp(e.key, loBound.value.key) == 0 {
        Pass();
      } else {
        Return(open);
        found := true;
      }
    }

    /** The leaf under the cursor is finished. */
    method Leave()
      requires Valid() && !done && cur.Some? && slot == |view.leaves[view.at].ents|
      modifies this`cur, this`view
      ensures Valid() && Remaining() == old(Remaining()) && Todo(view) < old(Todo(view))
    {
      NextLeaf(view);
      cur := None;
      view := view.(at := view.at + 1, slot := 0);
    }

    /** One turn of the loop of next: load a leaf if there is none, then look at an entry or leave the leaf. */
    method Turn() returns (found: bool, e: Entry)
      requires Valid() && !done
      modifies this`cur, this`nextNo, this`slot, this`done, this`loBound, this`view
      ensures Valid() && (found ==> !done && [e] + Remaining() == old(Remaining()))
      ensures !found ==> Remaining() == old(Remaining()) && (!done ==> Todo(view) < old(Todo(view)))
    {
      found, e := false, Entry(IndexKey(0, false), 0, 0);
      if cur.None? {
        Load();
        if done {
          return;
        }
      }
      var count, _ := index.LeafHeader(cur.value);
      if slot < count {
        found, e := Step();
      } else {
        Leave();
      }
    }

    /** Return the next entry in range; false when there is none. */
    method Next() returns (ok: bool, e: Entry)
      requires Valid()
      modifies this`cur, this`nextNo, this`slot, this`done, this`loBound, this`view
      ensures Valid() && ok == (old(Remaining()) != [])
      ensures ok ==> [e] + Remaining() == old(Remaining())
      ensures !ok ==> Remaining() == []
    {
      ok, e := false, Entry(IndexKey(0, false), 0, 0);
      while !done && !ok
        invariant Valid() && (if ok then [e] + Remaining() else Remaining()) == old(Remaining())
        decreases !ok, if done then 0 else Todo(view) + 1
      {
        ok, e := Turn();
      }
    }
  }

  /** All entries a scan returns, as the loop of the index scan operator collects them. */
  method ScanAll(tree: Index, lower: Option<Bound>, upper: Option<Bound>) returns (out: seq<Entry>)
    requires tree.Valid()
    ensures out == Pick(InOrder(tree.tree), lower, upper)
    ensures Ascending(out)
    ensures forall e :: e in out <==> e in tree.Entries() && InRange(e.key, lower, upper)
  {
    var s := new Scanner(tree, lower, upper);
    out := [];
    ghost var want := Pick(InOrder(tree.tree), lower, upper);
    var ok, e := s.Next();
    while ok
      invariant fresh(s) && s.Valid()
      invariant if ok then out + ([e] + s.Remaining()) == want else out == want
      decreases ok, |s.Remaining()|
    {
      Assoc(out, [e], s.Remaining());
      out := out + [e];
      ok, e := s.Next();
    }
    InOrderGood(tree.tree, tree.height, 0, KEY_SPAN * PLACES, 0);
    InOrderElems(tree.tree);
    PickExact(InOrder(tree.tree), lower, upper);
  }
}
