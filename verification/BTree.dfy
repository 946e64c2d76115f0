/** Insertion into a B+ tree whose nodes are pages (src/storage/btree.cpp). */
module BTree {
  import opened Arith
  import opened Bytes
  import opened Disk
  import opened KeyOrder
  import opened TreeModel
  import opened TreeFill
  import opened PageBytes
  import opened BTreePage
  import opened BTreeFrames

  /** Outcome of an insertion below one page: the separator and the new right page that go up. */
  datatype Split = NoSplit | Splits(sep: Entry, right: u32)

  function Cuts(r: Split): seq<Entry> {
    if r.NoSplit? then [] else [r.sep]
  }

  // ---- the steps on values ----

  lemma {:induction false} InsertAscending(ents: seq<Entry>, e: Entry, pos: nat, lo: int, hi: int)
    requires Ascending(ents) && AllIn(ents, lo, hi) && pos <= |ents| && lo <= Ord(e) < hi && e !in ents
    requires forall i :: 0 <= i < pos ==> Ord(ents[i]) < Ord(e)
    requires forall i :: pos <= i < |ents| ==> Ord(ents[i]) >= Ord(e)
    ensures Ascending(Replaced(ents, pos, [e], pos)) && AllIn(Replaced(ents, pos, [e], pos), lo, hi)
    ensures |Replaced(ents, pos, [e], pos)| == |ents| + 1
    ensures forall x :: x in Replaced(ents, pos, [e], pos) <==> x in ents || x == e
  {
    ReplacedAt(ents, pos, [e], pos);
    forall i | pos <= i < |ents| ensures Ord(ents[i]) > Ord(e) {
      OrdIsOrder(ents[i], e);
    }
  }

  /** The two halves of a full leaf. */
  lemma {:induction false} LeafHalves(no: nat, right: nat, ents: seq<Entry>, next: nat, mid: nat, lo: int, hi: int)
    requires Ascending(ents) && AllIn(ents, lo, hi) && 0 < mid < |ents| && |ents| <= CAPACITY + 1 && no != right
    ensures KidsGood([LeafT(no, ents[..mid], right), LeafT(right, ents[mid..], next)], [ents[mid]], 0, lo, hi, next)
    ensures ElemsOf([LeafT(no, ents[..mid], right), LeafT(right, ents[mid..], next)]) == set e | e in ents
  {
    var part := [LeafT(no, ents[..mid], right), LeafT(right, ents[mid..], next)];
    assert lo <= Ord(ents[0]) < Ord(ents[mid]);
    assert Good(part[0], 0, lo, Ord(ents[mid]), right);
    assert Good(part[1], 0, Ord(ents[mid]), hi, next);
    assert ents == ents[..mid] + ents[mid..];
    forall e ensures e in ElemsOf(part) <==> e in ents {
      if e in ents[..mid] {
        assert e in Elems(part[0]);
      }
      if e in ents[mid..] {
        assert e in Elems(part[1]);
      }
    }
  }

  lemma {:induction false} OneTree(t: Tree, h: nat, lo: int, hi: int, after: nat)
    requires Good(t, h, lo, hi, after)
    ensures KidsGood([t], [], h, lo, hi, after)
    ensures ElemsOf([t]) == Elems(t) && NosOf([t]) == Nos(t)
  {
    assert [t][0] == t;
  }

  lemma {:induction false} TwoTrees(l: Tree, r: Tree, sep: Entry, h: nat, lo: int, hi: int, after: nat)
    requires Good(l, h, lo, Ord(sep), FirstLeaf(r)) && Good(r, h, Ord(sep), hi, after)
    requires lo < Ord(sep) < hi && Nos(l) !! Nos(r)
    ensures KidsGood([l, r], [sep], h, lo, hi, after)
    ensures ElemsOf([l, r]) == Elems(l) + Elems(r) && NosOf([l, r]) == Nos(l) + Nos(r)
  {
    var ts := [l, r];
    assert ts[0] == l && ts[1] == r;
  }

  lemma {:induction false} ElemsReplaced(ts: seq<Tree>, j: nat, part: seq<Tree>, e: Entry)
    requires j < |ts| && ElemsOf(part) == Elems(ts[j]) + {e}
    ensures ElemsOf(Replaced(ts, j, part, j + 1)) == ElemsOf(ts) + {e}
  {
    var r := Replaced(ts, j, part, j + 1);
    ReplacedAt(ts, j, part, j + 1);
    forall x | x in ElemsOf(r) ensures x in ElemsOf(ts) + {e} {
      var i :| 0 <= i < |r| && x in Elems(r[i]);
      if j <= i < j + |part| {
        assert x in ElemsOf(part);
      }
    }
    forall x | x in ElemsOf(ts) + {e} ensures x in ElemsOf(r) {
      if x in ElemsOf(part) {
        var k :| 0 <= k < |part| && x in Elems(part[k]);
        assert x in Elems(r[j + k]);
      } else {
        var i :| 0 <= i < |ts| && x in Elems(ts[i]);
        assert x in Elems(r[if i < j then i else i - 1 + |part|]);
      }
    }
  }

  lemma {:induction false} NosReplaced(ts: seq<Tree>, j: nat, part: seq<Tree>)
    requires j < |ts|
    ensures NosOf(Replaced(ts, j, part, j + 1)) <= NosOf(ts) + NosOf(part)
  {
    var r := Replaced(ts, j, part, j + 1);
    ReplacedAt(ts, j, part, j + 1);
    forall n | n in NosOf(r) ensures n in NosOf(ts) + NosOf(part) {
      var i :| 0 <= i < |r| && n in Nos(r[i]);
      if j <= i < j + |part| {
        assert n in NosOf(part);
      }
    }
  }

  lemma {:induction false} ElemsConcat(ts: seq<Tree>, k: nat)
    requires k <= |ts|
    ensures ElemsOf(ts) == ElemsOf(ts[..k]) + ElemsOf(ts[k..]) && NosOf(ts) == NosOf(ts[..k]) + NosOf(ts[k..])
  {
    forall i | 0 <= i < |ts| ensures Elems(ts[i]) <= ElemsOf(ts[..k]) + ElemsOf(ts[k..]) && Nos(ts[i]) <= NosOf(ts[..k]) + NosOf(ts[k..]) {
      if i < k {
        assert ts[..k][i] == ts[i];
      } else {
        assert ts[k..][i - k] == ts[i];
      }
    }
  }

  /** The entry lies in exactly the subtree it is routed to. */
  lemma {:induction false} InChild(ts: seq<Tree>, e: Entry, j: nat)
    requires j < |ts| && e !in ElemsOf(ts)
    ensures e !in Elems(ts[j])
  {
  }

  lemma {:induction false} KidNosReplaced(ts: seq<Tree>, j: nat, part: seq<Tree>, r: Split)
    requires j < |ts| && part != [] && part[0].no == ts[j].no && |part| == |Cuts(r)| + 1
    requires r.Splits? ==> part[1].no == r.right
    ensures KidNos(Replaced(ts, j, part, j + 1)) ==
            if r.NoSplit? then KidNos(ts) else Replaced(KidNos(ts), j + 1, [r.right], j + 1)
  {
    var a := Replaced(ts, j, part, j + 1);
    ReplacedAt(ts, j, part, j + 1);
    if r.Splits? {
      ReplacedAt(KidNos(ts), j + 1, [r.right], j + 1);
    }
  }

  // ---- which insertions split ----

  /** The number of separators not above e: the child e belongs below. */
  function Route(seps: seq<Entry>, e: Entry): (j: nat)
    ensures j <= |seps|
  {
    if seps == [] || Ord(seps[0]) > Ord(e) then 0 else 1 + Route(seps[1..], e)
  }

  lemma {:induction false} RouteIs(seps: seq<Entry>, e: Entry, j: nat)
    requires j <= |seps|
    requires forall i :: 0 <= i < j ==> Ord(seps[i]) <= Ord(e)
    requires j < |seps| ==> Ord(seps[j]) > Ord(e)
    ensures Route(seps, e) == j
  {
    if j > 0 {
      RouteIs(seps[1..], e, j - 1);
    }
  }

  /** Every page from the root of t down to the leaf of e is full. */
  predicate FullPath(t: Tree, e: Entry) {
    match t
    case LeafT(_, ents, _) => |ents| == CAPACITY
    case InnerT(_, seps, kids) =>
      |seps| == CAPACITY && Route(seps, e) < |kids| && FullPath(kids[Route(seps, e)], e)
  }

  /** What an insertion needs of the child it descends to. */
  lemma {:induction false} Routed(nodes: map<nat, Node>, t: Tree, h: nat, lo: int, hi: int, after: nat, e: Entry, j: nat, bound: nat)
    requires t.InnerT? && Good(t, h, lo, hi, after) && Stored(nodes, t) && lo <= Ord(e) < hi && e !in Elems(t)
    requires j <= |t.seps| && forall n :: n in Nos(t) ==> n < bound
    requires forall i :: 0 <= i < j ==> Ord(t.seps[i]) <= Ord(e)
    requires forall i :: j <= i < |t.seps| ==> Ord(t.seps[i]) > Ord(e)
    ensures h > 0 && |t.kids| == |t.seps| + 1
    ensures Good(t.kids[j], h - 1, Lo(t.seps, lo, j), Hi(t.seps, hi, j), After(t.kids, after, j))
    ensures Stored(nodes, t.kids[j]) && KidNos(t.kids)[j] == t.kids[j].no && e !in Elems(t.kids[j])
    ensures Lo(t.seps, lo, j) <= Ord(e) < Hi(t.seps, hi, j)
    ensures (forall n :: n in Nos(t.kids[j]) ==> n < bound) && Route(t.seps, e) == j
  {
    KidsBelow(t, bound);
    RouteIs(t.seps, e, j);
    InChild(t.kids, e, j);
    assert KidGood(t.kids, t.seps, h - 1, lo, hi, after, j);
  }

  // ---- how high a tree gets ----

  lemma {:induction false} Pow2Of32()
    ensures Pow2(32) == U32
  {
    Pow2Plus8(0);
    Pow2Plus8(8);
    Pow2Plus8(16);
    Pow2Plus8(24);
  }

  lemma {:induction false} Pow2Plus8(n: nat)
    ensures Pow2(n + 8) == 256 * Pow2(n)
  {
    assert Pow2(n + 4) == 2 * Pow2(n + 3) == 4 * Pow2(n + 2) == 8 * Pow2(n + 1) == 16 * Pow2(n);
    assert Pow2(n + 8) == 2 * Pow2(n + 7) == 4 * Pow2(n + 6) == 8 * Pow2(n + 5) == 16 * Pow2(n + 4);
  }

  lemma {:induction false} FewerThan(s: set<nat>, n: nat)
    requires forall x :: x in s ==> x < n
    ensures |s| <= n
    decreases n
  {
    if n > 0 {
      FewerThan(s - {n - 1}, n - 1);
      assert s <= (s - {n - 1}) + {n - 1};
    }
  }

  lemma {:induction false} SubsetSize<T>(a: set<T>, b: set<T>)
    requires a <= b
    ensures |a| <= |b|
  {
    assert b == a + (b - a);
  }

  /** Every inner page has at least two children, so a tree of height h takes at least 2^h pages. */
  lemma {:induction false} TreePages(t: Tree, h: nat, lo: int, hi: int, after: nat)
    requires Good(t, h, lo, hi, after)
    ensures |Nos(t)| >= Pow2(h)
    decreases h
  {
    if t.InnerT? {
      assert KidGood(t.kids, t.seps, h - 1, lo, hi, after, 0);
      assert KidGood(t.kids, t.seps, h - 1, lo, hi, after, 1);
      TreePages(t.kids[0], h - 1, Lo(t.seps, lo, 0), Hi(t.seps, hi, 0), After(t.kids, after, 0));
      TreePages(t.kids[1], h - 1, Lo(t.seps, lo, 1), Hi(t.seps, hi, 1), After(t.kids, after, 1));
      var a, b := Nos(t.kids[0]), Nos(t.kids[1]);
      assert a !! b && |a + b| == |a| + |b|;
      assert a + b <= Nos(t) by {
        assert a <= NosOf(t.kids) && b <= NosOf(t.kids);
      }
      SubsetSize(a + b, Nos(t));
    }
  }

  /** With 32-bit page numbers no tree is higher than 31. */
  lemma {:induction false} HeightBound(t: Tree, h: nat, lo: int, hi: int, after: nat, bound: nat)
    requires Good(t, h, lo, hi, after) && bound <= U32 && forall n :: n in Nos(t) ==> 0 < n < bound
    ensures h < 32
  {
    TreePages(t, h, lo, hi, after);
    FewerThan(Nos(t) + {0}, bound);
    assert |Nos(t) + {0}| == |Nos(t)| + 1;
    if h >= 32 {
      Pow2Of32();
      Pow2Grows(32, h);
    }
  }

  // ---- the tree ----

  /** New pages one insertion takes at most: one for each level, and a new root. */
  const MOST_NEW := 33

  /** What `before` has outside `nos` and below `bound`, `after` has too. */
  ghost predicate Kept<T>(before: map<nat, T>, after: map<nat, T>, bound: nat, nos: set<nat>) {
    forall n :: n in before && n < bound && n !in nos ==> n in after && after[n] == before[n]
  }

  class Index {
    const sum: Page -> u32      // page_checksum
    var pages: map<nat, Page>   // the pages of the file as the buffer pool presents them
    var root: nat
    var hint: nat               // highest page number in use, plus 1
    var filePages: nat          // pages in the file; some of the pages in use may not have reached it yet
    ghost var nodes: map<nat, Node>
    ghost var tree: Tree
    ghost var height: nat

    /** The bytes of the tree pages stand for `nodes`; no page has a number that has not been given out. */
    ghost predicate Pages()
      reads this
    {
      Held(pages, nodes) && forall n :: n in pages ==> n < hint
    }

    ghost predicate Valid()
      reads this
    {
      && Pages()
      && Good(tree, height, 0, KEY_SPAN * PLACES, 0)
      && Stored(nodes, tree)
      && tree.no == root
      && 0 in pages && RootOf(pages[0]) == root
      && forall n :: n in Nos(tree) ==> 0 < n < hint
    }

    ghost function Entries(): set<Entry>
      reads this
    {
      Elems(tree)
    }

    /** The number the next new page gets. */
    function Top(): nat
      reads this
    {
      if filePages > hint then filePages else hint
    }

    /** An empty tree: page 0 is the file header, page 1 an empty leaf. */
    constructor (sum: Page -> u32)
      ensures Valid() && Entries() == {} && Top() == 2 && KidsFilled(tree)
    {
      var header := HeaderPage(1, sum);
      var leaf := EmptyLeaf(sum);
      this.sum := sum;
      pages, root, hint, filePages := map[0 := header, 1 := leaf], 1, 2, 1;
      nodes, tree, height := map[1 := Leaf([], 0)], LeafT(1, [], 0), 0;
      new;
      assert Shows(pages, nodes, 1);
    }

    /** An existing tree file, all of its pages on disk: the root number is on the header page. */
    constructor Open(sum: Page -> u32, pages: map<nat, Page>, filePages: nat, ghost nodes: map<nat, Node>, ghost t: Tree, ghost h: nat)
      requires Held(pages, nodes) && Stored(nodes, t) && Good(t, h, 0, KEY_SPAN * PLACES, 0)
      requires 0 in pages && RootOf(pages[0]) == t.no && forall n :: n in Nos(t) ==> 0 < n < filePages
      requires forall n :: n in pages ==> n < filePages
      ensures Valid() && Entries() == Elems(t) && tree == t && height == h
    {
      var no: nat := RootOf(pages[0]);
      this.sum, this.pages, root, this.filePages := sum, pages, no, filePages;
      hint := if filePages > no + 1 then filePages else no + 1;
      this.nodes, tree, height := nodes, t, h;
    }

    // ---- one page ----

    method NewPage() returns (no: u32)
      requires Top() < U32
      modifies this`hint
      ensures no == old(Top()) && hint == no + 1 && Top() == hint && no >= old(hint)
    {
      no := if filePages > hint then filePages else hint;
      hint := no + 1;
    }

    method IsLeaf(no: nat) returns (leaf: bool)
      requires Pages() && no in nodes
      ensures leaf == nodes[no].Leaf?
    {
      PageRead(pages, nodes, no);
      leaf := pages[no][TYPE_AT] == TYPE_LEAF;
    }

    /** How many entries a leaf has and which leaf follows it. */
    method LeafHeader(no: nat) returns (count: nat, next: u32)
      requires Pages() && no in nodes && nodes[no].Leaf?
      ensures count == |nodes[no].ents| && next == nodes[no].next
    {
      PageRead(pages, nodes, no);
      count, next := Count(pages[no]), NextOf(pages[no]);
    }

    method EntryAt(no: nat, i: nat) returns (e: Entry)
      requires Pages() && no in nodes && nodes[no].Leaf? && i < |nodes[no].ents|
      ensures e == nodes[no].ents[i]
    {
      PageRead(pages, nodes, no);
      e := LeafEntry(pages[no], i);
    }

    method Child(no: nat, j: nat) returns (child: u32)
      requires Pages() && no in nodes && nodes[no].Inner? && j < |nodes[no].kids|
      ensures child == nodes[no].kids[j]
    {
      PageRead(pages, nodes, no);
      child := ChildAt(pages[no], j);
    }

    method Separators(no: nat) returns (count: nat)
      requires Pages() && no in nodes && nodes[no].Inner?
      ensures count == |nodes[no].seps| && |nodes[no].kids| == count + 1
    {
      PageRead(pages, nodes, no);
      count := Count(pages[no]);
    }

    method Separator(no: nat, i: nat) returns (sep: Entry)
      requires Pages() && no in nodes && nodes[no].Inner? && i < |nodes[no].seps|
      ensures sep == nodes[no].seps[i]
    {
      PageRead(pages, nodes, no);
      sep := SepAt(pages[no], i);
    }

    /** First position in a leaf whose entry is not below e. */
    method LeafLowerBound(no: nat, e: Entry) returns (pos: nat)
      requires Pages() && no in nodes && nodes[no].Leaf? && Ascending(nodes[no].ents)
      ensures pos <= |nodes[no].ents|
      ensures forall i :: 0 <= i < pos ==> Ord(nodes[no].ents[i]) < Ord(e)
      ensures forall i :: pos <= i < |nodes[no].ents| ==> Ord(nodes[no].ents[i]) >= Ord(e)
    {
      ghost var ents := nodes[no].ents;
      pos := 0;
      var hi, _ := LeafHeader(no);
      while pos < hi
        invariant pos <= hi <= |ents|
        invariant forall i :: 0 <= i < pos ==> Ord(ents[i]) < Ord(e)
        invariant forall i :: hi <= i < |ents| ==> Ord(ents[i]) >= Ord(e)
      {
        var mid := pos + (hi - pos) / 2;
        var x := EntryAt(no, mid);
        OrdIsOrder(x, e);
        if EntryCmp(x, e) < 0 {
          pos := mid + 1;
        } else {
          hi := mid;
        }
      }
    }

    /** The child of an inner page that e belongs below: the first position whose separator is above e. */
    method NodeChildIndex(no: nat, e: Entry) returns (pos: nat)
      requires Pages() && no in nodes && nodes[no].Inner? && Ascending(nodes[no].seps)
      ensures pos <= |nodes[no].seps| && |nodes[no].kids| == |nodes[no].seps| + 1
      ensures forall i :: 0 <= i < pos ==> Ord(nodes[no].seps[i]) <= Ord(e)
      ensures forall i :: pos <= i < |nodes[no].seps| ==> Ord(nodes[no].seps[i]) > Ord(e)
    {
      ghost var seps := nodes[no].seps;
      pos := 0;
      var hi := Separators(no);
      while pos < hi
        invariant pos <= hi <= |seps|
        invariant forall i :: 0 <= i < pos ==> Ord(seps[i]) <= Ord(e)
        invariant forall i :: hi <= i < |seps| ==> Ord(seps[i]) > Ord(e)
      {
        var mid := pos + (hi - pos) / 2;
        var x := Separator(no, mid);
        OrdIsOrder(x, e);
        if EntryCmp(x, e) <= 0 {
          pos := mid + 1;
        } else {
          hi := mid;
        }
      }
    }

    /** Put an entry into a leaf if there is room. */
    method AddToLeaf(no: nat, pos: nat, e: Entry) returns (ok: bool)
      requires Pages() && no in nodes && nodes[no].Leaf? && pos <= |nodes[no].ents|
      modifies this`pages, this`nodes
      ensures Pages() && ok == (|old(nodes)[no].ents| < CAPACITY)
      ensures ok ==> nodes == old(nodes)[no := Leaf(Replaced(old(nodes)[no].ents, pos, [e], pos), old(nodes)[no].next)]
      ensures no in pages && pages == old(pages)[no := pages[no]] && (!ok ==> nodes == old(nodes))
    {
      PageRead(pages, nodes, no);
      var p := pages[no];
      FreeSpaceOfNode(p);
      ok := SLOT + CELL <= FreeSpace(p);
      if ok {
        var q := LeafWith(p, pos, e, sum);
        HeldWritten(pages, nodes, no, q);
        pages, nodes := pages[no := q], nodes[no := NodeOf(q)];
      }
    }

    /** All entries of a full leaf and the new one; the leaf after it. */
    method FullLeaf(no: nat, pos: nat, e: Entry) returns (all: seq<Entry>, next: u32)
      requires Pages() && no in nodes && nodes[no].Leaf? && pos <= |nodes[no].ents|
      ensures all == Replaced(nodes[no].ents, pos, [e], pos) && next == nodes[no].next
    {
      PageRead(pages, nodes, no);
      all := GatherLeaf(pages[no], pos, e);
      next := NextOf(pages[no]);
    }

    method BuildLeaf(no: nat, all: seq<Entry>, lo: nat, hi: nat, next: u32)
      requires Pages() && no < hint && lo <= hi <= |all| && hi - lo <= CAPACITY
      modifies this`pages, this`nodes
      ensures Pages() && nodes == old(nodes)[no := Leaf(all[lo..hi], next)]
      ensures no in pages && pages == old(pages)[no := pages[no]]
    {
      var q := LeafOf(all, lo, hi, next, sum);
      HeldWritten(pages, nodes, no, q);
      pages, nodes := pages[no := q], nodes[no := NodeOf(q)];
    }

    /** Put a separator and the child to its right into an inner page if there is room. */
    method AddToInner(no: nat, j: nat, sep: Entry, right: u32) returns (ok: bool)
      requires Pages() && no in nodes && nodes[no].Inner?
      requires j <= |nodes[no].seps| && |nodes[no].kids| == |nodes[no].seps| + 1
      modifies this`pages, this`nodes
      ensures Pages() && ok == (|old(nodes)[no].seps| < CAPACITY)
      ensures ok ==> nodes == old(nodes)[no := Inner(Replaced(old(nodes)[no].seps, j, [sep], j),
                                                     Replaced(old(nodes)[no].kids, j + 1, [right], j + 1))]
      ensures no in pages && pages == old(pages)[no := pages[no]] && (!ok ==> nodes == old(nodes))
    {
      PageRead(pages, nodes, no);
      var p := pages[no];
      FreeSpaceOfNode(p);
      ok := CELL + CHILD <= FreeSpace(p);
      if ok {
        var q := NodeWith(p, j, sep, right, sum);
        HeldWritten(pages, nodes, no, q);
        pages, nodes := pages[no := q], nodes[no := NodeOf(q)];
      }
    }

    /** All separators and children of a full inner page and the new ones. */
    method FullInner(no: nat, j: nat, sep: Entry, right: u32) returns (seps: seq<Entry>, kids: seq<u32>)
      requires Pages() && no in nodes && nodes[no].Inner?
      requires j <= |nodes[no].seps| && |nodes[no].kids| == |nodes[no].seps| + 1
      ensures seps == Replaced(nodes[no].seps, j, [sep], j) && kids == Replaced(nodes[no].kids, j + 1, [right], j + 1)
    {
      PageRead(pages, nodes, no);
      seps := GatherSeps(pages[no], j, sep);
      kids := GatherKids(pages[no], j, right);
    }

    method BuildInner(no: nat, seps: seq<Entry>, kids: seq<u32>, lo: nat, hi: nat)
      requires Pages() && no < hint && lo <= hi <= |seps| && hi < |kids| && hi - lo <= CAPACITY
      modifies this`pages, this`nodes
      ensures Pages() && nodes == old(nodes)[no := Inner(seps[lo..hi], kids[lo..hi + 1])]
      ensures no in pages && pages == old(pages)[no := pages[no]]
    {
      var q := NodeFrom(seps, kids, lo, hi, sum);
      HeldWritten(pages, nodes, no, q);
      pages, nodes := pages[no := q], nodes[no := NodeOf(q)];
    }

    // ---- a subtree ----

    /** Insert below page `no`, which holds subtree t; `part` is what takes t's place. */
    method InsertRec(no: nat, e: Entry, ghost t: Tree, ghost h: nat, ghost lo: int, ghost hi: int, ghost after: nat)
      returns (r: Split, ghost part: seq<Tree>)
      requires Pages() && Good(t, h, lo, hi, after) && Stored(nodes, t) && t.no == no
      requires lo <= Ord(e) < hi && e !in Elems(t)
      requires (forall n :: n in Nos(t) ==> n < hint) && Top() + h + 1 <= U32
      modifies this`pages, this`nodes, this`hint
      ensures Pages() && hint >= old(hint) && Top() <= old(Top()) + h + 1
      ensures KidsGood(part, Cuts(r), h, lo, hi, after) && AllStored(nodes, part)
      ensures ElemsOf(part) == Elems(t) + {e} && (r.Splits? <==> FullPath(t, e)) && StaysFilled(t, part)
      ensures part[0].no == no && FirstLeaf(part[0]) == FirstLeaf(t) && (r.Splits? ==> part[1].no == r.right)
      ensures forall n :: n in NosOf(part) ==> n in Nos(t) || old(hint) <= n < hint
      ensures Kept(old(pages), pages, old(hint), Nos(t)) && Kept(old(nodes), nodes, old(hint), Nos(t))
      decreases t, 2
    {
      assert no in Nos(t);
      var leaf := IsLeaf(no);
      if leaf {
        r, part := InsertLeaf(no, e, t, lo, hi, after);
      } else {
        r, part := InsertInner(no, e, t, h, lo, hi, after);
      }
    }

    method InsertLeaf(no: nat, e: Entry, ghost t: Tree, ghost lo: int, ghost hi: int, ghost after: nat)
      returns (r: Split, ghost part: seq<Tree>)
      requires Pages() && t.LeafT? && Good(t, 0, lo, hi, after) && Stored(nodes, t) && t.no == no
      requires lo <= Ord(e) < hi && e !in Elems(t) && no < hint && Top() + 1 <= U32
      modifies this`pages, this`nodes, this`hint
      ensures Pages() && hint >= old(hint) && Top() <= old(Top()) + 1
      ensures KidsGood(part, Cuts(r), 0, lo, hi, after) && AllStored(nodes, part)
      ensures ElemsOf(part) == Elems(t) + {e} && (r.Splits? <==> FullPath(t, e)) && StaysFilled(t, part)
      ensures part[0].no == no && FirstLeaf(part[0]) == FirstLeaf(t) && (r.Splits? ==> part[1].no == r.right)
      ensures forall n :: n in NosOf(part) ==> n in Nos(t) || old(hint) <= n < hint
      ensures Kept(old(pages), pages, old(hint), Nos(t)) && Kept(old(nodes), nodes, old(hint), Nos(t))
    {
      var pos := LeafLowerBound(no, e);
      InsertAscending(t.ents, e, pos, lo, hi);
      var ok := AddToLeaf(no, pos, e);
      if ok {
        ghost var t' := LeafT(no, Replaced(t.ents, pos, [e], pos), t.next);
        OneTree(t', 0, lo, hi, after);
        return NoSplit, [t'];
      }
      var all, next := FullLeaf(no, pos, e);
      r, part := SplitLeaf(no, all, next, lo, hi);
    }

    /** Rebuild an overfull leaf as two, cut in the middle; the right one is new and follows it in the chain. */
    method SplitLeaf(no: nat, all: seq<Entry>, next: u32, ghost lo: int, ghost hi: int)
      returns (r: Split, ghost part: seq<Tree>)
      requires Pages() && Ascending(all) && AllIn(all, lo, hi) && 2 <= |all| <= CAPACITY + 1 && no < hint && Top() < U32
      modifies this`pages, this`nodes, this`hint
      ensures Pages() && hint >= old(hint) && Top() == old(Top()) + 1
      ensures KidsGood(part, Cuts(r), 0, lo, hi, next) && AllStored(nodes, part)
      ensures ElemsOf(part) == (set e | e in all) && r.Splits? && (|all| > CAPACITY ==> AllFilled(part))
      ensures part[0].no == no && FirstLeaf(part[0]) == no && (r.Splits? ==> part[1].no == r.right)
      ensures forall n :: n in NosOf(part) ==> n == no || old(hint) <= n < hint
      ensures Kept(old(pages), pages, old(hint), {no}) && Kept(old(nodes), nodes, old(hint), {no})
    {
      var mid := |all| / 2;
      var right := NewPage();
      LeafHalves(no, right, all, next, mid, lo, hi);
      EndSlices(all, mid, mid);
      BuildLeaf(right, all, mid, |all|, next);
      BuildLeaf(no, all, 0, mid, right);
      part := [LeafT(no, all[..mid], right), LeafT(right, all[mid..], next)];
      r := Splits(all[mid], right);
    }

    method InsertInner(no: nat, e: Entry, ghost t: Tree, ghost h: nat, ghost lo: int, ghost hi: int, ghost after: nat)
      returns (r: Split, ghost part: seq<Tree>)
      requires Pages() && t.InnerT? && Good(t, h, lo, hi, after) && Stored(nodes, t) && t.no == no
      requires lo <= Ord(e) < hi && e !in Elems(t)
      requires (forall n :: n in Nos(t) ==> n < hint) && Top() + h + 1 <= U32
      modifies this`pages, this`nodes, this`hint
      ensures Pages() && hint >= old(hint) && Top() <= old(Top()) + h + 1
      ensures KidsGood(part, Cuts(r), h, lo, hi, after) && AllStored(nodes, part)
      ensures ElemsOf(part) == Elems(t) + {e} && (r.Splits? <==> FullPath(t, e)) && StaysFilled(t, part)
      ensures part[0].no == no && FirstLeaf(part[0]) == FirstLeaf(t) && (r.Splits? ==> part[1].no == r.right)
      ensures forall n :: n in NosOf(part) ==> n in Nos(t) || old(hint) <= n < hint
      ensures Kept(old(pages), pages, old(hint), Nos(t)) && Kept(old(nodes), nodes, old(hint), Nos(t))
      decreases t, 1
    {
      assert no in Nos(t);
      var j, below;
      ghost var ts;
      j, below, ts := Descend(no, e, t, h, lo, hi, after);
      if below.NoSplit? {
        ReplacedNothing(t.seps, j);
        OneInner(no, t.seps, ts, h, lo, hi, after);
        return NoSplit, [InnerT(no, t.seps, ts)];
      }
      r, part := PlaceSplit(no, j, below.sep, below.right, ts, h, lo, hi, after);
    }

    /** Insert below the child of an inner page that the entry is routed to; `ts` are the page's subtrees
        afterwards. The page itself is not yet changed. */
    method Descend(no: nat, e: Entry, ghost t: Tree, ghost h: nat, ghost lo: int, ghost hi: int, ghost after: nat)
      returns (j: nat, below: Split, ghost ts: seq<Tree>)
      requires Pages() && t.InnerT? && Good(t, h, lo, hi, after) && Stored(nodes, t) && t.no == no
      requires lo <= Ord(e) < hi && e !in Elems(t)
      requires (forall n :: n in Nos(t) ==> n < hint) && Top() + h <= U32
      modifies this`pages, this`nodes, this`hint
      ensures Pages() && hint >= old(hint) && Top() <= old(Top()) + h
      ensures |t.kids| == |t.seps| + 1 && j == Route(t.seps, e) < |t.kids| && (below.Splits? <==> FullPath(t.kids[j], e))
      ensures h > 0 && no in nodes && nodes[no] == Inner(t.seps, KidNos(t.kids))
      ensures KidsGood(ts, Replaced(t.seps, j, Cuts(below), j), h - 1, lo, hi, after) && AllStored(nodes, ts)
      ensures KidsFilled(t) ==> AllFilled(ts)
      ensures ElemsOf(ts) == Elems(t) + {e} && FirstLeaf(ts[0]) == FirstLeaf(t) && no !in NosOf(ts)
      ensures KidNos(ts) == if below.NoSplit? then KidNos(t.kids) else Replaced(KidNos(t.kids), j + 1, [below.right], j + 1)
      ensures forall n :: n in NosOf(ts) ==> n in Nos(t) || old(hint) <= n < hint
      ensures Kept(old(pages), pages, old(hint), Nos(t)) && Kept(old(nodes), nodes, old(hint), Nos(t))
      decreases t, 0
    {
      j := NodeChildIndex(no, e);
      var child := Child(no, j);
      Routed(nodes, t, h, lo, hi, after, e, j, hint);
      ghost var low;
      below, low := InsertRec(child, e, t.kids[j], h - 1, Lo(t.seps, lo, j), Hi(t.seps, hi, j), After(t.kids, after, j));
      ts := Replaced(t.kids, j, low, j + 1);
      Rejoined(t, h, lo, hi, after, j, low, below, e, old(hint), hint);
      RejoinedStored(old(nodes), nodes, t, j, low, old(hint));
      if KidsFilled(t) {
        FilledReplaced(t.kids, j, low);
      }
      KidNosReplaced(t.kids, j, low, below);
    }

    /** Give an inner page one more separator and child: in place while they fit, otherwise
        the middle separator goes up and both halves are rebuilt. */
    method PlaceSplit(no: nat, j: nat, sep: Entry, right: u32, ghost ts: seq<Tree>, ghost h: nat,
                      ghost lo: int, ghost hi: int, ghost after: nat)
      returns (r: Split, ghost part: seq<Tree>)
      requires Pages() && no in nodes && nodes[no].Inner? && j <= |nodes[no].seps| <= CAPACITY
      requires h > 0 && KidsGood(ts, Replaced(nodes[no].seps, j, [sep], j), h - 1, lo, hi, after)
      requires |nodes[no].kids| == |nodes[no].seps| + 1 && KidNos(ts) == Replaced(nodes[no].kids, j + 1, [right], j + 1)
      requires AllStored(nodes, ts) && no !in NosOf(ts)
      requires no < hint && (forall n :: n in NosOf(ts) ==> n < hint) && Top() < U32
      modifies this`pages, this`nodes, this`hint
      ensures Pages() && hint >= old(hint) && Top() <= old(Top()) + 1
      ensures KidsGood(part, Cuts(r), h, lo, hi, after) && AllStored(nodes, part)
      ensures ElemsOf(part) == ElemsOf(ts) && (r.Splits? <==> |old(nodes)[no].seps| == CAPACITY)
      ensures AllFilled(ts) ==> if r.Splits? then AllFilled(part) else KidsFilled(part[0]) && Width(part[0]) == |old(nodes)[no].seps| + 1
      ensures part[0].no == no && (r.Splits? ==> part[1].no == r.right) && FirstLeaf(part[0]) == FirstLeaf(ts[0])
      ensures forall n :: n in NosOf(part) ==> n == no || n in NosOf(ts) || old(hint) <= n < hint
      ensures Kept(old(pages), pages, old(hint), {no}) && Kept(old(nodes), nodes, old(hint), {no})
    {
      ghost var seps := Replaced(nodes[no].seps, j, [sep], j);
      ReplacedAt(nodes[no].seps, j, [sep], j);
      var ok := AddToInner(no, j, sep, right);
      if ok {
        AllStoredFrame(old(nodes), nodes, ts, no);
        OneInner(no, seps, ts, h, lo, hi, after);
        return NoSplit, [InnerT(no, seps, ts)];
      }
      var allSeps, allKids := FullInner(no, j, sep, right);
      r, part := SplitInner(no, allSeps, allKids, ts, h, lo, hi, after);
    }

    method SplitInner(no: nat, seps: seq<Entry>, kids: seq<u32>, ghost ts: seq<Tree>, ghost h: nat,
                      ghost lo: int, ghost hi: int, ghost after: nat)
      returns (r: Split, ghost part: seq<Tree>)
      requires Pages() && h > 0 && KidsGood(ts, seps, h - 1, lo, hi, after) && |seps| == CAPACITY + 1 && kids == KidNos(ts)
      requires AllStored(nodes, ts) && no !in NosOf(ts)
      requires no < hint && (forall n :: n in NosOf(ts) ==> n < hint) && Top() < U32
      modifies this`pages, this`nodes, this`hint
      ensures Pages() && hint >= old(hint) && Top() <= old(Top()) + 1
      ensures KidsGood(part, Cuts(r), h, lo, hi, after) && AllStored(nodes, part)
      ensures ElemsOf(part) == ElemsOf(ts) && r.Splits? && (AllFilled(ts) ==> AllFilled(part))
      ensures part[0].no == no && (r.Splits? ==> part[1].no == r.right) && FirstLeaf(part[0]) == FirstLeaf(ts[0])
      ensures forall n :: n in NosOf(part) ==> n == no || n in NosOf(ts) || old(hint) <= n < hint
      ensures Kept(old(pages), pages, old(hint), {no}) && Kept(old(nodes), nodes, old(hint), {no})
    {
      var mid := |seps| / 2;
      var right := NewPage();
      InnerHalves(no, right, seps, ts, mid, h, lo, hi, after);
      EndSlices(seps, mid, mid + 1);
      EndSlices(kids, mid + 1, mid + 1);
      BuildInner(right, seps, kids, mid + 1, |seps|);
      BuildInner(no, seps, kids, 0, mid);
      AllStoredFrame2(old(nodes), nodes, ts, no, right);
      HalvesStored(nodes, no, right, seps, ts, mid);
      part := Halves(no, right, seps, ts, mid);
      HalvesFilled(no, right, seps, ts, mid);
      r := Splits(seps[mid], right);
    }

    // ---- the tree ----

    /** The root number goes to the file header page. */
    method SetRoot(no: u32)
      requires Pages() && 0 in pages
      modifies this`pages, this`nodes, this`root
      ensures Pages() && nodes == old(nodes) - {0}
      ensures root == no && 0 in pages && RootOf(pages[0]) == no && pages == old(pages)[0 := pages[0]]
    {
      var p := WithRoot(pages[0], no, sum);
      HeldOutside(pages, nodes, 0, p);
      pages, nodes := pages[0 := p], nodes - {0};
      root := no;
    }

    method Insert(e: Entry)
      requires Valid() && e !in Entries() && Top() + MOST_NEW <= U32
      modifies this`pages, this`nodes, this`hint, this`root, this`tree, this`height
      ensures Valid() && Entries() == old(Entries()) + {e}
      ensures Top() <= old(Top()) + MOST_NEW && hint >= old(hint)
      ensures if FullPath(old(tree), e) then root >= old(hint) else root == old(root)
      ensures old(KidsFilled(tree)) ==> KidsFilled(tree)
    {
      HeightBound(tree, height, 0, KEY_SPAN * PLACES, 0, hint);
      var r;
      ghost var part;
      r, part := InsertRec(root, e, tree, height, 0, KEY_SPAN * PLACES, 0);
      if r.NoSplit? {
        assert KidGood(part, [], height, 0, KEY_SPAN * PLACES, 0, 0);
        tree := part[0];
        assert part == [part[0]];
        OneTree(part[0], height, 0, KEY_SPAN * PLACES, 0);
        return;
      }
      GrowRoot(r.sep, r.right, part);
    }

    /** A root that has split gets a new page above it. */
    method GrowRoot(sep: Entry, right: u32, ghost part: seq<Tree>)
      requires Pages() && KidsGood(part, [sep], height, 0, KEY_SPAN * PLACES, 0) && AllStored(nodes, part)
      requires part[0].no == root && part[1].no == right && root < hint && 0 in pages
      requires (forall n :: n in NosOf(part) ==> 0 < n < hint) && Top() < U32
      modifies this`pages, this`nodes, this`hint, this`root, this`tree, this`height
      ensures Valid() && Entries() == ElemsOf(part) && Top() == old(Top()) + 1 && hint > old(hint) && root >= old(hint)
      ensures AllFilled(part) ==> KidsFilled(tree)
    {
      var no := NewPage();
      WholeOf([sep]);
      WholeOf([root, right]);
      BuildInner(no, [sep], [root, right], 0, 1);
      SetRoot(no);
      RootGrown(old(nodes), nodes, no, sep, part, height);
      tree, height := InnerT(no, [sep], part), height + 1;
    }
  }

  lemma {:induction false} RootGrown(nodes: map<nat, Node>, nodes': map<nat, Node>, no: nat, sep: Entry, part: seq<Tree>, h: nat)
    requires KidsGood(part, [sep], h, 0, KEY_SPAN * PLACES, 0) && AllStored(nodes, part)
    requires no !in NosOf(part) && 0 !in NosOf(part) && no != 0
    requires nodes' == nodes[no := Inner([sep], [part[0].no, part[1].no])] - {0}
    ensures var t := InnerT(no, [sep], part);
            && Good(t, h + 1, 0, KEY_SPAN * PLACES, 0) && Stored(nodes', t)
            && Elems(t) == ElemsOf(part) && Nos(t) == {no} + NosOf(part)
  {
    InnerGood(no, [sep], part, h + 1, 0, KEY_SPAN * PLACES, 0);
    AllStoredFrame2(nodes, nodes', part, no, 0);
    assert KidNos(part) == [part[0].no, part[1].no];
  }

  lemma {:induction false} WholeOf<T>(s: seq<T>)
    ensures s[0..|s|] == s
  {
  }

  lemma {:induction false} EndSlices<T>(s: seq<T>, k: nat, m: nat)
    requires k <= |s| && m <= |s|
    ensures s[0..k] == s[..k] && s[m..|s|] == s[m..]
  {
  }

  lemma {:induction false} ReplacedNothing<T>(s: seq<T>, j: nat)
    requires j <= |s|
    ensures Replaced(s, j, [], j) == s
  {
  }

  lemma {:induction false} InnerGood(no: nat, seps: seq<Entry>, ts: seq<Tree>, h: nat, lo: int, hi: int, after: nat)
    requires h > 0 && 1 <= |seps| <= CAPACITY && KidsGood(ts, seps, h - 1, lo, hi, after) && no !in NosOf(ts)
    ensures Good(InnerT(no, seps, ts), h, lo, hi, after)
    ensures Elems(InnerT(no, seps, ts)) == ElemsOf(ts) && Nos(InnerT(no, seps, ts)) == {no} + NosOf(ts)
  {
  }

  lemma {:induction false} OneInner(no: nat, seps: seq<Entry>, ts: seq<Tree>, h: nat, lo: int, hi: int, after: nat)
    requires h > 0 && 1 <= |seps| <= CAPACITY && KidsGood(ts, seps, h - 1, lo, hi, after) && no !in NosOf(ts)
    ensures var part := [InnerT(no, seps, ts)];
            && KidsGood(part, [], h, lo, hi, after) && ElemsOf(part) == ElemsOf(ts)
            && NosOf(part) == {no} + NosOf(ts) && FirstLeaf(part[0]) == FirstLeaf(ts[0])
  {
    OneTree(InnerT(no, seps, ts), h, lo, hi, after);
  }

  function Halves(no: nat, right: nat, seps: seq<Entry>, ts: seq<Tree>, mid: nat): (part: seq<Tree>)
    requires mid < |seps| && |ts| == |seps| + 1
    ensures |part| == 2
  {
    [InnerT(no, seps[..mid], ts[..mid + 1]), InnerT(right, seps[mid + 1..], ts[mid + 1..])]
  }

  lemma {:induction false} HalvesFilled(no: nat, right: nat, seps: seq<Entry>, ts: seq<Tree>, mid: nat)
    requires |seps| == CAPACITY + 1 && mid == |seps| / 2 && |ts| == |seps| + 1
    ensures AllFilled(ts) ==> AllFilled(Halves(no, right, seps, ts, mid))
  {
  }

  /** The two halves of an overfull inner page. */
  lemma {:induction false} InnerHalves(no: nat, right: nat, seps: seq<Entry>, ts: seq<Tree>, mid: nat, h: nat, lo: int, hi: int, after: nat)
    requires h > 0 && |seps| == CAPACITY + 1 && mid == |seps| / 2 && KidsGood(ts, seps, h - 1, lo, hi, after)
    requires no != right && no !in NosOf(ts) && right !in NosOf(ts)
    ensures var part := Halves(no, right, seps, ts, mid);
            && KidsGood(part, [seps[mid]], h, lo, hi, after) && ElemsOf(part) == ElemsOf(ts)
            && NosOf(part) == {no, right} + NosOf(ts) && FirstLeaf(part[0]) == FirstLeaf(ts[0])
  {
    var left, rest := ts[..mid + 1], ts[mid + 1..];
    HalvesGood(no, right, seps, ts, mid, h, lo, hi, after);
    ElemsConcat(ts, mid + 1);
    TwoTrees(InnerT(no, seps[..mid], left), InnerT(right, seps[mid + 1..], rest), seps[mid], h, lo, hi, after);
  }

  lemma {:induction false} HalvesGood(no: nat, right: nat, seps: seq<Entry>, ts: seq<Tree>, mid: nat, h: nat, lo: int, hi: int, after: nat)
    requires h > 0 && |seps| == CAPACITY + 1 && mid == |seps| / 2 && KidsGood(ts, seps, h - 1, lo, hi, after)
    requires no != right && no !in NosOf(ts) && right !in NosOf(ts)
    ensures var l, r := InnerT(no, seps[..mid], ts[..mid + 1]), InnerT(right, seps[mid + 1..], ts[mid + 1..]);
            && Good(l, h, lo, Ord(seps[mid]), FirstLeaf(r)) && Good(r, h, Ord(seps[mid]), hi, after)
            && FirstLeaf(l) == FirstLeaf(ts[0]) && Nos(l) !! Nos(r)
            && Elems(l) == ElemsOf(ts[..mid + 1]) && Nos(l) == {no} + NosOf(ts[..mid + 1])
            && Elems(r) == ElemsOf(ts[mid + 1..]) && Nos(r) == {right} + NosOf(ts[mid + 1..])
  {
    Cut(ts, seps, h - 1, lo, hi, after, mid);
    ElemsConcat(ts, mid + 1);
    InnerGood(no, seps[..mid], ts[..mid + 1], h, lo, Ord(seps[mid]), FirstLeaf(ts[mid + 1]));
    InnerGood(right, seps[mid + 1..], ts[mid + 1..], h, Ord(seps[mid]), hi, after);
  }

  lemma {:induction false} KidNosCut(ts: seq<Tree>, k: nat)
    requires k <= |ts|
    ensures KidNos(ts[..k]) == KidNos(ts)[..k] && KidNos(ts[k..]) == KidNos(ts)[k..]
  {
  }

  lemma {:induction false} HalvesStored(nodes: map<nat, Node>, no: nat, right: nat, seps: seq<Entry>, ts: seq<Tree>, mid: nat)
    requires mid < |seps| && |ts| == |seps| + 1 && AllStored(nodes, ts)
    requires no in nodes && nodes[no] == Inner(seps[..mid], KidNos(ts)[..mid + 1])
    requires right in nodes && nodes[right] == Inner(seps[mid + 1..], KidNos(ts)[mid + 1..])
    ensures AllStored(nodes, Halves(no, right, seps, ts, mid))
  {
    var left, rest := ts[..mid + 1], ts[mid + 1..];
    KidNosCut(ts, mid + 1);
    forall i | 0 <= i < |left| ensures Stored(nodes, left[i]) {
      assert left[i] == ts[i];
    }
    forall i | 0 <= i < |rest| ensures Stored(nodes, rest[i]) {
      assert rest[i] == ts[i + mid + 1];
    }
  }

  lemma {:induction false} KidsBelow(t: Tree, bound: nat)
    requires t.InnerT? && forall n :: n in Nos(t) ==> n < bound
    ensures forall i, n :: 0 <= i < |t.kids| && n in Nos(t.kids[i]) ==> n < bound
    ensures t.no < bound
  {
    forall i, n | 0 <= i < |t.kids| && n in Nos(t.kids[i]) ensures n < bound {
      assert n in NosOf(t.kids);
    }
    assert t.no in Nos(t);
  }

  lemma {:induction false} AllStoredFrame(nodes: map<nat, Node>, nodes': map<nat, Node>, ts: seq<Tree>, no: nat)
    requires AllStored(nodes, ts) && no !in NosOf(ts)
    requires forall n :: n in nodes && n != no ==> n in nodes' && nodes'[n] == nodes[n]
    ensures AllStored(nodes', ts)
  {
    AllStoredFrame2(nodes, nodes', ts, no, no);
  }

  lemma {:induction false} AllStoredFrame2(nodes: map<nat, Node>, nodes': map<nat, Node>, ts: seq<Tree>, no: nat, no2: nat)
    requires AllStored(nodes, ts) && no !in NosOf(ts) && no2 !in NosOf(ts)
    requires forall n :: n in nodes && n != no && n != no2 ==> n in nodes' && nodes'[n] == nodes[n]
    ensures AllStored(nodes', ts)
  {
    forall i | 0 <= i < |ts| ensures Stored(nodes', ts[i]) {
      forall n | n in Nos(ts[i]) ensures n != no && n != no2 {
        assert n in NosOf(ts);
      }
      StoredFrame(nodes, nodes', ts[i]);
    }
  }

  /** The children after the insertion below child j. */
  lemma {:induction false} Rejoined(t: Tree, h: nat, lo: int, hi: int, after: nat, j: nat, low: seq<Tree>, r: Split, e: Entry,
                 hint0: nat, hint: nat)
    requires t.InnerT? && Good(t, h, lo, hi, after) && |t.kids| == |t.seps| + 1 && j < |t.kids| && lo < hi
    requires KidsGood(low, Cuts(r), h - 1, Lo(t.seps, lo, j), Hi(t.seps, hi, j), After(t.kids, after, j))
    requires ElemsOf(low) == Elems(t.kids[j]) + {e} && FirstLeaf(low[0]) == FirstLeaf(t.kids[j])
    requires forall n :: n in Nos(t) ==> n < hint0
    requires forall n :: n in NosOf(low) ==> n in Nos(t.kids[j]) || hint0 <= n < hint
    ensures var ts' := Replaced(t.kids, j, low, j + 1);
            && KidsGood(ts', Replaced(t.seps, j, Cuts(r), j), h - 1, lo, hi, after)
            && ElemsOf(ts') == Elems(t) + {e}
            && FirstLeaf(ts'[0]) == FirstLeaf(t)
            && t.no !in NosOf(ts')
            && forall n :: n in NosOf(ts') ==> n in Nos(t) || hint0 <= n < hint
  {
    KidsBelow(t, hint0);
    forall i | 0 <= i < |t.kids| && i != j ensures NosOf(low) !! Nos(t.kids[i]) {
      assert Nos(t.kids[i]) !! Nos(t.kids[j]);
    }
    Splice(t.kids, t.seps, h - 1, lo, hi, after, j, low, Cuts(r));
    ElemsReplaced(t.kids, j, low, e);
    NosReplaced(t.kids, j, low);
    ReplacedAt(t.kids, j, low, j + 1);
    assert Nos(t.kids[j]) <= NosOf(t.kids);
  }

  lemma {:induction false} RejoinedStored(nodes: map<nat, Node>, nodes': map<nat, Node>, t: Tree, j: nat, low: seq<Tree>, bound: nat)
    requires t.InnerT? && Apart(t.kids) && t.no !in NosOf(t.kids) && Stored(nodes, t)
    requires AllStored(nodes', low) && j < |t.kids|
    requires forall n :: n in Nos(t) ==> n < bound
    requires Kept(nodes, nodes', bound, Nos(t.kids[j]))
    ensures AllStored(nodes', Replaced(t.kids, j, low, j + 1))
    ensures t.no in nodes && t.no in nodes' && nodes'[t.no] == nodes[t.no] && Nos(t.kids[j]) <= Nos(t)
  {
    var ts, r := t.kids, Replaced(t.kids, j, low, j + 1);
    KidsBelow(t, bound);
    assert Nos(ts[j]) <= NosOf(ts) && t.no in Nos(t);
    ReplacedAt(ts, j, low, j + 1);
    forall i | 0 <= i < |ts| && i != j ensures Stored(nodes', ts[i]) {
      StoredFrame(nodes, nodes', ts[i]);
    }
    forall i | 0 <= i < |r| ensures Stored(nodes', r[i]) {
      if j <= i < j + |low| {
        assert r[i] == low[i - j];
      } else {
        assert r[i] == ts[if i < j then i else i - |low| + 1];
      }
    }
  }

  // ---- rollback ----

  /** The pages after a rollback: bytes written since are as they were, pages that were new are zeros again. */
  function RolledBack(before: map<nat, Page>, after: map<nat, Page>): map<nat, Page> {
    map n | n in before.Keys + after.Keys :: if n in before then before[n] else ZeroPage()
  }

  lemma {:induction false} ZeroIsNoTreePage()
    ensures !PageOk(ZeroPage())
  {
  }

  lemma {:induction false} HeldAgain(before: map<nat, Page>, after: map<nat, Page>, nodes: map<nat, Node>)
    requires Held(before, nodes)
    ensures Held(RolledBack(before, after), nodes)
  {
    forall n | n in nodes ensures Shows(RolledBack(before, after), nodes, n) {
      assert Shows(before, nodes, n);
    }
  }

  method InsertEach(tree: Index, es: seq<Entry>)
    requires tree.Valid() && tree.Top() + |es| * MOST_NEW <= U32
    requires forall i :: 0 <= i < |es| ==> es[i] !in tree.Entries()
    requires forall i, j :: 0 <= i < j < |es| ==> es[i] != es[j]
    modifies tree
    ensures tree.Valid() && tree.hint >= old(tree.hint)
    ensures tree.root == old(tree.root) || tree.root >= old(tree.hint)
    ensures old(KidsFilled(tree.tree)) ==> KidsFilled(tree.tree)
    ensures |es| == 1 ==> if FullPath(old(tree.tree), es[0]) then tree.root >= old(tree.hint) else tree.root == old(tree.root)
  {
    for i := 0 to |es|
      invariant tree.Valid() && tree.Top() <= old(tree.Top()) + i * MOST_NEW && tree.hint >= old(tree.hint)
      invariant forall j :: i <= j < |es| ==> es[j] !in tree.Entries()
      invariant tree.root == old(tree.root) || tree.root >= old(tree.hint)
      invariant old(KidsFilled(tree.tree)) ==> KidsFilled(tree.tree)
      invariant i == 0 ==> tree.tree == old(tree.tree) && tree.root == old(tree.root)
      invariant i == 1 ==> if FullPath(old(tree.tree), es[0]) then tree.root >= old(tree.hint) else tree.root == old(tree.root)
    {
      tree.Insert(es[i]);
    }
  }

  /** Insertions of a transaction that is rolled back. The bytes come back; the tree object keeps the root number it
      remembers. If no insertion split the root, the object is as it was; otherwise its root is a page of zeros, at
      which every later read of the tree stops. A single insertion splits the root exactly if its path is full. */
  method InsertAndRollBack(tree: Index, es: seq<Entry>)
    requires tree.Valid() && tree.Top() + |es| * MOST_NEW <= U32
    requires forall i :: 0 <= i < |es| ==> es[i] !in tree.Entries()
    requires forall i, j :: 0 <= i < j < |es| ==> es[i] != es[j]
    modifies tree
    ensures forall n :: n in tree.pages ==> tree.pages[n] == if n in old(tree.pages) then old(tree.pages)[n] else ZeroPage()
    ensures tree.root == old(tree.root) ==> tree.Valid() && tree.Entries() == old(tree.Entries())
    ensures tree.root != old(tree.root) ==> tree.root in tree.pages && !PageOk(tree.pages[tree.root])
    ensures |es| == 1 ==> (tree.root != old(tree.root) <==> FullPath(old(tree.tree), es[0]))
  {
    var before := tree.pages;
    ghost var nodes, t, h := tree.nodes, tree.tree, tree.height;
    assert tree.root in Nos(t);
    InsertEach(tree, es);
    assert tree.root in tree.pages by {
      PageRead(tree.pages, tree.nodes, tree.root);
    }
    HeldAgain(before, tree.pages, nodes);
    ZeroIsNoTreePage();
    tree.pages := RolledBack(before, tree.pages);
    tree.nodes, tree.tree, tree.height := nodes, t, h;
  }
}
