/** What an insertion does to the bytes of one tree page, and the nodes a set of pages stands for
    (src/storage/btree.cpp). */
module BTreeFrames {
  import opened Bytes
  import opened Disk
  import opened KeyOrder
  import opened TreeModel
  import opened PageBytes
  import opened BTreePage

  const MAGIC_FILE := 0x54444146
  const TYPE_FILE: byte := 1

  /** The root page number kept on the file header page. */
  function RootOf(p: Page): u32 {
    Pow256Values();
    Field(p, HEADER, 4)
  }

  predicate PageOk(p: Page) {
    LeafOk(p) || NodeOk(p)
  }

  /** Page n is a tree page and its bytes stand for node n. */
  ghost predicate Shows(pages: map<nat, Page>, nodes: map<nat, Node>, n: nat) {
    n in nodes && n in pages && PageOk(pages[n]) && NodeOf(pages[n]) == nodes[n]
  }

  ghost predicate Held(pages: map<nat, Page>, nodes: map<nat, Node>) {
    forall n {:trigger Shows(pages, nodes, n)} :: n in nodes ==> Shows(pages, nodes, n)
  }

  lemma {:induction false} HeldWritten(pages: map<nat, Page>, nodes: map<nat, Node>, no: nat, p: Page)
    requires Held(pages, nodes) && PageOk(p)
    ensures Held(pages[no := p], nodes[no := NodeOf(p)])
  {
    var pages', nodes' := pages[no := p], nodes[no := NodeOf(p)];
    forall n | n in nodes' ensures Shows(pages', nodes', n) {
      assert n != no ==> Shows(pages, nodes, n);
    }
  }

  lemma {:induction false} HeldOutside(pages: map<nat, Page>, nodes: map<nat, Node>, no: nat, p: Page)
    requires Held(pages, nodes)
    ensures Held(pages[no := p], nodes - {no})
  {
    forall n | n in nodes - {no} ensures Shows(pages[no := p], nodes - {no}, n) {
      assert Shows(pages, nodes, n);
    }
  }

  lemma {:induction false} PageRead(pages: map<nat, Page>, nodes: map<nat, Node>, no: nat)
    requires Held(pages, nodes) && no in nodes
    ensures no in pages && PageOk(pages[no]) && (nodes[no].Leaf? <==> pages[no][TYPE_AT] == TYPE_LEAF)
    ensures nodes[no].Leaf? ==> LeafOk(pages[no]) && LeafEntries(pages[no]) == nodes[no].ents && NextOf(pages[no]) == nodes[no].next
    ensures nodes[no].Inner? ==> NodeOk(pages[no]) && Seps(pages[no]) == nodes[no].seps && Children(pages[no]) == nodes[no].kids
  {
    assert Shows(pages, nodes, no);
  }

  /** next_page and the checksum lie outside what the entries, separators and children are read from. */
  lemma {:induction false} LeafKept(p: Page, q: Page)
    requires LeafOk(p) && forall k :: TYPE_AT <= k < NEXT_AT || HEADER <= k < PAGE_SIZE ==> q[k] == p[k]
    ensures LeafOk(q) && LeafEntries(q) == LeafEntries(p)
  {
    HeaderKept(p, q);
    forall i | 0 <= i < Count(p) ensures SlotOk(q, i) && SlotOff(q, i) == SlotOff(p, i) {
      assert SlotOk(p, i);
      FieldSame(p, HEADER + SLOT * i, q, HEADER + SLOT * i, 2);
      FieldSame(p, HEADER + SLOT * i + 2, q, HEADER + SLOT * i + 2, 2);
    }
    forall i | 0 <= i < Count(p) ensures LeafEntry(q, i) == LeafEntry(p, i) {
      assert SlotOk(p, i);
      SameSlice(q, SlotOff(p, i), p, SlotOff(p, i), CELL);
    }
  }

  lemma {:induction false} HeaderKept(p: Page, q: Page)
    requires forall k :: TYPE_AT <= k < NEXT_AT ==> q[k] == p[k]
    ensures Count(q) == Count(p) && FreeBegin(q) == FreeBegin(p) && FreeEnd(q) == FreeEnd(p) && q[TYPE_AT] == p[TYPE_AT]
  {
    FieldSame(p, COUNT_AT, q, COUNT_AT, 2);
    FieldSame(p, BEGIN_AT, q, BEGIN_AT, 2);
    FieldSame(p, END_AT, q, END_AT, 2);
  }

  lemma {:induction false} NodeKept(p: Page, q: Page)
    requires NodeOk(p) && forall k :: TYPE_AT <= k < NEXT_AT || HEADER <= k < PAGE_SIZE ==> q[k] == p[k]
    ensures NodeOk(q) && Seps(q) == Seps(p) && Children(q) == Children(p)
  {
    HeaderKept(p, q);
    forall i | 0 <= i < Count(p) ensures SepAt(q, i) == SepAt(p, i) {
      SameSlice(q, HEADER + CELL * i, p, HEADER + CELL * i, CELL);
    }
    forall j | 0 <= j <= Count(p) ensures ChildAt(q, j) == ChildAt(p, j) {
      FieldSame(p, PAGE_SIZE - CHILD * (j + 1), q, PAGE_SIZE - CHILD * (j + 1), CHILD);
    }
  }

  method Frame(p: Page) returns (page: array<byte>)
    ensures fresh(page) && page.Length == PAGE_SIZE && page[..] == p
  {
    page := new byte[PAGE_SIZE](k requires 0 <= k < PAGE_SIZE => p[k]);
    assert page[..] == p;
  }

  /** The last store of every change to a page: its checksum. */
  method Stamp(page: array<byte>, sum: Page -> u32)
    requires page.Length == PAGE_SIZE
    modifies page
    ensures old(LeafOk(page[..])) ==> LeafOk(page[..]) && LeafEntries(page[..]) == old(LeafEntries(page[..]))
    ensures old(NodeOk(page[..])) ==> NodeOk(page[..]) && Seps(page[..]) == old(Seps(page[..])) && Children(page[..]) == old(Children(page[..]))
    ensures NextOf(page[..]) == old(NextOf(page[..]))
  {
    ghost var p: Page := page[..];
    PutAt(page, CHECKSUM_AT, Put(4, sum(page[..])));
    Overwritten(p, CHECKSUM_AT, Put(4, sum(p)));
    FieldSame(p, NEXT_AT, page[..], NEXT_AT, 4);
    if LeafOk(p) {
      LeafKept(p, page[..]);
    }
    if NodeOk(p) {
      NodeKept(p, page[..]);
    }
  }

  /** Insert an entry into a leaf that has room. */
  method LeafWith(p: Page, pos: nat, e: Entry, sum: Page -> u32) returns (q: Page)
    requires LeafOk(p) && pos <= Count(p) && SLOT + CELL <= FreeSpace(p)
    ensures LeafOk(q) && NodeOf(q) == Leaf(Replaced(LeafEntries(p), pos, [e], pos), NextOf(p))
  {
    var page := Frame(p);
    LeafInsertAt(page, pos, e);
    Stamp(page, sum);
    q := page[..];
  }

  /** A leaf rebuilt from entries [lo, hi), chained to `next`. */
  method LeafOf(entries: seq<Entry>, lo: nat, hi: nat, next: u32, sum: Page -> u32) returns (q: Page)
    requires lo <= hi <= |entries| && hi - lo <= CAPACITY
    ensures LeafOk(q) && NodeOf(q) == Leaf(entries[lo..hi], next)
  {
    var page := Frame(ZeroPage());
    LeafBuild(page, entries, lo, hi, Put(4, sum(page[..])));
    ghost var p: Page := page[..];
    PutAt(page, NEXT_AT, Put(4, next));
    Pow256Values();
    FieldWritten(p, NEXT_AT, 4, next);
    Overwritten(p, NEXT_AT, Put(4, next));
    LeafKept(p, page[..]);
    Stamp(page, sum);
    q := page[..];
  }

  /** Insert a separator and the child to its right into an inner page that has room. */
  method NodeWith(p: Page, i: nat, sep: Entry, right: u32, sum: Page -> u32) returns (q: Page)
    requires NodeOk(p) && i <= Count(p) && CELL + CHILD <= FreeSpace(p)
    ensures NodeOk(q) && NodeOf(q) == Inner(Replaced(Seps(p), i, [sep], i), Replaced(Children(p), i + 1, [right], i + 1))
  {
    var page := Frame(p);
    NodeInsertAt(page, i, sep, right);
    Stamp(page, sum);
    q := page[..];
  }

  /** An inner page rebuilt from separators [lo, hi) and children [lo, hi]. */
  method NodeFrom(seps: seq<Entry>, kids: seq<u32>, lo: nat, hi: nat, sum: Page -> u32) returns (q: Page)
    requires lo <= hi <= |seps| && hi < |kids| && hi - lo <= CAPACITY
    ensures NodeOk(q) && NodeOf(q) == Inner(seps[lo..hi], kids[lo..hi + 1])
  {
    var page := Frame(ZeroPage());
    NodeBuild(page, seps, kids, lo, hi, Put(4, sum(page[..])));
    Stamp(page, sum);
    q := page[..];
  }

  /** init_page of a leaf without entries. */
  method EmptyLeaf(sum: Page -> u32) returns (q: Page)
    ensures LeafOk(q) && NodeOf(q) == Leaf([], 0)
  {
    var page := Frame(ZeroPage());
    InitPage(page, MAGIC_LEAF, TYPE_LEAF, Put(4, sum(page[..])));
    BlankIs(MAGIC_LEAF, TYPE_LEAF, Put(4, sum(ZeroPage())));
    q := page[..];
  }

  /** The file header page with the number of the root stored after the page header. */
  method WithRoot(p: Page, no: u32, sum: Page -> u32) returns (q: Page)
    ensures RootOf(q) == no
  {
    var page := Frame(p);
    PutAt(page, HEADER, Put(4, no));
    ghost var p1: Page := page[..];
    Pow256Values();
    FieldWritten(p, HEADER, 4, no);
    PutAt(page, CHECKSUM_AT, Put(4, sum(page[..])));
    FieldKept(p1, CHECKSUM_AT, Put(4, sum(p1)), HEADER, 4);
    q := page[..];
  }

  method HeaderPage(no: u32, sum: Page -> u32) returns (q: Page)
    ensures RootOf(q) == no
  {
    var page := Frame(ZeroPage());
    InitPage(page, MAGIC_FILE, TYPE_FILE, Put(4, sum(page[..])));
    q := WithRoot(page[..], no, sum);
  }

  /** The entries of a full leaf with the new one among them, as insert_rec gathers them before the split. */
  method GatherLeaf(p: Page, pos: nat, e: Entry) returns (all: seq<Entry>)
    requires LeafOk(p) && pos <= Count(p)
    ensures all == Replaced(LeafEntries(p), pos, [e], pos)
  {
    all := [];
    for i := 0 to Count(p)
      invariant all == LeafEntries(p)[..i]
    {
      all := all + [LeafEntry(p, i)];
    }
    all := all[..pos] + [e] + all[pos..];
  }

  /** The separators of a full inner page with the new one among them, and its children likewise. */
  method GatherSeps(p: Page, j: nat, sep: Entry) returns (seps: seq<Entry>)
    requires NodeOk(p) && j <= Count(p)
    ensures seps == Replaced(Seps(p), j, [sep], j)
  {
    seps := [];
    for i := 0 to j
      invariant seps == Seps(p)[..i]
    {
      seps := seps + [SepAt(p, i)];
    }
    seps := seps + [sep];
    ghost var all := Seps(p);
    for i := j to Count(p)
      invariant seps == all[..j] + [sep] + all[j..i]
    {
      MoreOfTail(all, j, i, sep);
      seps := seps + [SepAt(p, i)];
    }
    assert all[j..Count(p)] == all[j..];
  }

  method GatherKids(p: Page, j: nat, right: u32) returns (kids: seq<u32>)
    requires NodeOk(p) && j < Count(p) + 1
    ensures kids == Replaced(Children(p), j + 1, [right], j + 1)
  {
    kids := [];
    for c := 0 to j + 1
      invariant kids == Children(p)[..c]
    {
      kids := kids + [ChildAt(p, c)];
    }
    kids := kids + [right];
    ghost var all := Children(p);
    for c := j + 1 to Count(p) + 1
      invariant kids == all[..j + 1] + [right] + all[j + 1..c]
    {
      MoreOfTail(all, j + 1, c, right);
      kids := kids + [ChildAt(p, c)];
    }
    assert all[j + 1..Count(p) + 1] == all[j + 1..];
  }

  lemma {:induction false} MoreOfTail<T>(all: seq<T>, j: nat, i: nat, x: T)
    requires j <= i < |all|
    ensures all[..j] + [x] + all[j..i] + [all[i]] == all[..j] + [x] + all[j..i + 1]
  {
    SliceSnoc(all, j, i);
  }
}
