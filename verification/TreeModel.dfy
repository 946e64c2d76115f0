/** B+ trees as values: the shape the pages of an index file have to make up, and how replacing and
    cutting lists of subtrees keeps it (src/storage/btree.h). */
module TreeModel {
  import opened KeyOrder

  /** Entries in a leaf and separators in an inner page, at most: 19 bytes each in 4096 - 24. */
  const CAPACITY := 214

  /** Content of one tree page. `next` is 0 at the end of the leaf chain. */
  datatype Node = Leaf(ents: seq<Entry>, next: nat) | Inner(seps: seq<Entry>, kids: seq<nat>)

  /** A tree with the number of the page that holds each node. */
  datatype Tree = LeafT(no: nat, ents: seq<Entry>, next: nat) | InnerT(no: nat, seps: seq<Entry>, kids: seq<Tree>)

  function FirstLeaf(t: Tree): nat {
    match t
    case LeafT(no, _, _) => no
    case InnerT(_, _, kids) => if kids == [] then 0 else FirstLeaf(kids[0])
  }

  function Nos(t: Tree): set<nat>
    decreases t, 0
  {
    match t
    case LeafT(no, _, _) => {no}
    case InnerT(no, _, kids) => {no} + NosOf(kids)
  }

  function NosOf(ts: seq<Tree>): set<nat>
    decreases ts, 1
  {
    set i, n | 0 <= i < |ts| && n in Nos(ts[i]) :: n
  }

  function Elems(t: Tree): set<Entry>
    decreases t, 0
  {
    match t
    case LeafT(_, ents, _) => set e | e in ents
    case InnerT(_, _, kids) => ElemsOf(kids)
  }

  function ElemsOf(ts: seq<Tree>): set<Entry>
    decreases ts, 1
  {
    set i, e | 0 <= i < |ts| && e in Elems(ts[i]) :: e
  }

  predicate AllIn(es: seq<Entry>, lo: int, hi: int) {
    forall i :: 0 <= i < |es| ==> lo <= Ord(es[i]) < hi
  }

  /** Bounds of subtree i: from the separator before it up to the one after it. */
  function Lo(seps: seq<Entry>, lo: int, i: nat): int
    requires i <= |seps|
  {
    if i == 0 then lo else Ord(seps[i - 1])
  }

  function Hi(seps: seq<Entry>, hi: int, i: nat): int
    requires i <= |seps|
  {
    if i == |seps| then hi else Ord(seps[i])
  }

  /** The leaf that follows the last leaf of subtree i. */
  function After(ts: seq<Tree>, after: nat, i: nat): nat
    requires i < |ts|
  {
    if i + 1 < |ts| then FirstLeaf(ts[i + 1]) else after
  }

  /** Separators ascend strictly between the bounds, one fewer than the subtrees. */
  predicate Shape(ts: seq<Tree>, seps: seq<Entry>, lo: int, hi: int) {
    && |ts| == |seps| + 1
    && Ascending(seps)
    && forall i :: 0 <= i < |seps| ==> lo < Ord(seps[i]) < hi
  }

  predicate Apart(ts: seq<Tree>) {
    forall i, j :: 0 <= i < j < |ts| ==> Nos(ts[i]) !! Nos(ts[j])
  }

  /** The tree invariant for a subtree of height h with keys in [lo, hi) and `after` as the leaf after it. */
  ghost predicate Good(t: Tree, h: nat, lo: int, hi: int, after: nat)
    decreases t, 0
  {
    match t
    case LeafT(_, ents, next) =>
      h == 0 && |ents| <= CAPACITY && Ascending(ents) && AllIn(ents, lo, hi) && next == after
    case InnerT(no, seps, kids) =>
      && h > 0 && 1 <= |seps| <= CAPACITY
      && no !in NosOf(kids) && Shape(kids, seps, lo, hi) && Apart(kids)
      && AllFit(kids, seps, h - 1, lo, hi, after)
  }

  /** Subtree i fits its place in a list. */
  ghost predicate KidGood(ts: seq<Tree>, seps: seq<Entry>, h: nat, lo: int, hi: int, after: nat, i: nat)
    requires |ts| == |seps| + 1 && i < |ts|
    decreases ts, 1
  {
    Good(ts[i], h, Lo(seps, lo, i), Hi(seps, hi, i), After(ts, after, i))
  }

  ghost predicate AllFit(ts: seq<Tree>, seps: seq<Entry>, h: nat, lo: int, hi: int, after: nat)
    requires |ts| == |seps| + 1
    decreases ts, 2
  {
    forall i :: 0 <= i < |ts| ==> KidGood(ts, seps, h, lo, hi, after, i)
  }

  /** The same for the children of one node, or any list of neighbouring subtrees. */
  ghost predicate KidsGood(ts: seq<Tree>, seps: seq<Entry>, h: nat, lo: int, hi: int, after: nat) {
    Shape(ts, seps, lo, hi) && Apart(ts) && AllFit(ts, seps, h, lo, hi, after)
  }

  /** The pages hold this tree. */
  ghost predicate Stored(nodes: map<nat, Node>, t: Tree)
    decreases t
  {
    t.no in nodes &&
    match t
    case LeafT(no, ents, next) => nodes[no] == Leaf(ents, next)
    case InnerT(no, seps, kids) =>
      && nodes[no] == Inner(seps, KidNos(kids))
      && forall i :: 0 <= i < |kids| ==> Stored(nodes, kids[i])
  }

  function KidNos(ts: seq<Tree>): seq<nat> {
    seq(|ts|, i requires 0 <= i < |ts| => ts[i].no)
  }

  ghost predicate AllStored(nodes: map<nat, Node>, ts: seq<Tree>) {
    forall i :: 0 <= i < |ts| ==> Stored(nodes, ts[i])
  }

  /** Writes outside a tree's pages leave it stored. */
  lemma {:induction false} StoredFrame(nodes: map<nat, Node>, nodes': map<nat, Node>, t: Tree)
    requires Stored(nodes, t)
    requires forall n :: n in Nos(t) && n in nodes ==> n in nodes' && nodes'[n] == nodes[n]
    ensures Stored(nodes', t)
    decreases t
  {
    assert t.no in Nos(t);
    if t.InnerT? {
      forall i | 0 <= i < |t.kids| ensures Stored(nodes', t.kids[i]) {
        forall n | n in Nos(t.kids[i]) && n in nodes ensures n in nodes' && nodes'[n] == nodes[n] {
          assert n in NosOf(t.kids);
        }
        StoredFrame(nodes, nodes', t.kids[i]);
      }
    }
  }

  // ---- replacing one element of a list by several ----

  function Replaced<T>(s: seq<T>, j: nat, part: seq<T>, k: nat): seq<T>
    requires j <= k <= |s|
  {
    s[..j] + part + s[k..]
  }

  lemma {:induction false} ReplacedAt<T>(s: seq<T>, j: nat, part: seq<T>, k: nat)
    requires j <= k <= |s|
    ensures var r := Replaced(s, j, part, k);
            && |r| == |s| - (k - j) + |part|
            && forall i :: 0 <= i < |r| ==>
                 r[i] == if i < j then s[i] else if i < j + |part| then part[i - j] else s[i - |part| + (k - j)]
  {
  }

  lemma {:induction false} SepsSpliced(seps: seq<Entry>, lo: int, hi: int, j: nat, cuts: seq<Entry>)
    requires j <= |seps| && Ascending(seps) && Ascending(cuts)
    requires forall i :: 0 <= i < |seps| ==> lo < Ord(seps[i]) < hi
    requires forall i :: 0 <= i < |cuts| ==> Lo(seps, lo, j) < Ord(cuts[i]) < Hi(seps, hi, j)
    requires lo < hi
    ensures var r := Replaced(seps, j, cuts, j);
            Ascending(r) && forall i :: 0 <= i < |r| ==> lo < Ord(r[i]) < hi
  {
    var r, m := Replaced(seps, j, cuts, j), |cuts|;
    ReplacedAt(seps, j, cuts, j);
    forall i, k | 0 <= i < k < |r| ensures Ord(r[i]) < Ord(r[k]) {
      if i < j && j <= k < j + m {
        assert Ord(seps[i]) <= Ord(seps[j - 1]);
      } else if j <= i < j + m && j + m <= k {
        assert Ord(seps[j]) <= Ord(seps[k - m]);
      }
    }
  }

  /** Replacing subtree j of a list by a list of subtrees that fits its place. */
  lemma {:induction false} Splice(ts: seq<Tree>, seps: seq<Entry>, h: nat, lo: int, hi: int, after: nat,
               j: nat, part: seq<Tree>, cuts: seq<Entry>)
    requires KidsGood(ts, seps, h, lo, hi, after) && j < |ts| && lo < hi
    requires KidsGood(part, cuts, h, Lo(seps, lo, j), Hi(seps, hi, j), After(ts, after, j))
    requires FirstLeaf(part[0]) == FirstLeaf(ts[j])
    requires forall i :: 0 <= i < |ts| && i != j ==> NosOf(part) !! Nos(ts[i])
    ensures KidsGood(Replaced(ts, j, part, j + 1), Replaced(seps, j, cuts, j), h, lo, hi, after)
  {
    var ts', seps', m := Replaced(ts, j, part, j + 1), Replaced(seps, j, cuts, j), |cuts|;
    SepsSpliced(seps, lo, hi, j, cuts);
    ReplacedAt(ts, j, part, j + 1);
    ReplacedAt(seps, j, cuts, j);
    forall i | 0 <= i < |ts'| ensures KidGood(ts', seps', h, lo, hi, after, i) {
      SpliceOne(ts, seps, h, lo, hi, after, j, part, cuts, i);
    }
    assert AllFit(ts', seps', h, lo, hi, after);
    SpliceDisjoint(ts, j, part);
  }

  lemma {:induction false} SpliceDisjoint(ts: seq<Tree>, j: nat, part: seq<Tree>)
    requires j < |ts|
    requires forall i, k :: 0 <= i < k < |ts| ==> Nos(ts[i]) !! Nos(ts[k])
    requires forall i, k :: 0 <= i < k < |part| ==> Nos(part[i]) !! Nos(part[k])
    requires forall i :: 0 <= i < |ts| && i != j ==> NosOf(part) !! Nos(ts[i])
    ensures var r := Replaced(ts, j, part, j + 1); forall i, k :: 0 <= i < k < |r| ==> Nos(r[i]) !! Nos(r[k])
  {
    var r := Replaced(ts, j, part, j + 1);
    ReplacedAt(ts, j, part, j + 1);
    forall i | 0 <= i < |part| ensures Nos(part[i]) <= NosOf(part) {
    }
  }

  lemma {:induction false} BoundsSpliced(seps: seq<Entry>, lo: int, hi: int, j: nat, cuts: seq<Entry>, i: nat)
    requires j <= |seps| && i <= |seps| + |cuts|
    ensures |Replaced(seps, j, cuts, j)| == |seps| + |cuts|
    ensures var seps', m := Replaced(seps, j, cuts, j), |cuts|;
            && Lo(seps', lo, i) == (if i <= j then Lo(seps, lo, i)
                                    else if i <= j + m then Lo(cuts, Lo(seps, lo, j), i - j) else Lo(seps, lo, i - m))
            && Hi(seps', hi, i) == (if i < j then Hi(seps, hi, i)
                                    else if i <= j + m then Hi(cuts, Hi(seps, hi, j), i - j) else Hi(seps, hi, i - m))
  {
    ReplacedAt(seps, j, cuts, j);
  }

  lemma {:induction false} AfterSpliced(ts: seq<Tree>, after: nat, j: nat, part: seq<Tree>, i: nat)
    requires j < |ts| && part != [] && FirstLeaf(part[0]) == FirstLeaf(ts[j]) && i < |ts| + |part| - 1
    ensures |Replaced(ts, j, part, j + 1)| == |ts| + |part| - 1
    ensures var ts', m := Replaced(ts, j, part, j + 1), |part| - 1;
            After(ts', after, i) == if i < j then After(ts, after, i)
                                    else if i <= j + m then After(part, After(ts, after, j), i - j)
                                    else After(ts, after, i - m)
  {
    ReplacedAt(ts, j, part, j + 1);
  }

  lemma {:induction false} SpliceOne(ts: seq<Tree>, seps: seq<Entry>, h: nat, lo: int, hi: int, after: nat,
                  j: nat, part: seq<Tree>, cuts: seq<Entry>, i: nat)
    requires |ts| == |seps| + 1 && |part| == |cuts| + 1 && j < |ts| && i < |ts| + |cuts|
    requires forall k :: 0 <= k < |ts| ==> KidGood(ts, seps, h, lo, hi, after, k)
    requires forall k :: 0 <= k < |part| ==>
               KidGood(part, cuts, h, Lo(seps, lo, j), Hi(seps, hi, j), After(ts, after, j), k)
    requires FirstLeaf(part[0]) == FirstLeaf(ts[j])
    ensures var ts', seps' := Replaced(ts, j, part, j + 1), Replaced(seps, j, cuts, j);
            && |ts'| == |ts| + |cuts| && |seps'| == |seps| + |cuts|
            && KidGood(ts', seps', h, lo, hi, after, i)
  {
    ReplacedAt(ts, j, part, j + 1);
    BoundsSpliced(seps, lo, hi, j, cuts, i);
    AfterSpliced(ts, after, j, part, i);
    var m := |cuts|;
    if i < j {
      assert KidGood(ts, seps, h, lo, hi, after, i);
    } else if i <= j + m {
      assert KidGood(part, cuts, h, Lo(seps, lo, j), Hi(seps, hi, j), After(ts, after, j), i - j);
    } else {
      assert KidGood(ts, seps, h, lo, hi, after, i - m);
    }
  }

  /** Cutting a list at separator `mid`: the separator moves up, the two sides are lists of their own. */
  lemma {:induction false} Cut(ts: seq<Tree>, seps: seq<Entry>, h: nat, lo: int, hi: int, after: nat, mid: nat)
    requires KidsGood(ts, seps, h, lo, hi, after) && mid < |seps|
    ensures KidsGood(ts[..mid + 1], seps[..mid], h, lo, Ord(seps[mid]), FirstLeaf(ts[mid + 1]))
    ensures KidsGood(ts[mid + 1..], seps[mid + 1..], h, Ord(seps[mid]), hi, after)
    ensures NosOf(ts[..mid + 1]) !! NosOf(ts[mid + 1..])
  {
    CutLeft(ts, seps, h, lo, hi, after, mid);
    CutRight(ts, seps, h, lo, hi, after, mid);
    var left, right := ts[..mid + 1], ts[mid + 1..];
    forall i, k | 0 <= i < |left| && 0 <= k < |right| ensures Nos(left[i]) !! Nos(right[k]) {
      assert left[i] == ts[i] && right[k] == ts[k + mid + 1];
    }
  }

  lemma {:induction false} CutLeft(ts: seq<Tree>, seps: seq<Entry>, h: nat, lo: int, hi: int, after: nat, mid: nat)
    requires KidsGood(ts, seps, h, lo, hi, after) && mid < |seps|
    ensures KidsGood(ts[..mid + 1], seps[..mid], h, lo, Ord(seps[mid]), FirstLeaf(ts[mid + 1]))
  {
    var left, cuts, top, next := ts[..mid + 1], seps[..mid], Ord(seps[mid]), FirstLeaf(ts[mid + 1]);
    forall i | 0 <= i < |left| ensures KidGood(left, cuts, h, lo, top, next, i) {
      assert KidGood(ts, seps, h, lo, hi, after, i);
      assert Lo(cuts, lo, i) == Lo(seps, lo, i);
      assert Hi(cuts, top, i) == Hi(seps, hi, i);
      assert After(left, next, i) == After(ts, after, i);
    }
    assert AllFit(left, cuts, h, lo, top, next);
  }

  lemma {:induction false} CutRight(ts: seq<Tree>, seps: seq<Entry>, h: nat, lo: int, hi: int, after: nat, mid: nat)
    requires KidsGood(ts, seps, h, lo, hi, after) && mid < |seps|
    ensures KidsGood(ts[mid + 1..], seps[mid + 1..], h, Ord(seps[mid]), hi, after)
  {
    var right, cuts, low := ts[mid + 1..], seps[mid + 1..], Ord(seps[mid]);
    forall i | 0 <= i < |right| ensures KidGood(right, cuts, h, low, hi, after, i) {
      var k := i + mid + 1;
      assert KidGood(ts, seps, h, lo, hi, after, k);
      assert Lo(cuts, low, i) == Lo(seps, lo, k);
      assert Hi(cuts, hi, i) == Hi(seps, hi, k);
      assert After(right, after, i) == After(ts, after, k);
    }
    assert AllFit(right, cuts, h, low, hi, after);
  }
}
