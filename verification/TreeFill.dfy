/** How full the pages of a tree are: all but the root at least half, so that the height of a tree is logarithmic in its
    entries (src/storage/btree.cpp). */
module TreeFill {
  import opened Arith
  import opened KeyOrder
  import opened TreeModel

  /** Half of what fits: entries of a leaf, separators of an inner page. */
  const LEAST := CAPACITY / 2

  function Width(t: Tree): nat {
    if t.LeafT? then |t.ents| else |t.seps|
  }

  predicate Filled(t: Tree)
    decreases t, 0
  {
    Width(t) >= LEAST && (t.InnerT? ==> AllFilled(t.kids))
  }

  predicate AllFilled(ts: seq<Tree>)
    decreases ts, 1
  {
    forall i :: 0 <= i < |ts| ==> Filled(ts[i])
  }

  /** All pages below the root. */
  predicate KidsFilled(t: Tree) {
    t.InnerT? ==> AllFilled(t.kids)
  }

  /** One tree in the place of another is no narrower; two are half full each. */
  predicate StaysFilled(t: Tree, part: seq<Tree>) {
    KidsFilled(t) ==>
      if |part| == 1 then KidsFilled(part[0]) && Width(part[0]) >= Width(t) else AllFilled(part)
  }

  lemma {:induction false} FilledReplaced(ts: seq<Tree>, j: nat, low: seq<Tree>)
    requires AllFilled(ts) && j < |ts| && StaysFilled(ts[j], low)
    ensures AllFilled(Replaced(ts, j, low, j + 1))
  {
    assert Filled(ts[j]);
    assert AllFilled(low);
    ReplacedAt(ts, j, low, j + 1);
  }

  // ---- how many entries a tree of some height has ----

  function Power(b: nat, n: nat): nat {
    if n == 0 then 1 else b * Power(b, n - 1)
  }

  lemma {:induction false} AscendingSize(es: seq<Entry>)
    requires Ascending(es)
    ensures |set e | e in es| == |es|
  {
    if es != [] {
      var front, last := es[..|es| - 1], es[|es| - 1];
      AscendingSize(front);
      assert es == front + [last];
      assert last !in front;
      assert (set e | e in es) == (set e | e in front) + {last};
    } else {
      assert (set e | e in es) == {};
    }
  }

  lemma {:induction false} WithinBounds(t: Tree, h: nat, lo: int, hi: int, after: nat, e: Entry)
    requires Good(t, h, lo, hi, after) && e in Elems(t)
    ensures lo <= Ord(e) < hi
    decreases t
  {
    if t.InnerT? {
      var i :| 0 <= i < |t.kids| && e in Elems(t.kids[i]);
      assert KidGood(t.kids, t.seps, h - 1, lo, hi, after, i);
      WithinBounds(t.kids[i], h - 1, Lo(t.seps, lo, i), Hi(t.seps, hi, i), After(t.kids, after, i), e);
    }
  }

  lemma {:induction false} NoCommonEntry(ts: seq<Tree>, seps: seq<Entry>, h: nat, lo: int, hi: int, after: nat, i: nat, j: nat)
    requires KidsGood(ts, seps, h, lo, hi, after) && i < j < |ts|
    ensures Elems(ts[i]) !! Elems(ts[j])
  {
    assert KidGood(ts, seps, h, lo, hi, after, i) && KidGood(ts, seps, h, lo, hi, after, j);
    assert Ord(seps[i]) <= Ord(seps[j - 1]);
    forall e | e in Elems(ts[i]) ensures e !in Elems(ts[j]) {
      WithinBounds(ts[i], h, Lo(seps, lo, i), Hi(seps, hi, i), After(ts, after, i), e);
      if e in Elems(ts[j]) {
        WithinBounds(ts[j], h, Lo(seps, lo, j), Hi(seps, hi, j), After(ts, after, j), e);
      }
    }
  }

  lemma {:induction false} PrefixElems(ts: seq<Tree>, n: nat)
    requires n < |ts|
    ensures ElemsOf(ts[..n + 1]) == ElemsOf(ts[..n]) + Elems(ts[n])
  {
    var more, fewer := ts[..n + 1], ts[..n];
    assert forall i :: 0 <= i < n ==> more[i] == fewer[i];
    assert more[n] == ts[n];
    forall e ensures e in ElemsOf(more) <==> e in ElemsOf(fewer) || e in Elems(ts[n]) {
      if e in ElemsOf(more) {
        var i :| 0 <= i < |more| && e in Elems(more[i]);
        assert i < n ==> e in Elems(fewer[i]);
      }
      if e in ElemsOf(fewer) {
        var i :| 0 <= i < |fewer| && e in Elems(fewer[i]);
        assert e in Elems(more[i]);
      }
    }
  }

  lemma {:induction false} PrefixApart(ts: seq<Tree>, seps: seq<Entry>, h: nat, lo: int, hi: int, after: nat, n: nat)
    requires KidsGood(ts, seps, h, lo, hi, after) && n < |ts|
    ensures ElemsOf(ts[..n]) !! Elems(ts[n])
  {
    forall e | e in ElemsOf(ts[..n]) ensures e !in Elems(ts[n]) {
      var i :| 0 <= i < n && e in Elems(ts[..n][i]);
      NoCommonEntry(ts, seps, h, lo, hi, after, i, n);
    }
  }

  lemma {:induction false} UnionSize<T>(a: set<T>, b: set<T>)
    requires a !! b
    ensures |a + b| == |a| + |b|
  {
  }

  lemma {:induction false} PrefixSize(ts: seq<Tree>, seps: seq<Entry>, h: nat, lo: int, hi: int, after: nat, n: nat)
    requires KidsGood(ts, seps, h, lo, hi, after) && n < |ts|
    ensures |ElemsOf(ts[..n + 1])| == |ElemsOf(ts[..n])| + |Elems(ts[n])|
  {
    PrefixElems(ts, n);
    PrefixApart(ts, seps, h, lo, hi, after, n);
    UnionSize(ElemsOf(ts[..n]), Elems(ts[n]));
  }

  /** The first n of neighbouring trees have n times the entries each of them has at least. */
  lemma {:induction false} ManyEntries(ts: seq<Tree>, seps: seq<Entry>, h: nat, lo: int, hi: int, after: nat, n: nat, m: nat)
    requires KidsGood(ts, seps, h, lo, hi, after) && n <= |ts|
    requires forall i :: 0 <= i < |ts| ==> |Elems(ts[i])| >= m
    ensures |ElemsOf(ts[..n])| >= n * m
    decreases n
  {
    if n > 0 {
      ManyEntries(ts, seps, h, lo, hi, after, n - 1, m);
      PrefixSize(ts, seps, h, lo, hi, after, n - 1);
      OneMore(n, m);
    } else {
      assert ts[..0] == [];
    }
  }

  lemma {:induction false} OneMore(n: int, m: int)
    ensures n * m == (n - 1) * m + m
  {
  }

  /** A subtree of height h whose pages are half full. */
  lemma {:induction false} FilledEntries(t: Tree, h: nat, lo: int, hi: int, after: nat)
    requires Good(t, h, lo, hi, after) && Filled(t)
    ensures |Elems(t)| >= LEAST * Power(LEAST + 1, h)
    decreases t
  {
    if t.LeafT? {
      AscendingSize(t.ents);
    } else {
      KidsEntries(t, h, lo, hi, after);
      var m := LEAST * Power(LEAST + 1, h - 1);
      MulLe(LEAST + 1, |t.kids|, m);
      assert LEAST * Power(LEAST + 1, h) == (LEAST + 1) * m;
    }
  }

  lemma {:induction false} KidsEntries(t: Tree, h: nat, lo: int, hi: int, after: nat)
    requires Good(t, h, lo, hi, after) && t.InnerT? && KidsFilled(t)
    ensures |Elems(t)| >= |t.kids| * (LEAST * Power(LEAST + 1, h - 1)) && |t.kids| == |t.seps| + 1
    decreases t, 0
  {
    forall i | 0 <= i < |t.kids| ensures |Elems(t.kids[i])| >= LEAST * Power(LEAST + 1, h - 1) {
      assert KidGood(t.kids, t.seps, h - 1, lo, hi, after, i);
      FilledEntries(t.kids[i], h - 1, Lo(t.seps, lo, i), Hi(t.seps, hi, i), After(t.kids, after, i));
    }
    ManyEntries(t.kids, t.seps, h - 1, lo, hi, after, |t.kids|, LEAST * Power(LEAST + 1, h - 1));
    assert t.kids[..|t.kids|] == t.kids;
  }

  /** A tree of height h > 0 has at least 2 * 107 * 108^(h - 1) entries. */
  lemma {:induction false} TreeEntries(t: Tree, h: nat, lo: int, hi: int, after: nat)
    requires Good(t, h, lo, hi, after) && KidsFilled(t) && h > 0
    ensures |Elems(t)| >= 2 * (107 * Power(108, h - 1))
  {
    KidsEntries(t, h, lo, hi, after);
    MulLe(2, |t.kids|, LEAST * Power(LEAST + 1, h - 1));
  }
}
