/** Sets of index keys as lists of ranges (src/storage/btree.h, src/planner/index_select.cpp). */
module KeyRanges {
  import opened LogRecords
  import opened KeyOrder

  /** A bound of a scan; one that is not inclusive leaves its own key out. */
  datatype Bound = Bound(key: IndexKey, inclusive: bool)

  predicate AboveLo(k: IndexKey, lo: Option<Bound>) {
    lo.None? || KeyCmp(k, lo.value.key) > 0 || (lo.value.inclusive && k == lo.value.key)
  }

  predicate BelowHi(k: IndexKey, hi: Option<Bound>) {
    hi.None? || KeyCmp(k, hi.value.key) < 0 || (hi.value.inclusive && k == hi.value.key)
  }

  predicate InRange(k: IndexKey, lo: Option<Bound>, hi: Option<Bound>) {
    AboveLo(k, lo) && BelowHi(k, hi)
  }

  datatype Range = Range(lo: Option<Bound>, hi: Option<Bound>)

  predicate Within(k: IndexKey, r: Range) {
    InRange(k, r.lo, r.hi)
  }

  /** The key set a list of ranges denotes. */
  ghost predicate KeyIn(k: IndexKey, rs: seq<Range>) {
    exists i :: 0 <= i < |rs| && Within(k, rs[i])
  }

  /** Every key of one range is below every key of a later one; in particular ranges do not overlap. */
  ghost predicate RangesAscend(rs: seq<Range>) {
    forall i, j, k, m :: 0 <= i < j < |rs| && Within(k, rs[i]) && Within(m, rs[j]) ==> KeyCmp(k, m) < 0
  }

  // ---- intersection ----

  /** The larger lower bound is tighter, at one key the open one. */
  function TighterLo(a: Option<Bound>, b: Option<Bound>): Option<Bound> {
    if a.None? || b.None? then if a.Some? then a else b
    else
      var c := KeyCmp(a.value.key, b.value.key);
      if c != 0 then if c > 0 then a else b
      else if a.value.inclusive then b else a
  }

  function TighterHi(a: Option<Bound>, b: Option<Bound>): Option<Bound> {
    if a.None? || b.None? then if a.Some? then a else b
    else
      var c := KeyCmp(a.value.key, b.value.key);
      if c != 0 then if c < 0 then a else b
      else if a.value.inclusive then b else a
  }

  /** None when the bounds cross. */
  function RangeMeet(a: Range, b: Range): Option<Range> {
    var r := Range(TighterLo(a.lo, b.lo), TighterHi(a.hi, b.hi));
    if r.lo.Some? && r.hi.Some? then
      var c := KeyCmp(r.lo.value.key, r.hi.value.key);
      if c > 0 || (c == 0 && !(r.lo.value.inclusive && r.hi.value.inclusive)) then None else Some(r)
    else Some(r)
  }

  /** Meeting two ranges is intersecting their key sets. */
  lemma {:induction false} RangeMeetIsIntersection(a: Range, b: Range, k: IndexKey)
    ensures Within(k, a) && Within(k, b) <==> RangeMeet(a, b).Some? && Within(k, RangeMeet(a, b).value)
  {
  }

  function MeetEach(x: Range, b: seq<Range>): seq<Range> {
    if b == [] then []
    else
      var r := RangeMeet(x, b[|b| - 1]);
      MeetEach(x, b[..|b| - 1]) + if r.Some? then [r.value] else []
  }

  function RangesMeet(a: seq<Range>, b: seq<Range>): seq<Range> {
    if a == [] then [] else RangesMeet(a[..|a| - 1], b) + MeetEach(a[|a| - 1], b)
  }

  method RangesMeetLoop(a: seq<Range>, b: seq<Range>) returns (out: seq<Range>)
    ensures out == RangesMeet(a, b)
  {
    out := [];
    for i := 0 to |a|
      invariant out == RangesMeet(a[..i], b)
    {
      ghost var before := out;
      assert a[..i + 1][..i] == a[..i];
      for j := 0 to |b|
        invariant out == before + MeetEach(a[i], b[..j])
      {
        assert b[..j + 1][..j] == b[..j];
        var r := RangeMeet(a[i], b[j]);
        if r.Some? {
          out := out + [r.value];
        }
      }
      assert b[..|b|] == b;
    }
    assert a[..|a|] == a;
  }

  lemma {:induction false} KeyInConcat(k: IndexKey, a: seq<Range>, b: seq<Range>)
    ensures KeyIn(k, a + b) <==> KeyIn(k, a) || KeyIn(k, b)
  {
    if KeyIn(k, a) {
      var i :| 0 <= i < |a| && Within(k, a[i]);
      assert Within(k, (a + b)[i]);
    }
    if KeyIn(k, b) {
      var i :| 0 <= i < |b| && Within(k, b[i]);
      assert Within(k, (a + b)[|a| + i]);
    }
  }

  lemma {:induction false} KeyInOne(k: IndexKey, r: Range)
    ensures KeyIn(k, [r]) <==> Within(k, r)
  {
    assert Within(k, r) ==> Within(k, [r][0]);
  }

  lemma {:induction false} KeyInSplit(k: IndexKey, rs: seq<Range>)
    requires rs != []
    ensures KeyIn(k, rs) <==> KeyIn(k, rs[..|rs| - 1]) || Within(k, rs[|rs| - 1])
  {
    assert rs == rs[..|rs| - 1] + [rs[|rs| - 1]];
    KeyInConcat(k, rs[..|rs| - 1], [rs[|rs| - 1]]);
    KeyInOne(k, rs[|rs| - 1]);
  }

  lemma {:induction false} MeetEachKeys(x: Range, b: seq<Range>, k: IndexKey)
    ensures KeyIn(k, MeetEach(x, b)) <==> Within(k, x) && KeyIn(k, b)
  {
    if b != [] {
      var last := b[|b| - 1];
      var r := RangeMeet(x, last);
      MeetEachKeys(x, b[..|b| - 1], k);
      KeyInSplit(k, b);
      RangeMeetIsIntersection(x, last, k);
      KeyInConcat(k, MeetEach(x, b[..|b| - 1]), if r.Some? then [r.value] else []);
      if r.Some? {
        KeyInOne(k, r.value);
      }
    }
  }

  /** The list denotes exactly the intersection of the key sets. */
  lemma {:induction false} RangesMeetKeys(a: seq<Range>, b: seq<Range>, k: IndexKey)
    ensures KeyIn(k, RangesMeet(a, b)) <==> KeyIn(k, a) && KeyIn(k, b)
  {
    if a != [] {
      RangesMeetKeys(a[..|a| - 1], b, k);
      MeetEachKeys(a[|a| - 1], b, k);
      KeyInSplit(k, a);
      KeyInConcat(k, RangesMeet(a[..|a| - 1], b), MeetEach(a[|a| - 1], b));
    }
  }

  /** Every key of the first list is below every key of the second. */
  ghost predicate AllLess(a: seq<Range>, b: seq<Range>) {
    forall k, m :: KeyIn(k, a) && KeyIn(m, b) ==> KeyCmp(k, m) < 0
  }

  lemma {:induction false} AscendJoin(a: seq<Range>, b: seq<Range>)
    requires RangesAscend(a) && RangesAscend(b) && AllLess(a, b)
    ensures RangesAscend(a + b)
  {
    var rs := a + b;
    forall i, j, k, m | 0 <= i < j < |rs| && Within(k, rs[i]) && Within(m, rs[j]) ensures KeyCmp(k, m) < 0 {
      if j < |a| {
        assert rs[i] == a[i] && rs[j] == a[j];
      } else if i < |a| {
        assert Within(k, a[i]) && Within(m, b[j - |a|]);
      } else {
        assert rs[i] == b[i - |a|] && rs[j] == b[j - |a|];
      }
    }
  }

  lemma {:induction false} AscendParts(a: seq<Range>, b: seq<Range>)
    requires RangesAscend(a + b)
    ensures RangesAscend(a) && RangesAscend(b) && AllLess(a, b)
  {
    var rs := a + b;
    assert forall i :: 0 <= i < |a| ==> rs[i] == a[i];
    assert forall i :: 0 <= i < |b| ==> rs[|a| + i] == b[i];
    forall k, m | KeyIn(k, a) && KeyIn(m, b) ensures KeyCmp(k, m) < 0 {
      var i :| 0 <= i < |a| && Within(k, a[i]);
      var j :| 0 <= j < |b| && Within(m, b[j]);
      assert Within(k, rs[i]) && Within(m, rs[|a| + j]);
    }
    forall i, j, k, m | 0 <= i < j < |b| && Within(k, b[i]) && Within(m, b[j]) ensures KeyCmp(k, m) < 0 {
      assert Within(k, rs[|a| + i]) && Within(m, rs[|a| + j]);
    }
  }

  lemma {:induction false} AscendConcat(a: seq<Range>, b: seq<Range>)
    ensures RangesAscend(a + b) <==> RangesAscend(a) && RangesAscend(b) && AllLess(a, b)
  {
    if RangesAscend(a + b) {
      AscendParts(a, b);
    } else if RangesAscend(a) && RangesAscend(b) && AllLess(a, b) {
      AscendJoin(a, b);
    }
  }

  lemma {:induction false} AscendSplit(rs: seq<Range>)
    requires rs != []
    ensures RangesAscend(rs) <==> RangesAscend(rs[..|rs| - 1]) && AllLess(rs[..|rs| - 1], [rs[|rs| - 1]])
  {
    assert rs == rs[..|rs| - 1] + [rs[|rs| - 1]];
    AscendConcat(rs[..|rs| - 1], [rs[|rs| - 1]]);
  }

  lemma {:induction false} MeetEachAscends(x: Range, b: seq<Range>)
    requires RangesAscend(b)
    ensures RangesAscend(MeetEach(x, b))
  {
    if b != [] {
      var front, last := b[..|b| - 1], b[|b| - 1];
      var r := RangeMeet(x, last);
      AscendSplit(b);
      MeetEachAscends(x, front);
      if r.Some? {
        forall k, m | KeyIn(k, MeetEach(x, front)) && KeyIn(m, [r.value]) ensures KeyCmp(k, m) < 0 {
          MeetEachKeys(x, front, k);
          KeyInOne(m, r.value);
          RangeMeetIsIntersection(x, last, m);
          KeyInOne(m, last);
        }
        AscendConcat(MeetEach(x, front), [r.value]);
      } else {
        assert MeetEach(x, b) == MeetEach(x, front) + [] == MeetEach(x, front);
      }
    }
  }

  /** Meeting ascending lists gives an ascending list. */
  lemma {:induction false} RangesMeetAscends(a: seq<Range>, b: seq<Range>)
    requires RangesAscend(a) && RangesAscend(b)
    ensures RangesAscend(RangesMeet(a, b))
  {
    if a != [] {
      var front, last := a[..|a| - 1], a[|a| - 1];
      AscendSplit(a);
      RangesMeetAscends(front, b);
      MeetEachAscends(last, b);
      forall k, m | KeyIn(k, RangesMeet(front, b)) && KeyIn(m, MeetEach(last, b)) ensures KeyCmp(k, m) < 0 {
        RangesMeetKeys(front, b, k);
        MeetEachKeys(last, b, m);
        KeyInOne(m, last);
      }
      AscendConcat(RangesMeet(front, b), MeetEach(last, b));
    }
  }

  // ---- entries in a range ----

  /** The entries within the bounds, in the order given. */
  function Pick(s: seq<Entry>, lo: Option<Bound>, hi: Option<Bound>): seq<Entry> {
    if s == [] then []
    else (if InRange(s[0].key, lo, hi) then [s[0]] else []) + Pick(s[1..], lo, hi)
  }

  lemma {:induction false} PickConcat(a: seq<Entry>, b: seq<Entry>, lo: Option<Bound>, hi: Option<Bound>)
    ensures Pick(a + b, lo, hi) == Pick(a, lo, hi) + Pick(b, lo, hi)
  {
    if a == [] {
      assert a + b == b;
    } else {
      assert (a + b)[1..] == a[1..] + b;
      PickConcat(a[1..], b, lo, hi);
    }
  }

  lemma {:induction false} PickNone(s: seq<Entry>, lo: Option<Bound>, hi: Option<Bound>)
    requires forall i :: 0 <= i < |s| ==> !InRange(s[i].key, lo, hi)
    ensures Pick(s, lo, hi) == []
  {
    if s != [] {
      PickNone(s[1..], lo, hi);
    }
  }

  /** A scan result holds exactly the entries in range, once each and ascending. */
  lemma {:induction false} PickExact(s: seq<Entry>, lo: Option<Bound>, hi: Option<Bound>)
    requires Ascending(s)
    ensures Ascending(Pick(s, lo, hi))
    ensures forall e :: e in Pick(s, lo, hi) <==> e in s && InRange(e.key, lo, hi)
  {
    if s != [] {
      PickExact(s[1..], lo, hi);
      assert forall e :: e in s <==> e == s[0] || e in s[1..];
    }
  }
}
