/** Index selection: Filter(SeqScan) becomes a residual Filter over Fetch over IndexScan, or Empty
    (src/planner/index_select.cpp), with the operators of src/executor/operator.cpp as its meaning. */
module IndexSelect {
  import opened Bytes
  import opened Decimal
  import opened LogRecords
  import opened KeyOrder
  import opened KeyRanges
  import opened Values
  import opened Casts
  import opened Expressions
  import opened ProperEval
  import opened IndexKeys

  // ---- one conjunct against one index ----

  datatype Hit = Hit(conj: nat, eq: bool, ranges: seq<Range>)

  predicate IsCol(e: Expr, ordinal: nat) {
    e.ColRef? && e.idx == ordinal
  }

  /** match_hit: the column compared with a constant, either way round, or tested for NULL. */
  function MatchHit(env: Env, e: Expr, col: TypeAttr, ordinal: nat, conj: nat): Outcome<Option<Hit>> {
    match e
    case Compare(op, l, r) =>
      if IsCol(l, ordinal) == IsCol(r, ordinal) then Ok(None)
      else
        var other, op' := if IsCol(l, ordinal) then r else l, if IsCol(l, ordinal) then op else Mirror(op);
        if !other.Const? then Ok(None)
        else
          var k := KeyOf(env, col, other.v);
          if k.Raise? then Raise
          else if k.value.None? then Ok(None)
          else Ok(Some(Hit(conj, op' == Eq, CmpRanges(op', k.value.value))))
    case IsNull(x, negate) => if IsCol(x, ordinal) then Ok(Some(Hit(conj, false, NullRanges(negate)))) else Ok(None)
    case _ => Ok(None)
  }

  /** The key a row has in the index of a column. */
  function RowKey(env: Env, col: TypeAttr, ordinal: nat, row: seq<Value>): Outcome<IndexKey> {
    if ordinal < |row| then EncodeKey(env, col, row[ordinal]) else Raise
  }

  /** A constant an index on the column can look up: an integer, number or truth value of the column's kind; decimals
      look up doubles and floats. */
  predicate Suits(col: TypeAttr, c: Value) {
    || (c.IntV? && col.rep == Int64)
    || ((c.DoubleV? || c.DecV?) && (col.rep == Double || col.rep == Float))
    || (c.FloatV? && col.rep == Float)
    || (c.BoolV? && col.rep == Bool)
  }

  /** The column against such a constant, in any comparison and either way round, or tested for NULL. */
  predicate Searchable(e: Expr, col: TypeAttr, ordinal: nat) {
    match e
    case Compare(_, l, r) =>
      || (IsCol(l, ordinal) && r.Const? && Suits(col, r.v))
      || (IsCol(r, ordinal) && l.Const? && Suits(col, l.v))
    case IsNull(x, _) => IsCol(x, ordinal)
    case _ => false
  }

  /** Exactly these conjuncts are hits, and the equality hits are those that ask for equality. */
  lemma {:induction false} HitIffSearchable(env: Env, e: Expr, col: TypeAttr, ordinal: nat, conj: nat)
    requires ProperEnv(env) && ProperExpr(e)
    ensures var h := MatchHit(env, e, col, ordinal, conj);
            && h.Ok? && (h.value.Some? <==> Searchable(e, col, ordinal))
            && (h.value.Some? ==> (h.value.value.eq <==> e.Compare? && e.cmp == Eq))
  {
    if e.Compare? {
      var other := if IsCol(e.l, ordinal) then e.r else e.l;
      if other.Const? {
        assert ProperExpr(other);
        KeyOfNeverRaises(env, col, other.v);
      }
    }
  }

  lemma {:induction false} KeyOfConst(env: Env, col: TypeAttr, c: Value)
    requires KeyOf(env, col, c).Ok? && KeyOf(env, col, c).value.Some?
    ensures !KeyOf(env, col, c).value.value.isNull && !c.Null?
  {
  }

  /** NULLs and the comparison they make unknown. */
  lemma {:induction false} KeyIsCanonical(env: Env, col: TypeAttr, v: Value)
    requires EncodeKey(env, col, v).Ok?
    ensures Canonical(EncodeKey(env, col, v).value) && (EncodeKey(env, col, v).value.isNull <==> v.Null?)
  {
  }

  lemma {:induction false} Antisymmetric(env: Env, a: Value, b: Value)
    requires ValueCmp(env, a, b).Ok?
    ensures ValueCmp(env, b, a).Ok? && Sign(ValueCmp(env, a, b).value) == -Sign(ValueCmp(env, b, a).value)
  {
    if a.StrV? && b.StrV? {
      LexAntisymmetric(TextView(a), TextView(b));
    } else if AsDec(a).Ok? && AsDec(b).Ok? && !(a.IntV? && b.IntV?) {
      CmpIsPreorder(AsDec(a).value, AsDec(b).value, AsDec(b).value);
    }
  }

  lemma {:induction false} LexAntisymmetric(a: seq<byte>, b: seq<byte>)
    ensures LexCmp(a, b) == -LexCmp(b, a)
  {
    if a != [] && b != [] {
      LexAntisymmetric(a[1..], b[1..]);
    }
  }

  /** Where a hit conjunct has a truth value, it is true exactly when the row's key lies in the hit's ranges. */
  lemma {:induction false} HitExact(env: Env, e: Expr, col: TypeAttr, ordinal: nat, conj: nat, row: seq<Value>)
    requires ProperEnv(env) && ProperExpr(e) && ordinal < |row| && StoredAs(col, row[ordinal])
    requires MatchHit(env, e, col, ordinal, conj).Ok? && MatchHit(env, e, col, ordinal, conj).value.Some?
    requires WhereMatch(env, e, row).Ok? && RowKey(env, col, ordinal, row).Ok?
    ensures var h := MatchHit(env, e, col, ordinal, conj).value.value;
            && (KeyIn(RowKey(env, col, ordinal, row).value, h.ranges) <==> WhereMatch(env, e, row).value)
            && RangesAscend(h.ranges) && h.conj == conj
  {
    var v, key := row[ordinal], RowKey(env, col, ordinal, row).value;
    KeyIsCanonical(env, col, v);
    match e
    case Compare(op, l, r) =>
      var left := IsCol(l, ordinal);
      var c, op' := if left then r.v else l.v, if left then op else Mirror(op);
      var k := KeyOf(env, col, c).value.value;
      KeyOfConst(env, col, c);
      CmpRangesExact(op', k, key);
      assert Eval(env, l, Row(row)) == Ok(if left then v else c) && Eval(env, r, Row(row)) == Ok(if left then c else v);
      if !v.Null? {
        HitCompare(env, op, col, v, c, left);
      }
    case IsNull(x, negate) =>
      NullRangesExact(negate, key);
      assert Eval(env, x, Row(row)) == Ok(v);
  }

  /** A comparison of a stored value with a constant, on either side, against the comparison of their keys. */
  lemma {:induction false} HitCompare(env: Env, op: CmpOp, col: TypeAttr, v: Value, c: Value, left: bool)
    requires ProperEnv(env) && StoredAs(col, v) && !v.Null? && Proper(c)
    requires KeyOf(env, col, c).Ok? && KeyOf(env, col, c).value.Some?
    requires CompareOf(env, op, if left then v else c, if left then c else v).Ok?
    ensures EncodeKey(env, col, v).Ok?
    ensures var key, k := EncodeKey(env, col, v).value, KeyOf(env, col, c).value.value;
            CompareOf(env, op, if left then v else c, if left then c else v)
            == Ok(BoolV(Holds(if left then op else Mirror(op), KeyCmp(key, k))))
  {
    KeyOfConst(env, col, c);
    if left {
      KeyAgrees(env, col, v, c);
      SameSign(op, ValueCmp(env, v, c).value, KeyCmp(EncodeKey(env, col, v).value, KeyOf(env, col, c).value.value));
    } else {
      Antisymmetric(env, c, v);
      KeyAgrees(env, col, v, c);
      var x, y := ValueCmp(env, c, v).value, ValueCmp(env, v, c).value;
      MirrorHolds(op, x, y);
      SameSign(Mirror(op), y, KeyCmp(EncodeKey(env, col, v).value, KeyOf(env, col, c).value.value));
    }
  }

  lemma {:induction false} SameSign(op: CmpOp, c: int, d: int)
    requires Sign(c) == Sign(d)
    ensures Holds(op, c) == Holds(op, d)
  {
  }

  // ---- conjuncts ----

  predicate IsAnd(e: Expr) {
    e.Logic? && e.isAnd
  }

  /** flatten_view and flatten_take: the conjuncts of an AND tree from left to right. */
  function Flatten(e: Expr): (es: seq<Expr>)
    ensures |es| > 0
  {
    if IsAnd(e) then Flatten(e.l) + Flatten(e.r) else [e]
  }

  /** join_and: a left-deep AND tree. */
  function JoinAnd(parts: seq<Expr>): Expr
    requires |parts| > 0
  {
    if |parts| == 1 then parts[0] else Logic(true, JoinAnd(parts[..|parts| - 1]), parts[|parts| - 1])
  }

  /** The conjuncts that are true on a row: all of them have a truth value. */
  ghost predicate AllHave(env: Env, es: seq<Expr>, row: seq<Value>) {
    forall i :: 0 <= i < |es| ==> WhereMatch(env, es[i], row).Ok?
  }

  ghost predicate AllTrue(env: Env, es: seq<Expr>, row: seq<Value>) {
    forall i :: 0 <= i < |es| ==> WhereMatch(env, es[i], row) == Ok(true)
  }

  lemma {:induction false} AndMatches(env: Env, l: Expr, r: Expr, row: seq<Value>)
    ensures var m := WhereMatch(env, Logic(true, l, r), row);
            var lm, rm := WhereMatch(env, l, row), WhereMatch(env, r, row);
            && (m.Ok? <==> lm.Ok? && rm.Ok?)
            && (m.Ok? ==> (m.value <==> lm.value && rm.value))
  {
  }

  /** A predicate is true on a row exactly when each of its conjuncts is, and has a value when they all have. */
  lemma {:induction false} FlattenMatches(env: Env, e: Expr, row: seq<Value>)
    ensures WhereMatch(env, e, row).Ok? <==> AllHave(env, Flatten(e), row)
    ensures WhereMatch(env, e, row) == Ok(true) <==> AllTrue(env, Flatten(e), row)
  {
    if IsAnd(e) {
      FlattenMatches(env, e.l, row);
      FlattenMatches(env, e.r, row);
      AndMatches(env, e.l, e.r, row);
      var a, b := Flatten(e.l), Flatten(e.r);
      AllConcat(env, a, b, row);
    } else {
      assert Flatten(e)[0] == e;
    }
  }

  lemma {:induction false} AllConcat(env: Env, a: seq<Expr>, b: seq<Expr>, row: seq<Value>)
    ensures AllHave(env, a + b, row) <==> AllHave(env, a, row) && AllHave(env, b, row)
    ensures AllTrue(env, a + b, row) <==> AllTrue(env, a, row) && AllTrue(env, b, row)
  {
    var ab := a + b;
    assert forall i :: 0 <= i < |a| ==> ab[i] == a[i];
    assert forall i :: 0 <= i < |b| ==> ab[|a| + i] == b[i];
  }

  lemma {:induction false} JoinMatches(env: Env, parts: seq<Expr>, row: seq<Value>)
    requires |parts| > 0
    ensures WhereMatch(env, JoinAnd(parts), row).Ok? <==> AllHave(env, parts, row)
    ensures WhereMatch(env, JoinAnd(parts), row) == Ok(true) <==> AllTrue(env, parts, row)
    decreases |parts|
  {
    if |parts| > 1 {
      var front, last := parts[..|parts| - 1], parts[|parts| - 1];
      JoinMatches(env, front, row);
      AndMatches(env, JoinAnd(front), last, row);
      assert parts == front + [last];
      AllConcat(env, front, [last], row);
      assert [last][0] == last;
    }
  }

  method FlattenTake(e: Expr, before: seq<Expr>) returns (out: seq<Expr>)
    ensures out == before + Flatten(e)
    decreases e
  {
    if IsAnd(e) {
      out := FlattenTake(e.l, before);
      out := FlattenTake(e.r, out);
    } else {
      out := before + [e];
    }
  }

  method JoinParts(parts: seq<Expr>) returns (cur: Expr)
    requires |parts| > 0
    ensures cur == JoinAnd(parts)
  {
    cur := parts[0];
    for i := 1 to |parts|
      invariant cur == JoinAnd(parts[..i])
    {
      assert parts[..i + 1][..i] == parts[..i];
      cur := Logic(true, cur, parts[i]);
    }
    assert parts[..|parts|] == parts;
  }

  // ---- all conjuncts against one index, and the choice of an index ----

  /** An index: the column it is on. */
  datatype IndexEntry = IndexEntry(fid: nat, ordinal: nat)

  /** The hits among the first n conjuncts. */
  function Hits(env: Env, conj: seq<Expr>, col: TypeAttr, ordinal: nat, n: nat): Outcome<seq<Hit>>
    requires n <= |conj|
  {
    if n == 0 then Ok([])
    else
      var front, h := Hits(env, conj, col, ordinal, n - 1), MatchHit(env, conj[n - 1], col, ordinal, n - 1);
      if front.Raise? || h.Raise? then Raise
      else Ok(if h.value.Some? then front.value + [h.value.value] else front.value)
  }

  predicate HasEq(hits: seq<Hit>) {
    exists i :: 0 <= i < |hits| && hits[i].eq
  }

  /** Hits of an index over all conjuncts. */
  function AllHits(env: Env, conj: seq<Expr>, cols: seq<TypeAttr>, x: IndexEntry): Outcome<seq<Hit>>
    requires x.ordinal < |cols|
  {
    Hits(env, conj, cols[x.ordinal], x.ordinal, |conj|)
  }

  /** Index a is preferred to b: an equality hit first, then the lower column. */
  predicate Preferred(eqA: bool, a: nat, eqB: bool, b: nat) {
    (eqA && !eqB) || (eqA == eqB && a < b)
  }

  /** Index b, with these hits, is the most preferred of the first n, and the first of equals. */
  ghost predicate Best(env: Env, idxs: seq<IndexEntry>, n: nat, cols: seq<TypeAttr>, conj: seq<Expr>, b: nat, hits: seq<Hit>)
    requires n <= |idxs| && forall i :: 0 <= i < |idxs| ==> idxs[i].ordinal < |cols|
  {
    && b < n && hits != [] && AllHits(env, conj, cols, idxs[b]) == Ok(hits)
    && forall i :: 0 <= i < n ==>
         var h := AllHits(env, conj, cols, idxs[i]);
         && h.Ok?
         && (h.value != [] ==>
              && !Preferred(HasEq(h.value), idxs[i].ordinal, HasEq(hits), idxs[b].ordinal)
              && (i < b ==> Preferred(HasEq(hits), idxs[b].ordinal, HasEq(h.value), idxs[i].ordinal)))
  }

  /** The most preferred index has an equality hit if one has; among these it has the lowest column, and it is the first
      of them in the list. */
  lemma {:induction false} BestIs(env: Env, idxs: seq<IndexEntry>, cols: seq<TypeAttr>, conj: seq<Expr>, b: nat, hits: seq<Hit>, i: nat)
    requires forall k :: 0 <= k < |idxs| ==> idxs[k].ordinal < |cols|
    requires Best(env, idxs, |idxs|, cols, conj, b, hits) && i < |idxs|
    ensures var h := AllHits(env, conj, cols, idxs[i]);
            h.Ok? && h.value != [] ==>
              && (HasEq(h.value) ==> HasEq(hits))
              && (HasEq(h.value) == HasEq(hits) ==> idxs[b].ordinal <= idxs[i].ordinal)
              && (HasEq(h.value) == HasEq(hits) && idxs[b].ordinal == idxs[i].ordinal ==> b <= i)
  {
  }

  method FindHits(env: Env, conj: seq<Expr>, col: TypeAttr, ordinal: nat) returns (r: Outcome<seq<Hit>>)
    ensures r == Hits(env, conj, col, ordinal, |conj|)
  {
    var hits: seq<Hit> := [];
    for i := 0 to |conj|
      invariant Hits(env, conj, col, ordinal, i) == Ok(hits)
    {
      var h := MatchHit(env, conj[i], col, ordinal, i);
      if h.Raise? {
        HitsRaise(env, conj, col, ordinal, i + 1, |conj|);
        return Raise;
      }
      if h.value.Some? {
        hits := hits + [h.value.value];
      }
    }
    r := Ok(hits);
  }

  lemma {:induction false} HitsRaise(env: Env, conj: seq<Expr>, col: TypeAttr, ordinal: nat, i: nat, n: nat)
    requires i <= n <= |conj| && Hits(env, conj, col, ordinal, i).Raise?
    ensures Hits(env, conj, col, ordinal, n).Raise?
    decreases n
  {
    if i < n {
      HitsRaise(env, conj, col, ordinal, i, n - 1);
    }
  }

  lemma {:induction false} FlattenProper(e: Expr)
    requires ProperExpr(e)
    ensures forall i :: 0 <= i < |Flatten(e)| ==> ProperExpr(Flatten(e)[i])
  {
    if IsAnd(e) {
      FlattenProper(e.l);
      FlattenProper(e.r);
    }
  }

  /** Matching proper constants with an index raises nothing. */
  lemma {:induction false} HitsNeverRaise(env: Env, conj: seq<Expr>, col: TypeAttr, ordinal: nat, n: nat)
    requires ProperEnv(env) && n <= |conj| && forall i :: 0 <= i < n ==> ProperExpr(conj[i])
    ensures Hits(env, conj, col, ordinal, n).Ok?
  {
    if n > 0 {
      HitsNeverRaise(env, conj, col, ordinal, n - 1);
      HitIffSearchable(env, conj[n - 1], col, ordinal, n - 1);
    }
  }

  /** pick_index: the most preferred index with a hit, the first of equals; None when no index has one. */
  method PickIndex(env: Env, idxs: seq<IndexEntry>, cols: seq<TypeAttr>, conj: seq<Expr>)
    returns (r: Outcome<Option<(nat, seq<Hit>)>>)
    requires forall i :: 0 <= i < |idxs| ==> idxs[i].ordinal < |cols|
    ensures r.Raise? <==> exists i :: 0 <= i < |idxs| && AllHits(env, conj, cols, idxs[i]).Raise?
    ensures r.Ok? && r.value.None? ==> forall i :: 0 <= i < |idxs| ==> AllHits(env, conj, cols, idxs[i]) == Ok([])
    ensures r.Ok? && r.value.Some? ==> Best(env, idxs, |idxs|, cols, conj, r.value.value.0, r.value.value.1)
  {
    var best: Option<(nat, seq<Hit>)> := None;
    for n := 0 to |idxs|
      invariant forall i :: 0 <= i < n ==> AllHits(env, conj, cols, idxs[i]).Ok?
      invariant best.None? ==> forall i :: 0 <= i < n ==> AllHits(env, conj, cols, idxs[i]) == Ok([])
      invariant best.Some? ==> Best(env, idxs, n, cols, conj, best.value.0, best.value.1)
    {
      var x := idxs[n];
      var hits := FindHits(env, conj, cols[x.ordinal], x.ordinal);
      if hits.Raise? {
        return Raise;
      }
      if hits.value != [] && (best.None? || Preferred(HasEq(hits.value), x.ordinal, HasEq(best.value.1), idxs[best.value.0].ordinal)) {
        best := Some((n, hits.value));
      }
    }
    r := Ok(best);
  }

  /** A key lies in the ranges of every hit. */
  ghost predicate InAll(k: IndexKey, hits: seq<Hit>) {
    forall i :: 0 <= i < |hits| ==> KeyIn(k, hits[i].ranges)
  }

  /** intersect_ranges: the ranges common to all hits, given up once there are none. */
  method IntersectRanges(hits: seq<Hit>) returns (ranges: seq<Range>)
    requires forall i :: 0 <= i < |hits| ==> RangesAscend(hits[i].ranges)
    ensures RangesAscend(ranges)
    ensures forall k :: KeyIn(k, ranges) <==> InAll(k, hits)
  {
    ranges := [Range(None, None)];
    forall k ensures KeyIn(k, ranges) {
      assert Within(k, ranges[0]);
    }
    for n := 0 to |hits|
      invariant RangesAscend(ranges)
      invariant forall k :: KeyIn(k, ranges) <==> InAll(k, hits[..n])
    {
      ghost var before := ranges;
      ranges := RangesMeetLoop(ranges, hits[n].ranges);
      RangesMeetAscends(before, hits[n].ranges);
      forall k ensures KeyIn(k, ranges) <==> InAll(k, hits[..n + 1]) {
        RangesMeetKeys(before, hits[n].ranges, k);
        InAllSnoc(k, hits, n);
      }
      if ranges == [] {
        forall k ensures !InAll(k, hits) {
          assert !KeyIn(k, ranges);
          if InAll(k, hits) {
            InAllPrefix(k, hits, n + 1);
          }
        }
        return;
      }
    }
    assert hits[..|hits|] == hits;
  }

  lemma {:induction false} InAllSnoc(k: IndexKey, hits: seq<Hit>, n: nat)
    requires n < |hits|
    ensures InAll(k, hits[..n + 1]) <==> InAll(k, hits[..n]) && KeyIn(k, hits[n].ranges)
  {
    if InAll(k, hits[..n + 1]) {
      assert hits[..n + 1][n] == hits[n];
      forall i | 0 <= i < n ensures KeyIn(k, hits[..n][i].ranges) {
        assert hits[..n + 1][i] == hits[..n][i];
      }
    }
  }

  lemma {:induction false} InAllPrefix(k: IndexKey, hits: seq<Hit>, n: nat)
    requires n <= |hits| && InAll(k, hits)
    ensures InAll(k, hits[..n])
  {
  }
}
