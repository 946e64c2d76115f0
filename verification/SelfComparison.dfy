/** When the self-comparison rewrite is right: what structural equality leaves out (src/planner/bool_simplify.cpp). */
module SelfComparison {
  import Arith
  import opened Bytes
  import opened Decimal
  import opened Values
  import opened Casts
  import opened Expressions
  import opened Folding

  /** What ExprEqual does not look at: the scales of casts, the sign of floating zeros, the strictness of
      functions (which the function id determines). */
  predicate Agree(a: Expr, b: Expr)
    decreases a, 0
  {
    match (a, b)
    case (Const(v), Const(w)) =>
      && (v.DoubleV? && w.DoubleV? ==> v.bits == w.bits) && (v.FloatV? && w.FloatV? ==> v.fbits == w.fbits)
    case (Arith(_, _, l, r), Arith(_, _, m, s)) => Agree(l, m) && Agree(r, s)
    case (Neg(_, x), Neg(_, y)) => Agree(x, y)
    case (Compare(_, l, r), Compare(_, m, s)) => Agree(l, m) && Agree(r, s)
    case (Logic(_, l, r), Logic(_, m, s)) => Agree(l, m) && Agree(r, s)
    case (Not(x), Not(y)) => Agree(x, y)
    case (IsNull(x, _), IsNull(y, _)) => Agree(x, y)
    case (Call(_, p, _, xs), Call(_, q, _, ys)) => p == q && AllAgree(xs, ys)
    case (Cast(_, _, s, x), Cast(_, _, t, y)) => s == t && Agree(x, y)
    case _ => true
  }

  predicate AllAgree(xs: seq<Expr>, ys: seq<Expr>)
    decreases xs, 1
  {
    xs == [] || ys == [] || (Agree(xs[0], ys[0]) && AllAgree(xs[1..], ys[1..]))
  }

  /** Structural equality together with agreement is identity. */
  lemma {:induction false} EqualAndAgreeing(a: Expr, b: Expr)
    requires ExprEqual(a, b)
    ensures Agree(a, b) <==> a == b
    decreases a, 0
  {
    match (a, b)
    case (Arith(_, _, l, r), Arith(_, _, m, s)) =>
      EqualAndAgreeing(l, m);
      EqualAndAgreeing(r, s);
    case (Neg(_, x), Neg(_, y)) => EqualAndAgreeing(x, y);
    case (Compare(_, l, r), Compare(_, m, s)) =>
      EqualAndAgreeing(l, m);
      EqualAndAgreeing(r, s);
    case (Logic(_, l, r), Logic(_, m, s)) =>
      EqualAndAgreeing(l, m);
      EqualAndAgreeing(r, s);
    case (Not(x), Not(y)) => EqualAndAgreeing(x, y);
    case (IsNull(x, _), IsNull(y, _)) => EqualAndAgreeing(x, y);
    case (Call(_, _, _, xs), Call(_, _, _, ys)) => AllEqualAndAgreeing(xs, ys);
    case (Cast(_, _, _, x), Cast(_, _, _, y)) => EqualAndAgreeing(x, y);
    case (Const(_), Const(_)) =>
    case (ColRef(_, _), ColRef(_, _)) =>
  }

  lemma {:induction false} AllEqualAndAgreeing(xs: seq<Expr>, ys: seq<Expr>)
    requires |xs| == |ys| && AllEqual(xs, ys)
    ensures AllAgree(xs, ys) <==> xs == ys
    decreases xs, 1
  {
    if xs != [] {
      EqualAndAgreeing(xs[0], ys[0]);
      AllEqualAndAgreeing(xs[1..], ys[1..]);
      assert xs == [xs[0]] + xs[1..] && ys == [ys[0]] + ys[1..];
    }
  }

  /** Where the structurally equal sides agree, the rewrite keeps the truth on every row: it compares an expression with
      itself. */
  lemma {:induction false} AgreeingKept(env: Env, op: CmpOp, l: Expr, r: Expr, row: seq<Value>)
    requires ExprEqual(l, r) ==> Agree(l, r)
    ensures Kept(env, op, l, r, row)
  {
    if ExprEqual(l, r) {
      EqualAndAgreeing(l, r);
      SelfKept(env, op, l, row);
    }
  }

  // ---- casts of one column to two scales ----

  function NumericCast(precision: nat, scale: nat): Expr {
    Cast(K_NUMERIC, precision, scale, ColRef(0, K_NUMERIC))
  }

  /** The rewrite of a comparison keeps the truth on every row. */
  ghost predicate RewriteKeepsTruth(env: Env, op: CmpOp, a: Expr, b: Expr) {
    forall row :: WhereMatch(env, Compare(op, a, b), row).Ok? ==>
      WhereMatch(env, SimplifyCompare(op, a, b), row) == WhereMatch(env, Compare(op, a, b), row)
  }

  /** The value u * 10^-s, u being 1 or -1, is kept by a cast to scale s and rounded away by a cast to fewer digits. */
  lemma {:induction false} TinyValue(u: int, p: nat, q: nat, fewer: nat, s: nat)
    requires (u == 1 || u == -1) && fewer < s && 0 < p && 0 < q
    ensures Coerce(Dec(u, s), p, s) == Ok(Dec(u, s)) && Coerce(Dec(u, s), q, fewer) == Ok(Dec(0, fewer))
    ensures Cmp(Dec(u, s), Dec(0, fewer)) == u && Cmp(Dec(0, fewer), Dec(u, s)) == -u
  {
    assert Digits(1) == 1 + Digits(0);
    RoundsAway(u, s - fewer);
    NoShift(u, s);
    CmpOfSigns(Dec(u, s), Dec(0, fewer));
    CmpOfSigns(Dec(0, fewer), Dec(u, s));
  }

  lemma {:induction false} NoShift(u: int, s: nat)
    ensures Align(u, s, s) == Ok(u)
  {
    assert Pow10(0) == 1;
  }

  lemma {:induction false} RoundsAway(u: int, n: nat)
    requires n > 0 && (u == 1 || u == -1)
    ensures CoerceRound(u, Pow10(n)) == 0
  {
    Pow10Mono(1, n);
    assert Pow10(1) == 10;
    Arith.DivModUnique(1, Pow10(n), 0, 1);
  }

  /** The row that tells two scales apart: the smallest value of the finer scale, with the sign that makes the
      operator's answer differ from its answer on equal values. */
  function TellingRow(op: CmpOp, s: nat, t: nat): seq<Value> {
    var greater := op == Gt || op == Le || op == Eq || op == Ne;
    var u := if greater == (s > t) then 1 else -1;
    [DecV(K_NUMERIC, Dec(u, Max(s, t)))]
  }

  lemma {:induction false} ScalesToldApart(env: Env, op: CmpOp, p: nat, q: nat, s: nat, t: nat)
    requires 0 < p && 0 < q && s != t
    ensures var a, b, row := NumericCast(p, s), NumericCast(q, t), TellingRow(op, s, t);
            WhereMatch(env, Compare(op, a, b), row) == Ok(!AcceptsEqual(op))
  {
    var a, b, row := NumericCast(p, s), NumericCast(q, t), TellingRow(op, s, t);
    var u := row[0].d.u;
    if s > t {
      TinyValue(u, p, q, t, s);
    } else {
      TinyValue(u, q, p, s, t);
    }
    assert Eval(env, a, Row(row)) == Ok(DecV(K_NUMERIC, if s > t then Dec(u, s) else Dec(0, s)));
    assert Eval(env, b, Row(row)) == Ok(DecV(K_NUMERIC, if s > t then Dec(0, t) else Dec(u, t)));
  }

  /** Comparing two numeric casts of one column, with any operator: casts of different precision are not rewritten; of
      those of one precision the rewrite keeps the truth if and only if the scales are equal. */
  lemma {:induction false} CastScalesMatter(env: Env, op: CmpOp, p: nat, q: nat, s: nat, t: nat)
    requires 0 < p <= 38 && 0 < q <= 38 && s <= p && t <= q
    ensures ExprEqual(NumericCast(p, s), NumericCast(q, t)) <==> p == q
    ensures RewriteKeepsTruth(env, op, NumericCast(p, s), NumericCast(q, t)) <==> p != q || s == t
  {
    var a, b := NumericCast(p, s), NumericCast(q, t);
    assert ExprEqual(a.x, b.x);
    if p == q && s == t {
      forall row | WhereMatch(env, Compare(op, a, b), row).Ok?
        ensures WhereMatch(env, SimplifyCompare(op, a, b), row) == WhereMatch(env, Compare(op, a, b), row)
      {
        SelfKept(env, op, a, row);
        SelfCompareExact(env, op, a, b, row);
      }
    } else if p == q {
      var row := TellingRow(op, s, t);
      ScalesToldApart(env, op, p, q, s, t);
      SelfCompareExact(env, op, a, b, row);
      assert WhereMatch(env, SimplifyCompare(op, a, b), row) != WhereMatch(env, Compare(op, a, b), row);
    }
  }

  // ---- floating zeros of different sign ----

  const ONE: u64 := 0x3FF0_0000_0000_0000

  function TimesAsText(zero: u64, text: TypeAttr): Expr {
    Cast(text, 0, 0, Arith('*', K_DOUBLE, ColRef(0, K_DOUBLE), Const(DoubleV(K_DOUBLE, zero))))
  }

  lemma {:induction false} TextOfProduct(env: Env, text: TypeAttr, zero: u64, s: seq<byte>)
    requires text.rep == Str && text.family == Text && text.store == VarLen
    requires zero == 0 || zero == SIGN
    requires env.dop('*', ONE, zero) == zero && env.convert(DoubleV(K_DOUBLE, zero), text) == Ok(StrV(text, s))
    ensures Eval(env, TimesAsText(zero, text), Row([DoubleV(K_DOUBLE, ONE)])) == Ok(StrV(text, s))
  {
    var e, row := TimesAsText(zero, text), [DoubleV(K_DOUBLE, ONE)];
    assert Eval(env, e.x, Row(row)) == Ok(DoubleV(K_DOUBLE, zero));
  }

  lemma {:induction false} SameProducts(text: TypeAttr)
    ensures ExprEqual(TimesAsText(0, text), TimesAsText(SIGN, text))
  {
    assert ExprEqual(TimesAsText(0, text).x, TimesAsText(SIGN, text).x);
  }

  lemma {:induction false} TextsDiffer(env: Env, l: Expr, r: Expr, text: TypeAttr, row: seq<Value>, s: seq<byte>, t: seq<byte>)
    requires ValueCmp(env, StrV(text, s), StrV(text, t)).Ok? && ValueCmp(env, StrV(text, s), StrV(text, t)).value != 0
    requires Eval(env, l, Row(row)) == Ok(StrV(text, s)) && Eval(env, r, Row(row)) == Ok(StrV(text, t))
    ensures WhereMatch(env, Compare(Eq, l, r), row) == Ok(false)
  {
  }

  lemma {:induction false} TakenForEqual(env: Env, l: Expr, r: Expr, row: seq<Value>)
    requires ExprEqual(l, r) && Eval(env, l, Row(row)).Ok? && !Eval(env, l, Row(row)).value.Null?
    ensures WhereMatch(env, SimplifyCompare(Eq, l, r), row) == Ok(true)
  {
  }

  /** The texts of 1 * 0 and 1 * -0 differ, but the rewrite takes the two expressions for the same. */
  lemma {:induction false} NegativeZeroMatters(env: Env, text: TypeAttr)
    requires text.rep == Str && text.family == Text && text.store == VarLen
    requires env.dop('*', ONE, 0) == 0 && env.dop('*', ONE, SIGN) == SIGN
    requires env.convert(DoubleV(K_DOUBLE, 0), text) == Ok(StrV(text, [48]))
    requires env.convert(DoubleV(K_DOUBLE, SIGN), text) == Ok(StrV(text, [45, 48]))
    ensures var l, r, row := TimesAsText(0, text), TimesAsText(SIGN, text), [DoubleV(K_DOUBLE, ONE)];
            && ExprEqual(l, r)
            && WhereMatch(env, Compare(Eq, l, r), row) == Ok(false)
            && WhereMatch(env, SimplifyCompare(Eq, l, r), row) == Ok(true)
  {
    var l, r, row := TimesAsText(0, text), TimesAsText(SIGN, text), [DoubleV(K_DOUBLE, ONE)];
    SameProducts(text);
    TextOfProduct(env, text, 0, [48]);
    TextOfProduct(env, text, SIGN, [45, 48]);
    TextsDiffer(env, l, r, text, row, [48], [45, 48]);
    TakenForEqual(env, l, r, row);
  }
}
