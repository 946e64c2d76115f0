/** Constant folding and boolean simplification of bound expressions (src/planner/const_fold.cpp,
    src/planner/bool_simplify.cpp), and what they preserve. */
module Folding {
  import opened Bytes
  import opened Decimal
  import opened Values
  import opened Casts
  import opened Expressions
  import opened ProperEval

  // ---- bool_simplify.cpp ----

  function Negated(op: CmpOp): CmpOp {
    match op
    case Eq => Ne
    case Ne => Eq
    case Lt => Ge
    case Le => Gt
    case Gt => Le
    case Ge => Lt
  }

  /** Equality of stored contents: doubles and floats compare as numbers, so -0 equals +0 and a NaN nothing. */
  predicate SameContent(a: Value, b: Value) {
    match (a, b)
    case (Null(_), Null(_)) => true
    case (BoolV(x), BoolV(y)) => x == y
    case (IntV(_, x), IntV(_, y)) => x == y
    case (DoubleV(_, x), DoubleV(_, y)) => !NaN(x) && !NaN(y) && DoubleOrd(x) == DoubleOrd(y)
    case (FloatV(_, x), FloatV(_, y)) => !NaN32(x) && !NaN32(y) && FloatOrd(x) == FloatOrd(y)
    case (StrV(_, x), StrV(_, y)) => x == y
    case (DecV(_, x), DecV(_, y)) => x == y
    case _ => false
  }

  predicate NaN32(bits: u32) {
    !FiniteFloat(bits) && bits % 0x80_0000 != 0
  }

  function FloatOrd(bits: u32): int {
    if bits < 0x8000_0000 then bits else 0x8000_0000 - bits
  }

  /** Structural equality as the simplifier decides it. */
  predicate ExprEqual(a: Expr, b: Expr)
    decreases a, 0
  {
    match (a, b)
    case (Const(v), Const(w)) => TypeOf(v) == TypeOf(w) && SameContent(v, w)
    case (ColRef(i, t), ColRef(j, u)) => i == j && t == u
    case (Arith(o, t, l, r), Arith(p, u, m, s)) => o == p && t == u && ExprEqual(l, m) && ExprEqual(r, s)
    case (Neg(t, x), Neg(u, y)) => t == u && ExprEqual(x, y)
    case (Compare(o, l, r), Compare(p, m, s)) => o == p && ExprEqual(l, m) && ExprEqual(r, s)
    case (Logic(o, l, r), Logic(p, m, s)) => o == p && ExprEqual(l, m) && ExprEqual(r, s)
    case (Not(x), Not(y)) => ExprEqual(x, y)
    case (IsNull(x, n), IsNull(y, m)) => n == m && ExprEqual(x, y)
    case (Call(f, _, t, xs), Call(g, _, u, ys)) => f == g && t == u && |xs| == |ys| && AllEqual(xs, ys)
    case (Cast(t, n, _, x), Cast(u, m, _, y)) => t == u && n == m && ExprEqual(x, y)
    case _ => false
  }

  predicate AllEqual(xs: seq<Expr>, ys: seq<Expr>)
    requires |xs| == |ys|
    decreases xs, 1
  {
    xs == [] || (ExprEqual(xs[0], ys[0]) && AllEqual(xs[1..], ys[1..]))
  }

  function ConstBool(e: Expr): seq<bool> {
    if e.Const? && e.v.BoolV? then [e.v.b] else []
  }

  function SimplifyLogic(isAnd: bool, l: Expr, r: Expr): Expr {
    var lb, rb := ConstBool(l), ConstBool(r);
    if lb == [!isAnd] || rb == [!isAnd] then Const(BoolV(!isAnd))
    else if lb != [] then r
    else if rb != [] then l
    else Logic(isAnd, l, r)
  }

  function SimplifyNot(x: Expr): Expr {
    match x
    case Not(y) => y
    case Compare(op, l, r) => Compare(Negated(op), l, r)
    case IsNull(y, negate) => IsNull(y, !negate)
    case _ => Not(x)
  }

  function SimplifyCompare(op: CmpOp, l: Expr, r: Expr): Expr {
    if !ExprEqual(l, r) then Compare(op, l, r)
    else if op == Eq || op == Le || op == Ge then IsNull(l, true)
    else Const(BoolV(false))
  }

  // ---- const_fold.cpp ----

  predicate NullConst(e: Expr) {
    e.Const? && e.v.Null?
  }

  /** eval_const and to_fold_const. */
  function Evaluated(env: Env, e: Expr): Outcome<Expr> {
    var v := Eval(env, e, NoRow);
    if v.Raise? then Raise else Ok(Const(v.value))
  }

  function FoldCompare(env: Env, op: CmpOp, l: Expr, r: Expr, weak: bool): Outcome<Expr> {
    if l.Const? && r.Const? then Evaluated(env, Compare(op, l, r))
    else if NullConst(l) || NullConst(r) then Ok(Const(Null(NO_TYPE)))
    else Ok(if weak then SimplifyCompare(op, l, r) else Compare(op, l, r))
  }

  function FoldNot(env: Env, x: Expr, weak: bool): Outcome<Expr> {
    if x.Const? then Evaluated(env, Not(x))
    else
      var e := SimplifyNot(x);
      Ok(if weak && e.Compare? then SimplifyCompare(e.cmp, e.l, e.r) else e)
  }

  /** fold_expr. In a weak context only the truth of a value counts, NULL being not true. */
  function Fold(env: Env, e: Expr, weak: bool): Outcome<Expr>
    decreases e, 0
  {
    match e
    case Const(_) => Ok(e)
    case ColRef(_, _) => Ok(e)
    case Arith(op, ty, l, r) =>
      var fl, fr := Fold(env, l, false), Fold(env, r, false);
      if fl.Raise? || fr.Raise? then Raise
      else if fl.value.Const? && fr.value.Const? then Evaluated(env, Arith(op, ty, fl.value, fr.value))
      else if NullConst(fl.value) || NullConst(fr.value) then Ok(Const(Null(NO_TYPE)))
      else Ok(Arith(op, ty, fl.value, fr.value))
    case Neg(ty, x) =>
      var f := Fold(env, x, false);
      if f.Raise? then Raise
      else if f.value.Const? then Evaluated(env, Neg(ty, f.value)) else Ok(Neg(ty, f.value))
    case Compare(op, l, r) =>
      var fl, fr := Fold(env, l, false), Fold(env, r, false);
      if fl.Raise? || fr.Raise? then Raise else FoldCompare(env, op, fl.value, fr.value, weak)
    case Logic(isAnd, l, r) =>
      var fl, fr := Fold(env, l, weak), Fold(env, r, weak);
      if fl.Raise? || fr.Raise? then Raise
      else if fl.value.Const? && fr.value.Const? then Evaluated(env, Logic(isAnd, fl.value, fr.value))
      else Ok(SimplifyLogic(isAnd, fl.value, fr.value))
    case Not(x) =>
      var f := Fold(env, x, false);
      if f.Raise? then Raise else FoldNot(env, f.value, weak)
    case IsNull(x, negate) =>
      var f := Fold(env, x, false);
      if f.Raise? then Raise
      else if f.value.Const? then Evaluated(env, IsNull(f.value, negate)) else Ok(IsNull(f.value, negate))
    case Call(func, strict, ty, args) =>
      var fs := FoldAll(env, args);
      if fs.Raise? then Raise
      else if AllConst(fs.value) then Evaluated(env, Call(func, strict, ty, fs.value))
      else Ok(Call(func, strict, ty, fs.value))
    case Cast(ty, length, scale, x) =>
      var f := Fold(env, x, false);
      if f.Raise? then Raise
      else if f.value.Const? then Evaluated(env, Cast(ty, length, scale, f.value)) else Ok(Cast(ty, length, scale, f.value))
  }

  function FoldAll(env: Env, es: seq<Expr>): (r: Outcome<seq<Expr>>)
    ensures r.Ok? ==> |r.value| == |es|
    decreases es, 1
  {
    if es == [] then Ok([])
    else
      var first, rest := Fold(env, es[0], false), FoldAll(env, es[1..]);
      if first.Raise? || rest.Raise? then Raise else Ok([first.value] + rest.value)
  }

  predicate AllConst(es: seq<Expr>) {
    forall i :: 0 <= i < |es| ==> es[i].Const?
  }

  // ---- what a fold preserves ----

  predicate SameValue(v: Value, w: Value) {
    v == w || (v.Null? && w.Null?)
  }

  /** Equal up to the type of a NULL; in a weak context, truth values are equal in being true. */
  predicate Stands(weak: bool, v: Value, w: Value) {
    if weak && IsTruth(v) then IsTruth(w) && (v == BoolV(true) <==> w == BoolV(true)) else SameValue(v, w)
  }

  /** The fold of e is right on a row: if it raises, so does e; if e has a value, the fold has one that stands for it. */
  predicate Sound(env: Env, e: Expr, f: Outcome<Expr>, weak: bool, row: seq<Value>) {
    var v := Eval(env, e, Row(row));
    if f.Raise? then v.Raise?
    else v.Ok? ==> Eval(env, f.value, Row(row)).Ok? && Stands(weak, v.value, Eval(env, f.value, Row(row)).value)
  }

  /** The operator accepts equal values. */
  predicate AcceptsEqual(op: CmpOp) {
    Holds(op, 0)
  }

  /** For these values of its sides, a comparison is true exactly when its rewrite is: "left side not NULL" where the
      operator accepts equal values, false where it does not. */
  predicate KeptFor(env: Env, op: CmpOp, v: Value, w: Value) {
    if v.Null? then true
    else if w.Null? then !AcceptsEqual(op)
    else ValueCmp(env, v, w).Ok? ==> Holds(op, ValueCmp(env, v, w).value) == AcceptsEqual(op)
  }

  /** If the simplifier rewrites the comparison, its truth on the row is kept. */
  predicate Kept(env: Env, op: CmpOp, l: Expr, r: Expr, row: seq<Value>) {
    var v, w := Eval(env, l, Row(row)), Eval(env, r, Row(row));
    ExprEqual(l, r) && v.Ok? && w.Ok? ==> KeptFor(env, op, v.value, w.value)
  }

  /** Comparisons are rewritten at the leaves of the AND/OR tree only, after their sides have been folded. All that
      are rewritten while folding e keep their truth on the row. */
  predicate AllKept(env: Env, e: Expr, row: seq<Value>) {
    match e
    case Logic(_, l, r) => AllKept(env, l, row) && AllKept(env, r, row)
    case Compare(op, l, r) =>
      var fl, fr := Fold(env, l, false), Fold(env, r, false);
      fl.Ok? && fr.Ok? && !fl.value.Const? ==> Kept(env, op, fl.value, fr.value, row)
    case Not(x) =>
      var f := Fold(env, x, false);
      f.Ok? ==> var n := SimplifyNot(f.value); n.Compare? ==> Kept(env, n.cmp, n.l, n.r, row)
    case _ => true
  }

  // ---- one node at a time ----

  lemma {:induction false} ArithSame(env: Env, op: char, ty: TypeAttr, lv: Value, rv: Value, lw: Value, rw: Value)
    requires SameValue(lv, lw) && SameValue(rv, rw)
    ensures ArithOf(env, op, ty, lv, rv) == ArithOf(env, op, ty, lw, rw)
  {
  }

  lemma {:induction false} CompareSame(env: Env, op: CmpOp, lv: Value, rv: Value, lw: Value, rw: Value)
    requires SameValue(lv, lw) && SameValue(rv, rw)
    ensures CompareOf(env, op, lv, rv) == CompareOf(env, op, lw, rw)
  {
  }

  predicate SameOutcome(a: Outcome<Value>, b: Outcome<Value>) {
    if a.Raise? then b.Raise? else b.Ok? && SameValue(a.value, b.value)
  }

  lemma {:induction false} NegSame(env: Env, ty: TypeAttr, v: Value, w: Value)
    requires SameValue(v, w)
    ensures SameOutcome(NegOf(env, ty, v), NegOf(env, ty, w))
  {
  }

  lemma {:induction false} CastSame(env: Env, ty: TypeAttr, length: nat, scale: nat, v: Value, w: Value)
    requires SameValue(v, w)
    ensures SameOutcome(CastOf(env, ty, length, scale, v), CastOf(env, ty, length, scale, w))
  {
  }

  predicate SameValues(vs: seq<Value>, ws: seq<Value>) {
    |vs| == |ws| && forall i :: 0 <= i < |vs| ==> SameValue(vs[i], ws[i])
  }

  lemma {:induction false} ArgumentsSame(vs: seq<Value>, ws: seq<Value>)
    requires SameValues(vs, ws)
    ensures UntypedAll(vs) == UntypedAll(ws) && |FirstNull(vs)| == |FirstNull(ws)|
  {
    if vs != [] {
      ArgumentsSame(vs[1..], ws[1..]);
    }
  }

  lemma {:induction false} CallSame(env: Env, func: nat, strict: bool, ty: TypeAttr, vs: seq<Value>, ws: seq<Value>)
    requires SameValues(vs, ws)
    ensures SameOutcome(CallOf(env, func, strict, ty, vs), CallOf(env, func, strict, ty, ws))
  {
    ArgumentsSame(vs, ws);
  }

  /** Operators never make an infinite or undefined double. */
  lemma {:induction false} ArithFinite(env: Env, op: char, ty: TypeAttr, l: Value, r: Value)
    ensures ArithOf(env, op, ty, l, r).Ok? ==> ConstOf(ArithOf(env, op, ty, l, r).value).Ok?
  {
  }

  lemma {:induction false} ProperConst(v: Value)
    requires Proper(v)
    ensures ConstOf(v) == Ok(v)
  {
  }

  // ---- the theorem, node by node ----

  lemma {:induction false} SoundArith(env: Env, op: char, ty: TypeAttr, l: Expr, r: Expr, weak: bool, row: seq<Value>)
    requires Sound(env, l, Fold(env, l, false), false, row) && Sound(env, r, Fold(env, r, false), false, row)
    ensures Sound(env, Arith(op, ty, l, r), Fold(env, Arith(op, ty, l, r), weak), weak, row)
  {
    var fl, fr := Fold(env, l, false), Fold(env, r, false);
    var lv, rv := Eval(env, l, Row(row)), Eval(env, r, Row(row));
    if fl.Ok? && fr.Ok? && lv.Ok? && rv.Ok? {
      var lw, rw := Eval(env, fl.value, Row(row)), Eval(env, fr.value, Row(row));
      ArithSame(env, op, ty, lv.value, rv.value, lw.value, rw.value);
      ArithFinite(env, op, ty, lw.value, rw.value);
      var e := Arith(op, ty, fl.value, fr.value);
      assert Eval(env, e, Row(row)) == ArithOf(env, op, ty, lv.value, rv.value);
      assert e.l.Const? && e.r.Const? ==> Eval(env, e, NoRow) == Eval(env, e, Row(row));
    }
  }

  lemma {:induction false} SoundCompare(env: Env, op: CmpOp, l: Expr, r: Expr, weak: bool, row: seq<Value>)
    requires Sound(env, l, Fold(env, l, false), false, row) && Sound(env, r, Fold(env, r, false), false, row)
    requires weak ==> AllKept(env, Compare(op, l, r), row)
    ensures Sound(env, Compare(op, l, r), Fold(env, Compare(op, l, r), weak), weak, row)
  {
    var fl, fr := Fold(env, l, false), Fold(env, r, false);
    var lv, rv := Eval(env, l, Row(row)), Eval(env, r, Row(row));
    if fl.Ok? && fr.Ok? && lv.Ok? && rv.Ok? {
      var lw, rw := Eval(env, fl.value, Row(row)), Eval(env, fr.value, Row(row));
      CompareSame(env, op, lv.value, rv.value, lw.value, rw.value);
      var e := Compare(op, fl.value, fr.value);
      assert Eval(env, e, Row(row)) == CompareOf(env, op, lv.value, rv.value);
      assert e.l.Const? && e.r.Const? ==> Eval(env, e, NoRow) == Eval(env, e, Row(row));
      if weak && ExprEqual(fl.value, fr.value) && !fl.value.Const? && Eval(env, e, Row(row)).Ok? {
        SelfCompareExact(env, op, fl.value, fr.value, row);
      }
    }
  }

  /** A comparison the simplifier rewrites keeps its truth on a row exactly when it is kept for the values its sides
      have there: a NULL on the left, or on the right of an operator that excludes equality, or the operator's answer
      on the two values being its answer on equal ones. */
  lemma {:induction false} SelfCompareExact(env: Env, op: CmpOp, l: Expr, r: Expr, row: seq<Value>)
    requires ExprEqual(l, r) && Eval(env, Compare(op, l, r), Row(row)).Ok?
    ensures var v, w := Eval(env, Compare(op, l, r), Row(row)), Eval(env, SimplifyCompare(op, l, r), Row(row));
            w.Ok? && (Stands(true, v.value, w.value) <==>
                        KeptFor(env, op, Eval(env, l, Row(row)).value, Eval(env, r, Row(row)).value))
  {
    assert Eval(env, IsNull(l, true), Row(row)) == Ok(IsNullOf(Eval(env, l, Row(row)).value, true));
  }

  /** A comparison of an expression with itself is kept on every row. */
  lemma {:induction false} SelfKept(env: Env, op: CmpOp, e: Expr, row: seq<Value>)
    ensures Kept(env, op, e, e, row)
  {
    var v := Eval(env, e, Row(row));
    if v.Ok? && !v.value.Null? && ValueCmp(env, v.value, v.value).Ok? {
      CompareSelf(env, v.value);
    }
  }

  lemma {:induction false} SoundNeg(env: Env, ty: TypeAttr, x: Expr, weak: bool, row: seq<Value>)
    requires ProperEnv(env) && ProperExpr(x) && AllProper(row) && Sound(env, x, Fold(env, x, false), false, row)
    ensures Sound(env, Neg(ty, x), Fold(env, Neg(ty, x), weak), weak, row)
  {
    var f, v := Fold(env, x, false), Eval(env, x, Row(row));
    if f.Ok? && v.Ok? {
      var w := Eval(env, f.value, Row(row)).value;
      NegSame(env, ty, v.value, w);
      if f.value.Const? && NegOf(env, ty, w).Ok? {
        EvalProper(env, x, Row(row));
        NegProper(env, ty, w);
        ProperConst(NegOf(env, ty, w).value);
      }
      if f.value.Const? {
        assert Eval(env, Neg(ty, f.value), NoRow) == NegOf(env, ty, w);
      }
    }
  }

  lemma {:induction false} SoundCast(env: Env, ty: TypeAttr, length: nat, scale: nat, x: Expr, weak: bool, row: seq<Value>)
    requires ProperEnv(env) && ProperExpr(Cast(ty, length, scale, x)) && AllProper(row)
    requires Sound(env, x, Fold(env, x, false), false, row)
    ensures Sound(env, Cast(ty, length, scale, x), Fold(env, Cast(ty, length, scale, x), weak), weak, row)
  {
    var f, v := Fold(env, x, false), Eval(env, x, Row(row));
    if f.Ok? && v.Ok? {
      var w := Eval(env, f.value, Row(row)).value;
      CastSame(env, ty, length, scale, v.value, w);
      if f.value.Const? && CastOf(env, ty, length, scale, w).Ok? {
        EvalProper(env, x, Row(row));
        CastProper(env, ty, length, scale, w);
        ProperConst(CastOf(env, ty, length, scale, w).value);
      }
      if f.value.Const? {
        assert Eval(env, Cast(ty, length, scale, f.value), NoRow) == CastOf(env, ty, length, scale, w);
      }
    }
  }

  lemma {:induction false} SoundIsNull(env: Env, x: Expr, negate: bool, weak: bool, row: seq<Value>)
    requires Sound(env, x, Fold(env, x, false), false, row)
    ensures Sound(env, IsNull(x, negate), Fold(env, IsNull(x, negate), weak), weak, row)
  {
    var f, v := Fold(env, x, false), Eval(env, x, Row(row));
    if f.Ok? && v.Ok? && f.value.Const? {
      var w := Eval(env, f.value, Row(row)).value;
      assert Eval(env, IsNull(f.value, negate), NoRow) == Ok(IsNullOf(w, negate));
    }
  }

  /** AND and OR of values that stand for others, in either context. */
  lemma {:induction false} LogicStands(isAnd: bool, lv: Value, rv: Value, lw: Value, rw: Value, weak: bool)
    requires Stands(weak, lv, lw) && Stands(weak, rv, rw) && LogicOf(isAnd, lv, rv).Ok?
    ensures LogicOf(isAnd, lw, rw).Ok? && Stands(weak, LogicOf(isAnd, lv, rv).value, LogicOf(isAnd, lw, rw).value)
  {
  }

  lemma {:induction false} LogicRaises(isAnd: bool, lv: Value, rv: Value, lw: Value, rw: Value, weak: bool)
    requires Stands(weak, lv, lw) && Stands(weak, rv, rw) && LogicOf(isAnd, lw, rw).Raise?
    ensures LogicOf(isAnd, lv, rv).Raise?
  {
  }

  /** Dropping a constant side, or the whole node, gives the value of the node exactly. */
  lemma {:induction false} SimplifyLogicSame(env: Env, isAnd: bool, l: Expr, r: Expr, row: seq<Value>)
    requires Eval(env, Logic(isAnd, l, r), Row(row)).Ok?
    ensures var v, w := Eval(env, Logic(isAnd, l, r), Row(row)), Eval(env, SimplifyLogic(isAnd, l, r), Row(row));
            w.Ok? && SameValue(v.value, w.value)
  {
  }

  lemma {:induction false} SoundLogic(env: Env, isAnd: bool, l: Expr, r: Expr, weak: bool, row: seq<Value>)
    requires Sound(env, l, Fold(env, l, weak), weak, row) && Sound(env, r, Fold(env, r, weak), weak, row)
    ensures Sound(env, Logic(isAnd, l, r), Fold(env, Logic(isAnd, l, r), weak), weak, row)
  {
    var fl, fr := Fold(env, l, weak), Fold(env, r, weak);
    var lv, rv := Eval(env, l, Row(row)), Eval(env, r, Row(row));
    if fl.Ok? && fr.Ok? && lv.Ok? && rv.Ok? {
      var lw, rw := Eval(env, fl.value, Row(row)).value, Eval(env, fr.value, Row(row)).value;
      var e := Logic(isAnd, fl.value, fr.value);
      assert Eval(env, e, Row(row)) == LogicOf(isAnd, lw, rw);
      assert e.l.Const? && e.r.Const? ==> Eval(env, e, NoRow) == Eval(env, e, Row(row));
      if LogicOf(isAnd, lw, rw).Raise? {
        LogicRaises(isAnd, lv.value, rv.value, lw, rw, weak);
      } else if LogicOf(isAnd, lv.value, rv.value).Ok? {
        LogicStands(isAnd, lv.value, rv.value, lw, rw, weak);
        SimplifyLogicSame(env, isAnd, fl.value, fr.value, row);
      }
    }
  }

  lemma {:induction false} NegatedHolds(op: CmpOp, c: int)
    ensures Holds(Negated(op), c) == !Holds(op, c)
  {
  }

  /** Absorbing a NOT gives the value of the node exactly. */
  lemma {:induction false} SimplifyNotSame(env: Env, x: Expr, row: seq<Value>)
    requires Eval(env, Not(x), Row(row)).Ok?
    ensures var v, w := Eval(env, Not(x), Row(row)), Eval(env, SimplifyNot(x), Row(row));
            w.Ok? && SameValue(v.value, w.value)
  {
    if x.Compare? {
      var c := ValueCmp(env, Eval(env, x.l, Row(row)).value, Eval(env, x.r, Row(row)).value);
      if c.Ok? {
        NegatedHolds(x.cmp, c.value);
      }
    }
  }

  lemma {:induction false} SoundNot(env: Env, x: Expr, weak: bool, row: seq<Value>)
    requires Sound(env, x, Fold(env, x, false), false, row) && (weak ==> AllKept(env, Not(x), row))
    ensures Sound(env, Not(x), Fold(env, Not(x), weak), weak, row)
  {
    var f, v := Fold(env, x, false), Eval(env, x, Row(row));
    if f.Ok? && v.Ok? {
      var w := Eval(env, f.value, Row(row)).value;
      assert Eval(env, Not(f.value), Row(row)) == NotOf(w);
      if f.value.Const? {
        assert Eval(env, Not(f.value), NoRow) == NotOf(w);
      } else if NotOf(w).Ok? {
        SimplifyNotSame(env, f.value, row);
        var e := SimplifyNot(f.value);
        if weak && e.Compare? && ExprEqual(e.l, e.r) {
          SelfCompareExact(env, e.cmp, e.l, e.r, row);
        }
      }
    }
  }

  /** The same for argument lists. */
  predicate SoundAll(env: Env, es: seq<Expr>, fs: Outcome<seq<Expr>>, row: seq<Value>) {
    var vs := EvalAll(env, es, Row(row));
    if fs.Raise? then vs.Raise?
    else vs.Ok? ==> EvalAll(env, fs.value, Row(row)).Ok? && SameValues(vs.value, EvalAll(env, fs.value, Row(row)).value)
  }

  lemma {:induction false} ConstsAnywhere(env: Env, es: seq<Expr>, row: seq<Value>)
    requires AllConst(es)
    ensures EvalAll(env, es, NoRow) == EvalAll(env, es, Row(row))
  {
    if es != [] {
      ConstsAnywhere(env, es[1..], row);
    }
  }

  lemma {:induction false} SoundCall(env: Env, func: nat, strict: bool, ty: TypeAttr, args: seq<Expr>, weak: bool, row: seq<Value>)
    requires ProperEnv(env) && ProperExprs(args) && AllProper(row) && SoundAll(env, args, FoldAll(env, args), row)
    ensures Sound(env, Call(func, strict, ty, args), Fold(env, Call(func, strict, ty, args), weak), weak, row)
  {
    var fs, vs := FoldAll(env, args), EvalAll(env, args, Row(row));
    if fs.Ok? && vs.Ok? {
      var ws := EvalAll(env, fs.value, Row(row)).value;
      CallSame(env, func, strict, ty, vs.value, ws);
      var e := Call(func, strict, ty, fs.value);
      assert Eval(env, e, Row(row)) == CallOf(env, func, strict, ty, ws);
      if AllConst(fs.value) {
        ConstsAnywhere(env, fs.value, row);
        if CallOf(env, func, strict, ty, ws).Ok? {
          EvalAllProper(env, args, Row(row));
          CallProper(env, func, strict, ty, ws);
          ProperConst(CallOf(env, func, strict, ty, ws).value);
        }
        assert Eval(env, e, NoRow) == CallOf(env, func, strict, ty, ws);
      }
    }
  }

  /** Folding is right for every expression, context and row: in a strong context always, in a weak one as long as the
      rewritten self-comparisons keep their truth on the row. */
  lemma {:induction false} FoldSound(env: Env, e: Expr, weak: bool, row: seq<Value>)
    requires ProperEnv(env) && ProperExpr(e) && AllProper(row) && (weak ==> AllKept(env, e, row))
    ensures Sound(env, e, Fold(env, e, weak), weak, row)
    decreases e, 0
  {
    match e
    case Const(_) =>
    case ColRef(_, _) =>
    case Arith(op, ty, l, r) =>
      FoldSound(env, l, false, row);
      FoldSound(env, r, false, row);
      SoundArith(env, op, ty, l, r, weak, row);
    case Neg(ty, x) =>
      FoldSound(env, x, false, row);
      SoundNeg(env, ty, x, weak, row);
    case Compare(op, l, r) =>
      FoldSound(env, l, false, row);
      FoldSound(env, r, false, row);
      SoundCompare(env, op, l, r, weak, row);
    case Logic(isAnd, l, r) =>
      FoldSound(env, l, weak, row);
      FoldSound(env, r, weak, row);
      SoundLogic(env, isAnd, l, r, weak, row);
    case Not(x) =>
      FoldSound(env, x, false, row);
      SoundNot(env, x, weak, row);
    case IsNull(x, negate) =>
      FoldSound(env, x, false, row);
      SoundIsNull(env, x, negate, weak, row);
    case Call(func, strict, ty, args) =>
      FoldSoundIn(env, args, row);
      SoundCall(env, func, strict, ty, args, weak, row);
    case Cast(ty, length, scale, x) =>
      FoldSound(env, x, false, row);
      SoundCast(env, ty, length, scale, x, weak, row);
  }

  lemma {:induction false} FoldSoundIn(env: Env, es: seq<Expr>, row: seq<Value>)
    requires ProperEnv(env) && ProperExprs(es) && AllProper(row)
    ensures SoundAll(env, es, FoldAll(env, es), row)
    decreases es, 1
  {
    if es != [] {
      FoldSound(env, es[0], false, row);
      FoldSoundIn(env, es[1..], row);
    }
  }

  /** A WHERE clause keeps the same rows after folding; folding may raise only where every row raises anyway. */
  lemma {:induction false} WhereFolded(env: Env, pred: Expr, row: seq<Value>)
    requires ProperEnv(env) && ProperExpr(pred) && AllProper(row) && AllKept(env, pred, row)
    ensures var f := Fold(env, pred, true);
            if f.Raise? then WhereMatch(env, pred, row).Raise?
            else WhereMatch(env, pred, row).Ok? ==> WhereMatch(env, f.value, row) == WhereMatch(env, pred, row)
  {
    FoldSound(env, pred, true, row);
  }

  /** A comparison in a WHERE clause: its fold keeps the truth on a row if and only if its rewrite does. */
  lemma {:induction false} ComparisonFoldedExact(env: Env, op: CmpOp, l: Expr, r: Expr, row: seq<Value>)
    requires ProperEnv(env) && ProperExpr(Compare(op, l, r)) && AllProper(row)
    requires WhereMatch(env, Compare(op, l, r), row).Ok?
    ensures var f := Fold(env, Compare(op, l, r), true);
            f.Ok? && (WhereMatch(env, f.value, row) == WhereMatch(env, Compare(op, l, r), row) <==>
                        AllKept(env, Compare(op, l, r), row))
  {
    var pred := Compare(op, l, r);
    FoldSound(env, l, false, row);
    FoldSound(env, r, false, row);
    var fl, fr := Fold(env, l, false).value, Fold(env, r, false).value;
    var v, w := Eval(env, l, Row(row)).value, Eval(env, r, Row(row)).value;
    CompareSame(env, op, v, w, Eval(env, fl, Row(row)).value, Eval(env, fr, Row(row)).value);
    assert Eval(env, Compare(op, fl, fr), Row(row)) == Eval(env, pred, Row(row));
    if AllKept(env, pred, row) {
      WhereFolded(env, pred, row);
      SoundCompare(env, op, l, r, true, row);
    } else {
      assert ExprEqual(fl, fr);
      SelfCompareExact(env, op, fl, fr, row);
    }
  }

  // ---- constants of a folded expression ----

  /** Folding leaves only proper constants behind. */
  lemma {:induction false} FoldProper(env: Env, e: Expr, weak: bool)
    requires ProperEnv(env) && ProperExpr(e) && Fold(env, e, weak).Ok?
    ensures ProperExpr(Fold(env, e, weak).value)
    decreases e, 0
  {
    match e
    case Const(_) =>
    case ColRef(_, _) =>
    case Arith(op, ty, l, r) =>
      FoldProper(env, l, false);
      FoldProper(env, r, false);
      FoldedNodeProper(env, Arith(op, ty, Fold(env, l, false).value, Fold(env, r, false).value));
    case Neg(ty, x) =>
      FoldProper(env, x, false);
      FoldedNodeProper(env, Neg(ty, Fold(env, x, false).value));
    case Compare(op, l, r) =>
      FoldProper(env, l, false);
      FoldProper(env, r, false);
      FoldedNodeProper(env, Compare(op, Fold(env, l, false).value, Fold(env, r, false).value));
    case Logic(isAnd, l, r) =>
      FoldProper(env, l, weak);
      FoldProper(env, r, weak);
      FoldedNodeProper(env, Logic(isAnd, Fold(env, l, weak).value, Fold(env, r, weak).value));
    case Not(x) =>
      FoldProper(env, x, false);
      FoldedNodeProper(env, Not(Fold(env, x, false).value));
    case IsNull(x, negate) =>
      FoldProper(env, x, false);
      FoldedNodeProper(env, IsNull(Fold(env, x, false).value, negate));
    case Call(func, strict, ty, args) =>
      FoldAllProper(env, args);
      FoldedNodeProper(env, Call(func, strict, ty, FoldAll(env, args).value));
    case Cast(ty, length, scale, x) =>
      FoldProper(env, x, false);
      FoldedNodeProper(env, Cast(ty, length, scale, Fold(env, x, false).value));
  }

  lemma {:induction false} FoldedNodeProper(env: Env, e: Expr)
    requires ProperEnv(env) && ProperExpr(e)
    ensures Evaluated(env, e).Ok? ==> ProperExpr(Evaluated(env, e).value)
  {
    if Evaluated(env, e).Ok? {
      EvalProper(env, e, NoRow);
    }
  }

  lemma {:induction false} FoldAllProper(env: Env, es: seq<Expr>)
    requires ProperEnv(env) && ProperExprs(es) && FoldAll(env, es).Ok?
    ensures ProperExprs(FoldAll(env, es).value)
    decreases es, 1
  {
    if es != [] {
      FoldProper(env, es[0], false);
      FoldAllProper(env, es[1..]);
    }
  }
}
