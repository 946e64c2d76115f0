/** How far folding goes: an expression without columns becomes its value, and nothing is left to fold in what folding
    returns (src/planner/const_fold.cpp, src/planner/bool_simplify.cpp). */
module FoldLaws {
  import opened Decimal
  import opened Values
  import opened Casts
  import opened Expressions
  import opened ProperEval
  import opened Folding

  // ---- expressions without columns ----

  predicate Closed(e: Expr)
    decreases e, 0
  {
    match e
    case Const(_) => true
    case ColRef(_, _) => false
    case Arith(_, _, l, r) => Closed(l) && Closed(r)
    case Neg(_, x) => Closed(x)
    case Compare(_, l, r) => Closed(l) && Closed(r)
    case Logic(_, l, r) => Closed(l) && Closed(r)
    case Not(x) => Closed(x)
    case IsNull(x, _) => Closed(x)
    case Call(_, _, _, args) => AllClosed(args)
    case Cast(_, _, _, x) => Closed(x)
  }

  predicate AllClosed(es: seq<Expr>)
    decreases es, 1
  {
    es == [] || (Closed(es[0]) && AllClosed(es[1..]))
  }

  /** The fold of an operator: its value, or no value and no fold. */
  predicate Computed(env: Env, e: Expr, f: Outcome<Expr>) {
    var v := Eval(env, e, NoRow);
    f == if v.Ok? then Ok(Const(v.value)) else Raise
  }

  lemma {:induction false} Again(env: Env, e: Expr)
    requires ProperEnv(env) && ProperExpr(e) && Eval(env, e, NoRow).Ok?
    ensures Eval(env, Const(Eval(env, e, NoRow).value), NoRow) == Eval(env, e, NoRow)
  {
    EvalProper(env, e, NoRow);
    ProperConst(Eval(env, e, NoRow).value);
  }

  /** A constant put in the place of an operand has its value, or none if it has none. */
  predicate Replaces(env: Env, e: Expr, f: Expr) {
    f.Const? && Eval(env, f, NoRow) == Eval(env, e, NoRow)
  }

  lemma {:induction false} ReplacedPair(env: Env, e: Expr, f: Expr)
    requires match (e, f)
             case (Arith(o, t, l, r), Arith(p, u, m, s)) => o == p && t == u && Replaces(env, l, m) && Replaces(env, r, s)
             case (Compare(o, l, r), Compare(p, m, s)) => o == p && Replaces(env, l, m) && Replaces(env, r, s)
             case (Logic(o, l, r), Logic(p, m, s)) => o == p && Replaces(env, l, m) && Replaces(env, r, s)
             case _ => false
    ensures Computed(env, e, Evaluated(env, f))
  {
  }

  lemma {:induction false} ReplacedOne(env: Env, e: Expr, f: Expr)
    requires match (e, f)
             case (Neg(t, x), Neg(u, y)) => t == u && Replaces(env, x, y)
             case (Not(x), Not(y)) => Replaces(env, x, y)
             case (IsNull(x, n), IsNull(y, m)) => n == m && Replaces(env, x, y)
             case (Cast(t, n, c, x), Cast(u, m, d, y)) => t == u && n == m && c == d && Replaces(env, x, y)
             case _ => false
    ensures Computed(env, e, Evaluated(env, f))
  {
  }

  /** An expression without columns folds to its value, in either context, and raises when it has none. */
  lemma {:induction false} ClosedFolds(env: Env, e: Expr, weak: bool)
    requires ProperEnv(env) && ProperExpr(e) && Closed(e)
    ensures if e.Const? then Fold(env, e, weak) == Ok(e) else Computed(env, e, Fold(env, e, weak))
    decreases e, 0
  {
    match e
    case Const(_) =>
    case Arith(op, ty, l, r) =>
      ClosedOne(env, l, false);
      ClosedOne(env, r, false);
      if Fold(env, l, false).Ok? && Fold(env, r, false).Ok? {
        ReplacedPair(env, e, Arith(op, ty, Fold(env, l, false).value, Fold(env, r, false).value));
      }
    case Neg(ty, x) =>
      ClosedOne(env, x, false);
      if Fold(env, x, false).Ok? {
        ReplacedOne(env, e, Neg(ty, Fold(env, x, false).value));
      }
    case Compare(op, l, r) =>
      ClosedOne(env, l, false);
      ClosedOne(env, r, false);
      if Fold(env, l, false).Ok? && Fold(env, r, false).Ok? {
        ReplacedPair(env, e, Compare(op, Fold(env, l, false).value, Fold(env, r, false).value));
      }
    case Logic(isAnd, l, r) =>
      ClosedOne(env, l, weak);
      ClosedOne(env, r, weak);
      if Fold(env, l, weak).Ok? && Fold(env, r, weak).Ok? {
        ReplacedPair(env, e, Logic(isAnd, Fold(env, l, weak).value, Fold(env, r, weak).value));
      }
    case Not(x) =>
      ClosedOne(env, x, false);
      if Fold(env, x, false).Ok? {
        ReplacedOne(env, e, Not(Fold(env, x, false).value));
      }
    case IsNull(x, negate) =>
      ClosedOne(env, x, false);
      if Fold(env, x, false).Ok? {
        ReplacedOne(env, e, IsNull(Fold(env, x, false).value, negate));
      }
    case Call(_, _, _, args) =>
      ClosedFoldAll(env, args);
    case Cast(ty, length, scale, x) =>
      ClosedOne(env, x, false);
      if Fold(env, x, false).Ok? {
        ReplacedOne(env, e, Cast(ty, length, scale, Fold(env, x, false).value));
      }
  }

  lemma {:induction false} ClosedOne(env: Env, x: Expr, weak: bool)
    requires ProperEnv(env) && ProperExpr(x) && Closed(x)
    ensures Fold(env, x, weak).Raise? ==> Eval(env, x, NoRow).Raise?
    ensures Fold(env, x, weak).Ok? ==> Replaces(env, x, Fold(env, x, weak).value)
    decreases x, 2
  {
    ClosedFolds(env, x, weak);
    if Eval(env, x, NoRow).Ok? {
      Again(env, x);
    }
  }

  lemma {:induction false} ClosedFoldAll(env: Env, es: seq<Expr>)
    requires ProperEnv(env) && ProperExprs(es) && AllClosed(es)
    ensures FoldAll(env, es).Raise? ==> EvalAll(env, es, NoRow).Raise?
    ensures FoldAll(env, es).Ok? ==> AllConst(FoldAll(env, es).value)
                                     && EvalAll(env, FoldAll(env, es).value, NoRow) == EvalAll(env, es, NoRow)
    decreases es, 1
  {
    if es != [] {
      ClosedOne(env, es[0], false);
      ClosedFoldAll(env, es[1..]);
    }
  }

  // ---- nothing left to fold ----

  predicate Pair(l: Expr, r: Expr) {
    !(l.Const? && r.Const?)
  }

  /** No operator has only constants below it, arithmetic and comparisons have no NULL, AND and OR no truth constant, NOT
      stands on nothing that could absorb it; in a weak context no comparison has equal sides. */
  predicate Normal(e: Expr, weak: bool)
    decreases e, 0
  {
    match e
    case Const(_) => true
    case ColRef(_, _) => true
    case Arith(_, _, l, r) => Pair(l, r) && !NullConst(l) && !NullConst(r) && Normal(l, false) && Normal(r, false)
    case Neg(_, x) => !x.Const? && Normal(x, false)
    case Compare(_, l, r) => Pair(l, r) && NormalComparison(l, r, weak) && Normal(l, false) && Normal(r, false)
    case Logic(_, l, r) => Pair(l, r) && ConstBool(l) == [] && ConstBool(r) == [] && Normal(l, weak) && Normal(r, weak)
    case Not(x) => !x.Const? && !x.Not? && !x.Compare? && !x.IsNull? && Normal(x, false)
    case IsNull(x, _) => !x.Const? && Normal(x, false)
    case Call(_, _, _, args) => !AllConst(args) && AllNormal(args)
    case Cast(_, _, _, x) => !x.Const? && Normal(x, false)
  }

  predicate NormalComparison(l: Expr, r: Expr, weak: bool) {
    !NullConst(l) && !NullConst(r) && (weak ==> !ExprEqual(l, r))
  }

  predicate AllNormal(es: seq<Expr>)
    decreases es, 1
  {
    es == [] || (Normal(es[0], false) && AllNormal(es[1..]))
  }

  lemma {:induction false} SimplifiedNormal(op: CmpOp, l: Expr, r: Expr)
    requires Normal(Compare(op, l, r), false) && Normal(l, false)
    ensures Normal(SimplifyCompare(op, l, r), true)
  {
  }

  lemma {:induction false} LogicNormal(isAnd: bool, l: Expr, r: Expr, weak: bool)
    requires Pair(l, r) && Normal(l, weak) && Normal(r, weak)
    ensures Normal(SimplifyLogic(isAnd, l, r), weak)
  {
    if ConstBool(l) == [] && ConstBool(r) == [] {
      assert SimplifyLogic(isAnd, l, r) == Logic(isAnd, l, r);
    }
  }

  /** A double NOT puts what stands below it, folded for a strong context, into a weak one: it should be normal there. */
  predicate Liftable(x: Expr) {
    x.Not? ==> Normal(x.x, true)
  }

  /** NOT over a folded operand: in a weak context the result is normal exactly for these operands. */
  lemma {:induction false} NotNormal(env: Env, x: Expr, weak: bool)
    requires Normal(x, false) && FoldNot(env, x, weak).Ok?
    ensures Normal(FoldNot(env, x, weak).value, weak) <==> (weak ==> Liftable(x))
  {
  }

  /** No double NOT among the leaves of the AND/OR tree, after their operands have been folded, lifts what would still
      have to be folded. */
  predicate LiftsNormal(env: Env, e: Expr) {
    match e
    case Logic(_, l, r) => LiftsNormal(env, l) && LiftsNormal(env, r)
    case Not(x) =>
      var f := Fold(env, x, false);
      f.Ok? ==> Liftable(f.value)
    case _ => true
  }

  /** Folding leaves nothing to fold: always in a strong context, in a weak one if no double NOT lifts a comparison of
      equal sides. */
  lemma {:induction false} FoldNormal(env: Env, e: Expr, weak: bool)
    requires Fold(env, e, weak).Ok? && (weak ==> LiftsNormal(env, e))
    ensures Normal(Fold(env, e, weak).value, weak)
    decreases e, 0
  {
    match e
    case Const(_) =>
    case ColRef(_, _) =>
    case Arith(_, _, l, r) =>
      FoldNormal(env, l, false);
      FoldNormal(env, r, false);
    case Neg(_, x) =>
      FoldNormal(env, x, false);
    case Compare(op, l, r) =>
      FoldNormal(env, l, false);
      FoldNormal(env, r, false);
      ComparisonNormal(env, op, Fold(env, l, false).value, Fold(env, r, false).value, weak);
    case Logic(isAnd, l, r) =>
      FoldNormal(env, l, weak);
      FoldNormal(env, r, weak);
      var fl, fr := Fold(env, l, weak).value, Fold(env, r, weak).value;
      if Pair(fl, fr) {
        LogicNormal(isAnd, fl, fr, weak);
      }
    case Not(x) =>
      FoldNormal(env, x, false);
      NotNormal(env, Fold(env, x, false).value, weak);
    case IsNull(x, _) =>
      FoldNormal(env, x, false);
    case Call(_, _, _, args) =>
      FoldAllNormal(env, args);
    case Cast(_, _, _, x) =>
      FoldNormal(env, x, false);
  }

  lemma {:induction false} ComparisonNormal(env: Env, op: CmpOp, l: Expr, r: Expr, weak: bool)
    requires Normal(l, false) && Normal(r, false) && FoldCompare(env, op, l, r, weak).Ok?
    ensures Normal(FoldCompare(env, op, l, r, weak).value, weak)
  {
    if Pair(l, r) && !NullConst(l) && !NullConst(r) {
      SimplifiedNormal(op, l, r);
    }
  }

  lemma {:induction false} FoldAllNormal(env: Env, es: seq<Expr>)
    requires FoldAll(env, es).Ok?
    ensures AllNormal(FoldAll(env, es).value)
    decreases es, 1
  {
    if es != [] {
      FoldNormal(env, es[0], false);
      FoldAllNormal(env, es[1..]);
    }
  }

  /** Where nothing is left to fold, folding changes nothing. */
  lemma {:induction false} NormalStays(env: Env, e: Expr, weak: bool)
    requires Normal(e, weak)
    ensures Fold(env, e, weak) == Ok(e)
    decreases e, 0
  {
    match e
    case Const(_) =>
    case ColRef(_, _) =>
    case Arith(_, _, l, r) =>
      NormalStays(env, l, false);
      NormalStays(env, r, false);
    case Neg(_, x) =>
      NormalStays(env, x, false);
    case Compare(_, l, r) =>
      NormalStays(env, l, false);
      NormalStays(env, r, false);
    case Logic(_, l, r) =>
      NormalStays(env, l, weak);
      NormalStays(env, r, weak);
    case Not(x) =>
      NormalStays(env, x, false);
    case IsNull(x, _) =>
      NormalStays(env, x, false);
    case Call(_, _, _, args) =>
      AllNormalStay(env, args);
    case Cast(_, _, _, x) =>
      NormalStays(env, x, false);
  }

  lemma {:induction false} AllNormalStay(env: Env, es: seq<Expr>)
    requires AllNormal(es)
    ensures FoldAll(env, es) == Ok(es)
    decreases es, 1
  {
    if es != [] {
      NormalStays(env, es[0], false);
      AllNormalStay(env, es[1..]);
      assert es == [es[0]] + es[1..];
    }
  }

  // ---- size ----

  function Size(e: Expr): (n: nat)
    ensures n > 0
    decreases e, 0
  {
    match e
    case Const(_) => 1
    case ColRef(_, _) => 1
    case Arith(_, _, l, r) => 1 + Size(l) + Size(r)
    case Neg(_, x) => 1 + Size(x)
    case Compare(_, l, r) => 1 + Size(l) + Size(r)
    case Logic(_, l, r) => 1 + Size(l) + Size(r)
    case Not(x) => 1 + Size(x)
    case IsNull(x, _) => 1 + Size(x)
    case Call(_, _, _, args) => 1 + SizeAll(args)
    case Cast(_, _, _, x) => 1 + Size(x)
  }

  function SizeAll(es: seq<Expr>): nat
    decreases es, 1
  {
    if es == [] then 0 else Size(es[0]) + SizeAll(es[1..])
  }

  lemma {:induction false} SimplifiedShrinks(env: Env, op: CmpOp, l: Expr, r: Expr, weak: bool)
    ensures var f := FoldCompare(env, op, l, r, weak); f.Ok? ==> Size(f.value) <= 1 + Size(l) + Size(r)
  {
  }

  lemma {:induction false} LogicShrinks(isAnd: bool, l: Expr, r: Expr)
    ensures Size(SimplifyLogic(isAnd, l, r)) <= 1 + Size(l) + Size(r)
  {
  }

  lemma {:induction false} NotShrinks(env: Env, x: Expr, weak: bool)
    ensures var f := FoldNot(env, x, weak); f.Ok? ==> Size(f.value) <= 1 + Size(x)
  {
    var e := SimplifyNot(x);
    assert Size(e) <= 1 + Size(x);
    if e.Compare? {
      SimplifiedShrinks(env, e.cmp, e.l, e.r, weak);
      assert Size(e) == 1 + Size(e.l) + Size(e.r);
    }
  }

  /** Folding never makes an expression larger. */
  lemma {:induction false} FoldShrinks(env: Env, e: Expr, weak: bool)
    requires Fold(env, e, weak).Ok?
    ensures Size(Fold(env, e, weak).value) <= Size(e)
    decreases e, 0
  {
    match e
    case Const(_) =>
    case ColRef(_, _) =>
    case Arith(_, _, l, r) =>
      FoldShrinks(env, l, false);
      FoldShrinks(env, r, false);
    case Neg(_, x) =>
      FoldShrinks(env, x, false);
    case Compare(op, l, r) =>
      FoldShrinks(env, l, false);
      FoldShrinks(env, r, false);
      SimplifiedShrinks(env, op, Fold(env, l, false).value, Fold(env, r, false).value, weak);
    case Logic(isAnd, l, r) =>
      FoldShrinks(env, l, weak);
      FoldShrinks(env, r, weak);
      LogicShrinks(isAnd, Fold(env, l, weak).value, Fold(env, r, weak).value);
    case Not(x) =>
      FoldShrinks(env, x, false);
      NotShrinks(env, Fold(env, x, false).value, weak);
    case IsNull(x, _) =>
      FoldShrinks(env, x, false);
    case Call(_, _, _, args) =>
      FoldAllShrinks(env, args);
    case Cast(_, _, _, x) =>
      FoldShrinks(env, x, false);
  }

  lemma {:induction false} FoldAllShrinks(env: Env, es: seq<Expr>)
    requires FoldAll(env, es).Ok?
    ensures SizeAll(FoldAll(env, es).value) <= SizeAll(es)
    decreases es, 1
  {
    if es != [] {
      FoldShrinks(env, es[0], false);
      FoldAllShrinks(env, es[1..]);
      var f, rest := Fold(env, es[0], false).value, FoldAll(env, es[1..]).value;
      assert ([f] + rest)[1..] == rest;
    }
  }

  // ---- fixed points ----

  lemma {:induction false} FixedSides(env: Env, isAnd: bool, l: Expr, r: Expr, weak: bool)
    requires Fold(env, Logic(isAnd, l, r), weak) == Ok(Logic(isAnd, l, r))
    ensures Fold(env, l, weak) == Ok(l) && Fold(env, r, weak) == Ok(r)
    ensures Pair(l, r) && ConstBool(l) == [] && ConstBool(r) == []
  {
    FoldShrinks(env, l, weak);
    FoldShrinks(env, r, weak);
    assert Size(Logic(isAnd, l, r)) == 1 + Size(l) + Size(r);
  }

  lemma {:induction false} FixedOperand(env: Env, x: Expr, weak: bool)
    requires Fold(env, Not(x), weak) == Ok(Not(x))
    ensures Fold(env, x, false) == Ok(x) && !x.Const? && !x.Not? && !x.Compare? && !x.IsNull?
  {
    FoldShrinks(env, x, false);
    var f := Fold(env, x, false).value;
    assert f.Not? ==> Size(f) == 1 + Size(f.x);
    assert Size(Not(x)) == 1 + Size(x);
  }

  /** What folding does not change is normal. */
  lemma {:induction false} FixedIsNormal(env: Env, e: Expr, weak: bool)
    requires Fold(env, e, weak) == Ok(e)
    ensures Normal(e, weak)
    decreases e, 0
  {
    match e
    case Const(_) =>
    case ColRef(_, _) =>
    case Arith(_, _, l, r) =>
      FixedIsNormal(env, l, false);
      FixedIsNormal(env, r, false);
    case Neg(_, x) =>
      FixedIsNormal(env, x, false);
    case Compare(_, l, r) =>
      FixedIsNormal(env, l, false);
      FixedIsNormal(env, r, false);
    case Logic(isAnd, l, r) =>
      FixedSides(env, isAnd, l, r, weak);
      FixedIsNormal(env, l, weak);
      FixedIsNormal(env, r, weak);
    case Not(x) =>
      FixedOperand(env, x, weak);
      FixedIsNormal(env, x, false);
    case IsNull(x, _) =>
      FixedIsNormal(env, x, false);
    case Call(_, _, _, args) =>
      AllFixedNormal(env, args);
    case Cast(_, _, _, x) =>
      FixedIsNormal(env, x, false);
  }

  lemma {:induction false} AllFixedNormal(env: Env, es: seq<Expr>)
    requires FoldAll(env, es) == Ok(es)
    ensures AllNormal(es)
    decreases es, 1
  {
    if es != [] {
      var f, rest := Fold(env, es[0], false).value, FoldAll(env, es[1..]).value;
      assert ([f] + rest)[0] == f && ([f] + rest)[1..] == rest;
      FixedIsNormal(env, es[0], false);
      AllFixedNormal(env, es[1..]);
    }
  }

  /** Folding changes nothing exactly where nothing is left to fold, so folding twice is folding once exactly when the
      first round leaves nothing: always in a strong context, in a weak one if no double NOT lifts a comparison of equal
      sides. */
  lemma {:induction false} FoldTwice(env: Env, e: Expr, weak: bool)
    ensures Fold(env, e, weak) == Ok(e) <==> Normal(e, weak)
    ensures Fold(env, e, weak).Ok? ==>
              var f := Fold(env, e, weak).value;
              && (Fold(env, f, weak) == Ok(f) <==> Normal(f, weak))
              && (!weak || LiftsNormal(env, e) ==> Normal(f, weak))
  {
    FixedIffNormal(env, e, weak);
    if Fold(env, e, weak).Ok? {
      FixedIffNormal(env, Fold(env, e, weak).value, weak);
      if !weak || LiftsNormal(env, e) {
        FoldNormal(env, e, weak);
      }
    }
  }

  lemma {:induction false} FixedIffNormal(env: Env, e: Expr, weak: bool)
    ensures Fold(env, e, weak) == Ok(e) <==> Normal(e, weak)
  {
    if Normal(e, weak) {
      NormalStays(env, e, weak);
    } else if Fold(env, e, weak) == Ok(e) {
      FixedIsNormal(env, e, weak);
    }
  }

  /** A predicate that needs two rounds: NOT NOT (c = c AND d) becomes c = c AND d, and only then c IS NOT NULL AND d. */
  lemma {:induction false} DoubleNotLeaves(env: Env, ty: TypeAttr)
    ensures var c, d := ColRef(0, ty), ColRef(1, K_BOOL);
            var once := Logic(true, Compare(Eq, c, c), d);
            && Fold(env, Not(Not(once)), true) == Ok(once)
            && Fold(env, once, true) == Ok(Logic(true, IsNull(c, true), d))
  {
    var c, d := ColRef(0, ty), ColRef(1, K_BOOL);
    var once := Logic(true, Compare(Eq, c, c), d);
    assert Fold(env, Compare(Eq, c, c), false) == Ok(Compare(Eq, c, c));
    assert Fold(env, once, false) == Ok(once);
    assert Fold(env, Not(once), false) == Ok(Not(once));
    assert ExprEqual(c, c);
    assert Fold(env, Compare(Eq, c, c), true) == Ok(IsNull(c, true));
  }
}
