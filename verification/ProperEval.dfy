/** Evaluation keeps values proper: on rows and constants of finite numbers and 38-digit decimals, so is every result
    (src/expr/expr_eval.cpp). */
module ProperEval {
  import opened Decimal
  import opened Values
  import opened Casts
  import opened Expressions

  /** Constants are proper, but for double literals out of range: evaluating one of these raises. Scales are bytes. */
  predicate ProperExpr(e: Expr)
    decreases e, 0
  {
    match e
    case Const(v) => v.DoubleV? || Proper(v)
    case ColRef(_, _) => true
    case Arith(_, _, l, r) => ProperExpr(l) && ProperExpr(r)
    case Neg(_, x) => ProperExpr(x)
    case Compare(_, l, r) => ProperExpr(l) && ProperExpr(r)
    case Logic(_, l, r) => ProperExpr(l) && ProperExpr(r)
    case Not(x) => ProperExpr(x)
    case IsNull(x, _) => ProperExpr(x)
    case Call(_, _, _, args) => ProperExprs(args)
    case Cast(_, _, scale, x) => scale <= 255 && ProperExpr(x)
  }

  predicate ProperExprs(es: seq<Expr>)
    decreases es, 1
  {
    es == [] || (ProperExpr(es[0]) && ProperExprs(es[1..]))
  }

  lemma {:induction false} ArithProper(env: Env, op: char, ty: TypeAttr, l: Value, r: Value)
    requires ProperEnv(env) && Proper(l) && Proper(r) && ArithOf(env, op, ty, l, r).Ok?
    ensures Proper(ArithOf(env, op, ty, l, r).value)
  {
    if !l.Null? && !r.Null? && ty.rep == Decimals {
      ConvertProper(env, l, ty, Implicit);
      ConvertProper(env, r, ty, Implicit);
      ArithmeticOk(op, AsNumeric(env, l, ty).value, AsNumeric(env, r, ty).value);
    }
  }

  lemma {:induction false} NegProper(env: Env, ty: TypeAttr, v: Value)
    requires ProperEnv(env) && Proper(v) && NegOf(env, ty, v).Ok?
    ensures Proper(NegOf(env, ty, v).value)
  {
    if !v.Null? && (ty.rep == Double || ty.rep == Float) {
      ConvertProper(env, v, ty, Implicit);
    }
  }

  lemma {:induction false} CastProper(env: Env, ty: TypeAttr, length: nat, scale: nat, v: Value)
    requires ProperEnv(env) && Proper(v) && scale <= 255 && CastOf(env, ty, length, scale, v).Ok?
    ensures Proper(CastOf(env, ty, length, scale, v).value)
  {
    if !v.Null? {
      ConvertProper(env, v, ty, Explicit);
      if ty.rep == Decimals && length > 0 {
        CoerceOk(CastValue(env, v, ty, Explicit).value.d, length, scale);
      }
    }
  }

  lemma {:induction false} UntypedProper(argv: seq<Value>)
    requires AllProper(argv)
    ensures AllProper(UntypedAll(argv))
  {
    if argv != [] {
      UntypedProper(argv[1..]);
    }
  }

  lemma {:induction false} CallProper(env: Env, func: nat, strict: bool, ty: TypeAttr, argv: seq<Value>)
    requires ProperEnv(env) && AllProper(argv) && CallOf(env, func, strict, ty, argv).Ok?
    ensures Proper(CallOf(env, func, strict, ty, argv).value)
  {
    UntypedProper(argv);
  }

  /** Whatever a proper expression evaluates to, on a proper row or without one, is proper. */
  lemma {:induction false} EvalProper(env: Env, e: Expr, ctx: Context)
    requires ProperEnv(env) && ProperExpr(e) && (ctx.Row? ==> AllProper(ctx.values)) && Eval(env, e, ctx).Ok?
    ensures Proper(Eval(env, e, ctx).value)
    decreases e, 0
  {
    match e
    case Const(_) =>
    case ColRef(_, _) =>
    case Arith(op, ty, l, r) =>
      EvalProper(env, l, ctx);
      EvalProper(env, r, ctx);
      ArithProper(env, op, ty, Eval(env, l, ctx).value, Eval(env, r, ctx).value);
    case Neg(ty, x) =>
      EvalProper(env, x, ctx);
      NegProper(env, ty, Eval(env, x, ctx).value);
    case Compare(_, _, _) =>
    case Logic(_, _, _) =>
    case Not(_) =>
    case IsNull(_, _) =>
    case Call(func, strict, ty, args) =>
      EvalAllProper(env, args, ctx);
      CallProper(env, func, strict, ty, EvalAll(env, args, ctx).value);
    case Cast(ty, length, scale, x) =>
      EvalProper(env, x, ctx);
      CastProper(env, ty, length, scale, Eval(env, x, ctx).value);
  }

  lemma {:induction false} EvalAllProper(env: Env, es: seq<Expr>, ctx: Context)
    requires ProperEnv(env) && ProperExprs(es) && (ctx.Row? ==> AllProper(ctx.values)) && EvalAll(env, es, ctx).Ok?
    ensures AllProper(EvalAll(env, es, ctx).value)
    decreases es, 1
  {
    if es != [] {
      EvalProper(env, es[0], ctx);
      EvalAllProper(env, es[1..], ctx);
    }
  }
}
