/** Bound expressions and their evaluation (src/analyzer/bound_expr.h, src/expr/expr_eval.cpp). */
module Expressions {
  import opened Bytes
  import opened Decimal
  import opened Values
  import opened Casts

  datatype CmpOp = Eq | Ne | Lt | Le | Gt | Ge

  datatype Expr =
    | Const(v: Value)
    | ColRef(idx: nat, ty: TypeAttr)
    | Arith(op: char, ty: TypeAttr, l: Expr, r: Expr)
    | Neg(ty: TypeAttr, x: Expr)
    | Compare(cmp: CmpOp, l: Expr, r: Expr)
    | Logic(isAnd: bool, l: Expr, r: Expr)
    | Not(x: Expr)
    | IsNull(x: Expr, negate: bool)
    | Call(func: nat, strict: bool, ty: TypeAttr, args: seq<Expr>)
    | Cast(ty: TypeAttr, length: nat, scale: nat, x: Expr)

  /** Where an expression is evaluated: no row, or the values of one. */
  datatype Context = NoRow | Row(values: seq<Value>)

  // ---- one node, from the values of its operands ----

  function TruncDivInt(a: int, b: int): int
    requires b != 0
  {
    var q: int := Abs(a) / Abs(b);
    if (a < 0) == (b < 0) then q else -q
  }

  function IntArith(op: char, width: nat, l: i64, r: i64): Outcome<i64> {
    if op == '/' && r == 0 then Raise
    else
      var x := if op == '+' then l + r else if op == '-' then l - r else if op == '*' then l * r
               else if op == '/' then TruncDivInt(l, r) else 0;
      if x < I64_MIN || x > I64_MAX then Raise
      else if width == 4 && !(I32_MIN <= x <= I32_MAX) then Raise
      else Ok(x)
  }

  function AsInt(env: Env, v: Value, ty: TypeAttr): Outcome<i64> {
    var r := CastValue(env, v, ty, Implicit);
    if r.Ok? && r.value.IntV? then Ok(r.value.i) else Raise
  }

  function AsDouble(env: Env, v: Value, ty: TypeAttr): Outcome<u64> {
    var r := CastValue(env, v, ty, Implicit);
    if r.Ok? && r.value.DoubleV? then Ok(r.value.bits) else Raise
  }

  function AsFloat(env: Env, v: Value, ty: TypeAttr): Outcome<u32> {
    var r := CastValue(env, v, ty, Implicit);
    if r.Ok? && r.value.FloatV? then Ok(r.value.fbits) else Raise
  }

  function AsNumeric(env: Env, v: Value, ty: TypeAttr): Outcome<Dec> {
    var r := CastValue(env, v, ty, Implicit);
    if r.Ok? && r.value.DecV? && r.value.d.scale <= 255 then Ok(r.value.d) else Raise
  }

  function ArithOf(env: Env, op: char, ty: TypeAttr, lv: Value, rv: Value): Outcome<Value> {
    if lv.Null? || rv.Null? then Ok(Null(NO_TYPE))
    else
      match ty.rep
      case Decimals =>
        var l, r := AsNumeric(env, lv, ty), AsNumeric(env, rv, ty);
        if l.Raise? || r.Raise? then Raise
        else
          var d := Arithmetic(op, l.value, r.value);
          if d.Raise? then Raise else Ok(DecV(ty, d.value))
      case Float =>
        var l, r := AsFloat(env, lv, ty), AsFloat(env, rv, ty);
        if l.Raise? || r.Raise? then Raise
        else
          var f := env.fop(op, l.value, r.value);
          if FiniteFloat(f) then Ok(FloatV(ty, f)) else Raise
      case Double =>
        var l, r := AsDouble(env, lv, ty), AsDouble(env, rv, ty);
        if l.Raise? || r.Raise? then Raise
        else
          var d := env.dop(op, l.value, r.value);
          if FiniteDouble(d) then Ok(DoubleV(ty, d)) else Raise
      case _ =>
        var l, r := AsInt(env, lv, ty), AsInt(env, rv, ty);
        if l.Raise? || r.Raise? then Raise
        else
          var i := IntArith(op, ty.width, l.value, r.value);
          if i.Raise? then Raise else Ok(IntV(ty, i.value))
  }

  function FlipSign(bits: u64): u64 {
    if bits < SIGN then bits + SIGN else bits - SIGN
  }

  function FlipSign32(bits: u32): u32 {
    if bits < 0x8000_0000 then bits + 0x8000_0000 else bits - 0x8000_0000
  }

  function NegOf(env: Env, ty: TypeAttr, v: Value): Outcome<Value> {
    if v.Null? then Ok(v)
    else
      match ty.rep
      case Float =>
        var f := AsFloat(env, v, ty);
        if f.Raise? then Raise else Ok(FloatV(ty, FlipSign32(f.value)))
      case Double =>
        var d := AsDouble(env, v, ty);
        if d.Raise? then Raise else Ok(DoubleV(ty, FlipSign(d.value)))
      case Decimals => if v.DecV? then Ok(DecV(ty, Dec(-v.d.u, v.d.scale))) else Raise
      case _ =>
        var i := AsInt(env, v, ty);
        if i.Raise? || i.value == I64_MIN || (ty.width == 4 && i.value == I32_MIN) then Raise
        else Ok(IntV(ty, -i.value))
  }

  function Holds(op: CmpOp, c: int): bool {
    match op
    case Eq => c == 0
    case Ne => c != 0
    case Lt => c < 0
    case Le => c <= 0
    case Gt => c > 0
    case Ge => c >= 0
  }

  function CompareOf(env: Env, op: CmpOp, lv: Value, rv: Value): Outcome<Value> {
    if lv.Null? || rv.Null? then Ok(Null(NO_TYPE))
    else
      var c := ValueCmp(env, lv, rv);
      if c.Raise? then Raise else Ok(BoolV(Holds(op, c.value)))
  }

  predicate IsTruth(v: Value) {
    v.Null? || v.BoolV?
  }

  /** Three-valued AND and OR; both operands have been evaluated. */
  function LogicOf(isAnd: bool, lv: Value, rv: Value): Outcome<Value> {
    if !IsTruth(lv) || !IsTruth(rv) then Raise
    else if (lv.BoolV? && lv.b != isAnd) || (rv.BoolV? && rv.b != isAnd) then Ok(BoolV(!isAnd))
    else if lv.Null? || rv.Null? then Ok(Null(NO_TYPE))
    else Ok(BoolV(isAnd))
  }

  function NotOf(v: Value): Outcome<Value> {
    if v.Null? then Ok(v) else if v.BoolV? then Ok(BoolV(!v.b)) else Raise
  }

  function IsNullOf(v: Value, negate: bool): Value {
    BoolV(if negate then !v.Null? else v.Null?)
  }

  /** The first NULL among the arguments. */
  function FirstNull(argv: seq<Value>): (r: seq<Value>)
    ensures |r| <= 1 && (r == [] <==> forall i :: 0 <= i < |argv| ==> !argv[i].Null?)
    ensures r != [] ==> r[0].Null?
  {
    if argv == [] then []
    else if argv[0].Null? then [argv[0]]
    else
      assert forall i :: 1 <= i < |argv| ==> argv[i] == argv[1..][i - 1];
      FirstNull(argv[1..])
  }

  /** Functions see whether an argument is NULL, never the type of one. */
  function Untyped(v: Value): Value {
    if v.Null? then Null(NO_TYPE) else v
  }

  function UntypedAll(argv: seq<Value>): (r: seq<Value>)
    ensures |r| == |argv|
  {
    if argv == [] then [] else [Untyped(argv[0])] + UntypedAll(argv[1..])
  }

  function CallOf(env: Env, func: nat, strict: bool, ty: TypeAttr, argv: seq<Value>): Outcome<Value> {
    if strict && FirstNull(argv) != [] then Ok(FirstNull(argv)[0]) else env.builtin(func, UntypedAll(argv), ty)
  }

  function CastOf(env: Env, ty: TypeAttr, length: nat, scale: nat, v: Value): Outcome<Value> {
    if v.Null? then Ok(v)
    else
      var c := CastValue(env, v, ty, Explicit);
      if c.Raise? then Raise
      else if ty.rep == Decimals && length > 0 then
        if !c.value.DecV? then Raise
        else
          var d := Coerce(c.value.d, length, scale);
          if d.Raise? then Raise else Ok(DecV(ty, d.value))
      else if ty.rep == Int64 && ty.width == 4 && !(c.value.IntV? && I32_MIN <= c.value.i <= I32_MAX) then Raise
      else if ty.family == Text && length > 0 && !(c.value.StrV? && |c.value.s| <= length) then Raise
      else c
  }

  // ---- whole expressions ----

  function ConstOf(v: Value): Outcome<Value> {
    if v.DoubleV? && !FiniteDouble(v.bits) then Raise else Ok(v)
  }

  function Eval(env: Env, e: Expr, ctx: Context): Outcome<Value>
    decreases e, 0
  {
    match e
    case Const(v) => ConstOf(v)
    case ColRef(idx, _) => if ctx.Row? && idx < |ctx.values| then Ok(ctx.values[idx]) else Raise
    case Arith(op, ty, l, r) =>
      var lv, rv := Eval(env, l, ctx), Eval(env, r, ctx);
      if lv.Raise? || rv.Raise? then Raise else ArithOf(env, op, ty, lv.value, rv.value)
    case Neg(ty, x) =>
      var v := Eval(env, x, ctx);
      if v.Raise? then Raise else NegOf(env, ty, v.value)
    case Compare(op, l, r) =>
      var lv, rv := Eval(env, l, ctx), Eval(env, r, ctx);
      if lv.Raise? || rv.Raise? then Raise else CompareOf(env, op, lv.value, rv.value)
    case Logic(isAnd, l, r) =>
      var lv, rv := Eval(env, l, ctx), Eval(env, r, ctx);
      if lv.Raise? || rv.Raise? then Raise else LogicOf(isAnd, lv.value, rv.value)
    case Not(x) =>
      var v := Eval(env, x, ctx);
      if v.Raise? then Raise else NotOf(v.value)
    case IsNull(x, negate) =>
      var v := Eval(env, x, ctx);
      if v.Raise? then Raise else Ok(IsNullOf(v.value, negate))
    case Call(func, strict, ty, args) =>
      var argv := EvalAll(env, args, ctx);
      if argv.Raise? then Raise else CallOf(env, func, strict, ty, argv.value)
    case Cast(ty, length, scale, x) =>
      var v := Eval(env, x, ctx);
      if v.Raise? then Raise else CastOf(env, ty, length, scale, v.value)
  }

  function EvalAll(env: Env, es: seq<Expr>, ctx: Context): (r: Outcome<seq<Value>>)
    ensures r.Ok? ==> |r.value| == |es|
    decreases es, 1
  {
    if es == [] then Ok([])
    else
      var first, rest := Eval(env, es[0], ctx), EvalAll(env, es[1..], ctx);
      if first.Raise? || rest.Raise? then Raise else Ok([first.value] + rest.value)
  }

  /** where_match: NULL counts as not satisfied. */
  function WhereMatch(env: Env, pred: Expr, row: seq<Value>): Outcome<bool> {
    var v := Eval(env, pred, Row(row));
    if v.Raise? then Raise
    else if v.value.Null? then Ok(false)
    else if v.value.BoolV? then Ok(v.value.b)
    else Raise
  }
}
