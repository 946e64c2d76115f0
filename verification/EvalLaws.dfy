/** What the operators compute, in the terms of arithmetic and logic (src/expr/expr_eval.cpp). */
module EvalLaws {
  import opened Bytes
  import opened Arith
  import opened Decimal
  import opened Values
  import opened Casts
  import opened Expressions
  import opened ValueLaws

  // ---- integers ----

  /** An integer of the type: 64 bits, or 32. */
  predicate InType(ty: TypeAttr, x: int) {
    I64_MIN <= x < -I64_MIN && (ty.width == 4 ==> I32_MIN <= x <= I32_MAX)
  }

  /** The quotient cut off towards zero: what is left over is smaller than the divisor and on the dividend's side. */
  predicate IsQuotient(l: int, r: int, q: int) {
    var m := l - q * r;
    Abs(m) < Abs(r) && (m > 0 ==> l > 0) && (m < 0 ==> l < 0)
  }

  /** An integer operand of an integer type at most as wide. */
  predicate Operand(v: Value, ty: TypeAttr) {
    v.IntV? && v.ty.rep == Int64 && v.ty.width <= ty.width
  }

  /** Integer arithmetic is exact; a result that does not fit the type raises. */
  lemma {:induction false} IntegerSum(env: Env, ty: TypeAttr, l: Expr, r: Expr, ctx: Context)
    requires ty.rep == Int64 && Eval(env, l, ctx).Ok? && Eval(env, r, ctx).Ok?
    requires Operand(Eval(env, l, ctx).value, ty) && Operand(Eval(env, r, ctx).value, ty)
    ensures var i, j := Eval(env, l, ctx).value.i, Eval(env, r, ctx).value.i;
            && Eval(env, Arith('+', ty, l, r), ctx) == (if InType(ty, i + j) then Ok(IntV(ty, i + j)) else Raise)
            && Eval(env, Arith('-', ty, l, r), ctx) == (if InType(ty, i - j) then Ok(IntV(ty, i - j)) else Raise)
            && Eval(env, Arith('*', ty, l, r), ctx) == (if InType(ty, i * j) then Ok(IntV(ty, i * j)) else Raise)
  {
    IntegerOf(env, '+', ty, Eval(env, l, ctx).value, Eval(env, r, ctx).value);
    IntegerOf(env, '-', ty, Eval(env, l, ctx).value, Eval(env, r, ctx).value);
    IntegerOf(env, '*', ty, Eval(env, l, ctx).value, Eval(env, r, ctx).value);
  }

  lemma {:induction false} IntegerOf(env: Env, op: char, ty: TypeAttr, l: Value, r: Value)
    requires ty.rep == Int64 && Operand(l, ty) && Operand(r, ty) && (op == '+' || op == '-' || op == '*')
    ensures var x: int := if op == '+' then l.i + r.i else if op == '-' then l.i - r.i else l.i * r.i;
            ArithOf(env, op, ty, l, r) == if InType(ty, x) then Ok(IntV(ty, x)) else Raise
  {
    OperandAsInt(env, l, ty);
    OperandAsInt(env, r, ty);
  }

  /** Division by zero raises, any other division gives the quotient cut off towards zero if it fits. */
  lemma {:induction false} IntegerQuotient(env: Env, ty: TypeAttr, l: Expr, r: Expr, ctx: Context, q: int)
    requires ty.rep == Int64 && Eval(env, l, ctx).Ok? && Eval(env, r, ctx).Ok?
    requires Operand(Eval(env, l, ctx).value, ty) && Operand(Eval(env, r, ctx).value, ty)
    ensures var i, j, x := Eval(env, l, ctx).value.i, Eval(env, r, ctx).value.i, Eval(env, Arith('/', ty, l, r), ctx);
            && (j == 0 ==> x.Raise?)
            && (j != 0 && IsQuotient(i, j, q) ==> x == if InType(ty, q) then Ok(IntV(ty, q)) else Raise)
            && (j != 0 ==> exists q' :: IsQuotient(i, j, q'))
  {
    var i, j := Eval(env, l, ctx).value.i, Eval(env, r, ctx).value.i;
    OperandAsInt(env, Eval(env, l, ctx).value, ty);
    OperandAsInt(env, Eval(env, r, ctx).value, ty);
    if j != 0 {
      TruncIsQuotient(i, j);
      if IsQuotient(i, j, q) {
        OneQuotient(i, j, q, TruncDivInt(i, j));
      }
    }
  }

  lemma {:induction false} OperandAsInt(env: Env, v: Value, ty: TypeAttr)
    requires ty.rep == Int64 && Operand(v, ty)
    ensures AsInt(env, v, ty) == Ok(v.i)
  {
  }

  lemma {:induction false} TruncIsQuotient(l: int, r: int)
    requires r != 0
    ensures IsQuotient(l, r, TruncDivInt(l, r))
  {
    DivMod(Abs(l), Abs(r));
    SignedQuotient(l, r, Abs(l) / Abs(r), Abs(l) % Abs(r));
  }

  lemma {:induction false} DivMod(a: nat, b: nat)
    requires b > 0
    ensures a == (a / b) * b + a % b && 0 <= a % b < b && 0 <= a / b
  {
  }

  lemma {:induction false} SignedQuotient(l: int, r: int, q: int, m: int)
    requires Abs(l) == q * Abs(r) + m && 0 <= m < Abs(r) && 0 <= q
    ensures IsQuotient(l, r, if (l < 0) == (r < 0) then q else -q)
  {
    var p: int, t: int := q * Abs(r), if (l < 0) == (r < 0) then q else -q;
    MulLe(0, q, Abs(r));
    assert t * r == if l < 0 then -p else p by {
      Signs(q, r);
    }
    assert l - t * r == if l < 0 then -m else m;
  }

  lemma {:induction false} Signs(q: int, b: int)
    ensures (-q) * b == -(q * b) && q * (-b) == -(q * b) && (-q) * (-b) == q * b
  {
  }

  lemma {:induction false} OneQuotient(l: int, r: int, p: int, q: int)
    requires r != 0 && IsQuotient(l, r, p) && IsQuotient(l, r, q)
    ensures p == q
  {
    var m, k := l - p * r, l - q * r;
    assert Abs(k - m) < Abs(r);
    Difference(p, q, r);
    if p != q {
      AtLeast(p - q, r);
    }
  }

  lemma {:induction false} Difference(p: int, q: int, r: int)
    ensures (p - q) * r == p * r - q * r
  {
  }

  lemma {:induction false} AtLeast(d: int, r: int)
    requires d != 0
    ensures Abs(d * r) >= Abs(r)
  {
    Signs(d, r);
    MulLe(1, Abs(d), Abs(r));
  }

  lemma {:induction false} IntegerNegation(env: Env, ty: TypeAttr, x: Expr, ctx: Context)
    requires ty.rep == Int64 && Eval(env, x, ctx).Ok? && Operand(Eval(env, x, ctx).value, ty)
    requires InType(ty, Eval(env, x, ctx).value.i)
    ensures var i: int := Eval(env, x, ctx).value.i;
            Eval(env, Neg(ty, x), ctx) == if InType(ty, -i) then Ok(IntV(ty, -i)) else Raise
  {
    OperandAsInt(env, Eval(env, x, ctx).value, ty);
  }

  // ---- decimals and doubles ----

  const FLOAT_SIGN := 0x8000_0000

  /** NULL stays NULL, decimals and doubles become the opposite number, of a float only the sign bit changes. */
  lemma {:induction false} OtherNegation(env: Env, ty: TypeAttr, x: Expr, ctx: Context)
    requires Eval(env, x, ctx).Ok?
    ensures var v, n := Eval(env, x, ctx).value, Eval(env, Neg(ty, x), ctx);
            && (v.Null? ==> n == Ok(v))
            && (ty.rep == Decimals && v.DecV? ==> n == Ok(DecV(ty, Dec(-v.d.u, v.d.scale))))
            && (ty.rep == Double && v.DoubleV? && v.ty.rep == Double ==>
                  n.Ok? && n.value.DoubleV? && n.value.ty == ty && Number(n.value.bits) == -Number(v.bits))
            && (ty.rep == Float && v.FloatV? && v.ty.rep == Float ==>
                  && n.Ok? && n.value.FloatV? && n.value.ty == ty
                  && n.value.fbits % FLOAT_SIGN == v.fbits % FLOAT_SIGN
                  && (n.value.fbits < FLOAT_SIGN <==> v.fbits >= FLOAT_SIGN))
  {
    var v := Eval(env, x, ctx).value;
    if ty.rep == Double && v.DoubleV? && v.ty.rep == Double {
      if v.bits < SIGN {
        SignBit(v.bits + SIGN);
      } else {
        SignBit(v.bits);
      }
    }
  }

  /** An operand of decimal arithmetic: an integer, or a decimal. */
  predicate DecimalOperand(v: Value) {
    match v
    case IntV(ty, _) => ty.rep == Int64
    case DecV(ty, d) => ty.rep == Decimals && d.scale <= 255
    case _ => false
  }

  function Fraction(v: Value): Dec
    requires DecimalOperand(v)
  {
    if v.IntV? then Dec(v.i, 0) else v.d
  }

  /** Arithmetic in a decimal type takes integers as decimals without fraction. */
  lemma {:induction false} DecimalArithmetic(env: Env, op: char, ty: TypeAttr, l: Expr, r: Expr, ctx: Context)
    requires ty.rep == Decimals && Eval(env, l, ctx).Ok? && Eval(env, r, ctx).Ok?
    requires DecimalOperand(Eval(env, l, ctx).value) && DecimalOperand(Eval(env, r, ctx).value)
    ensures var d := Arithmetic(op, Fraction(Eval(env, l, ctx).value), Fraction(Eval(env, r, ctx).value));
            Eval(env, Arith(op, ty, l, r), ctx) == if d.Ok? then Ok(DecV(ty, d.value)) else Raise
  {
    DecimalAsNumeric(env, Eval(env, l, ctx).value, ty);
    DecimalAsNumeric(env, Eval(env, r, ctx).value, ty);
  }

  lemma {:induction false} DecimalAsNumeric(env: Env, v: Value, ty: TypeAttr)
    requires ty.rep == Decimals && DecimalOperand(v)
    ensures AsNumeric(env, v, ty) == Ok(Fraction(v))
  {
  }

  /** Doubles and floats keep the order of their operands; a result that is not finite raises. */
  lemma {:induction false} FloatingArithmetic(env: Env, op: char, ty: TypeAttr, l: Expr, r: Expr, ctx: Context)
    requires Eval(env, l, ctx).Ok? && Eval(env, r, ctx).Ok?
    ensures var a, b, c := Eval(env, l, ctx).value, Eval(env, r, ctx).value, Eval(env, Arith(op, ty, l, r), ctx);
            && (a.Null? || b.Null? ==> c.Ok? && c.value.Null?)
            && (ty.rep == Double && DoubleOperand(a) && DoubleOperand(b) ==>
                  var x := env.dop(op, a.bits, b.bits); c == if FiniteDouble(x) then Ok(DoubleV(ty, x)) else Raise)
            && (ty.rep == Float && FloatOperand(a) && FloatOperand(b) ==>
                  var x := env.fop(op, a.fbits, b.fbits); c == if FiniteFloat(x) then Ok(FloatV(ty, x)) else Raise)
  {
  }

  predicate DoubleOperand(v: Value) {
    v.DoubleV? && v.ty.rep == Double
  }

  predicate FloatOperand(v: Value) {
    v.FloatV? && v.ty.rep == Float
  }

  // ---- columns, constants, calls ----

  /** A column is the row's value at its place; without a row it raises. A constant that is no finite double raises. */
  lemma {:induction false} LeavesAre(env: Env, idx: nat, ty: TypeAttr, v: Value, ctx: Context)
    ensures Eval(env, ColRef(idx, ty), ctx).Ok? <==> ctx.Row? && idx < |ctx.values|
    ensures ctx.Row? && idx < |ctx.values| ==> Eval(env, ColRef(idx, ty), ctx).value == ctx.values[idx]
    ensures Eval(env, Const(v), ctx) == if v.DoubleV? && !FiniteDouble(v.bits) then Raise else Ok(v)
  {
  }

  /** What a function sees of an argument. */
  predicate SeenAs(v: Value, a: Value) {
    if v.Null? then a.Null? && a.ty == NO_TYPE else a == v
  }

  /** Arguments are evaluated one by one; all have to succeed. */
  lemma {:induction false} ArgumentsAre(env: Env, args: seq<Expr>, ctx: Context)
    ensures EvalAll(env, args, ctx).Ok? <==> forall i :: 0 <= i < |args| ==> Eval(env, args[i], ctx).Ok?
    ensures EvalAll(env, args, ctx).Ok? ==>
              forall i :: 0 <= i < |args| ==> EvalAll(env, args, ctx).value[i] == Eval(env, args[i], ctx).value
    decreases args
  {
    if args != [] {
      var rest := args[1..];
      ArgumentsAre(env, rest, ctx);
      assert forall i :: 0 <= i < |rest| ==> rest[i] == args[i + 1];
      assert forall i :: 1 <= i < |args| ==> args[i] == rest[i - 1];
      if EvalAll(env, args, ctx).Ok? {
        assert EvalAll(env, args, ctx).value == [Eval(env, args[0], ctx).value] + EvalAll(env, rest, ctx).value;
      }
    }
  }

  lemma {:induction false} UntypedIs(argv: seq<Value>)
    ensures forall i :: 0 <= i < |argv| ==> SeenAs(argv[i], UntypedAll(argv)[i])
  {
    if argv != [] {
      UntypedIs(argv[1..]);
      assert forall i :: 1 <= i < |argv| ==> argv[i] == argv[1..][i - 1];
    }
  }

  /** A strict function of a NULL is NULL without being called; any other call passes all arguments in order. */
  lemma {:induction false} CallIs(env: Env, func: nat, strict: bool, ty: TypeAttr, args: seq<Expr>, ctx: Context)
      returns (seen: seq<Value>)
    requires forall i :: 0 <= i < |args| ==> Eval(env, args[i], ctx).Ok?
    ensures |seen| == |args| && forall i :: 0 <= i < |args| ==> SeenAs(Eval(env, args[i], ctx).value, seen[i])
    ensures var c := Eval(env, Call(func, strict, ty, args), ctx);
            if strict && exists i :: 0 <= i < |args| && Eval(env, args[i], ctx).value.Null? then c.Ok? && c.value.Null?
            else c == env.builtin(func, seen, ty)
  {
    ArgumentsAre(env, args, ctx);
    var argv := EvalAll(env, args, ctx).value;
    seen := UntypedAll(argv);
    UntypedIs(argv);
    assert forall i :: 0 <= i < |args| ==> argv[i] == Eval(env, args[i], ctx).value;
  }

  // ---- comparisons ----

  /** What an operator asks of two numbers. */
  predicate Asks(op: CmpOp, a: int, b: int) {
    match op
    case Eq => a == b
    case Ne => a != b
    case Lt => a < b
    case Le => a <= b
    case Gt => a > b
    case Ge => a >= b
  }

  /** Integers and decimals compare as fractions. */
  lemma {:induction false} ExactComparisonIs(env: Env, op: CmpOp, l: Expr, r: Expr, ctx: Context)
    requires Eval(env, l, ctx).Ok? && Eval(env, r, ctx).Ok?
    requires Exact(Eval(env, l, ctx).value) && Exact(Eval(env, r, ctx).value)
    requires Eval(env, l, ctx).value.ty.family == Num && Eval(env, r, ctx).value.ty.family == Num
    ensures var a, b := Eval(env, l, ctx).value, Eval(env, r, ctx).value;
            Eval(env, Compare(op, l, r), ctx) ==
            Ok(BoolV(Asks(op, Numerator(a) * Denominator(b), Numerator(b) * Denominator(a))))
  {
    ExactCmp(env, Eval(env, l, ctx).value, Eval(env, r, ctx).value);
  }

  /** A comparison with NULL is NULL; doubles compare as the numbers they are, false is below true. */
  lemma {:induction false} ComparisonIs(env: Env, op: CmpOp, l: Expr, r: Expr, ctx: Context)
    requires Eval(env, l, ctx).Ok? && Eval(env, r, ctx).Ok?
    ensures var a, b, c := Eval(env, l, ctx).value, Eval(env, r, ctx).value, Eval(env, Compare(op, l, r), ctx);
            && (a.Null? || b.Null? ==> c.Ok? && c.value.Null?)
            && (IsDouble(a) && IsDouble(b) ==> c == Ok(BoolV(Asks(op, Number(a.bits), Number(b.bits)))))
            && (a.BoolV? && b.BoolV? ==> c == Ok(BoolV(Asks(op, if a.b then 1 else 0, if b.b then 1 else 0))))
  {
    OtherCmp(env, Eval(env, l, ctx).value, Eval(env, r, ctx).value);
  }

  /** Texts compare in dictionary order, padding left out. */
  lemma {:induction false} TextComparisonIs(env: Env, op: CmpOp, l: Expr, r: Expr, ctx: Context, s: seq<byte>, t: seq<byte>)
    requires Eval(env, l, ctx).Ok? && Eval(env, r, ctx).Ok?
    requires TextOf(Eval(env, l, ctx).value, s) && TextOf(Eval(env, r, ctx).value, t)
    requires Eval(env, l, ctx).value.ty.family == Text && Eval(env, r, ctx).value.ty.family == Text
    ensures Eval(env, Compare(op, l, r), ctx) ==
            Ok(BoolV(match op
                     case Eq => s == t
                     case Ne => s != t
                     case Lt => TextBefore(s, t)
                     case Le => !TextBefore(t, s)
                     case Gt => TextBefore(t, s)
                     case Ge => !TextBefore(s, t)))
  {
    TextCmp(env, Eval(env, l, ctx).value, Eval(env, r, ctx).value, s, t);
  }

  // ---- three-valued logic ----

  /** False below unknown below true. */
  function Degree(v: Value): int
    requires IsTruth(v)
  {
    if v.Null? then 1 else if v.b then 2 else 0
  }

  /** AND is the lesser of the two, OR the greater, NOT the opposite; operands that are not truth values raise. */
  lemma {:induction false} LogicIs(env: Env, isAnd: bool, l: Expr, r: Expr, ctx: Context)
    requires Eval(env, l, ctx).Ok? && Eval(env, r, ctx).Ok?
    ensures var a, b, c := Eval(env, l, ctx).value, Eval(env, r, ctx).value, Eval(env, Logic(isAnd, l, r), ctx);
            && (c.Ok? <==> IsTruth(a) && IsTruth(b))
            && (c.Ok? ==> IsTruth(c.value) && Degree(c.value) == if isAnd then Min(Degree(a), Degree(b)) else Max(Degree(a), Degree(b)))
  {
  }

  lemma {:induction false} NotIs(env: Env, x: Expr, ctx: Context)
    requires Eval(env, x, ctx).Ok?
    ensures var v, n := Eval(env, x, ctx).value, Eval(env, Not(x), ctx);
            (n.Ok? <==> IsTruth(v)) && (n.Ok? ==> IsTruth(n.value) && Degree(n.value) == 2 - Degree(v))
    ensures forall negate :: Eval(env, IsNull(x, negate), ctx) == Ok(BoolV(Eval(env, x, ctx).value.Null? != negate))
  {
  }

  /** A row is kept when the predicate is true on it, and only then; it raises where the predicate does, or is no
      truth value. */
  lemma {:induction false} WhereKeeps(env: Env, pred: Expr, row: seq<Value>)
    ensures WhereMatch(env, pred, row) == Ok(true) <==> Eval(env, pred, Row(row)) == Ok(BoolV(true))
    ensures WhereMatch(env, pred, row).Raise? <==> Eval(env, pred, Row(row)).Raise? || !IsTruth(Eval(env, pred, Row(row)).value)
  {
  }
}
