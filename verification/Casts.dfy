/** Conversions between value representations (src/storage/cast.cpp) and three-way comparison of values
    (src/expr/expr_eval.cpp). Arithmetic and conversions that involve double or float numbers are parameters. */
module Casts {
  import opened Bytes
  import opened Decimal
  import opened Values
  import opened TextCasts
  import DecimalText

  /** Arithmetic on double and float bit patterns, conversions to or from them, and built-in functions. */
  datatype Env = Env(
    dop: (char, u64, u64) -> u64,
    fop: (char, u32, u32) -> u32,
    widen: u32 -> u64,
    convert: (Value, TypeAttr) -> Outcome<Value>,
    builtin: (nat, seq<Value>, TypeAttr) -> Outcome<Value>)

  /** A value as rows hold it: finite floating-point numbers, decimals of 38 digits in a decimal type. */
  predicate Proper(v: Value) {
    match v
    case DoubleV(_, bits) => FiniteDouble(bits)
    case FloatV(_, bits) => FiniteFloat(bits)
    case DecV(ty, d) => ty.rep == Decimals && d.Ok()
    case _ => true
  }

  predicate AllProper(vs: seq<Value>) {
    forall i :: 0 <= i < |vs| ==> Proper(vs[i])
  }

  /** Proper values are widened, converted and passed to functions with proper results, and every decimal has a double:
      its magnitude is 0 or between 10^-255 and 10^38. Of other arguments nothing is assumed. */
  ghost predicate ProperEnv(env: Env) {
    && (forall f: u32 :: FiniteFloat(f) ==> FiniteDouble(env.widen(f)))
    && (forall v, to :: Proper(v) && env.convert(v, to).Ok? ==> Proper(env.convert(v, to).value))
    && (forall f, args, to :: AllProper(args) && env.builtin(f, args, to).Ok? ==> Proper(env.builtin(f, args, to).value))
    && (forall v: Value :: v.DecV? && Proper(v) ==> env.convert(v, K_DOUBLE).Ok? && env.convert(v, K_DOUBLE).value.DoubleV?)
  }

  // ---- casts ----

  datatype Mode = Implicit | Assignment | Explicit

  function Level(m: Mode): nat {
    match m case Implicit => 0 case Assignment => 1 case Explicit => 2
  }

  /** The weakest mode that allows a conversion. */
  function Tier(v: Value, to: TypeAttr): Mode {
    match TypeOf(v).rep
    case Int64 =>
      if to.rep == Int64 then if TypeOf(v).width > to.width then Assignment else Implicit
      else if to.rep == Float || to.rep == Double || to.rep == Decimals then Implicit else Explicit
    case Float => if to.rep == Float || to.rep == Double then Implicit else Explicit
    case Double => if to.rep == Double then Implicit else if to.rep == Float then Assignment else Explicit
    case Str => if to.rep == Str then Implicit else Explicit
    case Bool => if to.rep == Bool then Implicit else Explicit
    case Decimals => if to.rep == Float || to.rep == Double || to.rep == Decimals then Implicit else Explicit
    case NoRep => Explicit
  }

  /** Without trailing spaces. */
  function RTrim(s: seq<byte>): seq<byte> {
    if s != [] && s[|s| - 1] == 32 then RTrim(s[..|s| - 1]) else s
  }

  /** The text of a value, without the padding of a fixed-length column. */
  function TextView(v: Value): seq<byte>
    requires v.StrV?
  {
    if v.ty.store == CharPad then RTrim(v.s) else v.s
  }

  function IntToBool(i: int): Outcome<bool> {
    if i == 0 || i == 1 then Ok(i != 0) else Raise
  }

  /** numeric to boolean compares magnitudes. */
  function DecToBool(d: Dec): Outcome<bool> {
    if d.u == 0 then Ok(false)
    else if d.scale < 39 && Abs(d.u) == Pow10(d.scale) then Ok(true)
    else Raise
  }

  /** Exactly the values 0, 1 and -1 are accepted, so -1 becomes true. */
  lemma {:induction false} DecToBoolAccepts(d: Dec)
    requires d.Ok()
    ensures DecToBool(d).Ok? <==> Cmp(d, Dec(0, 0)) == 0 || Cmp(d, Dec(1, 0)) == 0 || Cmp(d, Dec(-1, 0)) == 0
    ensures DecToBool(d).Ok? ==> (DecToBool(d).value <==> Cmp(d, Dec(0, 0)) != 0)
  {
    assert Pow10(0) == 1;
    if d.scale >= 39 {
      RoundsToZero(Abs(d.u), d.scale);
    }
  }

  /** Text read as an integer, a truth value or a decimal. */
  function TextTo(env: Env, v: Value, to: TypeAttr): Outcome<Value>
    requires v.StrV?
  {
    var s := Chars(TextView(v));
    match to.rep
    case Int64 => var r := ParseInt(s); if r.Raise? then Raise else Ok(IntV(to, r.value))
    case Bool => var r := ParseTruth(s); if r.Raise? then Raise else Ok(BoolV(r.value))
    case Decimals => var r := DecimalText.Parse(s); if r.Raise? then Raise else Ok(DecV(to, r.value))
    case _ => env.convert(v, to)
  }

  /** Conversion by source and target representation, any mode. */
  function Convert(env: Env, v: Value, to: TypeAttr): Outcome<Value> {
    match v
    case Null(_) => Raise
    case IntV(ty, i) =>
      (match to.rep
       case Int64 => if ty.width > to.width && !(I32_MIN <= i <= I32_MAX) then Raise else Ok(IntV(to, i))
       case Decimals => Ok(DecV(to, Dec(i, 0)))
       case Bool => if IntToBool(i).Ok? then Ok(BoolV(IntToBool(i).value)) else Raise
       case Str => Ok(StrV(to, Stored(IntText(i))))
       case _ => env.convert(v, to))
    case FloatV(_, f) =>
      (match to.rep
       case Float => Ok(FloatV(to, f))
       case Double => Ok(DoubleV(to, env.widen(f)))
       case _ => env.convert(v, to))
    case DoubleV(_, bits) => if to.rep == Double then Ok(DoubleV(to, bits)) else env.convert(v, to)
    case StrV(ty, s) =>
      if to.rep == Str then Ok(StrV(to, if ty.store == CharPad && to.store == VarLen then RTrim(s) else s))
      else TextTo(env, v, to)
    case BoolV(b) =>
      (match to.rep
       case Int64 => Ok(IntV(to, if b then 1 else 0))
       case Decimals => Ok(DecV(to, Dec(if b then 1 else 0, 0)))
       case Bool => Ok(v)
       case Str => Ok(StrV(to, Stored(TruthText(b))))
       case _ => env.convert(v, to))
    case DecV(_, d) =>
      (match to.rep
       case Int64 =>
         var r := RoundI64(d);
         if r.Raise? then Raise else Ok(IntV(to, r.value))
       case Decimals => Ok(DecV(to, d))
       case Bool => if DecToBool(d).Ok? then Ok(BoolV(DecToBool(d).value)) else Raise
       case Str => Ok(StrV(to, Stored(DecimalText.ToText(d))))
       case _ => env.convert(v, to))
  }

  function CastValue(env: Env, v: Value, to: TypeAttr, mode: Mode): Outcome<Value> {
    if v.Null? || TypeOf(v).rep == NoRep || to.rep == NoRep || Level(Tier(v, to)) > Level(mode) then Raise
    else Convert(env, v, to)
  }

  /** A numeric value as a number of the double domain. */
  function BoxDouble(env: Env, v: Value): Outcome<u64> {
    var r := CastValue(env, v, K_DOUBLE, Implicit);
    if r.Ok? && r.value.DoubleV? then Ok(r.value.bits) else Raise
  }

  lemma {:induction false} ConvertProper(env: Env, v: Value, to: TypeAttr, mode: Mode)
    requires ProperEnv(env) && Proper(v) && CastValue(env, v, to, mode).Ok?
    ensures Proper(CastValue(env, v, to, mode).value)
  {
    if v.StrV? && to.rep == Decimals {
      DecimalText.ParsedOk(Chars(TextView(v)));
    }
  }

  // ---- comparison ----

  const SIGN: int := 0x8000_0000_0000_0000

  /** A double's place in the order of the reals; +0 and -0 share one. */
  function DoubleOrd(bits: u64): int {
    if bits < SIGN then bits else SIGN - bits
  }

  predicate NaN(bits: u64) {
    !FiniteDouble(bits) && bits % 0x10_0000_0000_0000 != 0
  }

  /** l < r ? -1 : l > r ? 1 : 0; nothing compares with a NaN. */
  function DoubleCmp(l: u64, r: u64): int {
    if NaN(l) || NaN(r) then 0 else Sign(DoubleOrd(l) - DoubleOrd(r))
  }

  function LexCmp(a: seq<byte>, b: seq<byte>): int {
    if a == [] then if b == [] then 0 else -1
    else if b == [] then 1
    else if a[0] != b[0] then if a[0] < b[0] then -1 else 1
    else LexCmp(a[1..], b[1..])
  }

  function AsDec(v: Value): Outcome<Dec> {
    match v
    case DecV(_, d) => Ok(d)
    case IntV(_, i) => Ok(Dec(i, 0))
    case _ => Raise
  }

  /** value_cmp: NULL is largest; integers and decimals compare exactly, other numbers as doubles. */
  function ValueCmp(env: Env, a: Value, b: Value): Outcome<int> {
    if a.Null? || b.Null? then Ok(if a.Null? && b.Null? then 0 else if a.Null? then 1 else -1)
    else if TypeOf(a).family != TypeOf(b).family then Raise
    else
      match TypeOf(a).family
      case Num =>
        if a.IntV? && b.IntV? then Ok(Sign(a.i - b.i))
        else if AsDec(a).Ok? && AsDec(b).Ok? then Ok(Cmp(AsDec(a).value, AsDec(b).value))
        else
          var l, r := BoxDouble(env, a), BoxDouble(env, b);
          if l.Raise? || r.Raise? then Raise else Ok(DoubleCmp(l.value, r.value))
      case Text =>
        if a.StrV? && b.StrV? then Ok(LexCmp(TextView(a), TextView(b))) else Raise
      case Truth =>
        if a.BoolV? && b.BoolV? then Ok(if a.b == b.b then 0 else if a.b then 1 else -1) else Raise
      case NoFamily => Raise
  }

  lemma {:induction false} LexSelf(a: seq<byte>)
    ensures LexCmp(a, a) == 0
  {
    if a != [] {
      LexSelf(a[1..]);
    }
  }

  /** A value that can be compared with itself is equal to itself. */
  lemma {:induction false} CompareSelf(env: Env, v: Value)
    requires ValueCmp(env, v, v).Ok?
    ensures ValueCmp(env, v, v).value == 0
  {
    if v.StrV? {
      LexSelf(TextView(v));
    } else if v.DecV? {
      CmpIsPreorder(v.d, v.d, v.d);
    }
  }
}
