/** What CAST gives: the number, truth value or text a value stands for, in another type (src/storage/cast.cpp,
    src/expr/expr_eval.cpp). */
module CastLaws {
  import opened Bytes
  import opened Decimal
  import opened DecimalLaws
  import opened Values
  import opened TextCasts
  import opened Casts
  import opened Expressions
  import DecimalText
  import DecimalLiterals
  import EvalLaws
  import ValueLaws

  predicate IntegerType(ty: TypeAttr) {
    ty.rep == Int64 && ty.family == Num && (ty.width == 4 || ty.width == 8)
  }

  predicate TextType(ty: TypeAttr) {
    ty.rep == Str && ty.family == Text
  }

  /** A value other than NULL of the type its representation calls for. */
  predicate Typed(v: Value) {
    match v
    case Null(_) => false
    case BoolV(_) => true
    case IntV(ty, _) => IntegerType(ty)
    case DoubleV(ty, _) => ty.rep == Double
    case FloatV(ty, _) => ty.rep == Float
    case StrV(ty, _) => TextType(ty)
    case DecV(ty, d) => ty.rep == Decimals && ty.family == Num && d.Ok()
  }

  /** The characters of a text value, padding left out. */
  ghost predicate Reads(v: Value, s: string) {
    v.StrV? && exists t: seq<byte> :: ValueLaws.TextOf(v, t) && s == Chars(t)
  }

  lemma {:induction false} ReadsView(v: Value, s: string)
    requires Reads(v, s)
    ensures s == Chars(TextView(v))
  {
    var t: seq<byte> :| ValueLaws.TextOf(v, t) && s == Chars(t);
    ValueLaws.OneText(v, t);
  }

  function Fitting(ty: TypeAttr, i: int): Outcome<Value> {
    if EvalLaws.InType(ty, i) then Ok(IntV(ty, i)) else Raise
  }

  // ---- to integers ----

  /** Integers and truth values keep their value, decimals go to the nearest integer (halves away from zero), texts of
      integers to what they stand for; what does not fit the type raises, for a decimal also the least 64-bit number. */
  lemma {:induction false} ToInteger(env: Env, ty: TypeAttr, x: Expr, ctx: Context, length: nat, scale: nat, q: int)
    requires IntegerType(ty) && Eval(env, x, ctx).Ok? && Typed(Eval(env, x, ctx).value)
    ensures var v, c := Eval(env, x, ctx).value, Eval(env, Cast(ty, length, scale, x), ctx);
            && (v.IntV? ==> c == Fitting(ty, v.i))
            && (v.BoolV? ==> c == Ok(IntV(ty, if v.b then 1 else 0)))
            && (v.DecV? && Nearest(q, v.d.u, Pow10(v.d.scale)) ==> c == if q == I64_MIN then Raise else Fitting(ty, q))
            && (v.DoubleV? || v.FloatV? ==>
                  && (env.convert(v, ty).Raise? ==> c.Raise?)
                  && (I64_MIN <= q < -I64_MIN && env.convert(v, ty) == Ok(IntV(ty, q)) ==> c == Fitting(ty, q)))
  {
    var v := Eval(env, x, ctx).value;
    if v.DecV? && Nearest(q, v.d.u, Pow10(v.d.scale)) {
      RoundI64Is(v.d, q);
    }
  }

  lemma {:induction false} IntegerOfText(env: Env, ty: TypeAttr, t: Value, length: nat, scale: nat)
    requires IntegerType(ty) && Typed(t) && t.StrV?
    ensures var r := ParseInt(Chars(TextView(t)));
            CastOf(env, ty, length, scale, t) == if r.Ok? then Fitting(ty, r.value) else Raise
  {
  }

  lemma {:induction false} TextToInteger(env: Env, ty: TypeAttr, x: Expr, ctx: Context, length: nat, scale: nat,
                                         plus: bool, minus: bool, digits: string)
    requires IntegerType(ty) && Eval(env, x, ctx).Ok? && Typed(Eval(env, x, ctx).value)
    requires DecimalText.AllDigits(digits) && digits != ""
    requires Reads(Eval(env, x, ctx).value, Mark(plus, "+") + Mark(minus, "-") + digits)
    ensures var n: int := DecimalText.Number(0, digits);
            Eval(env, Cast(ty, length, scale, x), ctx) == Fitting(ty, if minus then -n else n)
  {
    ReadsView(Eval(env, x, ctx).value, Mark(plus, "+") + Mark(minus, "-") + digits);
    IntegerLiteral(plus, minus, digits);
    IntegerOfText(env, ty, Eval(env, x, ctx).value, length, scale);
  }

  /** Other texts raise. */
  lemma {:induction false} TextWasInteger(env: Env, ty: TypeAttr, x: Expr, ctx: Context, length: nat, scale: nat, s: string)
      returns (plus: bool, minus: bool, digits: string)
    requires IntegerType(ty) && Eval(env, x, ctx).Ok? && Typed(Eval(env, x, ctx).value) && Reads(Eval(env, x, ctx).value, s)
    requires Eval(env, Cast(ty, length, scale, x), ctx).Ok?
    ensures DecimalText.AllDigits(digits) && digits != "" && s == Mark(plus, "+") + Mark(minus, "-") + digits
  {
    ReadsView(Eval(env, x, ctx).value, s);
    plus, minus, digits := ParsedIsInteger(s);
  }

  // ---- to decimals ----

  /** Integers and truth values become decimals without fraction, decimals stay; then the column's digits apply. */
  lemma {:induction false} ToDecimal(env: Env, ty: TypeAttr, x: Expr, ctx: Context, length: nat, scale: nat)
    requires ty.rep == Decimals && Eval(env, x, ctx).Ok? && Typed(Eval(env, x, ctx).value)
    ensures var v, c := Eval(env, x, ctx).value, Eval(env, Cast(ty, length, scale, x), ctx);
            && (v.IntV? ==> c == Coerced(ty, Dec(v.i, 0), length, scale))
            && (v.BoolV? ==> c == Coerced(ty, Dec(if v.b then 1 else 0, 0), length, scale))
            && (v.DecV? ==> c == Coerced(ty, v.d, length, scale))
  {
  }

  function Coerced(ty: TypeAttr, d: Dec, length: nat, scale: nat): Outcome<Value> {
    var r := if length == 0 then Ok(d) else Coerce(d, length, scale);
    if r.Raise? then Raise else Ok(DecV(ty, r.value))
  }

  /** A text is a number if it is a literal and its number has 38 digits, at most 255 of them after the point. */
  lemma {:induction false} TextToDecimal(env: Env, ty: TypeAttr, x: Expr, ctx: Context, length: nat, scale: nat,
                                         l: DecimalLiterals.Literal)
    requires ty.rep == Decimals && Eval(env, x, ctx).Ok? && Typed(Eval(env, x, ctx).value)
    requires DecimalLiterals.WellFormed(l) && Reads(Eval(env, x, ctx).value, DecimalLiterals.Text(l))
    ensures var d := DecimalLiterals.Meaning(l);
            Eval(env, Cast(ty, length, scale, x), ctx) == if d.Raise? then Raise else Coerced(ty, d.value, length, scale)
  {
    ReadsView(Eval(env, x, ctx).value, DecimalLiterals.Text(l));
    DecimalLiterals.ParseLiteral(l);
  }

  lemma {:induction false} TextWasDecimal(env: Env, ty: TypeAttr, x: Expr, ctx: Context, length: nat, scale: nat, s: string)
      returns (l: DecimalLiterals.Literal)
    requires ty.rep == Decimals && Eval(env, x, ctx).Ok? && Typed(Eval(env, x, ctx).value) && Reads(Eval(env, x, ctx).value, s)
    requires Eval(env, Cast(ty, length, scale, x), ctx).Ok?
    ensures DecimalLiterals.WellFormed(l) && s == DecimalLiterals.Text(l)
  {
    ReadsView(Eval(env, x, ctx).value, s);
    l := DecimalLiterals.ParsedIsLiteral(s);
  }

  // ---- to doubles and floats ----

  /** A double stays the same double, a float the same float or the double it widens to; all else is converted. */
  lemma {:induction false} ToFloating(env: Env, ty: TypeAttr, x: Expr, ctx: Context, length: nat, scale: nat)
    requires (ty.rep == Double || ty.rep == Float) && ty.family == Num
    requires Eval(env, x, ctx).Ok? && Typed(Eval(env, x, ctx).value)
    ensures var v, c := Eval(env, x, ctx).value, Eval(env, Cast(ty, length, scale, x), ctx);
            if v.DoubleV? && ty.rep == Double then c == Ok(DoubleV(ty, v.bits))
            else if v.FloatV? && ty.rep == Float then c == Ok(FloatV(ty, v.fbits))
            else if v.FloatV? then c == Ok(DoubleV(ty, env.widen(v.fbits)))
            else c == env.convert(v, ty)
  {
  }

  // ---- to truth values ----

  /** 0 is false and 1 is true, for decimals -1 as well; of texts the two words. Other numbers and texts raise. */
  lemma {:induction false} ToTruth(env: Env, ty: TypeAttr, x: Expr, ctx: Context, length: nat, scale: nat, b: bool)
    requires ty == K_BOOL && Eval(env, x, ctx).Ok? && Typed(Eval(env, x, ctx).value)
    ensures var v, c := Eval(env, x, ctx).value, Eval(env, Cast(ty, length, scale, x), ctx);
            && (v.BoolV? ==> c == Ok(v))
            && (v.IntV? ==> (c == Ok(BoolV(b)) <==> v.i == if b then 1 else 0))
            && (v.DecV? ==> (c == Ok(BoolV(b)) <==> Abs(v.d.u) == if b then Pow10(v.d.scale) else 0))
            && (v.IntV? || v.DecV? || v.StrV? ==> c.Raise? || c.value.BoolV?)
  {
    if Eval(env, x, ctx).value.DecV? {
      DecimalTruth(Eval(env, x, ctx).value.d, b);
    }
  }

  lemma {:induction false} DecimalTruth(d: Dec, b: bool)
    requires d.Ok()
    ensures DecToBool(d) == Ok(b) <==> Abs(d.u) == if b then Pow10(d.scale) else 0
  {
    if d.scale >= 39 {
      Pow10Mono(38, d.scale);
      Pow10Values();
    }
  }

  lemma {:induction false} TextToTruth(env: Env, ty: TypeAttr, x: Expr, ctx: Context, length: nat, scale: nat, b: bool, s: string)
    requires ty == K_BOOL && Eval(env, x, ctx).Ok? && Typed(Eval(env, x, ctx).value) && Reads(Eval(env, x, ctx).value, s)
    ensures Eval(env, Cast(ty, length, scale, x), ctx) == Ok(BoolV(b)) <==> Spells(s, if b then "true" else "false")
  {
    ReadsView(Eval(env, x, ctx).value, s);
    TruthWords(s);
  }

  // ---- to texts ----

  /** A text keeps its content, without the padding of a fixed-length column where the new type is not padded; what is
      longer than the length raises. */
  lemma {:induction false} TextToText(env: Env, ty: TypeAttr, x: Expr, ctx: Context, length: nat, scale: nat, t: seq<byte>)
    requires TextType(ty) && (ty.store == VarLen || ty.store == CharPad)
    requires Eval(env, x, ctx).Ok? && Typed(Eval(env, x, ctx).value) && ValueLaws.TextOf(Eval(env, x, ctx).value, t)
    ensures var v, c := Eval(env, x, ctx).value, Eval(env, Cast(ty, length, scale, x), ctx);
            var kept := if v.ty.store == CharPad && ty.store == VarLen then t else v.s;
            c == if length > 0 && |kept| > length then Raise else Ok(StrV(ty, kept))
  {
    ValueLaws.OneText(Eval(env, x, ctx).value, t);
  }

  /** The two words in small letters. */
  lemma {:induction false} TruthToText(env: Env, ty: TypeAttr, x: Expr, ctx: Context)
    requires TextType(ty) && Eval(env, x, ctx).Ok? && Eval(env, x, ctx).value.BoolV?
    ensures Eval(env, Cast(ty, 0, 0, x), ctx) ==
            Ok(StrV(ty, if Eval(env, x, ctx).value.b then [116, 114, 117, 101] else [102, 97, 108, 115, 101]))
  {
    TruthBytes();
  }

  lemma {:induction false} TruthBytes()
    ensures Stored(TruthText(true)) == [116, 114, 117, 101] && Stored(TruthText(false)) == [102, 97, 108, 115, 101]
  {
  }

  /** An integer, decimal or truth value written as a text, whatever its column, is read back as it was. */
  lemma {:induction false} TextAndBack(env: Env, text: TypeAttr, x: Expr, ctx: Context)
    requires TextType(text) && Eval(env, x, ctx).Ok? && Typed(Eval(env, x, ctx).value)
    requires Eval(env, x, ctx).value.IntV? ==> EvalLaws.InType(Eval(env, x, ctx).value.ty, Eval(env, x, ctx).value.i)
    ensures var v := Eval(env, x, ctx).value;
            v.IntV? || v.DecV? || v.BoolV? ==> Eval(env, Cast(TypeOf(v), 0, 0, Cast(text, 0, 0, x)), ctx) == Ok(v)
  {
    var v := Eval(env, x, ctx).value;
    if v.IntV? || v.DecV? || v.BoolV? {
      WrittenAs(env, text, v);
      ReadAgain(env, text, v);
      CastTwice(env, text, TypeOf(v), x, ctx);
    }
  }

  lemma {:induction false} CastTwice(env: Env, first: TypeAttr, last: TypeAttr, x: Expr, ctx: Context)
    requires Eval(env, x, ctx).Ok? && CastOf(env, first, 0, 0, Eval(env, x, ctx).value).Ok?
    ensures Eval(env, Cast(last, 0, 0, Cast(first, 0, 0, x)), ctx) ==
            CastOf(env, last, 0, 0, CastOf(env, first, 0, 0, Eval(env, x, ctx).value).value)
  {
  }

  function WrittenText(v: Value): string
    requires v.IntV? || v.DecV? || v.BoolV?
  {
    match v
    case IntV(_, i) => IntText(i)
    case DecV(_, d) => DecimalText.ToText(d)
    case BoolV(b) => TruthText(b)
  }

  lemma {:induction false} WrittenAs(env: Env, text: TypeAttr, v: Value)
    requires TextType(text) && Typed(v) && (v.IntV? || v.DecV? || v.BoolV?)
    ensures CastOf(env, text, 0, 0, v) == Ok(StrV(text, Stored(WrittenText(v))))
  {
  }

  lemma {:induction false} ReadAgain(env: Env, text: TypeAttr, v: Value)
    requires TextType(text) && Typed(v) && (v.IntV? || v.DecV? || v.BoolV?)
    requires v.IntV? ==> EvalLaws.InType(v.ty, v.i)
    ensures CastOf(env, TypeOf(v), 0, 0, StrV(text, Stored(WrittenText(v)))) == Ok(v)
  {
    NoPadding(text, v);
    ReadAs(env, StrV(text, Stored(WrittenText(v))), v);
  }

  lemma {:induction false} ReadAs(env: Env, t: Value, v: Value)
    requires Typed(t) && t.StrV? && Typed(v) && (v.IntV? || v.DecV? || v.BoolV?) && TextView(t) == Stored(WrittenText(v))
    requires v.IntV? ==> EvalLaws.InType(v.ty, v.i)
    ensures CastOf(env, TypeOf(v), 0, 0, t) == Ok(v)
  {
    match v
    case IntV(_, i) =>
      IntTextRoundTrip(i);
      IntegerAgain(env, t, v.ty, i);
    case DecV(_, d) =>
      DecimalAsText(d);
      DecimalAgain(env, t, v.ty, d);
    case BoolV(b) =>
      TruthWords("");
      TruthAgain(env, t, b);
  }

  lemma {:induction false} IntegerAgain(env: Env, t: Value, ty: TypeAttr, i: i64)
    requires Typed(t) && t.StrV? && IntegerType(ty) && EvalLaws.InType(ty, i) && ParseInt(Chars(TextView(t))) == Ok(i)
    ensures CastOf(env, ty, 0, 0, t) == Ok(IntV(ty, i))
  {
    IntegerOfText(env, ty, t, 0, 0);
  }

  lemma {:induction false} DecimalAgain(env: Env, t: Value, ty: TypeAttr, d: Dec)
    requires Typed(t) && t.StrV? && ty.rep == Decimals && DecimalText.Parse(Chars(TextView(t))) == Ok(d)
    ensures CastOf(env, ty, 0, 0, t) == Ok(DecV(ty, d))
  {
  }

  lemma {:induction false} TruthAgain(env: Env, t: Value, b: bool)
    requires Typed(t) && t.StrV? && ParseTruth(Chars(TextView(t))) == Ok(b)
    ensures CastOf(env, K_BOOL, 0, 0, t) == Ok(BoolV(b))
  {
  }

  lemma {:induction false} NoPadding(text: TypeAttr, v: Value)
    requires Typed(v) && (v.IntV? || v.DecV? || v.BoolV?)
    ensures TextView(StrV(text, Stored(WrittenText(v)))) == Stored(WrittenText(v))
  {
    LastCharacter(v);
    NotTrimmed(Stored(WrittenText(v)));
  }

  lemma {:induction false} LastCharacter(v: Value)
    requires Typed(v) && (v.IntV? || v.DecV? || v.BoolV?)
    ensures var t := WrittenText(v); t != "" && (t[|t| - 1] == 'e' || DecimalText.IsDigit(t[|t| - 1]))
  {
  }

  lemma {:induction false} NotTrimmed(s: seq<byte>)
    requires s != [] && s[|s| - 1] != 32
    ensures RTrim(s) == s
  {
  }

  // ---- NULL, and implicit conversions ----

  /** NULL stays NULL. */
  lemma {:induction false} NullStays(env: Env, ty: TypeAttr, x: Expr, ctx: Context, length: nat, scale: nat)
    requires Eval(env, x, ctx).Ok? && Eval(env, x, ctx).value.Null?
    ensures Eval(env, Cast(ty, length, scale, x), ctx).Ok? && Eval(env, Cast(ty, length, scale, x), ctx).value.Null?
  {
  }

  predicate SameNumber(a: Value, b: Value)
    requires ValueLaws.Exact(a)
  {
    ValueLaws.Exact(b) && ValueLaws.Numerator(a) * ValueLaws.Denominator(b) == ValueLaws.Numerator(b) * ValueLaws.Denominator(a)
  }

  /** An implicit conversion between integers and decimals never raises but for a narrower integer, and keeps the
      number; between texts it never raises; no other leads from one family to another. */
  lemma {:induction false} ImplicitKeeps(env: Env, v: Value, to: TypeAttr)
    requires Typed(v) && (IntegerType(to) || (to.rep == Decimals && to.family == Num) || TextType(to) || to == K_BOOL)
    ensures var c := CastValue(env, v, to, Implicit);
            && (v.IntV? ==> (c.Ok? <==> to.rep == Decimals || (to.rep == Int64 && v.ty.width <= to.width)))
            && (v.DecV? ==> (c.Ok? <==> to.rep == Decimals))
            && (v.StrV? ==> (c.Ok? <==> to.rep == Str))
            && (v.BoolV? ==> (c.Ok? <==> to == K_BOOL))
            && (c.Ok? && ValueLaws.Exact(v) ==> SameNumber(v, c.value) && c.value.ty == to)
  {
    assert Pow10(0) == 1;
  }

  /** An assignment allows two conversions more, which may lose something: to a narrower integer, and of a double to a
      float. All others have to be asked for. */
  lemma {:induction false} AssignmentAllows(env: Env, v: Value, to: TypeAttr)
    requires Typed(v) && to.rep != NoRep
    ensures var narrow := (v.IntV? && to.rep == Int64 && v.ty.width > to.width) || (v.DoubleV? && to.rep == Float);
            && (narrow ==> CastValue(env, v, to, Implicit).Raise? && CastValue(env, v, to, Assignment) == CastValue(env, v, to, Explicit))
            && (!narrow ==> CastValue(env, v, to, Assignment) == CastValue(env, v, to, Implicit))
            && CastValue(env, v, to, Explicit) == Convert(env, v, to)
  {
  }
}
