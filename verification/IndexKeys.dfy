/** Index keys of values, and the key ranges of comparisons with a constant (src/storage/btree.cpp,
    src/planner/index_select.cpp). */
module IndexKeys {
  import opened Bytes
  import opened Decimal
  import opened LogRecords
  import opened KeyOrder
  import opened KeyRanges
  import opened Values
  import opened Casts
  import opened Expressions

  const NULL_KEY := IndexKey(0, true)

  /** Bits of a double moved so that unsigned order is numeric order; -0 counts as +0. */
  function DoubleKey(bits: u64): IndexKey {
    var x: u64 := if bits == SIGN then 0 else bits;
    IndexKey(if x >= SIGN then 0xFFFF_FFFF_FFFF_FFFF - x else x + SIGN, false)
  }

  function EncodeKey(env: Env, ty: TypeAttr, v: Value): Outcome<IndexKey> {
    match v
    case Null(_) => Ok(NULL_KEY)
    case BoolV(b) => if ty.rep == Bool then Ok(IndexKey(if b then 1 else 0, false)) else Raise
    case IntV(_, i) => if ty.rep == Int64 then Ok(IndexKey(i + SIGN, false)) else Raise
    case DoubleV(_, bits) => if ty.rep == Double then Ok(DoubleKey(bits)) else Raise
    case FloatV(_, f) => if ty.rep == Float then Ok(DoubleKey(env.widen(f))) else Raise
    case StrV(_, _) => Raise
    case DecV(_, _) => Raise
  }

  /** The key a constant is looked up by in a column's index; None when the types do not allow it. */
  function KeyOf(env: Env, col: TypeAttr, v: Value): Outcome<Option<IndexKey>> {
    var key :=
      match v
      case Null(_) => None
      case IntV(_, _) => if col.rep == Int64 then Some(EncodeKey(env, col, v)) else None
      case DoubleV(_, _) => if col.rep == Double || col.rep == Float then Some(EncodeKey(env, K_DOUBLE, v)) else None
      case FloatV(_, _) => if col.rep == Float then Some(EncodeKey(env, col, v)) else None
      case BoolV(_) => if col.rep == Bool then Some(EncodeKey(env, col, v)) else None
      case DecV(_, _) =>
        if col.rep == Double || col.rep == Float then
          var d := CastValue(env, v, K_DOUBLE, Implicit);
          Some(if d.Ok? && d.value.DoubleV? then EncodeKey(env, K_DOUBLE, d.value) else Raise)
        else None
      case StrV(_, _) => None;
    if key.None? then Ok(None) else if key.value.Raise? then Raise else Ok(Some(key.value.value))
  }

  /** A value as a column of this type stores it: of the column's type, and proper. */
  predicate StoredAs(col: TypeAttr, v: Value) {
    match v
    case Null(_) => true
    case BoolV(_) => col == K_BOOL
    case IntV(ty, _) => ty == col && col.rep == Int64 && col.family == Num
    case DoubleV(ty, bits) => ty == col && col.rep == Double && col.family == Num && FiniteDouble(bits)
    case FloatV(ty, bits) => ty == col && col.rep == Float && col.family == Num && FiniteFloat(bits)
    case StrV(ty, _) => ty == col && col.rep == Str && col.family == Text
    case DecV(ty, d) => ty == col && col.rep == Decimals && col.family == Num && d.Ok()
  }

  /** Key order of doubles is their numeric order. */
  lemma {:induction false} DoubleKeyOrder(a: u64, b: u64)
    requires !NaN(a) && !NaN(b)
    ensures Sign(KeyCmp(DoubleKey(a), DoubleKey(b))) == DoubleCmp(a, b)
  {
  }

  lemma {:induction false} FiniteIsNumber(bits: u64)
    requires FiniteDouble(bits)
    ensures !NaN(bits)
  {
  }

  /** Key comparison agrees with value comparison on every pair of a stored value and an admitted constant. */
  lemma {:induction false} KeyAgrees(env: Env, col: TypeAttr, v: Value, c: Value)
    requires ProperEnv(env) && StoredAs(col, v) && !v.Null? && Proper(c)
    requires KeyOf(env, col, c).Ok? && KeyOf(env, col, c).value.Some? && ValueCmp(env, v, c).Ok?
    ensures EncodeKey(env, col, v).Ok? && !EncodeKey(env, col, v).value.isNull
    ensures !KeyOf(env, col, c).value.value.isNull
    ensures Sign(KeyCmp(EncodeKey(env, col, v).value, KeyOf(env, col, c).value.value)) == Sign(ValueCmp(env, v, c).value)
  {
    if v.DoubleV? || v.FloatV? {
      var l, r := BoxDouble(env, v), BoxDouble(env, c);
      ConvertProper(env, v, K_DOUBLE, Implicit);
      ConvertProper(env, c, K_DOUBLE, Implicit);
      FiniteIsNumber(l.value);
      FiniteIsNumber(r.value);
      DoubleKeyOrder(l.value, r.value);
    }
  }

  /** A constant whose type allows it has a key: the conversions involved do not raise. */
  lemma {:induction false} KeyOfNeverRaises(env: Env, col: TypeAttr, c: Value)
    requires ProperEnv(env) && (c.DoubleV? || Proper(c))
    ensures KeyOf(env, col, c).Ok?
  {
  }

  // ---- ranges of a comparison ----

  function CmpRanges(op: CmpOp, k: IndexKey): seq<Range> {
    var closed, open, openNull := Some(Bound(k, true)), Some(Bound(k, false)), Some(Bound(NULL_KEY, false));
    match op
    case Eq => [Range(closed, closed)]
    case Lt => [Range(None, open)]
    case Le => [Range(None, closed)]
    case Gt => [Range(open, openNull)]
    case Ge => [Range(closed, openNull)]
    case Ne => [Range(None, open), Range(open, openNull)]
  }

  /** A key of NULL has no value part. */
  predicate Canonical(k: IndexKey) {
    k.isNull ==> k.val == 0
  }

  /** The ranges hold exactly the non-NULL keys the comparison accepts, in ascending order. */
  lemma {:induction false} CmpRangesExact(op: CmpOp, c: IndexKey, k: IndexKey)
    requires !c.isNull && Canonical(k)
    ensures KeyIn(k, CmpRanges(op, c)) <==> !k.isNull && Holds(op, KeyCmp(k, c))
    ensures RangesAscend(CmpRanges(op, c))
  {
    var rs := CmpRanges(op, c);
    if op.Ne? {
      assert rs == [rs[0]] + [rs[1]];
      KeyInConcat(k, [rs[0]], [rs[1]]);
      KeyInOne(k, rs[0]);
      KeyInOne(k, rs[1]);
    } else {
      KeyInOne(k, rs[0]);
    }
  }

  function NullRanges(negate: bool): seq<Range> {
    if negate then [Range(None, Some(Bound(NULL_KEY, false)))]
    else [Range(Some(Bound(NULL_KEY, true)), Some(Bound(NULL_KEY, true)))]
  }

  lemma {:induction false} NullRangesExact(negate: bool, k: IndexKey)
    requires Canonical(k)
    ensures KeyIn(k, NullRanges(negate)) <==> k.isNull != negate
    ensures RangesAscend(NullRanges(negate))
  {
    KeyInOne(k, NullRanges(negate)[0]);
  }

  function Mirror(op: CmpOp): CmpOp {
    match op
    case Eq => Eq
    case Ne => Ne
    case Lt => Gt
    case Le => Ge
    case Gt => Lt
    case Ge => Le
  }

  /** Swapping the sides of a comparison mirrors the operator. */
  lemma {:induction false} MirrorHolds(op: CmpOp, c: int, d: int)
    requires Sign(c) == -Sign(d)
    ensures Holds(op, c) == Holds(Mirror(op), d)
  {
  }
}
