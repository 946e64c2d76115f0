/** What comparing and converting values means in terms of the numbers and texts they stand for
    (src/expr/expr_eval.cpp, src/storage/cast.cpp). */
module ValueLaws {
  import opened Arith
  import opened Bytes
  import opened Decimal
  import opened Values
  import opened Casts

  // ---- doubles ----

  const FRACTION := 0x10_0000_0000_0000

  /** A double without its sign, as a multiple of the smallest positive one: the fraction, with the implied leading bit
      in front of it and shifted by the exponent unless that is zero (section 3.4 of IEEE 754-2019). */
  function Magnitude(bits: u64): nat {
    var e, f := bits / FRACTION % 2048, bits % FRACTION;
    if e == 0 then f else (FRACTION + f) * Pow2(e - 1)
  }

  function Number(bits: u64): int {
    if bits < SIGN then Magnitude(bits) else 0 - Magnitude(bits)
  }

  lemma {:induction false} Parts(bits: u64)
    requires bits < SIGN
    ensures bits == (bits / FRACTION % 2048) * FRACTION + bits % FRACTION
  {
  }

  lemma {:induction false} SignBit(bits: u64)
    requires bits >= SIGN
    ensures Magnitude(bits) == Magnitude(bits - SIGN)
  {
    var low: u64 := bits - SIGN;
    assert bits % FRACTION == low % FRACTION && bits / FRACTION == low / FRACTION + 2048;
  }

  lemma {:induction false} LargerBits(a: u64, b: u64)
    requires a < b < SIGN
    ensures Magnitude(a) < Magnitude(b)
  {
    var d, e := a / FRACTION % 2048, b / FRACTION % 2048;
    Parts(a);
    Parts(b);
    if d < e {
      ExponentBound(a);
      Pow2Grows(if d == 0 then 0 else d, e - 1);
      MulLe(Pow2(if d == 0 then 0 else d), Pow2(e - 1), FRACTION);
      Times(FRACTION + b % FRACTION, FRACTION, Pow2(e - 1));
    } else if d > 0 {
      Below(FRACTION + a % FRACTION, FRACTION + b % FRACTION, Pow2(d - 1));
    }
  }

  lemma {:induction false} ExponentBound(a: u64)
    ensures Magnitude(a) < Pow2(a / FRACTION % 2048) * FRACTION
  {
    var d := a / FRACTION % 2048;
    if d > 0 {
      Below(FRACTION + a % FRACTION, 2 * FRACTION, Pow2(d - 1));
    }
  }

  lemma {:induction false} Below(x: nat, y: nat, p: nat)
    requires x < y && p > 0
    ensures x * p < y * p
  {
  }

  lemma {:induction false} Times(x: nat, y: nat, p: nat)
    requires x >= y
    ensures x * p >= p * y
  {
  }

  /** Doubles compare as the numbers they stand for; both zeros stand for zero. */
  lemma {:induction false} DoubleCmpIsOrder(l: u64, r: u64)
    requires !NaN(l) && !NaN(r)
    ensures DoubleCmp(l, r) == Sign(Number(l) - Number(r))
  {
    var a: u64, b: u64 := if l < SIGN then l else l - SIGN, if r < SIGN then r else r - SIGN;
    assert Magnitude(0) == 0;
    if l >= SIGN { SignBit(l); }
    if r >= SIGN { SignBit(r); }
    if a < b { LargerBits(a, b); }
    if b < a { LargerBits(b, a); }
    if a > 0 { LargerBits(0, a); }
    if b > 0 { LargerBits(0, b); }
  }

  // ---- texts ----

  /** The dictionary order: at the first difference the smaller byte, or the end of the text, comes first. */
  ghost predicate TextBefore(a: seq<byte>, b: seq<byte>) {
    exists k :: DiffersAt(a, b, k)
  }

  predicate DiffersAt(a: seq<byte>, b: seq<byte>, k: nat) {
    && k <= |a| && k < |b| && a[..k] == b[..k]
    && (k == |a| || a[k] < b[k])
  }

  lemma {:induction false} LexCmpIsOrder(a: seq<byte>, b: seq<byte>)
    ensures LexCmp(a, b) < 0 <==> TextBefore(a, b)
    ensures LexCmp(a, b) == 0 <==> a == b
    ensures LexCmp(a, b) > 0 <==> TextBefore(b, a)
  {
    if a == [] || b == [] || a[0] != b[0] {
      FirstByte(a, b);
      FirstByte(b, a);
    } else {
      LexCmpIsOrder(a[1..], b[1..]);
      SameFirst(a, b);
      SameFirst(b, a);
      assert a == [a[0]] + a[1..] && b == [b[0]] + b[1..];
    }
  }

  lemma {:induction false} FirstByte(a: seq<byte>, b: seq<byte>)
    requires a == [] || b == [] || a[0] != b[0]
    ensures TextBefore(a, b) <==> b != [] && (a == [] || a[0] < b[0])
  {
    if b != [] && (a == [] || a[0] < b[0]) {
      assert DiffersAt(a, b, 0);
    }
    forall k: nat | k > 0 ensures !DiffersAt(a, b, k) {
      if k <= |a| && k < |b| {
        assert a[..k][0] == a[0] && b[..k][0] == b[0];
      }
    }
  }

  lemma {:induction false} SameFirst(a: seq<byte>, b: seq<byte>)
    requires a != [] && b != [] && a[0] == b[0]
    ensures TextBefore(a, b) <==> TextBefore(a[1..], b[1..])
  {
    forall k: nat | DiffersAt(a[1..], b[1..], k) ensures DiffersAt(a, b, k + 1) {
      assert a[..k + 1] == [a[0]] + a[1..][..k] && b[..k + 1] == [b[0]] + b[1..][..k];
    }
    forall k: nat | DiffersAt(a, b, k) ensures k > 0 && DiffersAt(a[1..], b[1..], k - 1) {
      assert k > 0;
      assert a[1..][..k - 1] == a[..k][1..] && b[1..][..k - 1] == b[..k][1..];
    }
  }

  /** Padding is what is left out: the text up to its last byte that is not a space. */
  lemma {:induction false} RTrimIs(s: seq<byte>)
    ensures var t := RTrim(s);
            && t <= s && (t != [] ==> t[|t| - 1] != 32)
            && forall i :: |t| <= i < |s| ==> s[i] == 32
  {
    if s != [] && s[|s| - 1] == 32 {
      RTrimIs(s[..|s| - 1]);
    }
  }

  // ---- comparing ----

  /** Two texts of any store compare by their bytes, those of padded columns without their padding. */
  ghost predicate TextOf(v: Value, s: seq<byte>) {
    v.StrV? && if v.ty.store == CharPad then s <= v.s && (s != [] ==> s[|s| - 1] != 32) && forall i :: |s| <= i < |v.s| ==> v.s[i] == 32
               else s == v.s
  }

  lemma {:induction false} TextCmp(env: Env, a: Value, b: Value, s: seq<byte>, t: seq<byte>)
    requires TextOf(a, s) && TextOf(b, t) && a.ty.family == Text && b.ty.family == Text
    ensures var c := ValueCmp(env, a, b);
            c.Ok? && (c.value < 0 <==> TextBefore(s, t)) && (c.value == 0 <==> s == t) && (c.value > 0 <==> TextBefore(t, s))
  {
    OneText(a, s);
    OneText(b, t);
    LexCmpIsOrder(s, t);
  }

  lemma {:induction false} OneText(v: Value, s: seq<byte>)
    requires TextOf(v, s)
    ensures TextView(v) == s
  {
    if v.ty.store == CharPad {
      var t := RTrim(v.s);
      RTrimIs(v.s);
      assert t != [] ==> t[|t| - 1] == v.s[|t| - 1];
      assert s != [] ==> s[|s| - 1] == v.s[|s| - 1];
      assert s == v.s[..|s|] && t == v.s[..|t|];
    }
  }

  /** The number a value stands for, as a fraction: integers and decimals. */
  predicate Exact(v: Value) {
    v.IntV? || v.DecV?
  }

  function Numerator(v: Value): int
    requires Exact(v)
  {
    if v.IntV? then v.i else v.d.u
  }

  function Denominator(v: Value): nat
    requires Exact(v)
  {
    if v.IntV? then 1 else Pow10(v.d.scale)
  }

  /** Integers and decimals compare exactly, in any mixture. */
  lemma {:induction false} ExactCmp(env: Env, a: Value, b: Value)
    requires Exact(a) && Exact(b) && a.ty.family == Num && b.ty.family == Num
    ensures ValueCmp(env, a, b) == Ok(Sign(Numerator(a) * Denominator(b) - Numerator(b) * Denominator(a)))
  {
    assert Pow10(0) == 1;
  }

  predicate IsDouble(v: Value) {
    v.DoubleV? && v.ty.family == Num && v.ty.rep == Double && !NaN(v.bits)
  }

  /** Doubles compare as numbers, false is below true, NULL is above everything and equal to itself. */
  lemma {:induction false} OtherCmp(env: Env, a: Value, b: Value)
    ensures IsDouble(a) && IsDouble(b) ==> ValueCmp(env, a, b) == Ok(Sign(Number(a.bits) - Number(b.bits)))
    ensures a.BoolV? && b.BoolV? ==> ValueCmp(env, a, b) == Ok((if a.b then 1 else 0) - (if b.b then 1 else 0))
    ensures a.Null? && b.Null? ==> ValueCmp(env, a, b) == Ok(0)
    ensures a.Null? && !b.Null? ==> ValueCmp(env, a, b) == Ok(1) && ValueCmp(env, b, a) == Ok(-1)
  {
    if IsDouble(a) && IsDouble(b) {
      DoubleCmpIsOrder(a.bits, b.bits);
    }
  }
}
