/** Exact fixed-point decimals: u * 10^-scale with |u| < 10^38 (src/expr/expr_eval.cpp, src/expr/expr_func_math.cpp,
    src/storage/cast.cpp). The loops of the source are proved against exact integer specifications. */
module Decimal {
  import opened Arith

  const MAX38: int := 100_000_000_000_000_000_000_000_000_000_000_000_000

  datatype Dec = Dec(u: int, scale: nat) {
    predicate Ok() {
      -MAX38 < u < MAX38 && scale <= 255
    }
  }

  datatype Outcome<T> = Ok(value: T) | Raise

  function Pow10(n: nat): (p: nat)
    ensures p > 0
  {
    if n == 0 then 1 else 10 * Pow10(n - 1)
  }

  function Abs(x: int): nat {
    if x < 0 then -x else x
  }

  lemma {:induction false} Pow10Add(a: nat, b: nat)
    ensures Pow10(a + b) == Pow10(a) * Pow10(b)
  {
    if a > 0 {
      Pow10Add(a - 1, b);
      assert Pow10(a + b) == 10 * (Pow10(a - 1) * Pow10(b)) == (10 * Pow10(a - 1)) * Pow10(b);
    }
  }

  lemma {:induction false} Pow10Mono(a: nat, b: nat)
    requires a <= b
    ensures Pow10(a) <= Pow10(b) && (a < b ==> 10 * Pow10(a) <= Pow10(b))
  {
    if a < b {
      Pow10Mono(a, b - 1);
    }
  }

  lemma {:induction false} Pow10Values()
    ensures Pow10(37) * 10 == Pow10(38) == MAX38
  {
    assert Pow10(8) == 100_000_000;
    assert Pow10(16) == 10_000_000_000_000_000 by { Pow10Add(8, 8); }
    assert Pow10(32) == 100_000_000_000_000_000_000_000_000_000_000 by { Pow10Add(16, 16); }
    assert Pow10(6) == 1_000_000;
    assert Pow10(38) == MAX38 by { Pow10Add(32, 6); }
  }

  lemma {:induction false} MulMono(a: nat, b: nat, n: nat)
    requires a <= b
    ensures a * n <= b * n
  {
  }

  lemma {:induction false} MulSign(x: int, p: nat)
    requires p > 0
    ensures Abs(x * p) == Abs(x) * p && (x * p == 0 <==> x == 0) && (x * p < 0 <==> x < 0)
  {
  }

  // ---- dec_align ----

  /** Scaling up is exact; it fails exactly when the result no longer has 38 digits. */
  function Align(u: int, from: nat, to: nat): Outcome<int>
    requires from <= to
  {
    var r := u * Pow10(to - from);
    if from < to && Abs(r) >= MAX38 then Raise else Ok(r)
  }

  method DecAlign(u: int, from: nat, to: nat) returns (r: Outcome<int>)
    requires from <= to
    ensures r == Align(u, from, to)
  {
    var x := u;
    for i := from to to
      invariant x == u * Pow10(i - from)
      invariant i > from ==> Abs(x) < MAX38
    {
      x := x * 10;
      Pow10Step(u, i - from);
      if x != 0 && Abs(x) >= MAX38 {
        AlignGrows(u, i + 1 - from, to - from);
        return Raise;
      }
    }
    r := Ok(x);
  }

  lemma {:induction false} Pow10Step(u: int, n: nat)
    ensures u * Pow10(n + 1) == u * Pow10(n) * 10
  {
    assert u * (10 * Pow10(n)) == u * Pow10(n) * 10;
  }

  lemma {:induction false} AlignGrows(u: int, a: nat, b: nat)
    requires a <= b
    ensures Abs(u * Pow10(a)) <= Abs(u * Pow10(b))
  {
    MulSign(u, Pow10(a));
    MulSign(u, Pow10(b));
    Pow10Mono(a, b);
    MulMono(Pow10(a), Pow10(b), Abs(u));
    assert Abs(u) * Pow10(a) == Pow10(a) * Abs(u) && Abs(u) * Pow10(b) == Pow10(b) * Abs(u);
  }

  // ---- rounding ----

  /** x / p rounded to the nearest integer, halves away from zero. */
  function RoundHalfAway(x: int, p: nat): int
    requires p > 0
  {
    var q: int := HalfUp(Abs(x), p);
    if x < 0 then -q else q
  }

  function HalfUp(x: nat, p: nat): nat
    requires p > 0
  {
    x / p + if x % p * 2 >= p then 1 else 0
  }

  /** The rounded value is the nearest one; on a tie the one farther from zero; and only one value is. */
  lemma {:induction false} RoundIsNearest(x: int, p: int, r: int)
    requires p > 0
    ensures r == RoundHalfAway(x, p) <==>
            && -p <= 2 * (r * p - x) <= p
            && (2 * (r * p - x) == p ==> x > 0) && (2 * (r * p - x) == -p ==> x < 0)
  {
    var q0 := RoundHalfAway(x, p);
    var a, m := Abs(x) / p, Abs(x) % p;
    assert Abs(x) == a * p + m;
    assert (a + 1) * p == a * p + p;
    assert q0 * p == (if x < 0 then -((a + (if m * 2 >= p then 1 else 0)) * p) else (a + (if m * 2 >= p then 1 else 0)) * p);
    if r != q0 {
      assert r * p == q0 * p + (r - q0) * p;
      if r > q0 {
        MulLe(1, r - q0, p);
      } else {
        MulLe(r - q0, -1, p);
      }
    }
  }

  // ---- dec_div ----

  function Min(a: int, b: int): int {
    if a < b then a else b
  }

  function Max(a: int, b: int): int {
    if a < b then b else a
  }

  /** Scale of the result of an operator; a product can exceed the largest scale. */
  function ResultScale(op: char, l: Dec, r: Dec): Outcome<nat> {
    var s := if op == '+' || op == '-' then Max(l.scale, r.scale)
             else if op == '*' then l.scale + r.scale
             else Min(Max(l.scale, r.scale) + 4, 255);
    if s > 255 then Raise else Ok(s)
  }

  /** Digits to shift in long division: never negative. */
  function Shift(l: Dec, r: Dec, rs: nat): int {
    rs + r.scale - l.scale
  }

  lemma {:induction false} ShiftNotNegative(l: Dec, r: Dec)
    requires l.scale <= 255 && r.scale <= 255
    ensures var rs := ResultScale('/', l, r); rs.Ok? && rs.value <= 255 && Shift(l, r, rs.value) >= 0
  {
  }

  /** The quotient at scale rs: l/r * 10^t rounded half away from zero; fails on a zero divisor or 39 digits. */
  function Quotient(l: Dec, r: Dec, rs: nat): Outcome<int>
    requires Shift(l, r, rs) >= 0
  {
    if r.u == 0 then Raise
    else
      var num := (if r.u < 0 then -l.u else l.u) * Pow10(Shift(l, r, rs));
      var q := RoundHalfAway(num, Abs(r.u));
      if Abs(q) >= MAX38 then Raise else Ok(q)
  }

  /** One step of long division. */
  lemma {:induction false} LongDivStep(ua: nat, ub: nat, q: nat, rem: nat, p: nat)
    requires ub > 0 && rem < ub && q * ub + rem == ua * p
    ensures (q * 10 + rem * 10 / ub) * ub + rem * 10 % ub == ua * (p * 10)
  {
    var d := rem * 10 / ub;
    assert d * ub + rem * 10 % ub == rem * 10;
    assert (q * 10 + d) * ub == (q * ub) * 10 + d * ub;
    assert ua * (p * 10) == (ua * p) * 10;
  }

  /** A partial quotient that already has 38 digits only grows. */
  lemma {:induction false} QuotientGrows(ua: nat, ub: nat, q: nat, rem: nat, i: nat, t: nat)
    requires ub > 0 && q * ub + rem == ua * Pow10(i) && i < t && q >= Pow10(37)
    ensures ua * Pow10(t) / ub >= MAX38
  {
    var k := Pow10(t - i);
    Pow10Add(i, t - i);
    Pow10Mono(1, t - i);
    assert Pow10(1) == 10;
    MulAssoc(ua, Pow10(i), k);
    ScaledQuotient(ua * Pow10(i), ub, q, rem, k);
  }

  lemma {:induction false} MulAssoc(a: int, b: int, c: int)
    ensures a * (b * c) == a * b * c
  {
  }

  lemma {:induction false} ScaledQuotient(x: nat, ub: nat, q: nat, rem: nat, k: nat)
    requires ub > 0 && x == q * ub + rem && q >= Pow10(37) && k >= 10
    ensures x * k / ub >= MAX38
  {
    Pow10Values();
    MulMono(10, k, q);
    assert x * k == (q * k) * ub + rem * k by {
      MulAssoc(q, ub, k);
      MulAssoc(q, k, ub);
      assert (q * ub + rem) * k == q * ub * k + rem * k;
    }
    DivAtLeast(x * k, ub, q * k, rem * k);
  }

  lemma {:induction false} DivAtLeast(x: nat, n: nat, q: nat, r: nat)
    requires n > 0 && x == q * n + r
    ensures x / n >= q
  {
    assert x == x / n * n + x % n;
    if x / n < q {
      MulStep(x / n, q, n);
    }
  }

  lemma {:induction false} QuotientSign(l: int, r: int, p: nat)
    requires p > 0 && r != 0
    ensures var num := (if r < 0 then -l else l) * p;
            && Abs(num) == Abs(l) * p && (num == 0 ==> HalfUp(Abs(num), Abs(r)) == 0)
            && (num < 0 ==> (l < 0) != (r < 0)) && ((l < 0) != (r < 0) && num >= 0 ==> num == 0)
  {
    MulSign(if r < 0 then -l else l, p);
  }

  /** The loop of dec_div on magnitudes: digit by digit, giving up once the next digit must be one too many. */
  method LongDivide(ua: nat, ub: nat, t: nat) returns (out: Outcome<nat>)
    requires ub > 0
    ensures var x := ua * Pow10(t); out == if HalfUp(x, ub) >= MAX38 then Raise else Ok(HalfUp(x, ub))
  {
    var gate := MAX38 / 10;
    Pow10Values();
    var q, rem := ua / ub, ua % ub;
    for i := 0 to t
      invariant 0 <= rem < ub && q >= 0 && q * ub + rem == ua * Pow10(i)
    {
      if q >= gate {
        QuotientGrows(ua, ub, q, rem, i, t);
        return Raise;
      }
      LongDivStep(ua, ub, q, rem, Pow10(i));
      q := q * 10 + rem * 10 / ub;
      rem := rem * 10 % ub;
    }
    DivModUnique(ua * Pow10(t), ub, q, rem);
    if rem * 2 >= ub {
      q := q + 1;
    }
    out := if q >= MAX38 then Raise else Ok(q);
  }

  method DecDiv(l: Dec, r: Dec, rs: nat) returns (out: Outcome<int>)
    requires Shift(l, r, rs) >= 0
    ensures out == Quotient(l, r, rs)
  {
    if r.u == 0 {
      return Raise;
    }
    var t := Shift(l, r, rs);
    var neg := (l.u < 0) != (r.u < 0);
    QuotientSign(l.u, r.u, Pow10(t));
    var q := LongDivide(Abs(l.u), Abs(r.u), t);
    if q.Raise? {
      return Raise;
    }
    var out_ : int := q.value;
    out := Ok(if neg then -out_ else out_);
  }

  // ---- dec_cmp ----

  function Sign(x: int): int {
    if x < 0 then -1 else if x > 0 then 1 else 0
  }

  /** The comparison of the rational numbers a.u / 10^a.scale and b.u / 10^b.scale. */
  function Cmp(a: Dec, b: Dec): int {
    Sign(a.u * Pow10(b.scale) - b.u * Pow10(a.scale))
  }

  /** A total preorder. */
  lemma {:induction false} CmpIsPreorder(a: Dec, b: Dec, c: Dec)
    ensures Cmp(a, a) == 0 && Cmp(a, b) == -Cmp(b, a)
    ensures Cmp(a, b) <= 0 && Cmp(b, c) <= 0 ==> Cmp(a, c) <= 0
    ensures Cmp(a, b) <= 0 && Cmp(b, c) < 0 ==> Cmp(a, c) < 0
    ensures Cmp(a, b) < 0 && Cmp(b, c) <= 0 ==> Cmp(a, c) < 0
  {
    var pa, pb, pc := Pow10(a.scale), Pow10(b.scale), Pow10(c.scale);
    var x, y, z := a.u * pb - b.u * pa, b.u * pc - c.u * pb, a.u * pc - c.u * pa;
    Combine(a.u, b.u, c.u, pa, pb, pc);
    MulSign(x, pc);
    MulSign(y, pa);
    MulSign(z, pb);
  }

  lemma {:induction false} Combine(a: int, b: int, c: int, pa: int, pb: int, pc: int)
    ensures (a * pc - c * pa) * pb == (a * pb - b * pa) * pc + (b * pc - c * pb) * pa
  {
    Distribute(a * pc, c * pa, pb);
    Distribute(a * pb, b * pa, pc);
    Distribute(b * pc, c * pb, pa);
    Swap(a, pc, pb);
    Swap(b, pa, pc);
    Swap(c, pa, pb);
  }

  lemma {:induction false} Distribute(a: int, b: int, c: int)
    ensures (a - b) * c == a * c - b * c
  {
  }

  lemma {:induction false} Swap(a: int, b: int, c: int)
    ensures a * b * c == a * c * b
  {
  }

  /** Decimal digits of a magnitude; none for zero. */
  function Digits(u: nat): nat {
    if u == 0 then 0 else 1 + Digits(u / 10)
  }

  lemma {:induction false} DigitsBound(u: nat)
    ensures u < Pow10(Digits(u)) && (u > 0 ==> Digits(u) > 0 && u >= Pow10(Digits(u) - 1))
  {
    if u > 0 {
      DigitsBound(u / 10);
    }
  }

  lemma {:induction false} DigitsAtMost(u: nat, n: nat)
    requires u < Pow10(n)
    ensures Digits(u) <= n
  {
    DigitsBound(u);
    if Digits(u) > n {
      Pow10Mono(n, Digits(u) - 1);
    }
  }

  method DecDigits(u: nat) returns (n: nat)
    ensures n == Digits(u)
  {
    n := 0;
    var t := u;
    while t > 0
      invariant n + Digits(t) == Digits(u)
    {
      t := t / 10;
      n := n + 1;
    }
  }

  lemma {:induction false} ScaledBelow(u: nat, d: nat, s: nat)
    requires u < Pow10(d)
    ensures u * Pow10(s) < Pow10(d + s)
  {
    Pow10Add(d, s);
    MulStrict(u, Pow10(d), Pow10(s));
  }

  lemma {:induction false} ScaledFrom(u: nat, d: nat, s: nat)
    requires u >= Pow10(d)
    ensures u * Pow10(s) >= Pow10(d + s)
  {
    Pow10Add(d, s);
    MulMono(Pow10(d), u, Pow10(s));
  }

  /** A magnitude of a smaller order is smaller. */
  lemma {:induction false} OrderDecides(ua: nat, sa: nat, ub: nat, sb: nat)
    requires ua > 0 && ub > 0 && Digits(ua) - sa < Digits(ub) - sb
    ensures ua * Pow10(sb) < ub * Pow10(sa)
  {
    DigitsBound(ua);
    DigitsBound(ub);
    OrderOfBounds(ua, Digits(ua), sa, ub, Digits(ub), sb);
  }

  lemma {:induction false} OrderOfBounds(ua: nat, da: nat, sa: nat, ub: nat, db: nat, sb: nat)
    requires db > 0 && ua < Pow10(da) && Pow10(db - 1) <= ub && da - sa < db - sb
    ensures ua * Pow10(sb) < ub * Pow10(sa)
  {
    ScaledBelow(ua, da, sb);
    ScaledFrom(ub, db - 1, sa);
    Pow10Mono(da + sb, db - 1 + sa);
  }

  lemma {:induction false} MulStrict(a: nat, b: nat, n: nat)
    requires a < b && n > 0
    ensures a * n < b * n
  {
    MulStep(a, b, n);
  }

  /** Of the same order, scaling the side with fewer fraction digits compares the same, and never needs 39 digits. */
  lemma {:induction false} AlignDecides(ua: nat, sa: nat, ub: nat, sb: nat)
    requires ua > 0 && ub > 0 && sa >= sb && Digits(ua) - sa == Digits(ub) - sb && ua < MAX38
    ensures var mb := ub * Pow10(sa - sb); Sign(ua * Pow10(sb) - ub * Pow10(sa)) == Sign(ua - mb) && mb < MAX38
  {
    var k := Pow10(sa - sb);
    Pow10Values();
    DigitsAtMost(ua, 38);
    DigitsBound(ub);
    Pow10Add(Digits(ub), sa - sb);
    Pow10Mono(Digits(ua), 38);
    MulStrict(ub, Pow10(Digits(ub)), k);
    Pow10Add(sa - sb, sb);
    MulAssoc(ub, k, Pow10(sb));
    Distribute(ua, ub * k, Pow10(sb));
    MulSign(ua - ub * k, Pow10(sb));
  }

  method ScaleUp(u: nat, n: nat) returns (m: nat)
    ensures m == u * Pow10(n)
  {
    m := u;
    for i := 0 to n
      invariant m == u * Pow10(i)
    {
      m := m * 10;
    }
  }

  lemma {:induction false} CmpOfSigns(a: Dec, b: Dec)
    ensures a.u == 0 ==> Cmp(a, b) == -Sign(b.u)
    ensures b.u == 0 ==> Cmp(a, b) == Sign(a.u)
    ensures a.u < 0 < b.u ==> Cmp(a, b) == -1
    ensures b.u < 0 < a.u ==> Cmp(a, b) == 1
    ensures a.u > 0 && b.u > 0 ==> Cmp(a, b) == Sign(Abs(a.u) * Pow10(b.scale) - Abs(b.u) * Pow10(a.scale))
    ensures a.u < 0 && b.u < 0 ==> Cmp(a, b) == -Sign(Abs(a.u) * Pow10(b.scale) - Abs(b.u) * Pow10(a.scale))
  {
    MulSign(a.u, Pow10(b.scale));
    MulSign(b.u, Pow10(a.scale));
  }

  method DecCmp(a: Dec, b: Dec) returns (c: int)
    requires a.Ok() && b.Ok()
    ensures c == Cmp(a, b)
  {
    CmpOfSigns(a, b);
    var an, bn, az, bz := a.u < 0, b.u < 0, a.u == 0, b.u == 0;
    if az || bz {
      return if az && bz then 0 else if az then (if bn then 1 else -1) else if an then -1 else 1;
    }
    if an != bn {
      return if an then -1 else 1;
    }
    var ua, ub := Abs(a.u), Abs(b.u);
    var da := DecDigits(ua);
    var db := DecDigits(ub);
    var ea, eb := da - a.scale, db - b.scale;
    if ea != eb {
      if ea < eb {
        OrderDecides(ua, a.scale, ub, b.scale);
      } else {
        OrderDecides(ub, b.scale, ua, a.scale);
      }
      var smaller := ea < eb;
      return if (if an then !smaller else smaller) then -1 else 1;
    }
    var ma, mb := ua, ub;
    if a.scale > b.scale {
      AlignDecides(ua, a.scale, ub, b.scale);
      mb := ScaleUp(ub, a.scale - b.scale);
    } else {
      AlignDecides(ub, b.scale, ua, a.scale);
      ma := ScaleUp(ua, b.scale - a.scale);
    }
    assert ma < MAX38 && mb < MAX38;
    if ma == mb {
      return 0;
    }
    var smaller := ma < mb;
    return if (if an then !smaller else smaller) then -1 else 1;
  }

  // ---- dec_arith ----

  function Calc(op: char, l: Dec, r: Dec, rs: nat): Outcome<int>
    requires l.scale <= 255 && r.scale <= 255 && ResultScale(op, l, r) == Ok(rs)
  {
    if op == '/' || !(op == '+' || op == '-' || op == '*') then Quotient(l, r, rs)
    else if op == '*' then Fits(l.u * r.u)
    else
      var lu, ru := Align(l.u, l.scale, rs), Align(r.u, r.scale, rs);
      if lu.Raise? || ru.Raise? then Raise
      else Fits(if op == '+' then lu.value + ru.value else lu.value - ru.value)
  }

  function Fits(u: int): Outcome<int> {
    if Abs(u) >= MAX38 then Raise else Ok(u)
  }

  /** Arithmetic on decimals: result scale, then value. */
  function Arithmetic(op: char, l: Dec, r: Dec): Outcome<Dec>
    requires l.scale <= 255 && r.scale <= 255
  {
    var rs := ResultScale(op, l, r);
    if rs.Raise? then Raise
    else
      var u := Calc(op, l, r, rs.value);
      if u.Raise? then Raise else Ok(Dec(u.value, rs.value))
  }

  lemma {:induction false} ArithmeticOk(op: char, l: Dec, r: Dec)
    requires l.Ok() && r.Ok() && Arithmetic(op, l, r).Ok?
    ensures Arithmetic(op, l, r).value.Ok()
  {
  }

  /** Sum, difference and product are exact, and every result is again a decimal of 38 digits. */
  lemma {:induction false} ArithmeticExact(op: char, l: Dec, r: Dec)
    requires l.Ok() && r.Ok() && op in "+-*/" && Arithmetic(op, l, r).Ok?
    ensures Arithmetic(op, l, r).value.Ok()
    ensures var d, pl, pr := Arithmetic(op, l, r).value, Pow10(l.scale), Pow10(r.scale);
            && (op == '+' ==> d.u * pl * pr == (l.u * pr + r.u * pl) * Pow10(d.scale))
            && (op == '-' ==> d.u * pl * pr == (l.u * pr - r.u * pl) * Pow10(d.scale))
            && (op == '*' ==> d.u == l.u * r.u && Pow10(d.scale) == pl * pr)
  {
    var d := Arithmetic(op, l, r).value;
    if op == '*' {
      Pow10Add(l.scale, r.scale);
    } else if op != '/' {
      SumExact(l.u, l.scale, d.scale, Pow10(r.scale));
      SumExact(r.u, r.scale, d.scale, Pow10(l.scale));
      var lu, ru := l.u * Pow10(d.scale - l.scale), r.u * Pow10(d.scale - r.scale);
      var s := if op == '+' then 1 else -1;
      SumOfProducts(lu, ru, s, Pow10(l.scale), Pow10(r.scale), Pow10(d.scale), l.u, r.u);
    }
  }

  lemma {:induction false} SumExact(u: int, from: nat, to: nat, p: nat)
    requires from <= to
    ensures u * Pow10(to - from) * Pow10(from) * p == u * p * Pow10(to)
  {
    Pow10Add(to - from, from);
    MulAssoc(u, Pow10(to - from), Pow10(from));
    Swap(u, Pow10(to), p);
  }

  lemma {:induction false} SumOfProducts(lu: int, ru: int, s: int, pl: int, pr: int, pd: int, l: int, r: int)
    requires lu * pl * pr == l * pr * pd && ru * pr * pl == r * pl * pd && (s == 1 || s == -1)
    ensures (lu + s * ru) * pl * pr == (l * pr + s * (r * pl)) * pd
  {
    Swap(ru, pl, pr);
    if s == 1 {
      assert (lu + ru) * pl * pr == lu * pl * pr + ru * pl * pr;
      assert (l * pr + r * pl) * pd == l * pr * pd + r * pl * pd;
    } else {
      assert (lu - ru) * pl * pr == lu * pl * pr - ru * pl * pr;
      assert (l * pr - r * pl) * pd == l * pr * pd - r * pl * pd;
    }
  }

  // ---- round, floor, ceil, mod ----

  /** Ten or more times too small to round to anything but zero. */
  lemma {:induction false} RoundsToZero(ua: nat, n: nat)
    requires ua < MAX38 && n >= 39
    ensures HalfUp(ua, Pow10(n)) == 0 && ua < Pow10(n)
  {
    Pow10Values();
    Pow10Mono(38, n);
    DivModUnique(ua, Pow10(n), 0, ua);
  }

  /** Rounding to n fraction digits, n possibly negative; the original value when it has no more than n. */
  function Round(d: Dec, n: int): Outcome<Dec> {
    if n >= d.scale then Ok(d)
    else
      var q := HalfUp(Abs(d.u), Pow10(d.scale - n)) * (if n < 0 then Pow10(-n) else 1);
      if q >= MAX38 then Raise else Ok(Dec(if d.u < 0 then 0 - q else q, if n < 0 then 0 else n))
  }

  /** Rounding picks the nearest multiple of 10^-n, halves away from zero. */
  lemma {:induction false} RoundIsRounding(d: Dec, n: int)
    requires n < d.scale && Round(d, n).Ok?
    ensures Round(d, n).value.Ok() || d.scale > 255
    ensures Round(d, n).value.u == RoundHalfAway(d.u, Pow10(d.scale - n)) * if n < 0 then Pow10(-n) else 1
  {
    var q: int, k: int := HalfUp(Abs(d.u), Pow10(d.scale - n)), if n < 0 then Pow10(-n) else 1;
    assert (0 - q) * k == 0 - q * k;
  }

  /** Quotient by a power of ten, one more when the remainder is at least half. */
  method DivideHalfUp(ua: nat, n: nat) returns (q: nat)
    ensures q == HalfUp(ua, Pow10(n))
  {
    var p := ScaleUp(1, n);
    q := HalfUp(ua, p);
  }

  method RoundDec(d: Dec, n: int) returns (r: Outcome<Dec>)
    requires d.Ok()
    ensures r == Round(d, n)
  {
    if n >= d.scale {
      return Ok(d);
    }
    var ua := Abs(d.u);
    var shift := d.scale - n;
    var q: int := 0;
    if shift < 39 {
      q := DivideHalfUp(ua, shift);
      if n < 0 {
        q := ScaleUp(q, -n);
      }
    } else {
      RoundsToZero(ua, shift);
    }
    if q >= MAX38 {
      return Raise;
    }
    r := Ok(Dec(if d.u < 0 then -q else q, if n < 0 then 0 else n));
  }

  /** Floor, or ceiling: the integer part in the mathematical sense. */
  function Floor(d: Dec, up: bool): int {
    if up then -(-d.u / Pow10(d.scale)) else d.u / Pow10(d.scale)
  }

  /** floor(d) is the largest integer not above d, ceil(d) the smallest one not below. */
  lemma {:induction false} FloorIsFloor(d: Dec, k: int)
    ensures k <= Floor(d, false) <==> k * Pow10(d.scale) <= d.u
    ensures k >= Floor(d, true) <==> k * Pow10(d.scale) >= d.u
  {
    FloorOf(d.u, Pow10(d.scale), k);
    FloorOf(-d.u, Pow10(d.scale), -k);
    assert -k * Pow10(d.scale) == -(k * Pow10(d.scale));
  }

  lemma {:induction false} FloorOf(x: int, p: nat, k: int)
    requires p > 0
    ensures k <= x / p <==> k * p <= x
  {
    var q := x / p;
    assert x == q * p + x % p;
    if k <= q {
      MulLe(k, q, p);
    } else {
      MulLe(q + 1, k, p);
      assert (q + 1) * p == q * p + p;
    }
  }

  method TruncDec(d: Dec, up: bool) returns (r: Dec)
    requires d.Ok()
    ensures r == Dec(Floor(d, up), 0)
  {
    if d.scale == 0 {
      return Dec(d.u, 0);
    }
    var neg := d.u < 0;
    if d.scale >= 39 {
      RoundsToZero(Abs(d.u), d.scale);
      SmallFloor(d.u, Pow10(d.scale));
      SmallFloor(-d.u, Pow10(d.scale));
      return Dec(if d.u == 0 then 0 else if up then (if neg then 0 else 1) else if neg then -1 else 0, 0);
    }
    var p := ScaleUp(1, d.scale);
    var ua: int := Abs(d.u);
    var q: int := ua / p;
    NegDiv(ua, p);
    if ua % p != 0 && up != neg {
      q := q + 1;
    }
    r := Dec(if neg then -q else q, 0);
  }

  lemma {:induction false} SmallFloor(x: int, p: nat)
    requires Abs(x) < p
    ensures x / p == if x < 0 then -1 else 0
  {
    DivModUnique(x, p, if x < 0 then -1 else 0, if x < 0 then x + p else x);
  }

  /** Flooring division of a negated magnitude. */
  lemma {:induction false} NegDiv(a: int, p: int)
    requires p > 0 && a >= 0
    ensures -a / p == -(a / p) - if a % p != 0 then 1 else 0
  {
    var q, m := a / p, a % p;
    if m == 0 {
      DivModUnique(-a, p, -q, 0);
    } else {
      assert (-q - 1) * p == -(q * p) - p;
      DivModUnique(-a, p, -q - 1, p - m);
    }
  }

  /** C++ remainder: the sign of the dividend. */
  function TruncMod(a: int, b: int): int
    requires b != 0
  {
    var m: int := Abs(a) % Abs(b);
    if a < 0 then -m else m
  }

  function Mod(l: Dec, r: Dec): Outcome<Dec> {
    var s := Max(l.scale, r.scale);
    if r.u == 0 then Raise
    else
      var lu, ru := Align(l.u, l.scale, s), Align(r.u, r.scale, s);
      if lu.Raise? || ru.Raise? then Raise
      else if ru.value == 0 then Raise
      else Ok(Dec(TruncMod(lu.value, ru.value), s))
  }

  /** mod(l, r) is l minus a whole number of r, smaller than r, with the sign of l. */
  lemma {:induction false} ModIsRemainder(l: Dec, r: Dec)
    requires l.Ok() && r.Ok() && Mod(l, r).Ok?
    ensures var m, s := Mod(l, r).value, Max(l.scale, r.scale);
            var lu, ru := l.u * Pow10(s - l.scale), r.u * Pow10(s - r.scale);
            && m.scale == s && m.Ok() && Abs(m.u) < Abs(ru) && (m.u != 0 ==> (m.u < 0 <==> l.u < 0))
            && exists q :: lu == q * ru + m.u
  {
    var m, s := Mod(l, r).value, Max(l.scale, r.scale);
    var lu, ru := l.u * Pow10(s - l.scale), r.u * Pow10(s - r.scale);
    MulSign(l.u, Pow10(s - l.scale));
    MulSign(r.u, Pow10(s - r.scale));
    var q := RemainderOf(lu, ru);
    assert lu == q * ru + m.u;
  }

  lemma {:induction false} RemainderOf(a: int, b: int) returns (q: int)
    requires b != 0
    ensures a == q * b + TruncMod(a, b)
  {
    var x: int, y: int := Abs(a), Abs(b);
    var q0, m := x / y, x % y;
    assert x == q0 * y + m;
    q := if (a < 0) == (b < 0) then q0 else -q0;
    assert (-q0) * b == -(q0 * b) && q0 * (-b) == -(q0 * b);
  }

  // ---- conversions ----

  const I64_MAX: int := 0x7FFF_FFFF_FFFF_FFFF

  /** numeric to integer: rounded half away from zero; magnitudes above 2^63 - 1 are refused, so -2^63 is. */
  function RoundI64(d: Dec): Outcome<int> {
    var q := RoundHalfAway(d.u, Pow10(d.scale));
    if Abs(q) > I64_MAX then Raise else Ok(q)
  }

  method DecRoundI64(d: Dec) returns (r: Outcome<int>)
    requires d.Ok()
    ensures r == RoundI64(d)
  {
    var mag := Abs(d.u);
    if d.scale >= 39 {
      RoundsToZero(mag, d.scale);
      return Ok(0);
    }
    var q: int := DivideHalfUp(mag, d.scale);
    r := if q > I64_MAX then Raise else Ok(if d.u < 0 then -q else q);
  }

  /** C++ quotient: truncated towards zero. */
  function TruncDiv(a: int, b: nat): int
    requires b > 0
  {
    var q: int := Abs(a) / b;
    if a < 0 then -q else q
  }

  /** The rounding of coerce_numeric: the sign is taken from the quotient. */
  function CoerceRound(u: int, p: nat): int
    requires p > 0
  {
    var q := TruncDiv(u, p);
    if Abs(TruncMod(u, p)) * 2 >= p then (if q < 0 then q - 1 else q + 1) else q
  }

  /** A negative value of which nothing but a fraction of a half or more is left. */
  predicate LosesSign(u: int, p: nat) {
    u < 0 && Abs(u) < p <= 2 * Abs(u)
  }

  /** The rounding is half away from zero for every value but those: their quotient is zero, which has no sign. */
  lemma {:induction false} CoerceRoundsUnless(u: int, p: nat)
    requires p > 0
    ensures CoerceRound(u, p) == RoundHalfAway(u, p) <==> !LosesSign(u, p)
    ensures LosesSign(u, p) ==> CoerceRound(u, p) == 1 && RoundHalfAway(u, p) == -1
  {
    var a: int := Abs(u);
    assert a == a / p * p + a % p;
    if LosesSign(u, p) {
      DivModUnique(a, p, 0, a);
    } else if u < 0 && a / p == 0 {
      assert a % p == a;
    }
  }

  /** -0.5 as numeric(1, 0) becomes 1. */
  lemma {:induction false} MinusHalfBecomesOne()
    ensures Coerce(Dec(-5, 1), 1, 0) == Ok(Dec(1, 0)) && RoundHalfAway(-5, Pow10(1)) == -1
  {
    assert Pow10(1) == 10 && CoerceRound(-5, 10) == 1;
    assert Digits(1) == 1 + Digits(0);
  }

  /** The value of a numeric column or cast with the given precision (0: any) and scale. */
  function Coerce(d: Dec, precision: nat, scale: nat): Outcome<Dec> {
    var u := if d.scale > scale then Ok(CoerceRound(d.u, Pow10(d.scale - scale))) else Align(d.u, d.scale, scale);
    if u.Raise? || (precision > 0 && Digits(Abs(u.value)) > precision) then Raise else Ok(Dec(u.value, scale))
  }

  /** Exactly when the sign is not lost, coercing is rounding (or exact scaling), then the precision test. */
  lemma {:induction false} CoerceIsRounding(d: Dec, precision: nat, scale: nat)
    requires d.Ok()
    ensures var exact := if d.scale > scale then Ok(RoundHalfAway(d.u, Pow10(d.scale - scale))) else Align(d.u, d.scale, scale);
            var want := if exact.Raise? || (precision > 0 && Digits(Abs(exact.value)) > precision) then Raise
                        else Ok(Dec(exact.value, scale));
            Coerce(d, precision, scale) == want <==> !(d.scale > scale && LosesSign(d.u, Pow10(d.scale - scale)))
  {
    if d.scale > scale {
      var p := Pow10(d.scale - scale);
      CoerceRoundsUnless(d.u, p);
      assert Digits(1) == 1 + Digits(0);
    }
  }

  /** What is coerced has again at most 38 digits. */
  lemma {:induction false} CoerceOk(d: Dec, precision: nat, scale: nat)
    requires d.Ok() && scale <= 255 && Coerce(d, precision, scale).Ok?
    ensures Coerce(d, precision, scale).value.Ok()
  {
    if d.scale > scale {
      Pow10Mono(1, d.scale - scale);
      assert Pow10(1) == 10;
      RoundedBelow(d.u, Pow10(d.scale - scale));
    }
  }

  lemma {:induction false} RoundedBelow(u: int, p: nat)
    requires p >= 10 && Abs(u) < MAX38
    ensures Abs(CoerceRound(u, p)) < MAX38
  {
    TruncDivAtMost(u, p);
    var q := TruncDiv(u, p);
    assert Abs(CoerceRound(u, p)) <= Abs(q) + 1;
  }

  lemma {:induction false} TruncDivAtMost(u: int, p: nat)
    requires p >= 10
    ensures 10 * Abs(TruncDiv(u, p)) <= Abs(u)
  {
    var a: nat := Abs(u);
    MulMono(10, p, a / p);
    assert a == a / p * p + a % p;
  }

  method CoerceNumeric(d: Dec, precision: nat, scale: nat) returns (r: Outcome<Dec>)
    requires d.Ok() && scale <= 255
    ensures r == Coerce(d, precision, scale)
  {
    var u := d.u;
    if d.scale > scale {
      var p := ScaleUp(1, d.scale - scale);
      var rem := TruncMod(u, p);
      u := TruncDiv(u, p);
      if Abs(rem) * 2 >= p {
        u := u + if u < 0 then -1 else 1;
      }
    } else {
      var a := DecAlign(u, d.scale, scale);
      if a.Raise? {
        return Raise;
      }
      u := a.value;
    }
    if precision > 0 {
      var digits := DecDigits(Abs(u));
      if digits > precision {
        return Raise;
      }
    }
    r := Ok(Dec(u, scale));
  }
}
