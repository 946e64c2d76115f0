/** What decimal arithmetic computes and when it raises, on the fractions u / 10^scale (src/expr/expr_eval.cpp,
    src/expr/expr_func_math.cpp, src/storage/cast.cpp). */
module DecimalLaws {
  import opened Arith
  import opened Decimal

  /** The integer nearest to n / m; of two equally near ones the one farther from zero. */
  predicate Nearest(q: int, n: int, m: int) {
    && -m <= 2 * (q * m - n) <= m
    && (2 * (q * m - n) == m ==> n > 0) && (2 * (q * m - n) == -m ==> n < 0)
  }

  lemma {:induction false} NearestIs(q: int, n: int, m: int)
    requires m > 0
    ensures Nearest(q, n, m) <==> q == RoundHalfAway(n, m)
  {
    RoundIsNearest(n, m, q);
  }

  /** Expanding the fraction does not change what is nearest. */
  lemma {:induction false} NearestScaled(q: int, n: int, m: int, k: int)
    requires m > 0 && k > 0
    ensures Nearest(q, n * k, m * k) <==> Nearest(q, n, m)
  {
    var d := 2 * (q * m - n);
    assert 2 * (q * (m * k) - n * k) == d * k by {
      MulAssoc(q, m, k);
      Distribute(q * m, n, k);
    }
    SameSide(d, m, k);
    SameSide(d, -m, k);
    SameSide(n, 0, k);
    assert -m * k == -(m * k);
  }

  lemma {:induction false} Distribute(a: int, b: int, k: int)
    ensures 2 * (a * k - b * k) == 2 * (a - b) * k
  {
  }

  lemma {:induction false} SameSide(a: int, b: int, k: int)
    requires k > 0
    ensures (a * k < b * k <==> a < b) && (a * k == b * k <==> a == b)
  {
    if a < b {
      MulStep(a, b, k);
    } else if b < a {
      MulStep(b, a, k);
    }
  }

  // ---- division ----

  /** The scale of a quotient: four digits more than the longer operand, at most 255. */
  function QuotientScale(l: Dec, r: Dec): nat {
    if Max(l.scale, r.scale) + 4 < 255 then Max(l.scale, r.scale) + 4 else 255
  }

  /** Numerator and denominator of l / r at that scale, the sign moved to the numerator. */
  function QuotientTop(l: Dec, r: Dec): int {
    (if r.u < 0 then -l.u else l.u) * Pow10(QuotientScale(l, r) + r.scale)
  }

  function QuotientBottom(l: Dec, r: Dec): nat {
    Abs(r.u) * Pow10(l.scale)
  }

  /** Division gives the nearest decimal at the result scale, halves away from zero; it raises exactly for a zero divisor
      and where that decimal has 39 digits. */
  lemma {:induction false} DivisionIs(l: Dec, r: Dec, q: int)
    requires l.Ok() && r.Ok()
    ensures var x, n, m := Arithmetic('/', l, r), QuotientTop(l, r), QuotientBottom(l, r);
            && (r.u == 0 ==> x.Raise?)
            && (r.u != 0 ==> m > 0 && Nearest(RoundHalfAway(n, m), n, m))
            && (r.u != 0 && Nearest(q, n, m) ==> x == if -MAX38 < q < MAX38 then Ok(Dec(q, QuotientScale(l, r))) else Raise)
  {
    if r.u != 0 {
      var s, p, k := QuotientScale(l, r), Abs(r.u), Pow10(l.scale);
      ShiftNotNegative(l, r);
      var t := s + r.scale - l.scale;
      var top: int := if r.u < 0 then -l.u else l.u;
      assert QuotientTop(l, r) == top * Pow10(t) * k by {
        Pow10Add(t, l.scale);
        MulAssoc(top, Pow10(t), k);
      }
      MulSign(p, k);
      NearestScaled(q, top * Pow10(t), p, k);
      NearestIs(q, top * Pow10(t), p);
      NearestIs(RoundHalfAway(QuotientTop(l, r), QuotientBottom(l, r)), QuotientTop(l, r), QuotientBottom(l, r));
    }
  }

  // ---- sum, difference, product ----

  /** u / 10^from at a scale that is not smaller. */
  function Scaled(u: int, from: nat, to: nat): int
    requires from <= to
  {
    u * Pow10(to - from)
  }

  /** A number that has to be scaled up must keep to 38 digits. */
  predicate Alignable(u: int, from: nat, to: nat)
    requires from <= to
  {
    from == to || -MAX38 < Scaled(u, from, to) < MAX38
  }

  /** Sums and differences are exact at the larger scale; they raise exactly where an aligned operand or the result has
      39 digits. */
  lemma {:induction false} SumIs(op: char, l: Dec, r: Dec)
    requires l.Ok() && r.Ok() && (op == '+' || op == '-')
    ensures var s: nat := if l.scale < r.scale then r.scale else l.scale;
            var lu, ru := Scaled(l.u, l.scale, s), Scaled(r.u, r.scale, s);
            var u := if op == '+' then lu + ru else lu - ru;
            Arithmetic(op, l, r) ==
            if Alignable(l.u, l.scale, s) && Alignable(r.u, r.scale, s) && -MAX38 < u < MAX38 then Ok(Dec(u, s)) else Raise
  {
  }

  /** Products are exact; they raise exactly where the scale exceeds 255 or the result has 39 digits. */
  lemma {:induction false} ProductIs(l: Dec, r: Dec)
    requires l.Ok() && r.Ok()
    ensures var u, s := l.u * r.u, l.scale + r.scale;
            Arithmetic('*', l, r) == if s <= 255 && -MAX38 < u < MAX38 then Ok(Dec(u, s)) else Raise
  {
  }

  // ---- functions ----

  /** Rounding to n fraction digits: unchanged if there are no more, else the nearest multiple of 10^-n, with n digits or
      none; it raises exactly where that has 39 digits. */
  lemma {:induction false} RoundIs(d: Dec, n: int, q: int)
    requires d.Ok()
    ensures n >= d.scale ==> Round(d, n) == Ok(d)
    ensures n < d.scale && Nearest(q, d.u, Pow10(d.scale - n)) ==>
              var u := q * if n < 0 then Pow10(-n) else 1;
              Round(d, n) == if -MAX38 < u < MAX38 then Ok(Dec(u, if n < 0 then 0 else n)) else Raise
    ensures n < d.scale ==> Nearest(RoundHalfAway(d.u, Pow10(d.scale - n)), d.u, Pow10(d.scale - n))
  {
    if n < d.scale {
      var p := Pow10(d.scale - n);
      NearestIs(q, d.u, p);
      NearestIs(RoundHalfAway(d.u, p), d.u, p);
      if Nearest(q, d.u, p) {
        var h: int, k: int := HalfUp(Abs(d.u), p), if n < 0 then Pow10(-n) else 1;
        assert (0 - h) * k == 0 - h * k;
        MulLe(0, h, k);
      }
    }
  }

  /** A remainder exists exactly where the divisor is not zero and both operands can be aligned. */
  lemma {:induction false} ModExists(l: Dec, r: Dec)
    requires l.Ok() && r.Ok()
    ensures var s: nat := if l.scale < r.scale then r.scale else l.scale;
            Mod(l, r).Ok? <==> r.u != 0 && Alignable(l.u, l.scale, s) && Alignable(r.u, r.scale, s)
  {
    MulSign(r.u, Pow10((if l.scale < r.scale then r.scale else l.scale) - r.scale));
  }

  /** A decimal as an integer: the nearest one, refused outside the symmetric 64-bit range. */
  lemma {:induction false} RoundI64Is(d: Dec, q: int)
    requires d.Ok() && Nearest(q, d.u, Pow10(d.scale))
    ensures RoundI64(d) == if -0x8000_0000_0000_0000 < q < 0x8000_0000_0000_0000 then Ok(q) else Raise
  {
    NearestIs(q, d.u, Pow10(d.scale));
  }

  // ---- coercion ----

  /** A number that keeps to the digits of a column; 0 stands for no limit. */
  predicate Within(u: int, precision: nat) {
    precision == 0 || 0 - Pow10(precision) < u < Pow10(precision)
  }

  lemma {:induction false} WithinDigits(u: int, precision: nat)
    requires precision > 0
    ensures Digits(Abs(u)) <= precision <==> Within(u, precision)
  {
    var n := Digits(Abs(u));
    DigitsBound(Abs(u));
    if n <= precision {
      Pow10Mono(n, precision);
    } else {
      Pow10Mono(precision, n - 1);
    }
  }

  /** What a column of the precision and scale holds of a number: the number itself with zeros added, or the nearest one
      at the scale. The numbers whose sign the rounding loses become 1 instead of -1, the last digit being the unit. */
  lemma {:induction false} CoerceIs(d: Dec, precision: nat, scale: nat, q: int)
    requires d.Ok()
    ensures d.scale <= scale && q == Scaled(d.u, d.scale, scale) ==>
              Coerce(d, precision, scale) ==
              if Alignable(d.u, d.scale, scale) && Within(q, precision) then Ok(Dec(q, scale)) else Raise
    ensures d.scale > scale && Nearest(q, d.u, Pow10(d.scale - scale)) ==>
              var u := if q == -1 && d.u + Pow10(d.scale - scale) > 0 then 1 else q;
              Coerce(d, precision, scale) == if Within(u, precision) then Ok(Dec(u, scale)) else Raise
  {
    if d.scale > scale {
      if Nearest(q, d.u, Pow10(d.scale - scale)) {
        CoercedTo(d, precision, scale, q, Pow10(d.scale - scale));
      }
    } else {
      if precision > 0 {
        WithinDigits(Scaled(d.u, d.scale, scale), precision);
      }
    }
  }

  lemma {:induction false} CoercedTo(d: Dec, precision: nat, scale: nat, q: int, p: int)
    requires d.scale > scale && p == Pow10(d.scale - scale) && Nearest(q, d.u, p)
    ensures var u := if q == -1 && d.u + p > 0 then 1 else q;
            Coerce(d, precision, scale) == if Within(u, precision) then Ok(Dec(u, scale)) else Raise
  {
    NearestIs(q, d.u, p);
    CoerceRoundsUnless(d.u, p);
    if precision > 0 {
      WithinDigits(CoerceRound(d.u, p), precision);
    }
    LostSign(d.u, p);
    NearestIs(-1, d.u, p);
  }

  lemma {:induction false} LostSign(u: int, p: int)
    requires p > 0
    ensures LosesSign(u, p) <==> Nearest(-1, u, p) && u + p > 0
  {
  }
}
