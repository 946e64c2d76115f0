/** The text form of decimals (src/storage/cast.cpp): writing and reading back is the identity. */
module DecimalText {
  import opened Decimal

  predicate IsDigit(c: char) {
    '0' <= c <= '9'
  }

  function DigitOf(c: char): (d: nat)
    requires IsDigit(c)
    ensures d < 10
  {
    c as int - '0' as int
  }

  function CharOf(d: nat): (c: char)
    requires d < 10
    ensures IsDigit(c) && DigitOf(c) == d
  {
    ('0' as int + d) as char
  }

  predicate AllDigits(s: string) {
    forall i :: 0 <= i < |s| ==> IsDigit(s[i])
  }

  /** Decimal digits without leading zeros; no digit at all for zero. */
  function Numeral(u: nat): (s: string)
    ensures AllDigits(s)
  {
    if u == 0 then "" else Numeral(u / 10) + [CharOf(u % 10)]
  }

  function DigitText(u: nat): (s: string)
    ensures AllDigits(s) && |s| > 0
  {
    if u == 0 then "0" else Numeral(u)
  }

  function Zeros(n: nat): (s: string)
    ensures |s| == n && AllDigits(s)
  {
    seq(n, _ => '0')
  }

  /** The digits, with enough zeros in front to have one before the point. */
  function Padded(u: nat, scale: nat): (s: string)
    ensures AllDigits(s) && |s| > scale
  {
    var digits := DigitText(u);
    if |digits| <= scale then Zeros(scale - |digits| + 1) + digits else digits
  }

  /** decimal_to_text: fixed point, trailing zeros kept. */
  function ToText(d: Dec): string {
    var sign, digits := if d.u < 0 then "-" else "", Padded(Abs(d.u), d.scale);
    if d.scale == 0 then sign + digits
    else sign + digits[..|digits| - d.scale] + "." + digits[|digits| - d.scale..]
  }

  // ---- reading ----

  /** The number digits stand for, after those already read. */
  function Number(u: nat, s: string): nat
    requires AllDigits(s)
    decreases s
  {
    if s == "" then u else Number(u * 10 + DigitOf(s[0]), s[1..])
  }

  /** Read digits from position i on; the position after them and the number. */
  function Scan(s: string, i: nat, u: nat): (r: Outcome<(nat, nat)>)
    requires i <= |s|
    ensures r.Ok? ==> i <= r.value.0 <= |s| && (u < MAX38 ==> r.value.1 < MAX38)
    decreases |s| - i
  {
    if i < |s| && IsDigit(s[i]) then
      var u' := u * 10 + DigitOf(s[i]);
      if u' >= MAX38 then Raise else Scan(s, i + 1, u')
    else Ok((i, u))
  }

  function SkipSign(s: string, i: nat): (r: (nat, bool))
    requires i <= |s|
    ensures i <= r.0 <= |s|
  {
    if i < |s| && (s[i] == '+' || s[i] == '-') then (i + 1, s[i] == '-') else (i, false)
  }

  /** Digits of an exponent, which must stay below 1001. */
  function ScanExp(s: string, i: nat, e: nat): (r: Outcome<(nat, nat)>)
    requires i <= |s|
    ensures r.Ok? ==> i <= r.value.0 <= |s|
    decreases |s| - i
  {
    if i < |s| && IsDigit(s[i]) then
      var e' := e * 10 + DigitOf(s[i]);
      if e' > 1000 then Raise else ScanExp(s, i + 1, e')
    else Ok((i, e))
  }

  /** The exponent part, if there is one. */
  function Exponent(s: string, i: nat): (r: Outcome<(nat, int)>)
    requires i <= |s|
    ensures r.Ok? ==> i <= r.value.0 <= |s|
  {
    if i < |s| && (s[i] == 'e' || s[i] == 'E') then
      var (j, neg) := SkipSign(s, i + 1);
      var e := ScanExp(s, j, 0);
      if e.Raise? || e.value.0 == j then Raise
      else
        var x: int := e.value.1;
        Ok((e.value.0, if neg then -x else x))
    else Ok((i, 0))
  }

  /** The number with its scale, after the exponent has moved the point. */
  function Placed(neg: bool, u: nat, scale: int): Outcome<Dec> {
    var v: int := if scale < 0 then u * Pow10(-scale) else u;
    if scale < 0 && v >= MAX38 then Raise
    else if scale > 255 then Raise
    else Ok(Dec(if neg then -v else v, if scale < 0 then 0 else scale))
  }

  /** parse_decimal_text: sign, digits, point and digits, exponent; nothing may be left over. */
  function Parse(s: string): Outcome<Dec> {
    var (i, neg) := SkipSign(s, 0);
    var whole := Scan(s, i, 0);
    if whole.Raise? then Raise
    else
      var (j, u) := whole.value;
      var dot := j < |s| && s[j] == '.';
      var frac := if dot then Scan(s, j + 1, u) else Ok((j, u));
      if frac.Raise? then Raise
      else
        var (k, w) := frac.value;
        var scale := if dot then k - j - 1 else 0;
        if j == i && scale == 0 then Raise
        else
          var e := Exponent(s, k);
          if e.Raise? || e.value.0 != |s| then Raise else Placed(neg, w, scale - e.value.1)
  }

  /** What is read has 38 digits and a scale that fits a byte. */
  lemma {:induction false} ParsedOk(s: string)
    requires Parse(s).Ok?
    ensures Parse(s).value.Ok()
  {
  }

  // ---- round trip ----

  lemma {:induction false} NumberGrows(u: nat, s: string)
    requires AllDigits(s)
    ensures Number(u, s) >= u
    decreases s
  {
    if s != "" {
      NumberGrows(u * 10 + DigitOf(s[0]), s[1..]);
    }
  }

  lemma {:induction false} NumberConcat(u: nat, a: string, b: string)
    requires AllDigits(a) && AllDigits(b)
    ensures AllDigits(a + b) && Number(u, a + b) == Number(Number(u, a), b)
    decreases a
  {
    if a == "" {
      assert a + b == b;
    } else {
      assert (a + b)[1..] == a[1..] + b;
      NumberConcat(u * 10 + DigitOf(a[0]), a[1..], b);
    }
  }

  lemma {:induction false} NumeralValue(u: nat)
    ensures Number(0, Numeral(u)) == u
  {
    if u > 0 {
      var last := [CharOf(u % 10)];
      NumeralValue(u / 10);
      NumberConcat(0, Numeral(u / 10), last);
      assert Number(u / 10, last) == Number(u / 10 * 10 + u % 10, last[1..]);
    }
  }

  lemma {:induction false} ZerosValue(n: nat)
    ensures Number(0, Zeros(n)) == 0
  {
    if n > 0 {
      assert Zeros(n)[1..] == Zeros(n - 1);
      ZerosValue(n - 1);
    }
  }

  lemma {:induction false} PaddedValue(u: nat, scale: nat)
    ensures Number(0, Padded(u, scale)) == u
  {
    var digits := DigitText(u);
    assert Number(0, digits) == u by {
      if u == 0 {
        assert Number(0, "0") == Number(0, "0"[1..]);
      } else {
        NumeralValue(u);
      }
    }
    if |digits| <= scale {
      ZerosValue(scale - |digits| + 1);
      NumberConcat(0, Zeros(scale - |digits| + 1), digits);
    }
  }

  /** Scanning stops at the end of a run of digits with the number they stand for. */
  lemma {:induction false} ScanRun(s: string, i: nat, j: nat, u: nat)
    requires i <= j <= |s| && AllDigits(s[i..j]) && (j < |s| ==> !IsDigit(s[j])) && Number(u, s[i..j]) < MAX38
    ensures Scan(s, i, u) == Ok((j, Number(u, s[i..j])))
    decreases j - i
  {
    if i < j {
      var run := s[i..j];
      assert run[0] == s[i] && run[1..] == s[i + 1..j];
      NumberGrows(u * 10 + DigitOf(s[i]), run[1..]);
      ScanRun(s, i + 1, j, u * 10 + DigitOf(s[i]));
    } else {
      assert s[i..j] == "";
    }
  }

  /** Text of the form sign, digits, point, digits is read as the number the digits stand for. */
  lemma {:induction false} ParsePlain(s: string, neg: bool, whole: string, frac: string)
    requires AllDigits(whole) && AllDigits(frac) && whole != "" && 0 < |frac| <= 255 && Number(0, whole + frac) < MAX38
    requires s == (if neg then "-" else "") + whole + "." + frac
    ensures var u: int := Number(0, whole + frac); Parse(s) == Ok(Dec(if neg then -u else u, |frac|))
  {
    var i, w := if neg then 1 else 0, |whole|;
    assert s[i..i + w] == whole && s[i + w] == '.' && s[i + w + 1..|s|] == frac;
    assert SkipSign(s, 0) == (i, neg) by {
      assert !neg ==> s[0] == whole[0];
    }
    NumberConcat(0, whole, frac);
    NumberGrows(Number(0, whole), frac);
    ScanRun(s, i, i + w, 0);
    ScanRun(s, i + w + 1, |s|, Number(0, whole));
  }

  lemma {:induction false} ParseWhole(s: string, neg: bool, digits: string)
    requires AllDigits(digits) && digits != "" && Number(0, digits) < MAX38 && s == (if neg then "-" else "") + digits
    ensures var u: int := Number(0, digits); Parse(s) == Ok(Dec(if neg then -u else u, 0))
  {
    var i := if neg then 1 else 0;
    assert s[i..|s|] == digits;
    assert SkipSign(s, 0) == (i, neg) by {
      assert !neg ==> s[0] == digits[0];
    }
    ScanRun(s, i, |s|, 0);
  }

  lemma {:induction false} FixedPointRoundTrip(d: Dec, digits: string)
    requires d.Ok() && d.scale > 0 && digits == Padded(Abs(d.u), d.scale) && Number(0, digits) == Abs(d.u)
    ensures Parse(ToText(d)) == Ok(d)
  {
    var whole, frac := digits[..|digits| - d.scale], digits[|digits| - d.scale..];
    assert whole + frac == digits;
    assert ToText(d) == (if d.u < 0 then "-" else "") + whole + "." + frac;
    ParsePlain(ToText(d), d.u < 0, whole, frac);
  }

  /** Reading back what was written gives the same decimal, scale and trailing zeros included. */
  lemma {:induction false} TextRoundTrip(d: Dec)
    requires d.Ok()
    ensures Parse(ToText(d)) == Ok(d)
  {
    var digits := Padded(Abs(d.u), d.scale);
    PaddedValue(Abs(d.u), d.scale);
    if d.scale == 0 {
      ParseWhole(ToText(d), d.u < 0, digits);
    } else {
      FixedPointRoundTrip(d, digits);
    }
  }

  // ---- the parser's loops ----

  method TakeDigits(s: string, start: nat, u0: nat) returns (i: nat, u: nat, ok: bool)
    requires start <= |s|
    ensures start <= i <= |s|
    ensures Scan(s, start, u0) == if ok then Ok((i, u)) else Raise
  {
    i, u, ok := start, u0, true;
    while i < |s| && IsDigit(s[i])
      invariant start <= i <= |s|
      invariant Scan(s, start, u0) == Scan(s, i, u)
    {
      u := u * 10 + DigitOf(s[i]);
      i := i + 1;
      if u >= MAX38 {
        ok := false;
        return;
      }
    }
  }

  method TakeExponent(s: string, start: nat) returns (r: Outcome<(nat, int)>)
    requires start <= |s|
    ensures r == Exponent(s, start)
  {
    if start == |s| || (s[start] != 'e' && s[start] != 'E') {
      return Ok((start, 0));
    }
    var (first, neg) := SkipSign(s, start + 1);
    var i, e := first, 0;
    while i < |s| && IsDigit(s[i])
      invariant first <= i <= |s| && e >= 0
      invariant ScanExp(s, first, 0) == ScanExp(s, i, e)
    {
      e := e * 10 + DigitOf(s[i]);
      i := i + 1;
      if e > 1000 {
        return Raise;
      }
    }
    r := if i == first then Raise else Ok((i, if neg then -e else e));
  }

  /** The loop that moves the point to the right. */
  method Place(neg: bool, u: nat, scale: int) returns (r: Outcome<Dec>)
    requires u < MAX38
    ensures r == Placed(neg, u, scale)
  {
    var v: int := u;
    if scale < 0 {
      for k := 0 to -scale
        invariant v == u * Pow10(k) && v < MAX38
      {
        Pow10Step(u, k);
        v := v * 10;
        if v >= MAX38 {
          AlignGrows(u, k + 1, -scale);
          return Raise;
        }
      }
    }
    r := if scale > 255 then Raise else Ok(Dec(if neg then -v else v, if scale < 0 then 0 else scale));
  }

  method ParseDecimalText(s: string) returns (r: Outcome<Dec>)
    ensures r == Parse(s)
    ensures r.Ok? ==> r.value.Ok()
  {
    var (first, neg) := SkipSign(s, 0);
    var i, u, ok := TakeDigits(s, first, 0);
    if !ok {
      return Raise;
    }
    var any, scale := i > first, 0;
    if i < |s| && s[i] == '.' {
      var point := i;
      i, u, ok := TakeDigits(s, point + 1, u);
      if !ok {
        return Raise;
      }
      scale := i - point - 1;
      any := any || scale > 0;
    }
    if !any {
      return Raise;
    }
    r := ParseRest(s, i, neg, u, scale);
  }

  /** The exponent, which ends the text, and the point. */
  method ParseRest(s: string, i: nat, neg: bool, u: nat, scale: int) returns (r: Outcome<Dec>)
    requires i <= |s| && u < MAX38 && scale >= 0
    ensures var e := Exponent(s, i);
            r == if e.Raise? || e.value.0 != |s| then Raise else Placed(neg, u, scale - e.value.1)
    ensures r.Ok? ==> r.value.Ok()
  {
    var e := TakeExponent(s, i);
    if e.Raise? || e.value.0 != |s| {
      return Raise;
    }
    r := Place(neg, u, scale - e.value.1);
  }
}
