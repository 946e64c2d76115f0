/** The texts that are read as decimals, and the number each stands for (src/storage/cast.cpp). */
module DecimalLiterals {
  import opened Decimal
  import opened DecimalText

  /** An exponent: its letter, sign and digits. */
  datatype Power = NoPower | Power(mark: char, sign: string, digits: string)

  /** A literal by its parts; the fraction comes after a point. */
  datatype Literal = Literal(sign: string, whole: string, point: bool, frac: string, power: Power)

  predicate IsSign(s: string) {
    s == "" || s == "+" || s == "-"
  }

  /** A sign or none, digits before or after the point, a point or none, an exponent with digits or none. */
  predicate WellFormed(l: Literal) {
    && IsSign(l.sign) && AllDigits(l.whole) && AllDigits(l.frac) && |l.whole| + |l.frac| > 0 && (l.frac != "" ==> l.point)
    && (l.power.Power? ==> (l.power.mark == 'e' || l.power.mark == 'E') && IsSign(l.power.sign)
                           && AllDigits(l.power.digits) && l.power.digits != "")
  }

  function PowerText(p: Power): string {
    if p.NoPower? then "" else [p.mark] + p.sign + p.digits
  }

  function Dot(point: bool): string {
    if point then "." else ""
  }

  function Text(l: Literal): string {
    l.sign + l.whole + Dot(l.point) + l.frac + PowerText(l.power)
  }

  /** All digits of the literal as one number, and its power of ten. */
  function Mantissa(l: Literal): (u: nat)
    requires WellFormed(l)
  {
    Number(Number(0, l.whole), l.frac)
  }

  function PowerSize(p: Power): nat
    requires p.Power? ==> AllDigits(p.digits)
  {
    if p.NoPower? then 0 else Number(0, p.digits)
  }

  function Exponent10(l: Literal): int
    requires WellFormed(l)
  {
    if l.power.Power? && l.power.sign == "-" then 0 - PowerSize(l.power) else PowerSize(l.power)
  }

  // ---- digits ----

  lemma {:induction false} ScanOver(s: string, i: nat, j: nat, u: nat)
    requires i <= j <= |s| && AllDigits(s[i..j]) && u < MAX38 <= Number(u, s[i..j])
    ensures Scan(s, i, u).Raise?
    decreases j - i
  {
    var run := s[i..j];
    assert run != "";
    assert run[0] == s[i] && run[1..] == s[i + 1..j];
    if u * 10 + DigitOf(s[i]) < MAX38 {
      ScanOver(s, i + 1, j, u * 10 + DigitOf(s[i]));
    }
  }

  /** A run of digits that another character or the end of the text ends. */
  lemma {:induction false} ScanIs(s: string, i: nat, j: nat, u: nat)
    requires i <= j <= |s| && AllDigits(s[i..j]) && (j < |s| ==> !IsDigit(s[j])) && u < MAX38
    ensures var n := Number(u, s[i..j]); Scan(s, i, u) == if n < MAX38 then Ok((j, n)) else Raise
  {
    if Number(u, s[i..j]) < MAX38 {
      ScanRun(s, i, j, u);
    } else {
      ScanOver(s, i, j, u);
    }
  }

  lemma {:induction false} ScanExpIs(s: string, i: nat, e: nat)
    requires i <= |s| && AllDigits(s[i..]) && e <= 1000
    ensures var n, end: nat := Number(e, s[i..]), |s|; ScanExp(s, i, e) == if n <= 1000 then Ok((end, n)) else Raise
    decreases |s| - i
  {
    if i < |s| {
      var run := s[i..];
      assert run[0] == s[i] && run[1..] == s[i + 1..];
      var e' := e * 10 + DigitOf(s[i]);
      if e' <= 1000 {
        ScanExpIs(s, i + 1, e');
      } else {
        NumberGrows(e', run[1..]);
      }
    }
  }

  // ---- parts ----

  function FractionAt(l: Literal): nat {
    |l.sign| + |l.whole| + |Dot(l.point)|
  }

  /** Where the parts are in the text. */
  predicate Cut(s: string, l: Literal) {
    var a, b, c := |l.sign|, |l.sign| + |l.whole|, FractionAt(l);
    var d := c + |l.frac|;
    && d <= |s| && s[..a] == l.sign && s[a..b] == l.whole && s[b..c] == Dot(l.point) && s[c..d] == l.frac
    && s[d..] == PowerText(l.power)
  }

  lemma {:induction false} CutText(l: Literal)
    ensures Cut(Text(l), l)
  {
  }

  lemma {:induction false} SignSkipped(s: string, i: nat, sign: string)
    requires IsSign(sign) && i + |sign| <= |s| && s[i..i + |sign|] == sign
    requires sign == "" ==> i == |s| || (s[i] != '+' && s[i] != '-')
    ensures SkipSign(s, i) == (i + |sign|, sign == "-")
  {
    if sign != "" {
      assert s[i] == s[i..i + |sign|][0];
    }
  }

  lemma {:induction false} ExponentIs(s: string, i: nat, p: Power)
    requires i <= |s| && s[i..] == PowerText(p)
    requires p.Power? ==> (p.mark == 'e' || p.mark == 'E') && IsSign(p.sign) && AllDigits(p.digits) && p.digits != ""
    ensures var x: int, end: nat := PowerSize(p), |s|;
            Exponent(s, i) == if x > 1000 then Raise else Ok((end, if p.Power? && p.sign == "-" then -x else x))
  {
    if p.Power? {
      var t, j := s[i..], i + 1 + |p.sign|;
      assert t[0] == p.mark && s[i] == t[0];
      assert s[i + 1..j] == t[1..1 + |p.sign|] == p.sign;
      assert s[j..] == t[1 + |p.sign|..] == p.digits;
      if p.sign == "" {
        assert s[i + 1] == s[j..][0] == p.digits[0];
      }
      SignSkipped(s, i + 1, p.sign);
      ScanExpIs(s, j, 0);
    }
  }

  /** What a literal is read as: all of its digits as a number, the point moved by the exponent. It raises exactly where the
      exponent exceeds 1000, 39 digits are needed, or more than 255 fraction digits. */
  function Meaning(l: Literal): Outcome<Dec>
    requires WellFormed(l)
  {
    var u: int, scale := Mantissa(l), |l.frac| - Exponent10(l);
    var shifted := if scale < 0 then u * Pow10(-scale) else u;
    if PowerSize(l.power) > 1000 || u >= MAX38 || shifted >= MAX38 || scale > 255 then Raise
    else Ok(Dec(if l.sign == "-" then -shifted else shifted, if scale < 0 then 0 else scale))
  }

  lemma {:induction false} ParseLiteral(l: Literal)
    requires WellFormed(l)
    ensures Parse(Text(l)) == Meaning(l)
  {
    CutText(l);
    ParseCut(Text(l), l);
  }

  lemma {:induction false} ParseCut(s: string, l: Literal)
    requires WellFormed(l) && Cut(s, l)
    ensures Parse(s) == Meaning(l)
  {
    MeaningIs(l);
    if Mantissa(l) < MAX38 {
      ParseShort(s, l);
    } else {
      ParseLong(s, l);
    }
  }

  lemma {:induction false} MeaningIs(l: Literal)
    requires WellFormed(l)
    ensures Meaning(l) == if PowerSize(l.power) > 1000 || Mantissa(l) >= MAX38 then Raise
                          else Placed(l.sign == "-", Mantissa(l), |l.frac| - Exponent10(l))
  {
    if Mantissa(l) < MAX38 {
      PlacedIs(l.sign == "-", Mantissa(l), |l.frac| - Exponent10(l));
    }
  }

  lemma {:induction false} ParseLong(s: string, l: Literal)
    requires WellFormed(l) && Cut(s, l) && Mantissa(l) >= MAX38
    ensures Parse(s).Raise?
  {
    WholeScanned(s, l);
    if Number(0, l.whole) < MAX38 {
      assert l.point;
      FractionScanned(s, l);
    }
  }

  lemma {:induction false} ParseShort(s: string, l: Literal)
    requires WellFormed(l) && Cut(s, l) && Mantissa(l) < MAX38
    ensures Parse(s) == if PowerSize(l.power) > 1000 then Raise else Placed(l.sign == "-", Mantissa(l), |l.frac| - Exponent10(l))
  {
    LiteralStages(s, l);
    ParseStages(s, l.sign == "-", |l.sign|, |l.whole|, Number(0, l.whole), l.point, |l.frac|, Mantissa(l),
                PowerSize(l.power) > 1000, Exponent10(l));
  }

  /** Sign, digits, point, digits and exponent as the stages of reading find them. */
  predicate Stages(s: string, neg: bool, a: nat, wl: nat, u: nat, dot: bool, fl: nat, w: nat, big: bool, x: int) {
    var j: nat, k: nat, end: nat := a + wl, a + wl + (if dot then 1 else 0) + fl, |s|;
    && k <= |s| && SkipSign(s, 0) == (a, neg) && Scan(s, a, 0) == Ok((j, u)) && dot == (j < |s| && s[j] == '.')
    && (if dot then Scan(s, j + 1, u) == Ok((k, w)) else fl == 0 && w == u) && wl + fl > 0
    && Exponent(s, k) == if big then Raise else Ok((end, x))
  }

  lemma {:induction false} LiteralStages(s: string, l: Literal)
    requires WellFormed(l) && Cut(s, l) && Mantissa(l) < MAX38
    ensures Stages(s, l.sign == "-", |l.sign|, |l.whole|, Number(0, l.whole), l.point, |l.frac|, Mantissa(l),
                   PowerSize(l.power) > 1000, Exponent10(l))
  {
    NumberGrows(Number(0, l.whole), l.frac);
    WholeScanned(s, l);
    PowerScanned(s, l);
    if l.point {
      FractionScanned(s, l);
    }
  }

  lemma {:induction false} ParseStages(s: string, neg: bool, a: nat, wl: nat, u: nat, dot: bool, fl: nat, w: nat, big: bool, x: int)
    requires Stages(s, neg, a, wl, u, dot, fl, w, big, x)
    ensures Parse(s) == if big then Raise else Placed(neg, w, fl - x)
  {
  }

  lemma {:induction false} PlacedIs(neg: bool, u: nat, scale: int)
    requires u < MAX38
    ensures var shifted: int := if scale < 0 then u * Pow10(-scale) else u;
            Placed(neg, u, scale) == if shifted >= MAX38 || scale > 255 then Raise
                                     else Ok(Dec(if neg then -shifted else shifted, if scale < 0 then 0 else scale))
  {
  }

  lemma {:induction false} WholeScanned(s: string, l: Literal)
    requires WellFormed(l) && Cut(s, l)
    ensures var a, b: nat, n := |l.sign|, |l.sign| + |l.whole|, Number(0, l.whole);
            && a <= b <= |s| && SkipSign(s, 0) == (a, l.sign == "-") && (l.point <==> b < |s| && s[b] == '.')
            && Scan(s, a, 0) == if n < MAX38 then Ok((b, n)) else Raise
  {
    AfterDigits(s, l);
    SignSkipped(s, 0, l.sign);
    ScanIs(s, |l.sign|, |l.sign| + |l.whole|, 0);
  }

  lemma {:induction false} FractionScanned(s: string, l: Literal)
    requires WellFormed(l) && Cut(s, l) && Number(0, l.whole) < MAX38 && l.point
    ensures var d: nat, n := FractionAt(l) + |l.frac|, Mantissa(l);
            d <= |s| && Scan(s, FractionAt(l), Number(0, l.whole)) == if n < MAX38 then Ok((d, n)) else Raise
  {
    AfterDigits(s, l);
    ScanIs(s, FractionAt(l), FractionAt(l) + |l.frac|, Number(0, l.whole));
  }

  lemma {:induction false} PowerScanned(s: string, l: Literal)
    requires WellFormed(l) && Cut(s, l)
    ensures var d: nat, end: nat := FractionAt(l) + |l.frac|, |s|;
            d <= |s| && Exponent(s, d) == if PowerSize(l.power) > 1000 then Raise else Ok((end, Exponent10(l)))
  {
    ExponentIs(s, FractionAt(l) + |l.frac|, l.power);
  }

  /** What ends the digits. */
  lemma {:induction false} AfterDigits(s: string, l: Literal)
    requires WellFormed(l) && Cut(s, l)
    ensures var a, b, d := |l.sign|, |l.sign| + |l.whole|, FractionAt(l) + |l.frac|;
            && a < |s| && (l.sign == "" ==> s[a] != '+' && s[a] != '-')
            && (l.point ==> s[b] == '.') && (!l.point && b < |s| ==> !IsDigit(s[b]) && s[b] != '.') && (d < |s| ==> !IsDigit(s[d]))
  {
    var a, b, c := |l.sign|, |l.sign| + |l.whole|, FractionAt(l);
    if l.whole != "" {
      assert s[a] == s[a..b][0];
    }
    if l.point {
      assert s[b] == s[b..c][0];
    }
    if l.power.Power? {
      assert s[c + |l.frac|] == s[c + |l.frac|..][0];
    }
  }

  /** In numbers: mantissa times ten to the exponent, minus the fraction digits. */
  lemma {:induction false} LiteralValue(l: Literal)
    requires WellFormed(l) && Parse(Text(l)).Ok?
    ensures var d, e, k := Parse(Text(l)).value, Exponent10(l), if l.sign == "-" then -1 else 1;
            && d.scale == (if |l.frac| > e then |l.frac| - e else 0)
            && d.u * Pow10(|l.frac|) * Pow10(if e < 0 then -e else 0) == k * Mantissa(l) * Pow10(d.scale) * Pow10(if e > 0 then e else 0)
  {
    ParseLiteral(l);
    SignedValue(l);
    ShiftedValue(if l.sign == "-" then -1 else 1, Mantissa(l), |l.frac|, Exponent10(l));
  }

  lemma {:induction false} SignedValue(l: Literal)
    requires WellFormed(l) && Meaning(l).Ok?
    ensures var d, e, f, m := Meaning(l).value, Exponent10(l), |l.frac|, Mantissa(l);
            && d.scale == (if f > e then f - e else 0)
            && d.u == (if l.sign == "-" then -1 else 1) * if e > f then m * Pow10(e - f) else m
  {
  }

  lemma {:induction false} ShiftedValue(k: int, m: int, f: nat, e: int)
    ensures var u, s: nat := if e > f then m * Pow10(e - f) else m, if f > e then f - e else 0;
            (k * u) * Pow10(f) * Pow10(if e < 0 then -e else 0) == k * m * Pow10(s) * Pow10(if e > 0 then e else 0)
  {
    if e > f {
      Pow10Add(e - f, f);
      MulAssoc(k * m, Pow10(e - f), Pow10(f));
      MulAssoc(k, m, Pow10(e - f));
      assert Pow10(0) == 1;
    } else if e >= 0 {
      Pow10Add(f - e, e);
      MulAssoc(k * m, Pow10(f - e), Pow10(e));
      assert Pow10(0) == 1;
    } else {
      Pow10Add(f, -e);
      MulAssoc(k * m, Pow10(f), Pow10(-e));
      assert Pow10(0) == 1;
    }
  }

  // ---- nothing else is read ----

  lemma {:induction false} ScanTakesDigits(s: string, i: nat, u: nat)
    requires i <= |s| && Scan(s, i, u).Ok?
    ensures AllDigits(s[i..Scan(s, i, u).value.0])
    decreases |s| - i
  {
    if i < |s| && IsDigit(s[i]) {
      var j := Scan(s, i, u).value.0;
      ScanTakesDigits(s, i + 1, u * 10 + DigitOf(s[i]));
      assert s[i..j] == [s[i]] + s[i + 1..j];
    }
  }

  lemma {:induction false} ScanExpTakesDigits(s: string, i: nat, e: nat)
    requires i <= |s| && ScanExp(s, i, e).Ok?
    ensures AllDigits(s[i..ScanExp(s, i, e).value.0])
    decreases |s| - i
  {
    if i < |s| && IsDigit(s[i]) {
      var j := ScanExp(s, i, e).value.0;
      ScanExpTakesDigits(s, i + 1, e * 10 + DigitOf(s[i]));
      assert s[i..j] == [s[i]] + s[i + 1..j];
    }
  }

  lemma {:induction false} PowerRead(s: string, i: nat) returns (p: Power)
    requires i <= |s| && Exponent(s, i).Ok? && Exponent(s, i).value.0 == |s|
    ensures s[i..] == PowerText(p)
    ensures p.Power? ==> (p.mark == 'e' || p.mark == 'E') && IsSign(p.sign) && AllDigits(p.digits) && p.digits != ""
  {
    if i < |s| && (s[i] == 'e' || s[i] == 'E') {
      var j := SkipSign(s, i + 1).0;
      ScanExpTakesDigits(s, j, 0);
      p := Power(s[i], s[i + 1..j], s[j..|s|]);
      assert s[i..] == [s[i]] + s[i + 1..j] + s[j..|s|];
    } else {
      p := NoPower;
    }
  }

  lemma {:induction false} FiveSlices(s: string, i: nat, j: nat, c: nat, k: nat)
    requires i <= j <= c <= k <= |s|
    ensures s == s[..i] + s[i..j] + s[j..c] + s[c..k] + s[k..]
  {
  }

  /** Only literals are read. */
  lemma {:induction false} ParsedIsLiteral(s: string) returns (l: Literal)
    requires Parse(s).Ok?
    ensures WellFormed(l) && Text(l) == s
  {
    var i := SkipSign(s, 0).0;
    ScanTakesDigits(s, i, 0);
    var (j, u) := Scan(s, i, 0).value;
    var dot := j < |s| && s[j] == '.';
    var c := if dot then j + 1 else j;
    var k := c;
    if dot {
      ScanTakesDigits(s, c, u);
      k := Scan(s, c, u).value.0;
    }
    var p := PowerRead(s, k);
    l := Literal(s[..i], s[i..j], dot, s[c..k], p);
    FiveSlices(s, i, j, c, k);
    assert s[j..c] == Dot(dot);
  }

  // ---- writing ----

  lemma {:induction false} NoLeadingZero(u: nat)
    requires u > 0
    ensures Numeral(u) != "" && Numeral(u)[0] != '0'
  {
    if u >= 10 {
      NoLeadingZero(u / 10);
    }
  }

  function Written(d: Dec): Literal {
    var digits := Padded(Abs(d.u), d.scale);
    Literal(if d.u < 0 then "-" else "", digits[..|digits| - d.scale], d.scale > 0, digits[|digits| - d.scale..], NoPower)
  }

  lemma {:induction false} WrittenText(d: Dec)
    ensures Text(Written(d)) == ToText(d)
  {
  }

  lemma {:induction false} WrittenValue(d: Dec)
    ensures WellFormed(Written(d)) && Mantissa(Written(d)) == Abs(d.u)
  {
    var l := Written(d);
    assert Padded(Abs(d.u), d.scale) == l.whole + l.frac;
    PaddedValue(Abs(d.u), d.scale);
    NumberConcat(0, l.whole, l.frac);
  }

  /** The text of a decimal is a literal with as many fraction digits as its scale and no exponent, no plus sign and no
      needless zero in front. */
  lemma {:induction false} ToTextIs(d: Dec) returns (l: Literal)
    ensures WellFormed(l) && Text(l) == ToText(d) && Mantissa(l) == Abs(d.u)
    ensures l.sign == (if d.u < 0 then "-" else "") && l.power.NoPower? && |l.frac| == d.scale && l.point == (d.scale > 0)
    ensures l.whole == "0" || (l.whole != "" && l.whole[0] != '0')
  {
    l := Written(d);
    WrittenText(d);
    WrittenValue(d);
    PaddedLead(Abs(d.u), d.scale);
  }

  lemma {:induction false} PaddedLead(u: nat, scale: nat)
    ensures var digits := Padded(u, scale); var whole := digits[..|digits| - scale];
            whole == "0" || (whole != "" && whole[0] != '0')
  {
    if u != 0 {
      NoLeadingZero(u);
    }
  }
}
