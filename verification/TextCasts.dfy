/** The texts of integers and truth values, and texts as rows store them (src/storage/cast.cpp). */
module TextCasts {
  import opened Bytes
  import opened Decimal
  import opened DecimalText
  import opened DecimalLiterals
  import opened Values

  /** A stored text as characters, and back. */
  function Chars(s: seq<byte>): (t: string)
    ensures |t| == |s|
  {
    seq(|s|, i requires 0 <= i < |s| => s[i] as char)
  }

  function Stored(t: string): (s: seq<byte>)
    ensures |s| == |t|
  {
    seq(|t|, i requires 0 <= i < |t| => t[i] as int % 256)
  }

  lemma {:induction false} StoredReadsBack(t: string)
    requires forall i :: 0 <= i < |t| ==> t[i] as int < 256
    ensures Chars(Stored(t)) == t
  {
  }

  // ---- integers ----

  /** The shortest decimal text. */
  function IntText(i: int): string {
    (if i < 0 then "-" else "") + DigitText(Abs(i))
  }

  /** parse_i64: a plus sign is skipped, then the library takes a minus sign and digits, and all of the text. */
  function ParseInt(s: string): Outcome<i64> {
    var t := if s != "" && s[0] == '+' then s[1..] else s;
    var neg := t != "" && t[0] == '-';
    var digits := if neg then t[1..] else t;
    if digits == "" || !AllDigits(digits) then Raise
    else
      var n: int := Number(0, digits);
      var x := if neg then -n else n;
      if I64_MIN <= x < -I64_MIN then Ok(x) else Raise
  }

  function Mark(given: bool, sign: string): string {
    if given then sign else ""
  }

  /** A plus sign or none, a minus sign or none, digits: the number they stand for, if it fits 64 bits. */
  lemma {:induction false} IntegerLiteral(plus: bool, minus: bool, digits: string)
    requires AllDigits(digits) && digits != ""
    ensures var n: int := Number(0, digits);
            var x := if minus then -n else n;
            ParseInt(Mark(plus, "+") + Mark(minus, "-") + digits) == if I64_MIN <= x < -I64_MIN then Ok(x) else Raise
  {
    var s, rest := Mark(plus, "+") + Mark(minus, "-") + digits, Mark(minus, "-") + digits;
    assert plus ==> s[0] == '+' && s[1..] == rest;
    assert !plus ==> s == rest;
    assert minus ==> rest[0] == '-' && rest[1..] == digits;
    assert !minus ==> rest == digits;
  }

  /** No other text is read as an integer. */
  lemma {:induction false} ParsedIsInteger(s: string) returns (plus: bool, minus: bool, digits: string)
    requires ParseInt(s).Ok?
    ensures AllDigits(digits) && digits != "" && s == Mark(plus, "+") + Mark(minus, "-") + digits
  {
    plus := s != "" && s[0] == '+';
    var t := if plus then s[1..] else s;
    minus := t != "" && t[0] == '-';
    digits := if minus then t[1..] else t;
  }

  lemma {:induction false} DigitTextValue(u: nat)
    ensures Number(0, DigitText(u)) == u
  {
    if u == 0 {
      assert Number(0, "0") == Number(0, "0"[1..]);
    } else {
      NumeralValue(u);
    }
  }

  lemma {:induction false} IntTextRoundTrip(i: i64)
    ensures ParseInt(Chars(Stored(IntText(i)))) == Ok(i)
  {
    var digits := DigitText(Abs(i));
    DigitTextValue(Abs(i));
    StoredReadsBack(IntText(i));
    assert IntText(i) == Mark(false, "+") + Mark(i < 0, "-") + digits;
    IntegerLiteral(false, i < 0, digits);
  }

  /** The text of an integer: a minus sign or none, the digits of its magnitude, no needless zero in front. */
  lemma {:induction false} IntTextIs(i: int) returns (digits: string)
    ensures AllDigits(digits) && IntText(i) == Mark(i < 0, "-") + digits && Number(0, digits) == Abs(i)
    ensures digits == "0" || (digits != "" && digits[0] != '0')
  {
    digits := DigitText(Abs(i));
    DigitTextValue(Abs(i));
    if i != 0 {
      NoLeadingZero(Abs(i));
    }
  }

  /** An integer is read as a decimal with the same value, unless it has both signs: only the integer reader takes
      these. */
  lemma {:induction false} SignsPileUp(plus: bool, minus: bool, digits: string)
    requires AllDigits(digits) && digits != ""
    requires ParseInt(Mark(plus, "+") + Mark(minus, "-") + digits).Ok?
    ensures var s := Mark(plus, "+") + Mark(minus, "-") + digits;
            Parse(s) == if plus && minus then Raise else Ok(Dec(ParseInt(s).value, 0))
  {
    IntegerLiteral(plus, minus, digits);
    if plus && minus {
      TwoSigns(digits);
    } else {
      OneSign(if plus then "+" else Mark(minus, "-"), digits);
      assert Mark(plus, "+") + Mark(minus, "-") == if plus then "+" else Mark(minus, "-");
    }
  }

  lemma {:induction false} TwoSigns(digits: string)
    ensures Parse("+" + "-" + digits).Raise?
  {
    var s := "+" + "-" + digits;
    assert s[0] == '+' && s[1] == '-';
    assert Scan(s, 1, 0) == Ok((1, 0));
  }

  lemma {:induction false} OneSign(sign: string, digits: string)
    requires IsSign(sign) && AllDigits(digits) && digits != "" && Number(0, digits) < MAX38
    ensures var n: int := Number(0, digits); Parse(sign + digits) == Ok(Dec(if sign == "-" then -n else n, 0))
  {
    var l := Literal(sign, digits, false, "", NoPower);
    assert DecimalLiterals.Text(l) == sign + digits;
    ParseLiteral(l);
  }

  // ---- truth values ----

  function TruthText(b: bool): string {
    if b then "true" else "false"
  }

  function Lower(c: char): char {
    if 'A' <= c <= 'Z' then (c as int + 32) as char else c
  }

  predicate SameLetters(s: string, word: string) {
    |s| == |word| && forall i :: 0 <= i < |s| ==> Lower(s[i]) == word[i]
  }

  function ParseTruth(s: string): Outcome<bool> {
    if SameLetters(s, "true") then Ok(true) else if SameLetters(s, "false") then Ok(false) else Raise
  }

  /** The loop over the characters. */
  method IsWord(s: string, word: string) returns (same: bool)
    ensures same == SameLetters(s, word)
  {
    if |s| != |word| {
      return false;
    }
    for i := 0 to |s|
      invariant forall k :: 0 <= k < i ==> Lower(s[k]) == word[k]
    {
      if Lower(s[i]) != word[i] {
        return false;
      }
    }
    same := true;
  }

  method ReadTruth(s: string) returns (r: Outcome<bool>)
    ensures r == ParseTruth(s)
  {
    var yes := IsWord(s, "true");
    if yes {
      return Ok(true);
    }
    var no := IsWord(s, "false");
    r := if no then Ok(false) else Raise;
  }

  /** Every character is the letter of the word or its capital. */
  predicate Spells(s: string, word: string) {
    |s| == |word| && forall i :: 0 <= i < |s| ==> s[i] == word[i] || s[i] as int == word[i] as int - 32
  }

  /** The two words, in any mixture of small letters and capitals, and nothing else. */
  lemma {:induction false} TruthWords(s: string)
    ensures ParseTruth(s) == Ok(true) <==> Spells(s, "true")
    ensures ParseTruth(s) == Ok(false) <==> Spells(s, "false")
    ensures forall b :: ParseTruth(Chars(Stored(TruthText(b)))) == Ok(b)
  {
    OneWord(s, "true");
    OneWord(s, "false");
    StoredReadsBack("true");
    StoredReadsBack("false");
  }

  lemma {:induction false} OneWord(s: string, word: string)
    requires forall i :: 0 <= i < |word| ==> 'a' <= word[i] <= 'z'
    ensures SameLetters(s, word) <==> Spells(s, word)
  {
    if |s| == |word| {
      forall i | 0 <= i < |s|
        ensures Lower(s[i]) == word[i] <==> s[i] == word[i] || s[i] as int == word[i] as int - 32
      {
        assert 'a' <= word[i] <= 'z';
      }
    }
  }

  // ---- decimals ----

  /** A decimal survives being stored as text. */
  lemma {:induction false} DecimalAsText(d: Dec)
    requires d.Ok()
    ensures Parse(Chars(Stored(ToText(d)))) == Ok(d)
  {
    StoredReadsBack(ToText(d));
    TextRoundTrip(d);
  }
}
