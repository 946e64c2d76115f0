/** The wire form of decimals: 16 bytes big-endian two's complement and a scale. The server writes it
    (src/server/session.cpp), the client turns it back into text (src/client/render.cpp). */
module DecimalWire {
  import opened Arith
  import opened Bytes
  import opened Decimal
  import opened DecimalText

  const WIDTH := 16
  const SPAN: int := 0x1_0000_0000_0000_0000_0000_0000_0000_0000

  datatype Cell = Cell(bytes: seq<byte>, scale: nat)

  /** The number a big-endian byte string stands for. */
  function GetBE(s: seq<byte>): (x: nat)
    ensures x < Pow256(|s|)
  {
    if s == [] then 0 else GetBE(s[..|s| - 1]) * 256 + s[|s| - 1]
  }

  lemma {:induction false} SpanIs()
    ensures Pow256(WIDTH) == SPAN
  {
    Pow256Values();
    assert Pow256(12) == 256 * (256 * (256 * (256 * Pow256(8))));
    assert Pow256(16) == 256 * (256 * (256 * (256 * Pow256(12))));
  }

  /** The number 16 bytes stand for in two's complement. */
  function Signed(s: seq<byte>): int
    requires |s| == WIDTH
  {
    if s[0] >= 128 then GetBE(s) - SPAN else GetBE(s)
  }

  /** The value after the first byte. */
  lemma {:induction false} FirstByte(s: seq<byte>)
    requires s != []
    ensures GetBE(s) == s[0] * Pow256(|s| - 1) + GetBE(s[1..])
  {
    var front, last := s[..|s| - 1], s[|s| - 1];
    if |s| > 1 {
      FirstByte(front);
      assert s[1..][..|s| - 2] == front[1..];
      assert front[0] * (256 * Pow256(|s| - 2)) == front[0] * Pow256(|s| - 2) * 256;
    } else {
      assert s[1..] == [] && Pow256(0) == 1;
    }
  }

  /** The sign bit tells the halves of the 16-byte numbers apart. */
  lemma {:induction false} SignBit(s: seq<byte>)
    requires |s| == WIDTH
    ensures s[0] >= 128 <==> GetBE(s) >= SPAN / 2
  {
    FirstByte(s);
    SpanIs();
    assert Pow256(16) == 256 * Pow256(15);
    if s[0] >= 128 {
      MulMono(128, s[0], Pow256(15));
    } else {
      MulMono(s[0], 127, Pow256(15));
    }
  }

  // ---- negation modulo 2^128, byte by byte from the last ----

  /** The complement-and-add-one of a byte string. */
  function Negated(v: nat, span: nat): nat
    requires v < span
  {
    if v == 0 then 0 else span - v
  }

  /** A byte complemented, plus the carry. */
  function NegByte(x: byte, carry: bool): byte {
    if !carry then 255 - x else if x == 0 then 0 else 256 - x
  }

  lemma {:induction false} NegateStep(x: byte, low: nat, p: nat)
    requires p > 0 && low < p
    ensures var y := NegByte(x, low == 0);
            && x * p + low < 256 * p
            && y * p + Negated(low, p) == Negated(x * p + low, 256 * p)
            && (low == 0 ==> (y == 0 <==> x == 0)) && (x * p + low == 0 <==> x == 0 && low == 0)
  {
    MulMono(x, 255, p);
    if low == 0 {
      assert (256 - x) * p == 256 * p - x * p;
    } else {
      assert (255 - x) * p == 255 * p - x * p;
    }
  }

  lemma {:induction false} NegatedTail(was: seq<byte>, now: seq<byte>, i: nat)
    requires |was| == |now| && i < |was|
    requires GetBE(now[i + 1..]) == Negated(GetBE(was[i + 1..]), Pow256(|was| - i - 1))
    requires now[i] == NegByte(was[i], GetBE(was[i + 1..]) == 0)
    ensures GetBE(now[i..]) == Negated(GetBE(was[i..]), Pow256(|was| - i))
    ensures GetBE(was[i..]) == 0 <==> was[i] == 0 && GetBE(was[i + 1..]) == 0
    ensures GetBE(was[i + 1..]) == 0 ==> (now[i] == 0 <==> was[i] == 0)
  {
    NegateStep(was[i], GetBE(was[i + 1..]), Pow256(|was| - i - 1));
    FirstByte(was[i..]);
    FirstByte(now[i..]);
    assert was[i..][1..] == was[i + 1..] && now[i..][1..] == now[i + 1..];
  }

  method Negate(b: array<byte>)
    modifies b
    ensures GetBE(b[..]) == Negated(old(GetBE(b[..])), Pow256(b.Length))
  {
    var carry := true;
    ghost var was := b[..];
    for i := b.Length downto 0
      invariant b[..i] == was[..i]
      invariant GetBE(b[i..]) == Negated(GetBE(was[i..]), Pow256(b.Length - i))
      invariant carry <==> GetBE(was[i..]) == 0
    {
      ghost var tail := b[i + 1..];
      assert b[i] == was[i] && b[..i] == was[..i] by {
        assert b[..i + 1][i] == was[..i + 1][i] && b[..i + 1][..i] == b[..i] && was[..i + 1][..i] == was[..i];
      }
      b[i] := 255 - b[i];
      if carry {
        b[i] := if b[i] == 255 then 0 else b[i] + 1;
      }
      assert b[i + 1..] == tail && b[..][i + 1..] == tail && b[..][i..] == b[i..];
      NegatedTail(was, b[..], i);
      carry := carry && b[i] == 0;
    }
    assert b[0..] == b[..] && was[0..] == was;
  }

  // ---- dec_cell ----

  /** The big-endian bytes of a number. */
  function PutBE(n: nat, x: nat): (s: seq<byte>)
    ensures |s| == n
  {
    if n == 0 then [] else PutBE(n - 1, x / 256) + [x % 256]
  }

  lemma {:induction false} GetPutBE(n: nat, x: nat)
    requires x < Pow256(n)
    ensures GetBE(PutBE(n, x)) == x
  {
    if n > 0 {
      GetPutBE(n - 1, x / 256);
      assert PutBE(n, x)[..n - 1] == PutBE(n - 1, x / 256);
    }
  }

  /** The magnitude's bytes, last first. */
  method PutMagnitude(mag0: nat) returns (b: array<byte>)
    requires mag0 < SPAN
    ensures b.Length == WIDTH && fresh(b) && GetBE(b[..]) == mag0
  {
    b := new byte[WIDTH](_ => 0);
    var mag: int := mag0;
    for i := WIDTH downto 0
      invariant mag >= 0 && PutBE(WIDTH, mag0) == PutBE(i, mag) + b[i..]
    {
      ghost var rest := b[i + 1..];
      b[i] := mag % 256;
      assert b[i..] == [b[i]] + rest;
      mag := mag / 256;
    }
    SpanIs();
    GetPutBE(WIDTH, mag0);
    assert PutBE(WIDTH, mag0) == [] + b[0..] == b[..];
  }

  method DecCell(d: Dec) returns (c: Cell)
    requires d.Ok()
    ensures |c.bytes| == WIDTH && Signed(c.bytes) == d.u && c.scale == d.scale
  {
    var b := PutMagnitude(Abs(d.u));
    SpanIs();
    if d.u < 0 {
      Negate(b);
    }
    c := Cell(b[..], d.scale);
    SignBit(c.bytes);
    assert GetBE(c.bytes) == if d.u < 0 then SPAN + d.u else d.u;
  }

  // ---- decimal_text ----

  /** One long division of the bytes by ten. */
  lemma {:induction false} TenStep(v: nat, carry: nat, x: nat, q: nat)
    requires carry < 10 && v == q * 10 + carry
    ensures v * 256 + x == (q * 256 + (carry * 256 + x) / 10) * 10 + (carry * 256 + x) % 10
  {
  }

  method DivideByTen(b: array<byte>) returns (digit: nat, any: bool)
    modifies b
    ensures digit == old(GetBE(b[..])) % 10 && GetBE(b[..]) == old(GetBE(b[..])) / 10
    ensures any <==> GetBE(b[..]) != 0
  {
    ghost var was := b[..];
    var carry: int := 0;
    any := false;
    for i := 0 to b.Length
      invariant 0 <= carry < 10 && b[i..] == was[i..]
      invariant GetBE(was[..i]) == GetBE(b[..i]) * 10 + carry
      invariant any <==> GetBE(b[..i]) != 0
    {
      ghost var head, tail := b[..i], b[i + 1..];
      assert tail == b[i..][1..] && was[i + 1..] == was[i..][1..];
      var cur := carry * 256 + b[i];
      TenStep(GetBE(was[..i]), carry, was[i], GetBE(head));
      assert b[i] == was[i];
      b[i] := cur / 10;
      carry := cur % 10;
      any := any || b[i] != 0;
      assert b[i + 1..] == tail;
      assert b[..i + 1][..i] == head && was[..i + 1][..i] == was[..i];
    }
    assert b[..b.Length] == b[..] && was[..b.Length] == was;
    digit := carry;
    DivModUnique(GetBE(was), 10, GetBE(b[..]), carry);
  }

  function Reversed(s: string): (r: string)
    ensures |r| == |s|
  {
    if s == "" then "" else Reversed(s[1..]) + [s[0]]
  }

  lemma {:induction false} ReversedSnoc(s: string, c: char)
    ensures Reversed(s + [c]) == [c] + Reversed(s)
  {
    if s == "" {
      assert s + [c] == [c];
    } else {
      assert (s + [c])[1..] == s[1..] + [c];
      ReversedSnoc(s[1..], c);
    }
  }

  /** The digits of the bytes' number, lowest first. */
  method CollectDigits(b: array<byte>) returns (digits: string)
    modifies b
    ensures Reversed(digits) == Numeral(old(GetBE(b[..])))
  {
    ghost var v0 := GetBE(b[..]);
    var any := false;
    for i := 0 to b.Length
      invariant any <==> GetBE(b[..i]) != 0
    {
      any := any || b[i] != 0;
      assert b[..i + 1][..i] == b[..i];
    }
    assert b[..b.Length] == b[..];
    digits := "";
    while any
      invariant Numeral(v0) == Numeral(GetBE(b[..])) + Reversed(digits)
      invariant any <==> GetBE(b[..]) != 0
      decreases GetBE(b[..])
    {
      var d;
      ghost var v := GetBE(b[..]);
      d, any := DivideByTen(b);
      ReversedSnoc(digits, CharOf(d));
      digits := digits + [CharOf(d)];
      assert Numeral(v) == Numeral(v / 10) + [CharOf(v % 10)];
    }
  }

  /** The client's text of a cell is the server's text of the decimal it stands for. */
  method CellText(c: Cell) returns (t: string)
    requires |c.bytes| == WIDTH
    ensures t == ToText(Dec(Signed(c.bytes), c.scale))
  {
    var b := new byte[WIDTH](i requires 0 <= i < WIDTH => c.bytes[i]);
    assert b[..] == c.bytes;
    SpanIs();
    SignBit(c.bytes);
    var neg := b[0] >= 128;
    if neg {
      Negate(b);
    }
    ghost var u := Signed(c.bytes);
    assert GetBE(b[..]) == Abs(u) && neg == (u < 0);
    var digits := CollectDigits(b);
    digits := if digits == "" then "0" else Reversed(digits);
    t := Laid(neg, digits, u, c.scale);
  }

  /** The text of a decimal from its sign, magnitude and scale. */
  lemma {:induction false} TextOfParts(neg: bool, mag: nat, scale: nat)
    requires neg ==> mag > 0
    ensures var u: int, sign := mag, if neg then "-" else "";
            ToText(Dec(if neg then -u else u, scale)) ==
            if scale == 0 then sign + DigitText(mag)
            else var s := Padded(mag, scale); sign + s[..|s| - scale] + "." + s[|s| - scale..]
  {
  }

  /** Zeros in front as far as needed, the point, the sign. */
  method Laid(neg: bool, digits0: string, ghost u: int, scale: nat) returns (t: string)
    requires digits0 == DigitText(Abs(u)) && neg == (u < 0)
    ensures t == ToText(Dec(u, scale))
  {
    TextOfParts(neg, Abs(u), scale);
    var digits := digits0;
    var sign := if neg then "-" else "";
    if scale == 0 {
      t := sign + digits;
    } else {
      if |digits| <= scale {
        digits := Zeros(scale - |digits| + 1) + digits;
      }
      assert digits == Padded(Abs(u), scale);
      t := sign + digits[..|digits| - scale] + "." + digits[|digits| - scale..];
    }
  }

  /** What the client shows for a decimal the server sends. */
  method Shown(d: Dec) returns (t: string)
    requires d.Ok()
    ensures t == ToText(d) && Parse(t) == Ok(d)
  {
    var c := DecCell(d);
    t := CellText(c);
    TextRoundTrip(d);
  }
}
