/** Bytes and the native little-endian integer fields the storage files are made of. */
module Bytes {
  import opened Arith

  type byte = b: int | 0 <= b < 256

  const U32 := 0x1_0000_0000
  const U64 := 0x1_0000_0000_0000_0000

  type u32 = x: int | 0 <= x < U32
  type u64 = x: int | 0 <= x < U64

  /** 256 to the power n. */
  function Pow256(n: nat): (p: nat)
    ensures p > 0
  {
    if n == 0 then 1 else 256 * Pow256(n - 1)
  }

  lemma {:induction false} Pow256Values()
    ensures Pow256(2) == 0x1_0000 && Pow256(4) == U32 && Pow256(8) == U64
  {
    assert Pow256(4) == 256 * (256 * (256 * (256 * Pow256(0))));
    assert Pow256(8) == 256 * (256 * (256 * (256 * Pow256(4))));
  }

  /** The low n bytes of x, least significant first. */
  function Put(n: nat, x: nat): (s: seq<byte>)
    ensures |s| == n
  {
    if n == 0 then [] else [x % 256] + Put(n - 1, x / 256)
  }

  /** The number a little-endian byte string stands for. */
  function Get(s: seq<byte>): (x: nat)
    ensures x < Pow256(|s|)
  {
    if s == [] then 0 else s[0] + 256 * Get(s[1..])
  }

  /** A field that fits its width is read back unchanged. */
  lemma {:induction false} GetPut(n: nat, x: nat)
    requires x < Pow256(n)
    ensures Get(Put(n, x)) == x
  {
    if n > 0 {
      GetPut(n - 1, x / 256);
      assert Put(n, x)[1..] == Put(n - 1, x / 256);
    }
  }

  /** Reading and writing back is the identity too: no two byte strings of one width share a value. */
  lemma {:induction false} PutGet(s: seq<byte>)
    ensures Put(|s|, Get(s)) == s
  {
    if s != [] {
      PutGet(s[1..]);
      assert Get(s) % 256 == s[0] && Get(s) / 256 == Get(s[1..]);
    }
  }

  /** Byte k is the k-th digit to the base 256, least significant first. */
  lemma {:induction false} DigitAt(n: nat, x: nat, k: nat)
    requires k < n
    ensures Put(n, x)[k] == x / Pow256(k) % 256
  {
    if k > 0 {
      DigitAt(n - 1, x / 256, k - 1);
      DivideTwice(x, 256, Pow256(k - 1));
    }
  }

  lemma {:induction false} DivideTwice(x: nat, a: nat, b: nat)
    requires a > 0 && b > 0
    ensures a * b > 0 && x / a / b == x / (a * b)
  {
    var q, r := x / a, x % a;
    var p, m := q / b, q % b;
    assert x == (p * b + m) * a + r == p * (a * b) + (m * a + r);
    MulStep(m, b, a);
    DivModUnique(x, a * b, p, m * a + r);
  }
}
