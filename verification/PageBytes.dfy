/** Fields, copies and initialisation of 4 KB pages (src/storage/page.h, src/storage/page.cpp). */
module PageBytes {
  import opened Bytes
  import opened Disk

  // ---- reading ----

  /** The n-byte field at an offset. */
  function Field(p: Page, off: nat, n: nat): nat
    requires off + n <= PAGE_SIZE
  {
    Get(p[off..off + n])
  }

  const TYPE_AT := 4
  const COUNT_AT := 8
  const BEGIN_AT := 10
  const END_AT := 12
  const NEXT_AT := 16
  const HEADER := 24
  const CHECKSUM_AT := 20

  function Count(p: Page): nat {
    Field(p, COUNT_AT, 2)
  }

  function FreeBegin(p: Page): nat {
    Field(p, BEGIN_AT, 2)
  }

  function FreeEnd(p: Page): nat {
    Field(p, END_AT, 2)
  }

  function FreeSpace(p: Page): int {
    FreeEnd(p) - FreeBegin(p)
  }

  // ---- writing ----

  lemma {:induction false} Overwritten(p: Page, off: nat, bytes: seq<byte>)
    requires off + |bytes| <= PAGE_SIZE
    ensures forall k :: 0 <= k < PAGE_SIZE ==>
              Overwrite(p, off, bytes)[k] == if off <= k < off + |bytes| then bytes[k - off] else p[k]
  {
  }

  lemma {:induction false} SameSlice(p: seq<byte>, a: nat, q: seq<byte>, b: nat, n: nat)
    requires a + n <= |p| && b + n <= |q| && forall k :: a <= k < a + n ==> p[k] == q[k - a + b]
    ensures p[a..a + n] == q[b..b + n]
  {
    var s, t := p[a..a + n], q[b..b + n];
    assert forall k :: 0 <= k < n ==> s[k] == t[k];
  }

  lemma {:induction false} SliceIs(p: seq<byte>, at: nat, bytes: seq<byte>)
    requires at + |bytes| <= |p| && forall k :: at <= k < at + |bytes| ==> p[k] == bytes[k - at]
    ensures p[at..at + |bytes|] == bytes
  {
    var s := p[at..at + |bytes|];
    assert forall k :: 0 <= k < |bytes| ==> s[k] == bytes[k];
  }

  /** A field just written, and one a write does not touch. */
  lemma {:induction false} FieldWritten(p: Page, off: nat, n: nat, x: nat)
    requires off + n <= PAGE_SIZE && x < Pow256(n)
    ensures Field(Overwrite(p, off, Put(n, x)), off, n) == x
  {
    var q := Overwrite(p, off, Put(n, x));
    assert q[off..off + n] == Put(n, x);
    GetPut(n, x);
  }

  lemma {:induction false} FieldKept(p: Page, off: nat, bytes: seq<byte>, at: nat, n: nat)
    requires off + |bytes| <= PAGE_SIZE && at + n <= PAGE_SIZE && (at + n <= off || off + |bytes| <= at)
    ensures Overwrite(p, off, bytes)[at..at + n] == p[at..at + n]
    ensures Field(Overwrite(p, off, bytes), at, n) == Field(p, at, n)
  {
    var q := Overwrite(p, off, bytes);
    Overwritten(p, off, bytes);
    SameSlice(p, at, q, at, n);
  }

  /** memcpy into a page. */
  method PutAt(page: array<byte>, off: nat, bytes: seq<byte>)
    requires page.Length == PAGE_SIZE && off + |bytes| <= PAGE_SIZE
    modifies page
    ensures page[..] == Overwrite(old(page[..]), off, bytes)
  {
    for k := 0 to |bytes|
      invariant forall i :: 0 <= i < PAGE_SIZE ==>
                  page[i] == if off <= i < off + k then bytes[i - off] else old(page[i])
    {
      page[off + k] := bytes[k];
    }
    Overwritten(old(page[..]), off, bytes);
  }

  function Part(p: Page, at: nat, n: nat): (s: seq<byte>)
    requires at + n <= PAGE_SIZE
    ensures |s| == n
  {
    p[at..at + n]
  }

  /** memmove within a page. */
  method MoveTo(page: array<byte>, to: nat, from: nat, n: nat)
    requires page.Length == PAGE_SIZE && to + n <= PAGE_SIZE && from + n <= PAGE_SIZE
    modifies page
    ensures page[..] == Overwrite(old(page[..]), to, Part(old(page[..]), from, n))
  {
    var bytes := page[from..from + n];
    assert bytes == Part(page[..], from, n);
    PutAt(page, to, bytes);
  }

  /** A field whose bytes are those of a number. */
  lemma {:induction false} FieldIs(q: Page, off: nat, n: nat, x: nat)
    requires off + n <= PAGE_SIZE && x < Pow256(n)
    requires forall k :: off <= k < off + n ==> q[k] == Put(n, x)[k - off]
    ensures Field(q, off, n) == x
  {
    SliceIs(q, off, Put(n, x));
    GetPut(n, x);
  }

  lemma {:induction false} FieldSame(p: Page, at: nat, q: Page, to: nat, n: nat)
    requires at + n <= PAGE_SIZE && to + n <= PAGE_SIZE && forall k :: to <= k < to + n ==> q[k] == p[k - to + at]
    ensures Field(q, to, n) == Field(p, at, n)
  {
    SameSlice(q, to, p, at, n);
  }

  function GetAt(page: array<byte>, off: nat, n: nat): (x: nat)
    requires page.Length == PAGE_SIZE && off + n <= PAGE_SIZE
    reads page
    ensures x == Field(page[..], off, n)
  {
    assert page[off..off + n] == page[..][off..off + n];
    Get(page[off..off + n])
  }

  // ---- init_page ----

  /** A fresh page: zeros, magic, type, and the whole body free; the checksum field is any four bytes. */
  function Blank(magic: u32, kind: byte, checksum: seq<byte>): (p: Page)
    requires |checksum| == 4
  {
    var p := Overwrite(Overwrite(ZeroPage(), 0, Put(4, magic)), TYPE_AT, [kind]);
    Overwrite(Overwrite(Overwrite(p, BEGIN_AT, Put(2, HEADER)), END_AT, Put(2, PAGE_SIZE)), CHECKSUM_AT, checksum)
  }

  lemma {:induction false} BlankIs(magic: u32, kind: byte, checksum: seq<byte>)
    requires |checksum| == 4
    ensures var p := Blank(magic, kind, checksum);
            && p[TYPE_AT] == kind && Count(p) == 0 && FreeBegin(p) == HEADER && FreeEnd(p) == PAGE_SIZE
            && Field(p, NEXT_AT, 4) == 0
  {
    var p := Blank(magic, kind, checksum);
    Pow256Values();
    assert Put(2, 0) == [0, 0] && Put(4, 0) == [0, 0, 0, 0];
    FieldIs(p, COUNT_AT, 2, 0);
    FieldIs(p, BEGIN_AT, 2, HEADER);
    FieldIs(p, END_AT, 2, PAGE_SIZE);
    FieldIs(p, NEXT_AT, 4, 0);
  }

  method InitPage(page: array<byte>, magic: u32, kind: byte, checksum: seq<byte>)
    requires page.Length == PAGE_SIZE && |checksum| == 4
    modifies page
    ensures page[..] == Blank(magic, kind, checksum)
  {
    for k := 0 to PAGE_SIZE
      invariant forall i :: 0 <= i < k ==> page[i] == 0
    {
      page[k] := 0;
    }
    assert page[..] == ZeroPage();
    PutAt(page, 0, Put(4, magic));
    PutAt(page, TYPE_AT, [kind]);
    PutAt(page, BEGIN_AT, Put(2, HEADER));
    PutAt(page, END_AT, Put(2, PAGE_SIZE));
    PutAt(page, CHECKSUM_AT, checksum);
  }
}
