/** The record format of rows (src/storage/codec.cpp): length, NULL bitmap, fields of the columns that are not NULL. */
module RowCodec {
  import opened Arith
  import opened Bytes
  import opened Decimal
  import opened DecimalWire
  import opened Seqs
  import opened Values

  /** Result of encoding or decoding: the source returns false, or raises on a type it does not know. */
  datatype Coded<T> = Done(value: T) | Refused | Internal

  // ---- the NULL bitmap ----

  predicate HasBit(b: nat, k: nat) {
    if k == 0 then b % 2 == 1 else HasBit(b / 2, k - 1)
  }

  /** b | (1 << k). */
  function SetBit(b: nat, k: nat): nat {
    if k == 0 then b / 2 * 2 + 1 else SetBit(b / 2, k - 1) * 2 + b % 2
  }

  /** Setting a bit stays within the byte and changes no other bit. */
  lemma {:induction false} SetBitSets(b: nat, k: nat, m: nat)
    ensures HasBit(SetBit(b, k), m) <==> m == k || HasBit(b, m)
  {
    if k > 0 && m > 0 {
      SetBitSets(b / 2, k - 1, m - 1);
    }
  }

  lemma {:induction false} SetBitFits(b: nat, k: nat, n: nat)
    requires b < Pow2(n) && k < n
    ensures SetBit(b, k) < Pow2(n)
  {
    if k > 0 {
      SetBitFits(b / 2, k - 1, n - 1);
    }
  }

  lemma {:induction false} NoBits(k: nat)
    ensures !HasBit(0, k)
  {
    if k > 0 {
      NoBits(k - 1);
    }
  }

  function ByteWith(b: byte, k: nat): byte
    requires k < 8
  {
    assert Pow2(8) == 256;
    SetBitFits(b, k, 8);
    SetBit(b, k)
  }

  function MapLen(n: nat): nat {
    (n + 7) / 8
  }

  /** The bitmap once the first i columns have been looked at. */
  function Bitmap(values: seq<Value>, i: nat): (m: seq<byte>)
    requires i <= |values|
    ensures |m| == MapLen(|values|)
  {
    if i == 0 then seq(MapLen(|values|), _ => 0)
    else
      var m, j := Bitmap(values, i - 1), (i - 1) / 8;
      if values[i - 1].Null? then m[j := ByteWith(m[j], (i - 1) % 8)] else m
  }

  /** A bit is set exactly for a NULL. */
  lemma {:induction false} BitmapBits(values: seq<Value>, i: nat, k: nat)
    requires i <= |values| && k < |values|
    ensures HasBit(Bitmap(values, i)[k / 8], k % 8) <==> k < i && values[k].Null?
  {
    if i == 0 {
      NoBits(k % 8);
    } else {
      BitmapBits(values, i - 1, k);
      if values[i - 1].Null? {
        SetBitSets(Bitmap(values, i - 1)[(i - 1) / 8], (i - 1) % 8, k % 8);
      }
    }
  }

  // ---- one field ----

  /** Content ranges the C++ types of a value guarantee. */
  predicate InRange(v: Value) {
    v.DecV? ==> v.d.scale <= 255
  }

  function Wrap(x: int, span: int): nat
    requires span > 0
  {
    x % span
  }

  function Field(col: Column, v: Value): Coded<seq<byte>>
    requires InRange(v) && !v.Null?
  {
    match col.ty.rep
    case Int64 =>
      if !v.IntV? then Refused
      else if col.ty.store != Fixed then Internal
      else if col.ty.width == 4 then
        if v.i < I32_MIN || v.i > I32_MAX then Refused else Done(Put(4, Wrap(v.i, U32)))
      else if col.ty.width == 8 then Done(Put(8, Wrap(v.i, U64)))
      else Internal
    case Double =>
      if !v.DoubleV? || !FiniteDouble(v.bits) then Refused
      else if col.ty.store != Fixed || col.ty.width != 8 then Internal
      else Done(Put(8, v.bits))
    case Str =>
      if !v.StrV? then Refused
      else if col.ty.store == VarLen then
        if |v.s| > 0xFFFF then Refused
        else if col.length > 0 && |v.s| > col.length then Refused
        else Done(Put(2, |v.s|) + v.s)
      else if col.ty.store == CharPad then
        if |v.s| > col.length then Refused else Done(Pad(v.s, col.length))
      else Internal
    case Float =>
      if !v.FloatV? || !FiniteFloat(v.fbits) then Refused
      else if col.ty.store != Fixed || col.ty.width != 4 then Internal
      else Done(Put(4, v.fbits))
    case Bool =>
      if !v.BoolV? then Refused
      else if col.ty.store != Fixed || col.ty.width != 1 then Internal
      else Done([if v.b then 1 else 0])
    case Decimals =>
      if !v.DecV? || Abs(v.d.u) >= MAX38 then Refused
      else if col.ty.store != DecimalStore then Internal
      else Done(Put(WIDTH, Wrap(v.d.u, SPAN)) + [v.d.scale])
    case NoRep => Internal
  }

  function Pad(s: seq<byte>, n: nat): (r: seq<byte>)
    requires |s| <= n
    ensures |r| == n
  {
    s + seq(n - |s|, _ => 32)
  }

  /** The value a column gives back: typed NULL, padded CHAR, column type. */
  function Stamped(col: Column, v: Value): Value {
    match v
    case Null(_) => Null(col.ty)
    case BoolV(b) => BoolV(b)
    case IntV(_, i) => IntV(col.ty, i)
    case DoubleV(_, bits) => DoubleV(col.ty, bits)
    case FloatV(_, bits) => FloatV(col.ty, bits)
    case StrV(_, s) => StrV(col.ty, if col.ty.store == CharPad && |s| <= col.length then Pad(s, col.length) else s)
    case DecV(_, d) => DecV(col.ty, d)
  }

  /** A two's complement number of the given span. */
  function FromWrapped(x: nat, span: int): int {
    if x >= span / 2 then x - span else x
  }

  /** The field of a column at the front of the bytes: its value and its length. */
  function ReadField(col: Column, s: seq<byte>): (r: Coded<(Value, nat)>)
    ensures r.Done? ==> r.value.1 <= |s|
  {
    Pow256Values();
    match col.ty.rep
    case Int64 =>
      if col.ty.width == 4 then
        if |s| < 4 then Refused else Done((IntV(col.ty, FromWrapped(Get(s[..4]), U32)), 4))
      else if col.ty.width == 8 then
        if |s| < 8 then Refused else Done((IntV(col.ty, FromWrapped(Get(s[..8]), U64)), 8))
      else Internal
    case Double => if |s| < 8 then Refused else Done((DoubleV(col.ty, Get(s[..8])), 8))
    case Str =>
      if col.ty.store == VarLen then
        if |s| < 2 || |s| < 2 + Get(s[..2]) then Refused
        else Done((StrV(col.ty, s[2..2 + Get(s[..2])]), 2 + Get(s[..2])))
      else if col.ty.store == CharPad then
        if |s| < col.length then Refused else Done((StrV(col.ty, s[..col.length]), col.length))
      else Internal
    case Float => if |s| < 4 then Refused else Done((FloatV(col.ty, Get(s[..4])), 4))
    case Bool =>
      if |s| < 1 || s[0] > 1 then Refused else Done((BoolV(s[0] != 0), 1))
    case Decimals =>
      if |s| < 17 then Refused
      else
        var u := FromWrapped(Get(s[..16]), SPAN);
        if Abs(u) >= MAX38 then Refused else Done((DecV(col.ty, Dec(u, s[16])), 17))
    case NoRep => Internal
  }

  lemma {:induction false} FromWrap(x: int, span: int)
    requires span > 0 && span % 2 == 0 && -span / 2 <= x < span / 2
    ensures FromWrapped(Wrap(x, span), span) == x && Wrap(x, span) < span
  {
    if x < 0 {
      DivModUnique(x, span, -1, x + span);
    } else {
      DivModUnique(x, span, 0, x);
    }
  }

  /** A field is read back, whatever follows it, and takes exactly its own bytes. */
  lemma {:induction false} FieldRoundTrip(col: Column, v: Value, rest: seq<byte>)
    requires InRange(v) && !v.Null? && Field(col, v).Done?
    ensures ReadField(col, Field(col, v).value + rest) == Done((Stamped(col, v), |Field(col, v).value|))
  {
    var f := Field(col, v).value;
    var s := f + rest;
    Pow256Values();
    SpanIs();
    assert s[..|f|] == f;
    match col.ty.rep
    case Int64 =>
      if col.ty.width == 4 {
        FromWrap(v.i, U32);
        GetPut(4, Wrap(v.i, U32));
      } else {
        FromWrap(v.i, U64);
        GetPut(8, Wrap(v.i, U64));
      }
    case Double =>
      GetPut(8, v.bits);
    case Str =>
      if col.ty.store == VarLen {
        GetPut(2, |v.s|);
        assert s[..2] == Put(2, |v.s|) && s[2..2 + |v.s|] == v.s;
      }
    case Float =>
      GetPut(4, v.fbits);
    case Bool =>
    case Decimals =>
      FromWrap(v.d.u, SPAN);
      GetPut(WIDTH, Wrap(v.d.u, SPAN));
      assert s[..16] == Put(WIDTH, Wrap(v.d.u, SPAN)) && s[16] == v.d.scale;
  }

  // ---- whole records ----

  predicate AllInRange(values: seq<Value>) {
    forall i :: 0 <= i < |values| ==> InRange(values[i])
  }

  /** The fields of the first i columns. */
  function Fields(cols: seq<Column>, values: seq<Value>, i: nat): Coded<seq<byte>>
    requires |cols| == |values| && i <= |cols| && AllInRange(values)
  {
    if i == 0 then Done([])
    else
      var front := Fields(cols, values, i - 1);
      if !front.Done? then front
      else if values[i - 1].Null? then if cols[i - 1].notNull then Refused else front
      else
        var f := Field(cols[i - 1], values[i - 1]);
        if f.Done? then Done(front.value + f.value) else f
  }

  /** encode_row: 16-bit length of what follows, bitmap, fields. */
  function Encode(cols: seq<Column>, values: seq<Value>): Coded<seq<byte>>
    requires AllInRange(values)
  {
    if |cols| != |values| then Refused
    else
      var f := Fields(cols, values, |cols|);
      if !f.Done? then f
      else
        var body := Bitmap(values, |values|) + f.value;
        Done(Put(2, |body|) + body)
  }

  // ---- what is stored ----

  /** A type of the type table: representation, storage form and width belong together. */
  predicate Declared(ty: TypeAttr) {
    match ty.rep
    case Int64 => ty.store == Fixed && (ty.width == 4 || ty.width == 8)
    case Double => ty.store == Fixed && ty.width == 8
    case Float => ty.store == Fixed && ty.width == 4
    case Bool => ty.store == Fixed && ty.width == 1
    case Str => ty.store == VarLen || ty.store == CharPad
    case Decimals => ty.store == DecimalStore
    case NoRep => false
  }

  /** A value of the column's representation, in its range and length. */
  predicate InColumn(col: Column, v: Value) {
    match v
    case Null(_) => false
    case IntV(_, i) => col.ty.rep == Int64 && (col.ty.width == 4 ==> -0x8000_0000 <= i < 0x8000_0000)
    case DoubleV(_, bits) => col.ty.rep == Double && FiniteDouble(bits)
    case FloatV(_, bits) => col.ty.rep == Float && FiniteFloat(bits)
    case BoolV(_) => col.ty.rep == Bool
    case StrV(_, s) =>
      col.ty.rep == Str && if col.ty.store == VarLen then |s| < 0x1_0000 && (col.length == 0 || |s| <= col.length) else |s| <= col.length
    case DecV(_, d) => col.ty.rep == Decimals && -MAX38 < d.u < MAX38
  }

  /** What a column takes: a NULL unless it is NOT NULL, else a value that belongs into it. */
  predicate Storable(col: Column, v: Value) {
    if v.Null? then !col.notNull else Declared(col.ty) && InColumn(col, v)
  }

  lemma {:induction false} FieldTakes(col: Column, v: Value)
    requires InRange(v) && !v.Null?
    ensures Field(col, v).Done? <==> Storable(col, v)
  {
  }

  lemma {:induction false} FieldsTake(cols: seq<Column>, values: seq<Value>, i: nat)
    requires |cols| == |values| && i <= |cols| && AllInRange(values)
    ensures Fields(cols, values, i).Done? <==> forall k :: 0 <= k < i ==> Storable(cols[k], values[k])
  {
    if i > 0 {
      FieldsTake(cols, values, i - 1);
      if !values[i - 1].Null? {
        FieldTakes(cols[i - 1], values[i - 1]);
      }
    }
  }

  /** A row is encoded exactly when there is a value for each column that the column takes. */
  lemma {:induction false} EncodeTakes(cols: seq<Column>, values: seq<Value>)
    requires AllInRange(values)
    ensures Encode(cols, values).Done? <==>
            |cols| == |values| && forall k :: 0 <= k < |cols| ==> Storable(cols[k], values[k])
  {
    if |cols| == |values| {
      FieldsTake(cols, values, |cols|);
    }
  }

  /** Bytes a value takes in its column. */
  function Width(col: Column, v: Value): nat {
    if v.Null? then 0
    else if col.ty.rep == Decimals then 17
    else if col.ty.rep != Str then col.ty.width
    else if col.ty.store == VarLen && v.StrV? then 2 + |v.s|
    else col.length
  }

  function Widths(cols: seq<Column>, values: seq<Value>, i: nat): nat
    requires |cols| == |values| && i <= |cols|
  {
    if i == 0 then 0 else Widths(cols, values, i - 1) + Width(cols[i - 1], values[i - 1])
  }

  /** The length of a record: two bytes, a bit for each column, and the values. */
  lemma {:induction false} EncodedLength(cols: seq<Column>, values: seq<Value>, i: nat)
    requires |cols| == |values| && i <= |cols| && AllInRange(values) && Fields(cols, values, i).Done?
    ensures |Fields(cols, values, i).value| == Widths(cols, values, i)
    ensures i == |cols| ==> |Encode(cols, values).value| == 2 + (|cols| + 7) / 8 + Widths(cols, values, |cols|)
  {
    if i > 0 {
      EncodedLength(cols, values, i - 1);
    }
  }

  /** The values of columns i.. from the bytes at pos. */
  function ReadFields(cols: seq<Column>, data: seq<byte>, i: nat, pos: nat): Coded<seq<Value>>
    requires i <= |cols| && 2 + MapLen(|cols|) <= |data| && pos <= |data|
    decreases |cols| - i
  {
    if i == |cols| then Done([])
    else
      var r := if HasBit(data[2 + i / 8], i % 8) then Done((Null(cols[i].ty), 0)) else ReadField(cols[i], data[pos..]);
      if r.Refused? then Refused
      else if r.Internal? then Internal
      else
        var rest := ReadFields(cols, data, i + 1, pos + r.value.1);
        if rest.Done? then Done([r.value.0] + rest.value) else rest
  }

  function Decode(cols: seq<Column>, data: seq<byte>): Coded<seq<Value>> {
    if |data| < 2 || Get(data[..2]) + 2 != |data| || 2 + MapLen(|cols|) > |data| then Refused
    else ReadFields(cols, data, 0, 2 + MapLen(|cols|))
  }

  function StampedRow(cols: seq<Column>, values: seq<Value>, i: nat): seq<Value>
    requires |cols| == |values| && i <= |cols|
    decreases |cols| - i
  {
    if i == |cols| then [] else [Stamped(cols[i], values[i])] + StampedRow(cols, values, i + 1)
  }

  /** What is encoded up to column i is a prefix of the whole. */
  lemma {:induction false} FieldsSplit(cols: seq<Column>, values: seq<Value>, i: nat, k: nat) returns (rest: seq<byte>)
    requires |cols| == |values| && i <= k <= |cols| && AllInRange(values) && Fields(cols, values, k).Done?
    ensures Fields(cols, values, i).Done? && Fields(cols, values, k).value == Fields(cols, values, i).value + rest
    decreases k
  {
    if i == k {
      rest := [];
      assert Fields(cols, values, k).value == Fields(cols, values, i).value + [];
    } else {
      var most := FieldsSplit(cols, values, i, k - 1);
      if values[k - 1].Null? {
        rest := most;
      } else {
        var f := Field(cols[k - 1], values[k - 1]).value;
        rest := most + f;
        assert Fields(cols, values, i).value + most + f == Fields(cols, values, i).value + (most + f);
      }
    }
  }

  /** Where column i begins. */
  function StartOf(cols: seq<Column>, values: seq<Value>, i: nat): nat
    requires |cols| == |values| && i <= |cols| && AllInRange(values) && Fields(cols, values, i).Done?
  {
    2 + MapLen(|cols|) + |Fields(cols, values, i).value|
  }

  /** Column i is read at p and ends at q. */
  predicate ReadsAs(cols: seq<Column>, values: seq<Value>, data: seq<byte>, i: nat, p: nat, q: nat)
    requires |cols| == |values| && i < |cols| && 2 + MapLen(|cols|) <= |data| && p <= |data|
  {
    && (HasBit(data[2 + i / 8], i % 8) <==> values[i].Null?)
    && if values[i].Null? then p == q else ReadField(cols[i], data[p..]) == Done((Stamped(cols[i], values[i]), q - p))
  }

  /** The bytes of a row, bitmap and fields in place. */
  predicate Holds(cols: seq<Column>, values: seq<Value>, data: seq<byte>) {
    && |cols| == |values| && AllInRange(values) && Fields(cols, values, |cols|).Done?
    && |data| >= 2 + MapLen(|cols|) && data[2..2 + MapLen(|cols|)] == Bitmap(values, |values|)
    && data[2 + MapLen(|cols|)..] == Fields(cols, values, |cols|).value
  }

  lemma {:induction false} ColumnReads(cols: seq<Column>, values: seq<Value>, data: seq<byte>, i: nat)
    requires Holds(cols, values, data) && i < |cols|
    ensures Fields(cols, values, i).Done? && Fields(cols, values, i + 1).Done?
    ensures StartOf(cols, values, i) <= StartOf(cols, values, i + 1) <= |data|
    ensures ReadsAs(cols, values, data, i, StartOf(cols, values, i), StartOf(cols, values, i + 1))
  {
    var later := FieldsSplit(cols, values, i + 1, |cols|);
    var rest := FieldsSplit(cols, values, i, i + 1);
    BitHere(cols, values, data, i);
    if !values[i].Null? {
      ValueHere(cols, values, data, i, later);
    }
  }

  lemma {:induction false} ValueHere(cols: seq<Column>, values: seq<Value>, data: seq<byte>, i: nat, later: seq<byte>)
    requires |cols| == |values| && i < |cols| && AllInRange(values) && !values[i].Null?
    requires Fields(cols, values, i + 1).Done? && |data| >= 2 + MapLen(|cols|)
    requires data[2 + MapLen(|cols|)..] == Fields(cols, values, i + 1).value + later
    ensures Fields(cols, values, i).Done? && StartOf(cols, values, i) <= StartOf(cols, values, i + 1) <= |data|
    ensures ReadField(cols[i], data[StartOf(cols, values, i)..]) ==
            Done((Stamped(cols[i], values[i]), StartOf(cols, values, i + 1) - StartOf(cols, values, i)))
  {
    FieldHere(cols, values, data, i, later);
    FieldRoundTrip(cols[i], values[i], later);
  }

  lemma {:induction false} BitHere(cols: seq<Column>, values: seq<Value>, data: seq<byte>, i: nat)
    requires Holds(cols, values, data) && i < |cols|
    ensures HasBit(data[2 + i / 8], i % 8) <==> values[i].Null?
  {
    BitmapBits(values, |values|, i);
    assert data[2 + i / 8] == data[2..2 + MapLen(|cols|)][i / 8];
  }

  /** From where the first i columns end, the others are read back. */
  predicate ReadsBack(cols: seq<Column>, values: seq<Value>, data: seq<byte>, i: nat)
    requires |cols| == |values| && i <= |cols| && AllInRange(values) && |data| >= 2 + MapLen(|cols|)
  {
    && Fields(cols, values, i).Done? && StartOf(cols, values, i) <= |data|
    && ReadFields(cols, data, i, StartOf(cols, values, i)) == Done(StampedRow(cols, values, i))
  }

  lemma {:induction false} NothingLeft(cols: seq<Column>, values: seq<Value>, data: seq<byte>)
    requires Holds(cols, values, data)
    ensures ReadsBack(cols, values, data, |cols|)
  {
  }

  lemma {:induction false} FieldsReadBack(cols: seq<Column>, values: seq<Value>, data: seq<byte>, i: nat)
    requires Holds(cols, values, data) && i <= |cols|
    ensures ReadsBack(cols, values, data, i)
    decreases |cols| - i
  {
    if i == |cols| {
      NothingLeft(cols, values, data);
    } else {
      FieldsReadBack(cols, values, data, i + 1);
      ColumnReadsBack(cols, values, data, i);
    }
  }

  lemma {:induction false} ColumnReadsBack(cols: seq<Column>, values: seq<Value>, data: seq<byte>, i: nat)
    requires Holds(cols, values, data) && i < |cols| && ReadsBack(cols, values, data, i + 1)
    ensures ReadsBack(cols, values, data, i)
  {
    ColumnReads(cols, values, data, i);
    ReadOne(cols, values, data, i, StartOf(cols, values, i), StartOf(cols, values, i + 1));
  }

  /** Reading column i and then the rest. */
  lemma {:induction false} ReadOne(cols: seq<Column>, values: seq<Value>, data: seq<byte>, i: nat, p: nat, q: nat)
    requires |cols| == |values| && i < |cols| && 2 + MapLen(|cols|) <= |data| && p <= q <= |data|
    requires ReadsAs(cols, values, data, i, p, q)
    requires ReadFields(cols, data, i + 1, q) == Done(StampedRow(cols, values, i + 1))
    ensures ReadFields(cols, data, i, p) == Done(StampedRow(cols, values, i))
  {
  }

  lemma {:induction false} FieldHere(cols: seq<Column>, values: seq<Value>, data: seq<byte>, i: nat, later: seq<byte>)
    requires |cols| == |values| && i < |cols| && AllInRange(values) && !values[i].Null?
    requires Fields(cols, values, i + 1).Done? && |data| >= 2 + MapLen(|cols|)
    requires data[2 + MapLen(|cols|)..] == Fields(cols, values, i + 1).value + later
    ensures Fields(cols, values, i).Done? && Field(cols[i], values[i]).Done?
    ensures var start, f := 2 + MapLen(|cols|) + |Fields(cols, values, i).value|, Field(cols[i], values[i]).value;
            start <= |data| && data[start..] == f + later
  {
    var before, f, start := Fields(cols, values, i).value, Field(cols[i], values[i]).value, 2 + MapLen(|cols|);
    Middle(data[start..], before, f, later);
    assert data[start + |before|..] == data[start..][|before|..];
  }

  lemma {:induction false} Middle(s: seq<byte>, a: seq<byte>, b: seq<byte>, c: seq<byte>)
    requires s == (a + b) + c
    ensures s[|a|..] == b + c
  {
  }

  /** A record reads back as the same row, stamped with the column types, exactly when its length fits 16 bits. */
  lemma {:induction false} RowRoundTrip(cols: seq<Column>, values: seq<Value>)
    requires AllInRange(values) && Encode(cols, values).Done?
    ensures var rec := Encode(cols, values).value;
            Decode(cols, rec) == (if |rec| - 2 < 0x1_0000 then Done(StampedRow(cols, values, 0)) else Refused)
  {
    var rec, f := Encode(cols, values).value, Fields(cols, values, |cols|).value;
    var body := Bitmap(values, |values|) + f;
    Pow256Values();
    assert rec[..2] == Put(2, |body|) && rec[2..] == body;
    if |body| < 0x1_0000 {
      GetPut(2, |body|);
      var start := 2 + MapLen(|cols|);
      assert rec[2..start] == Bitmap(values, |values|) && rec[start..] == f;
      FieldsReadBack(cols, values, rec, 0);
    }
  }

  // ---- the loops ----

  /** Two's complement of the magnitude, least significant byte first: complement all, then add one. */
  method NegateLE(b: array<byte>)
    requires b.Length == WIDTH
    modifies b
    ensures Get(b[..]) == if old(Get(b[..])) == 0 then 0 else SPAN - old(Get(b[..]))
  {
    Complement(b);
    Increment(b);
  }

  method Complement(b: array<byte>)
    requires b.Length == WIDTH
    modifies b
    ensures Get(b[..]) == SPAN - 1 - old(Get(b[..]))
  {
    ghost var was := b[..];
    for k := 0 to WIDTH
      invariant forall j :: 0 <= j < WIDTH ==> b[j] == if j < k then 255 - was[j] else was[j]
    {
      b[k] := 255 - b[k];
    }
    ComplementSum(was, b[..]);
    SpanIs();
  }

  /** The carry runs through the bytes that are 255. */
  method Increment(b: array<byte>)
    requires b.Length == WIDTH
    modifies b
    ensures Get(b[..]) == if old(Get(b[..])) == SPAN - 1 then 0 else old(Get(b[..])) + 1
  {
    ghost var was := b[..];
    SpanIs();
    var k := 0;
    while k < WIDTH && b[k] == 255
      invariant k <= WIDTH && b[k..] == was[k..]
      invariant forall j :: 0 <= j < k ==> b[j] == 0 && was[j] == 255
    {
      ghost var later := b[k + 1..];
      b[k] := 0;
      assert b[k + 1..] == later == was[k..][1..] == was[k + 1..];
      k := k + 1;
    }
    if k < WIDTH {
      assert b[k..][0] == was[k..][0];
      ghost var later := b[k + 1..];
      b[k] := b[k] + 1;
      assert b[k + 1..] == later;
      assert b[k + 1..] == was[k + 1..];
    }
    AddOne(was, b[..], k);
  }

  /** A byte string and its complement add up to all ones. */
  lemma {:induction false} ComplementSum(a: seq<byte>, b: seq<byte>)
    requires |a| == |b| && forall j :: 0 <= j < |a| ==> b[j] == 255 - a[j]
    ensures Get(a) + Get(b) == Pow256(|a|) - 1
  {
    if a != [] {
      ComplementSum(a[1..], b[1..]);
    }
  }

  /** Turning the low 255s into 0 and adding one to the next byte adds one, modulo the width. */
  lemma {:induction false} AddOne(a: seq<byte>, b: seq<byte>, k: nat)
    requires |a| == |b| && k <= |a|
    requires forall j :: 0 <= j < k ==> a[j] == 255 && b[j] == 0
    requires k < |a| ==> a[k] < 255 && b[k] == a[k] + 1 && a[k + 1..] == b[k + 1..]
    ensures Get(b) == if k < |a| then Get(a) + 1 else 0
    ensures k == |a| ==> Get(a) == Pow256(|a|) - 1
    decreases k
  {
    if k > 0 {
      assert k < |a| ==> a[1..][k..] == a[k + 1..] && b[1..][k..] == b[k + 1..];
      AddOne(a[1..], b[1..], k - 1);
    } else if a != [] {
      assert a[1..] == b[1..];
    }
  }

  /** The bytes of a decimal's unscaled value. */
  method DecimalBytes(u: int) returns (s: seq<byte>)
    requires -MAX38 < u < MAX38
    ensures s == Put(WIDTH, Wrap(u, SPAN))
  {
    var b := new byte[WIDTH](_ => 0);
    var mag: int := Abs(u);
    ghost var mag0 := mag;
    for k := 0 to WIDTH
      invariant mag >= 0 && b[..k] + Put(WIDTH - k, mag) == Put(WIDTH, mag0)
    {
      ghost var head := b[..k];
      b[k] := mag % 256;
      assert b[..k + 1] == head + [b[k]];
      mag := mag / 256;
    }
    assert b[..] == b[..WIDTH] + Put(0, mag);
    SpanIs();
    GetPut(WIDTH, mag0);
    FromWrap(u, SPAN);
    if u < 0 {
      NegateLE(b);
    }
    s := b[..];
    PutGet(s);
  }

  /** The bytes of one value; those of a decimal are put together and negated in place. */
  method EncodeField(col: Column, v: Value) returns (r: Coded<seq<byte>>)
    requires InRange(v) && !v.Null?
    ensures r == Field(col, v)
  {
    if col.ty.rep == Decimals {
      if !v.DecV? || Abs(v.d.u) >= MAX38 {
        return Refused;
      }
      if col.ty.store != DecimalStore {
        return Internal;
      }
      var b := DecimalBytes(v.d.u);
      r := Done(b + [v.d.scale]);
    } else {
      r := Field(col, v);
    }
  }

  method EncodeRow(cols: seq<Column>, values: seq<Value>) returns (r: Coded<seq<byte>>)
    requires AllInRange(values)
    ensures r == Encode(cols, values)
  {
    if |cols| != |values| {
      return Refused;
    }
    var bitmap: seq<byte>, fields := seq(MapLen(|cols|), _ => 0), [];
    for i := 0 to |cols|
      invariant bitmap == Bitmap(values, i) && Fields(cols, values, i) == Done(fields)
    {
      if values[i].Null? {
        if cols[i].notNull {
          FieldsStop(cols, values, i + 1, |cols|);
          return Refused;
        }
        bitmap := bitmap[i / 8 := ByteWith(bitmap[i / 8], i % 8)];
      } else {
        var f := EncodeField(cols[i], values[i]);
        if !f.Done? {
          FieldsStop(cols, values, i + 1, |cols|);
          return f;
        }
        fields := fields + f.value;
      }
    }
    r := Done(Put(2, |bitmap + fields|) + (bitmap + fields));
  }

  lemma {:induction false} FieldsStop(cols: seq<Column>, values: seq<Value>, i: nat, k: nat)
    requires |cols| == |values| && i <= k <= |cols| && AllInRange(values) && !Fields(cols, values, i).Done?
    ensures Fields(cols, values, k) == Fields(cols, values, i)
    decreases k
  {
    if i < k {
      FieldsStop(cols, values, i, k - 1);
    }
  }

  /** A result with values in front of it. */
  function After(out: seq<Value>, rest: Coded<seq<Value>>): Coded<seq<Value>> {
    if rest.Done? then Done(out + rest.value) else rest
  }

  lemma {:induction false} AfterOne(out: seq<Value>, v: Value, rest: Coded<seq<Value>>)
    ensures After(out, After([v], rest)) == After(out + [v], rest)
  {
    if rest.Done? {
      Assoc(out, [v], rest.value);
    }
  }

  lemma {:induction false} ReadStep(cols: seq<Column>, data: seq<byte>, i: nat, pos: nat, f: Coded<(Value, nat)>)
    requires i < |cols| && 2 + MapLen(|cols|) <= |data| && pos <= |data|
    requires f == if HasBit(data[2 + i / 8], i % 8) then Done((Null(cols[i].ty), 0)) else ReadField(cols[i], data[pos..])
    ensures f.Done? ==> pos + f.value.1 <= |data|
    ensures ReadFields(cols, data, i, pos) ==
            if f.Done? then After([f.value.0], ReadFields(cols, data, i + 1, pos + f.value.1))
            else if f.Refused? then Refused else Internal
  {
  }

  /** What the field of column i means for the rest of the reading. */
  lemma {:induction false} NextColumn(cols: seq<Column>, data: seq<byte>, i: nat, pos: nat, out: seq<Value>, f: Coded<(Value, nat)>)
    requires i < |cols| && 2 + MapLen(|cols|) <= |data| && pos <= |data|
    requires f == if HasBit(data[2 + i / 8], i % 8) then Done((Null(cols[i].ty), 0)) else ReadField(cols[i], data[pos..])
    ensures !f.Done? ==> After(out, ReadFields(cols, data, i, pos)) == if f.Refused? then Refused else Internal
    ensures f.Done? ==>
              && pos + f.value.1 <= |data|
              && After(out, ReadFields(cols, data, i, pos)) ==
                 After(out + [f.value.0], ReadFields(cols, data, i + 1, pos + f.value.1))
  {
    ReadStep(cols, data, i, pos, f);
    if f.Done? {
      AfterOne(out, f.value.0, ReadFields(cols, data, i + 1, pos + f.value.1));
    }
  }

  /** A column that is NULL has no bytes. */
  method ReadColumn(cols: seq<Column>, data: seq<byte>, i: nat, pos: nat, ghost out: seq<Value>) returns (f: Coded<(Value, nat)>)
    requires i < |cols| && 2 + MapLen(|cols|) <= |data| && pos <= |data|
    ensures !f.Done? ==> After(out, ReadFields(cols, data, i, pos)) == if f.Refused? then Refused else Internal
    ensures f.Done? ==>
              && pos + f.value.1 <= |data|
              && After(out, ReadFields(cols, data, i, pos)) ==
                 After(out + [f.value.0], ReadFields(cols, data, i + 1, pos + f.value.1))
  {
    f := Done((Null(cols[i].ty), 0));
    if !HasBit(data[2 + i / 8], i % 8) {
      f := ReadField(cols[i], data[pos..]);
    }
    NextColumn(cols, data, i, pos, out, f);
  }

  method DecodeRow(cols: seq<Column>, data: seq<byte>) returns (r: Coded<seq<Value>>)
    ensures r == Decode(cols, data)
  {
    if |data| < 2 || Get(data[..2]) + 2 != |data| || 2 + MapLen(|cols|) > |data| {
      return Refused;
    }
    var out: seq<Value>, pos: nat := [], 2 + MapLen(|cols|);
    ghost var all := ReadFields(cols, data, 0, pos);
    assert all.Done? ==> out + all.value == all.value;
    for i := 0 to |cols|
      invariant pos <= |data| && all == After(out, ReadFields(cols, data, i, pos))
    {
      var f := ReadColumn(cols, data, i, pos, out);
      if !f.Done? {
        return if f.Refused? then Refused else Internal;
      }
      out, pos := out + [f.value.0], pos + f.value.1;
    }
    assert out + [] == out;
    r := Done(out);
  }
}
