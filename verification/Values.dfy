/** Values with their type attributes, and columns (src/storage/types.h). */
module Values {
  import opened Bytes
  import opened Decimal

  type i64 = x: int | -0x8000_0000_0000_0000 <= x < 0x8000_0000_0000_0000
  type u16 = x: int | 0 <= x < 0x1_0000

  const I32_MIN: int := -0x8000_0000
  const I32_MAX: int := 0x7FFF_FFFF
  const I64_MIN: int := -0x8000_0000_0000_0000

  datatype Family = NoFamily | Num | Text | Truth
  datatype Rep = NoRep | Int64 | Float | Double | Str | Bool | Decimals
  datatype Store = NoStore | Fixed | CharPad | VarLen | DecimalStore

  datatype TypeAttr = TypeAttr(id: nat, family: Family, rank: nat, rep: Rep, store: Store, width: nat)

  /** A value: its type and, by representation, its content. Doubles and floats are their bit patterns,
      text its bytes. The type of a NULL is that of its column or none; there is only one boolean type. */
  datatype Value =
    | Null(ty: TypeAttr)
    | BoolV(b: bool)
    | IntV(ty: TypeAttr, i: i64)
    | DoubleV(ty: TypeAttr, bits: u64)
    | FloatV(ty: TypeAttr, fbits: u32)
    | StrV(ty: TypeAttr, s: seq<byte>)
    | DecV(ty: TypeAttr, d: Dec)

  datatype Column = Column(ty: TypeAttr, length: u16, notNull: bool, scale: nat)

  const NO_TYPE := TypeAttr(0, NoFamily, 0, NoRep, NoStore, 0)
  const K_DOUBLE := TypeAttr(3, Num, 5, Double, Fixed, 8)
  const K_BOOL := TypeAttr(7, Truth, 0, Bool, Fixed, 1)
  const K_NUMERIC := TypeAttr(8, Num, 3, Decimals, DecimalStore, 0)

  function TypeOf(v: Value): TypeAttr {
    if v.BoolV? then K_BOOL else v.ty
  }

  /** Finite: the exponent field is not all ones (section 3.4 of IEEE 754-2019). */
  predicate FiniteDouble(bits: u64) {
    bits / 0x10_0000_0000_0000 % 2048 != 2047
  }

  predicate FiniteFloat(bits: u32) {
    bits / 0x80_0000 % 256 != 255
  }
}
