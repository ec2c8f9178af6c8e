/** Fixed-width machine numbers used by serde_json and libipld. */
module Numbers {

  const MIN_I64: int := -0x8000_0000_0000_0000
  const MAX_I64: int := 0x7FFF_FFFF_FFFF_FFFF
  const MAX_U64: int := 0xFFFF_FFFF_FFFF_FFFF
  const MIN_I128: int := -0x8000_0000_0000_0000_0000_0000_0000_0000
  const MAX_I128: int := 0x7FFF_FFFF_FFFF_FFFF_FFFF_FFFF_FFFF_FFFF

  type I64 = x: int | MIN_I64 <= x <= MAX_I64

  /** A strictly negative i64: serde_json keeps every non-negative integer as an unsigned one. */
  type NegI64 = x: int | MIN_I64 <= x < 0 witness -1

  type U64 = x: int | 0 <= x <= MAX_U64

  /** libipld's `Ipld::Integer` carries an i128. */
  type I128 = x: int | MIN_I128 <= x <= MAX_I128

  newtype Byte = x: int | 0 <= x < 256

  /** An IEEE-754 binary64 value, carried as its bit pattern; the model does no arithmetic on it. */
  type F64 = bv64

  /** Neither an infinity nor a NaN: the exponent field is not all ones. */
  predicate IsFinite(f: F64) {
    (f >> 52) & 0x7FF != 0x7FF
  }

  /** serde_json refuses to hold a non-finite float inside a `Number`. */
  type FiniteF64 = f: F64 | IsFinite(f)
}
