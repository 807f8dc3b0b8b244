/**
 * Go's fixed-width value types as Dafny subset types, and the small
 * conversions between them that the hasher relies on.
 */
module GoTypes {

  datatype Option<+T> = None | Some(value: T)

  const TWO_63: int := 0x8000_0000_0000_0000
  const TWO_64: int := 0x1_0000_0000_0000_0000

  type byte = x: int | 0 <= x < 256
  type u16 = x: int | 0 <= x < 0x1_0000
  type u32 = x: int | 0 <= x < 0x1_0000_0000
  type u64 = x: int | 0 <= x < TWO_64
  type i8 = x: int | -0x80 <= x < 0x80
  type i16 = x: int | -0x8000 <= x < 0x8000
  type i32 = x: int | -0x8000_0000 <= x < 0x8000_0000
  type i64 = x: int | -TWO_63 <= x < TWO_63

  /** A Go string or []byte: a byte sequence whose length fits Go's `int`. */
  type GoBytes = s: seq<byte> | |s| < TWO_63

  /** Go's `uint64(x)` for an `int64` x: two's complement reinterpretation. */
  function Int64Bits(x: i64): (r: u64)
    ensures x >= 0 ==> r == x
    ensures x < 0 ==> r >= TWO_63 && r - TWO_64 == x
  {
    if x < 0 then x + TWO_64 else x
  }

  /** Go's `int64(v)` for a `uint64` v: the inverse reinterpretation. */
  function SignedOfBits(v: u64): (r: i64)
    ensures Int64Bits(r) == v
  {
    if v < TWO_63 then v else v - TWO_64
  }

  lemma SignedOfBitsInverse(x: i64)
    ensures SignedOfBits(Int64Bits(x)) == x
  {
  }
}
