/** Fixed-width integers of the Rust code, as ranges of `int`, and the
    `as` casts the database layer applies. */
module Ints {

  const U64_MAX: int := 0xFFFF_FFFF_FFFF_FFFF
  const TWO_POW_63: int := 0x8000_0000_0000_0000
  const TWO_POW_64: int := 0x1_0000_0000_0000_0000

  type u8 = x: int | 0 <= x < 0x100
  type u64 = x: int | 0 <= x <= U64_MAX
  type i16 = x: int | -0x8000 <= x < 0x8000
  type i64 = x: int | -TWO_POW_63 <= x < TWO_POW_63

  /** `x as i64` for a u64 `x`: the bit pattern is kept, so values from 2^63
      upwards come out negative. */
  function AsI64(x: u64): (r: i64)
    ensures x < TWO_POW_63 ==> r == x
    ensures x >= TWO_POW_63 ==> r == x - TWO_POW_64 && r < 0
    ensures r % TWO_POW_64 == x % TWO_POW_64
  {
    if x < TWO_POW_63 then x else x - TWO_POW_64
  }

  /** `y as u64` for an i64 `y`, the inverse reinterpretation. */
  function AsU64(y: i64): (r: u64)
    ensures 0 <= y ==> r == y
    ensures y < 0 ==> r == y + TWO_POW_64 && r >= TWO_POW_63
  {
    if 0 <= y then y else y + TWO_POW_64
  }

  /** The i64 cast loses nothing: reading the stored value back as u64
      gives the original. */
  lemma AsI64RoundTrip(x: u64)
    ensures AsU64(AsI64(x)) == x
  {
  }
}
