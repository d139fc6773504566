/** The C integer and character types the kernel code works with. */
module CTypes {
  type u8 = x: int | 0 <= x < 0x100
  type u16 = x: int | 0 <= x < 0x1_0000
  type u32 = x: int | 0 <= x < 0x1_0000_0000
  type u64 = x: int | 0 <= x < 0x1_0000_0000_0000_0000
  type i32 = x: int | -0x8000_0000 <= x < 0x8000_0000
  type i64 = x: int | -0x8000_0000_0000_0000 <= x < 0x8000_0000_0000_0000

  /** The modulus of C's `uint32_t` arithmetic. */
  const Word32 := 0x1_0000_0000
  /** The modulus of C's `uint64_t` arithmetic. */
  const Word64 := 0x1_0000_0000_0000_0000

  /** A character of a C string on AArch64, where plain `char` is an unsigned byte. */
  type Char8 = c: char | c as int < 0x100 witness ' '

  /** A value converted to `int32_t`: its low 32 bits read as two's complement. */
  function AsI32(x: int): (r: i32)
    ensures -0x8000_0000 <= x < 0x8000_0000 ==> r == x
    ensures (r - x) % Word32 == 0
  {
    var t := x % Word32;
    if t < 0x8000_0000 then t else t - Word32
  }

  /** A value converted to `int64_t`: its low 64 bits read as two's complement. */
  function AsI64(x: int): (r: i64)
    ensures -0x8000_0000_0000_0000 <= x < 0x8000_0000_0000_0000 ==> r == x
    ensures (r - x) % Word64 == 0
  {
    var t := x % Word64;
    if t < 0x8000_0000_0000_0000 then t else t - Word64
  }
}
