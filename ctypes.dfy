/** The fixed-width C types the program uses, on an LP64 platform. */
module CTypes {

  /** 2^64: size_t and unsigned long arithmetic is taken modulo this value. */
  const WORD_MODULUS: int := 0x1_0000_0000_0000_0000

  /** size_t */
  type SizeT = n: int | 0 <= n < WORD_MODULUS

  /** unsigned long */
  type ULong = n: int | 0 <= n < WORD_MODULUS

  /** uint8_t, one colour channel */
  type Byte = b: int | 0 <= b < 256
}
