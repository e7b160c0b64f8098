/** The machine the C code runs on: byte, integer widths and conversions between them. */
module Machine {

  datatype Option<+T> = None | Some(value: T)

  /** One C `char`. Only equality with the command terminator and the digits matters. */
  type Byte = char

  const NEWLINE: Byte := '\n'

  const INT_MAX: nat := 0x7FFF_FFFF
  const TWO_31: int := 0x8000_0000
  const TWO_32: int := 0x1_0000_0000
  const TWO_63: int := 0x8000_0000_0000_0000
  const TWO_64: int := 0x1_0000_0000_0000_0000

  /** `loff_t`: a signed 64-bit file position. */
  type Loff = x: int | -TWO_63 <= x < TWO_63

  /** `size_t` arithmetic: every result is reduced modulo 2^64. */
  function U64(x: int): (r: nat)
    ensures r < TWO_64
    ensures 0 <= x < TWO_64 ==> r == x
  {
    x % 0x1_0000_0000_0000_0000
  }

  /** Conversion to `loff_t`, two's complement. */
  function S64(x: int): (r: Loff)
    ensures -TWO_63 <= x < TWO_63 ==> r == x
  {
    (x + 0x8000_0000_0000_0000) % 0x1_0000_0000_0000_0000 - 0x8000_0000_0000_0000
  }

  /** Conversion of a `size_t` to `int`, two's complement. */
  function AsInt32(x: nat): (r: int)
    ensures -TWO_31 <= r <= INT_MAX
    ensures x <= INT_MAX <==> r == x
  {
    (x + 0x8000_0000) % 0x1_0000_0000 - 0x8000_0000
  }
}
