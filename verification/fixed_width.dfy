/** The fixed-width integer types of the C++ sources, as ranges of `int`,
    with the two's-complement conversions the code relies on. */
module FixedWidth {

  const Two8: int := 0x100
  const Two16: int := 0x1_0000
  const Two32: int := 0x1_0000_0000
  const Two63: int := 0x8000_0000_0000_0000
  const Two64: int := 0x1_0000_0000_0000_0000

  type uint8 = x: int | 0 <= x < 0x100
  type uint16 = x: int | 0 <= x < 0x1_0000
  type uint32 = x: int | 0 <= x < 0x1_0000_0000
  type uint64 = x: int | 0 <= x < 0x1_0000_0000_0000_0000

  const Int32Min: int := -0x8000_0000
  const Int32Max: int := 0x7FFF_FFFF
  type int64 = x: int | -0x8000_0000_0000_0000 <= x < 0x8000_0000_0000_0000

  /** Unsigned 64-bit subtraction, which wraps modulo 2^64. */
  function SubU64(a: uint64, b: uint64): (r: uint64)
    ensures r == a - b || r == a - b + Two64
    ensures a >= b ==> r == a - b
  {
    if a >= b then a - b else a - b + Two64
  }

  /** `static_cast<int64_t>` of a `uint64_t`: the same bit pattern read as
      two's complement. */
  function AsSigned64(u: uint64): (r: int64)
    ensures r == u || r == u - Two64
    ensures r < 0 <==> u >= Two63
  {
    if u < Two63 then u else u - Two64
  }
}
