/** Byte-order reversal of 16-, 32- and 64-bit unsigned integers, written
    with the masks and shifts of the C++ functions. */
module ByteOrder {

  function SwapBytesShort(value: bv16): (r: bv16)
    ensures Byte16(r, 0) == Byte16(value, 1) && Byte16(r, 1) == Byte16(value, 0)
  {
    ((value & 0x00FF) << 8) |
    ((value & 0xFF00) >> 8)
  }

  function SwapBytesInt(value: bv32): (r: bv32)
    ensures forall k: bv2 :: Byte32(r, k) == Byte32(value, 3 - k)
  {
    ((value & 0x000000FF) << 24) |
    ((value & 0x0000FF00) << 8) |
    ((value & 0x00FF0000) >> 8) |
    ((value & 0xFF000000) >> 24)
  }

  /** The eight `result |= ...` statements, OR-ed onto a zero start. */
  function SwapBytesInt64(value: bv64): (r: bv64)
    ensures forall k: bv3 :: Byte64(r, k) == Byte64(value, 7 - k)
  {
    ((value & 0x00000000000000FF) << 56) |
    ((value & 0x000000000000FF00) << 40) |
    ((value & 0x0000000000FF0000) << 24) |
    ((value & 0x00000000FF000000) << 8) |
    ((value & 0x000000FF00000000) >> 8) |
    ((value & 0x0000FF0000000000) >> 24) |
    ((value & 0x00FF000000000000) >> 40) |
    ((value & 0xFF00000000000000) >> 56)
  }

  /** Byte `k` of a value, counting from the least significant byte. */
  function Byte16(v: bv16, k: bv1): bv8 {
    ((v >> (8 * (k as bv16))) & 0xFF) as bv8
  }

  function Byte32(v: bv32, k: bv2): bv8 {
    ((v >> (8 * (k as bv32))) & 0xFF) as bv8
  }

  function Byte64(v: bv64, k: bv3): bv8 {
    ((v >> (8 * (k as bv64))) & 0xFF) as bv8
  }

  /** The two 32-bit words of a 64-bit value. */
  function LowWord(v: bv64): bv32 {
    (v & 0xFFFF_FFFF) as bv32
  }

  function HighWord(v: bv64): bv32 {
    (v >> 32) as bv32
  }

  function FromWords(high: bv32, low: bv32): bv64 {
    ((high as bv64) << 32) | (low as bv64)
  }

  /** What `swapBytesDouble` does to the bit pattern of a double on a
      little-endian host: word 0 of the copy is the swapped word 1 of the
      original and word 1 is the swapped word 0. */
  function SwapBytesDoubleBits(bits: bv64): bv64 {
    var ptr0 := LowWord(bits);
    var ptr1 := HighWord(bits);
    FromWords(SwapBytesInt(ptr0), SwapBytesInt(ptr1))
  }

  lemma SwapBytesShortInvolution(v: bv16)
    ensures SwapBytesShort(SwapBytesShort(v)) == v
  {
  }

  lemma SwapBytesIntInvolution(v: bv32)
    ensures SwapBytesInt(SwapBytesInt(v)) == v
  {
  }

  lemma SwapBytesInt64Involution(v: bv64)
    ensures SwapBytesInt64(SwapBytesInt64(v)) == v
  {
  }

  /** The 64-bit reversal swaps the two words and reverses each. */
  lemma SwapBytesInt64Halves(v: bv64)
    ensures HighWord(SwapBytesInt64(v)) == SwapBytesInt(LowWord(v))
    ensures LowWord(SwapBytesInt64(v)) == SwapBytesInt(HighWord(v))
  {
  }

  /** So the word-wise reversal of `swapBytesDouble` is the 64-bit reversal. */
  lemma SwapBytesDoubleIsInt64(bits: bv64)
    ensures SwapBytesDoubleBits(bits) == SwapBytesInt64(bits)
  {
    SwapBytesInt64Halves(bits);
    var r := SwapBytesInt64(bits);
    assert r == FromWords(HighWord(r), LowWord(r));
  }

  lemma Examples()
    ensures SwapBytesInt(0x01020304) == 0x04030201
    ensures SwapBytesShort(0x0102) == 0x0201
    ensures SwapBytesInt64(0x0123456789ABCDEF) == 0xEFCDAB8967452301
  {
  }
}
