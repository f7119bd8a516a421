/**
 * Fixed-width integers as the checked-file layer uses them: bytes, the 32-bit
 * checksum word, 64-bit offsets, the reinterpreting casts between signed and
 * unsigned 64-bit values, and the byte order of the 4-byte page trailer.
 */
module Words {
  const TWO_64: int := 0x1_0000_0000_0000_0000
  /** INT64_MAX: the largest offset lseek can report. */
  const MaxInt64: int := 0x7FFF_FFFF_FFFF_FFFF
  const MinInt64: int := -0x8000_0000_0000_0000

  type byte = bv8
  type uint32 = bv32
  type uint64 = x: int | 0 <= x < TWO_64
  type int64 = x: int | MinInt64 <= x <= MaxInt64

  function Min(a: int, b: int): int { if a <= b then a else b }
  function Max(a: int, b: int): int { if a >= b then a else b }

  /** `static_cast<int64_t>` of a `uint64_t`: two's complement reinterpretation. */
  function ToInt64(u: uint64): (i: int64)
    ensures i >= 0 <==> u <= MaxInt64
    ensures i >= 0 ==> i == u
    ensures ToUint64(i) == u
  {
    if u <= MaxInt64 then u else u - TWO_64
  }

  /** `static_cast<uint64_t>` of an `int64_t`. */
  function ToUint64(i: int64): (u: uint64)
    ensures i >= 0 ==> u == i
    ensures i < 0 ==> u > MaxInt64
  {
    if i >= 0 then i else i + TWO_64
  }

  /**
   * The four bytes of a 32-bit word in little-endian order. The source stores
   * the trailer by reinterpreting the page bytes as a `uint32_t`, which is
   * host order; the model fixes it to little-endian.
   */
  function EncodeLE(x: uint32): (b: seq<byte>)
    ensures |b| == 4
  {
    [(x & 0xFF) as byte, ((x >> 8) & 0xFF) as byte,
     ((x >> 16) & 0xFF) as byte, ((x >> 24) & 0xFF) as byte]
  }

  /** Reads a little-endian 32-bit word back; it is the inverse of EncodeLE. */
  function DecodeLE(b: seq<byte>): (x: uint32)
    requires |b| == 4
    ensures EncodeLE(x) == b
  {
    (b[0] as uint32) | ((b[1] as uint32) << 8) | ((b[2] as uint32) << 16) | ((b[3] as uint32) << 24)
  }

  lemma DecodeEncode(x: uint32)
    ensures DecodeLE(EncodeLE(x)) == x
  {
  }

  /**
   * `swap_uint32`: swaps the bytes within each half-word, then the two
   * half-words, which reverses the four bytes of the word.
   */
  function SwapUint32(val: uint32): uint32
  {
    var v := ((val << 8) & 0xFF00FF00) | ((val >> 8) & 0xFF00FF);
    (v << 16) | (v >> 16)
  }

  /** The bytes of the swapped word are those of the word in reverse order. */
  lemma SwapUint32Bytes(val: uint32)
    ensures EncodeLE(SwapUint32(val)) == [EncodeLE(val)[3], EncodeLE(val)[2], EncodeLE(val)[1], EncodeLE(val)[0]]
  {
  }

  /** Reversing the bytes twice gives the word back. */
  lemma SwapUint32Involution(val: uint32)
    ensures SwapUint32(SwapUint32(val)) == val
  {
    var r := SwapUint32(SwapUint32(val));
    SwapUint32Bytes(val);
    SwapUint32Bytes(SwapUint32(val));
    assert EncodeLE(r) == EncodeLE(val);
    DecodeEncode(r);
    DecodeEncode(val);
  }
}
