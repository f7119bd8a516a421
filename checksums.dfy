/**
 * Page trailers and the read-side checksum policy.
 *
 * The CRC-32C computation is an external library; the model takes it as a
 * total function value `crc` from payload bytes to a 32-bit word, and builds
 * the file's `checksum` from it exactly as the source does: CRC-32C of the
 * payload, then the byte reversal of `swap_uint32`.
 */
module Checksums {
  import opened Words
  import opened Paging

  /** CRC-32C (polynomial 0x1EDC6F41, reflected, initial value and final XOR 0xFFFFFFFF). */
  type Crc32c = seq<byte> -> uint32

  /** `checksum`: the CRC of the payload with its bytes reversed. */
  function Checksum(crc: Crc32c, payload: seq<byte>): uint32
  {
    SwapUint32(crc(payload))
  }

  /** The first LogicalPageSize bytes of a physical page. */
  function Payload(page: seq<byte>): (p: seq<byte>)
    requires |page| == PhysicalPageSize
    ensures |p| == LogicalPageSize
  {
    page[..LogicalPageSize]
  }

  /** The 4-byte trailer of a physical page read as a little-endian word. */
  function StoredChecksum(page: seq<byte>): uint32
    requires |page| == PhysicalPageSize
  {
    DecodeLE(page[LogicalPageSize..])
  }

  /** A page whose trailer agrees with its payload: `verifyChecksum` accepts it. */
  predicate Intact(crc: Crc32c, page: seq<byte>)
    requires |page| == PhysicalPageSize
  {
    StoredChecksum(page) == Checksum(crc, Payload(page))
  }

  /** Page `page` lies wholly inside the store and is intact. */
  predicate PageIntactAt(crc: Crc32c, store: seq<byte>, page: nat)
  {
    PageStart(page) + PhysicalPageSize <= |store| && Intact(crc, PageAt(store, page))
  }

  /**
   * What `writePhysicalPage` puts on the store: the payload unchanged and the
   * trailer overwritten with the checksum of that payload.
   */
  function SealPage(crc: Crc32c, page: seq<byte>): (r: seq<byte>)
    requires |page| == PhysicalPageSize
    ensures |r| == PhysicalPageSize
    ensures Payload(r) == Payload(page)
  {
    Payload(page) + EncodeLE(Checksum(crc, Payload(page)))
  }

  /** A sealed page is intact: `verifyChecksum` accepts every page `writePhysicalPage` wrote. */
  lemma SealPageIntact(crc: Crc32c, page: seq<byte>)
    requires |page| == PhysicalPageSize
    ensures Intact(crc, SealPage(crc, page))
  {
    var r := SealPage(crc, page);
    assert r[LogicalPageSize..] == EncodeLE(Checksum(crc, Payload(page)));
    DecodeEncode(Checksum(crc, Payload(page)));
  }

  type Modulus = m: nat | m > 0 witness 1

  /**
   * The read checksum policy. The source's percentage policy is turned into
   * a modulus by floating point rounding of 100 / percentage; the model takes
   * that modulus directly.
   */
  datatype ChecksumPolicy = ChecksumNone | ChecksumAll | ChecksumSampled(checksumMod: Modulus)

  /**
   * Whether `read` verifies page `page` when `nRead` bytes are still to be
   * copied (counting this page's).
   */
  predicate ShouldVerify(policy: ChecksumPolicy, page: nat, nRead: nat)
  {
    match policy
    case ChecksumNone => false
    case ChecksumAll => true
    case ChecksumSampled(m) => page % m == 0 || nRead < PhysicalPageSize
  }
}
