/**
 * Page geometry and the two coordinate spaces of a checked file.
 *
 * The store is a sequence of physical pages of PhysicalPageSize bytes; each
 * page holds LogicalPageSize payload bytes followed by a 4-byte checksum
 * trailer. Physical offsets address the store, trailers included; logical
 * offsets address the payload bytes only.
 */
module Paging {
  import opened Words

  /** The physical page size is 2 raised to this power (1024 bytes). */
  const PhysicalPageSizeLog2: nat := 10
  const PhysicalPageSize: nat := 1024
  const PhysicalPageSizeMask: nat := PhysicalPageSize - 1
  /** The trailer is one `uint32_t`. */
  const ChecksumSize: nat := 4
  const LogicalPageSize: nat := 1020  // PhysicalPageSize - ChecksumSize

  datatype OffsetMode = Logical | Physical

  /** Physical offset of the first byte of a page. */
  function PageStart(page: nat): nat
  {
    page * PhysicalPageSize
  }

  /**
   * `physicalToLogical`: the page index is kept and the offset within the
   * page is clamped to the payload, so an offset inside a trailer maps to the
   * end of that page's payload.
   */
  function PhysicalToLogical(p: nat): (l: nat)
    ensures l <= p
    ensures l / LogicalPageSize == p / PhysicalPageSize || l == (p / PhysicalPageSize + 1) * LogicalPageSize
  {
    (p / PhysicalPageSize) * LogicalPageSize + Min(p % PhysicalPageSize, LogicalPageSize)
  }

  /**
   * `logicalToPhysical`: the same page index, the same offset within the
   * page. The result always lies in a payload, and translating it back gives
   * the logical offset again.
   */
  function LogicalToPhysical(l: nat): (p: nat)
    ensures p % PhysicalPageSize < LogicalPageSize
    ensures p / PhysicalPageSize == l / LogicalPageSize
    ensures PhysicalToLogical(p) == l
  {
    (l / LogicalPageSize) * PhysicalPageSize + l % LogicalPageSize
  }

  /** On payload offsets the two translations are inverse in the other direction too. */
  lemma PhysicalRoundTrip(p: nat)
    requires p % PhysicalPageSize < LogicalPageSize
    ensures LogicalToPhysical(PhysicalToLogical(p)) == p
  {
  }

  /** Both translations preserve order. */
  lemma TranslationsMonotone(a: nat, b: nat)
    requires a <= b
    ensures LogicalToPhysical(a) <= LogicalToPhysical(b)
    ensures PhysicalToLogical(a) <= PhysicalToLogical(b)
  {
    var pa, pb := a / LogicalPageSize, b / LogicalPageSize;
    assert pa <= pb;
    if pa < pb {
      assert LogicalToPhysical(a) < (pa + 1) * PhysicalPageSize <= pb * PhysicalPageSize;
    }
    var qa, qb := a / PhysicalPageSize, b / PhysicalPageSize;
    assert qa <= qb;
    if qa < qb {
      assert PhysicalToLogical(a) <= (qa + 1) * LogicalPageSize <= qb * LogicalPageSize;
    }
  }

  /** Offset `off` of the payload of page `page`, in both coordinate spaces. */
  lemma LogicalToPhysicalInPage(page: nat, off: nat)
    requires off < LogicalPageSize
    ensures LogicalToPhysical(page * LogicalPageSize + off) == PageStart(page) + off
  {
    var l := page * LogicalPageSize + off;
    assert l / LogicalPageSize == page;
    assert l % LogicalPageSize == off;
  }

  /** A logical offset as a page and an offset in its payload, and where that lies in the store. */
  lemma LogicalSplit(l: nat) returns (page: nat, off: nat)
    ensures off < LogicalPageSize && page * LogicalPageSize + off == l
    ensures LogicalToPhysical(l) == PageStart(page) + off
  {
    page, off := l / LogicalPageSize, l % LogicalPageSize;
  }

  /** The physical offset of a logical one grows by at most a factor of two. */
  lemma LogicalToPhysicalBound(l: nat)
    ensures l <= LogicalToPhysical(l) <= 2 * l
  {
  }

  function PageSize(omode: OffsetMode): nat
  {
    if omode == Physical then PhysicalPageSize else LogicalPageSize
  }

  /**
   * The arithmetic of `getCurrentPageAndOffset`: a position split into a page
   * index and an offset within that page. In physical mode the source shifts
   * by PhysicalPageSizeLog2 and masks with PhysicalPageSizeMask, which is
   * division and remainder by the power of two PhysicalPageSize.
   */
  function SplitOffset(pos: nat, omode: OffsetMode): (r: (nat, nat))
    ensures r.0 * PageSize(omode) + r.1 == pos
    ensures r.1 < PageSize(omode)
  {
    if omode == Physical then
      (pos / PhysicalPageSize, pos % PhysicalPageSize)
    else
      var page := pos / LogicalPageSize;
      (page, pos - page * LogicalPageSize)
  }

  /** Index of the page that holds the last byte of `count` logical bytes from `start`. */
  function LastPage(start: nat, count: nat): nat
    requires count > 0
  {
    (start + count - 1) / LogicalPageSize
  }

  /** The byte at physical offset `p` of a store; beyond its end a store reads as zero, as a hole in a file does. */
  function PhysicalByte(store: seq<byte>, p: nat): byte
  {
    if p < |store| then store[p] else 0
  }

  /** The byte at logical offset `l` of a store, read through the translation. */
  function LogicalByte(store: seq<byte>, l: nat): byte
  {
    PhysicalByte(store, LogicalToPhysical(l))
  }

  /** The `count` logical bytes that start at logical offset `start`. */
  function LogicalSlice(store: seq<byte>, start: nat, count: nat): (s: seq<byte>)
    ensures |s| == count
  {
    seq(count, i requires 0 <= i < count => LogicalByte(store, start + i))
  }

  /** A store made of whole pages holds every page that starts inside it. */
  lemma AlignedPageFits(size: nat, page: nat)
    requires size % PhysicalPageSize == 0 && PageStart(page) < size
    ensures PageStart(page) + PhysicalPageSize <= size
  {
    assert PageStart(page) / PhysicalPageSize == page;
    assert size == (size / PhysicalPageSize) * PhysicalPageSize;
  }

  /** Pages do not overlap: an earlier page ends where a later one starts, or before. */
  lemma PageStartOrder(a: nat, b: nat)
    requires a < b
    ensures PageStart(a) + PhysicalPageSize <= PageStart(b)
  {
  }

  /** Page starts are page-aligned and consecutive. */
  lemma PageStartAligned(page: nat)
    ensures PageStart(page) % PhysicalPageSize == 0
    ensures PageStart(page + 1) == PageStart(page) + PhysicalPageSize
  {
  }

  /** The bytes of page `page` of a store. */
  function PageAt(store: seq<byte>, page: nat): (b: seq<byte>)
    requires PageStart(page) + PhysicalPageSize <= |store|
    ensures |b| == PhysicalPageSize
  {
    store[PageStart(page)..PageStart(page) + PhysicalPageSize]
  }
}
