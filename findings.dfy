/**
 * The memory backend's page read, as written and as corrected.
 *
 * On the memory backend `readPhysicalPage` seeks to the start of the page
 * and hands a whole physical page to BufferView `read`, which copies without
 * any bound check. The seek only demands that the page START inside the
 * block. For a block whose size is not a whole number of pages, the last page
 * starts inside the block but ends beyond it, and the copy takes bytes from
 * whatever memory follows the caller's block. The rest of the model uses the
 * corrected fetch, Backends.FetchPage, which refuses such a page with
 * ErrorReadFailed, as a short read on a descriptor does.
 */
module Findings {
  import opened Words
  import opened Paging
  import opened Results
  import opened Checksums
  import opened Backends
  import opened ReadSpec
  import opened WriteSpec

  /**
   * The memory fetch as written. `block` is the caller's block and `beyond`
   * the memory that happens to follow it. The seek to the start of the page
   * must succeed; then a whole physical page is copied from the block and,
   * past its end, from `beyond`.
   */
  function AsWrittenMemoryFetch(block: seq<byte>, beyond: seq<byte>, page: nat): (r: Result<seq<byte>>)
    requires PageStart(page) + PhysicalPageSize <= |block| + |beyond|
    ensures r.Ok? <==> PageStart(page) <= |block|
    ensures r.Ok? ==> |r.value| == PhysicalPageSize
    ensures r.Ok? && PageStart(page) + PhysicalPageSize <= |block| ==> r.value == PageAt(block, page)
  {
    if !SeekSetSucceeds(Memory, |block|, PageStart(page)) then Err(ErrorSeekFailed)
    else Ok((block + beyond)[PageStart(page)..PageStart(page) + PhysicalPageSize])
  }

  /**
   * A 500-byte block: its logical length is 500, so reading one byte at
   * offset 0 passes the bounds check of `read`, the seek to page 0 succeeds,
   * and the page the as-written fetch returns differs with the memory after
   * the block: the read depends on bytes the caller never handed over.
   */
  lemma AsWrittenReadsBeyondBlock()
    ensures PhysicalToLogical(0) + 1 <= PhysicalToLogical(500)
    ensures AsWrittenMemoryFetch(Zeros(500), Zeros(524), 0).Ok?
    ensures AsWrittenMemoryFetch(Zeros(500), Zeros(524), 0) != AsWrittenMemoryFetch(Zeros(500), seq(524, _ => 1), 0)
  {
    var quiet := AsWrittenMemoryFetch(Zeros(500), Zeros(524), 0).value;
    var noisy := AsWrittenMemoryFetch(Zeros(500), seq(524, _ => 1), 0).value;
    assert quiet[500] == 0 && noisy[500] == 1;
  }

  /**
   * The corrected fetch agrees with the as-written one wherever the page lies
   * inside the block, and fails with ErrorReadFailed where the as-written one
   * would read beyond it; so it never depends on the memory after the block.
   */
  lemma CorrectedFetchStaysInBlock(block: seq<byte>, beyond: seq<byte>, page: nat)
    requires PageStart(page) + PhysicalPageSize <= |block| + |beyond|
    ensures PageStart(page) + PhysicalPageSize <= |block| ==>
      FetchPage(Memory, block, page) == AsWrittenMemoryFetch(block, beyond, page)
    ensures PageStart(page) <= |block| < PageStart(page) + PhysicalPageSize ==>
      AsWrittenMemoryFetch(block, beyond, page).Ok? && FetchPage(Memory, block, page) == Err(ErrorReadFailed)
  {
  }

  /** With the correction, the one-byte read of the 500-byte block fails with ErrorReadFailed whatever the policy. */
  lemma CorrectedReadOfShortBlockFails(crc: Crc32c, policy: ChecksumPolicy)
    ensures ReadOutcome(Memory, Zeros(500), 0, PhysicalToLogical(500), crc, policy, 1) == Err(ErrorReadFailed)
  {
    ReadPagesTurn(Memory, Zeros(500), crc, policy, 0, 0, 1);
  }
}
