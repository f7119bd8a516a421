/**
 * What the page loop shared by `CheckedFile::write` and `CheckedFile::extend`
 * does to the store, and what is proved about it.
 *
 * Both operations walk the pages of a logical range. A page that starts
 * inside the store is read back first; a page beyond it starts from whatever
 * the scratch page buffer holds (zeros on the first page, the previous page
 * on later ones). The new bytes are copied over the payload, the trailer is
 * recomputed, and the whole page is written back. `write` copies the caller's
 * bytes; `extend` copies zeros.
 */
module WriteSpec {
  import opened Words
  import opened Paging
  import opened Results
  import opened Checksums
  import opened Backends
  import opened ReadSpec

  /** `n` zero bytes: what `memset(…, 0, n)` copies. */
  function Zeros(n: nat): (z: seq<byte>)
    ensures |z| == n
  {
    seq(n, _ => 0)
  }

  /** `base` with `chunk` copied over it at `offset`: the `memcpy` into the page buffer. */
  function Overlay(base: seq<byte>, offset: nat, chunk: seq<byte>): (r: seq<byte>)
    requires offset + |chunk| <= |base|
    ensures |r| == |base|
  {
    base[..offset] + chunk + base[offset + |chunk|..]
  }

  /** Inside the copied range the overlay holds the chunk, elsewhere the base. */
  lemma OverlayAt(base: seq<byte>, offset: nat, chunk: seq<byte>, j: nat)
    requires offset + |chunk| <= |base| && j < |base|
    ensures Overlay(base, offset, chunk)[j] == if offset <= j < offset + |chunk| then chunk[j - offset] else base[j]
  {
  }

  /**
   * The page buffer the loop edits for page `page`: the stored page when it
   * starts inside the store, otherwise the buffer as the previous turn left it.
   */
  function PageBase(store: seq<byte>, buffer: seq<byte>, page: nat): (b: seq<byte>)
    requires |buffer| == PhysicalPageSize && |store| % PhysicalPageSize == 0
    ensures |b| == PhysicalPageSize
  {
    if PageStart(page) < |store| then
      AlignedPageFits(|store|, page);
      PageAt(store, page)
    else buffer
  }

  /** The page one turn of the loop writes: the edited buffer with its trailer recomputed. */
  function WrittenPage(crc: Crc32c, store: seq<byte>, buffer: seq<byte>, page: nat, pageOffset: nat,
                       chunk: seq<byte>): (w: seq<byte>)
    requires |buffer| == PhysicalPageSize && |store| % PhysicalPageSize == 0
    requires pageOffset + |chunk| <= LogicalPageSize
    ensures |w| == PhysicalPageSize
  {
    SealPage(crc, Overlay(PageBase(store, buffer, page), pageOffset, chunk))
  }

  /**
   * The state of the page loop at the top of a turn: the store, the scratch
   * page buffer, the page and the offset in its payload the next byte goes
   * to, and the bytes still to copy.
   */
  datatype PageLoop = PageLoop(store: seq<byte>, buffer: seq<byte>, page: nat, pageOffset: nat, data: seq<byte>)
  {
    /** A whole page of buffer, a store of whole pages, an offset inside the payload. */
    predicate Wf()
    {
      |buffer| == PhysicalPageSize && |store| % PhysicalPageSize == 0 && pageOffset < LogicalPageSize
    }

    /** The logical offset the remaining bytes go to. */
    function Start(): nat
    {
      page * LogicalPageSize + pageOffset
    }

    /** How many bytes this turn copies: the rest of the data or the rest of the payload, whichever is shorter. */
    function ChunkSize(): nat
      requires Wf()
    {
      Min(|data|, LogicalPageSize - pageOffset)
    }
  }

  /**
   * One turn: the page is fetched or the buffer reused, the chunk is copied
   * over its payload, the trailer is recomputed, and the page is written back
   * at its place; the next turn starts at the beginning of the next page.
   */
  function Next(crc: Crc32c, s: PageLoop): (t: PageLoop)
    requires s.Wf() && |s.data| > 0
    ensures t.Wf() && |t.data| < |s.data|
  {
    var n := s.ChunkSize();
    var written := WrittenPage(crc, s.store, s.buffer, s.page, s.pageOffset, s.data[..n]);
    PageStartAligned(s.page);
    PageLoop(WriteAt(s.store, PageStart(s.page), written), written, s.page + 1, 0, s.data[n..])
  }

  /** The next state, from the page one turn writes: the store with that page in place, and that page as the buffer. */
  lemma NextWrites(crc: Crc32c, s: PageLoop, written: seq<byte>)
    requires s.Wf() && |s.data| > 0
    requires written == SealPage(crc, Overlay(PageBase(s.store, s.buffer, s.page), s.pageOffset, s.data[..s.ChunkSize()]))
    ensures Next(crc, s) == PageLoop(WriteAt(s.store, PageStart(s.page), written), written, s.page + 1, 0, s.data[s.ChunkSize()..])
  {
  }

  /** The store after the loop, and whether the loop ran to its end. */
  datatype WriteLoop = WriteLoop(store: seq<byte>, outcome: Outcome)

  /**
   * The page loop of `write` and `extend`, turn by turn until no data is
   * left. Writing a page first seeks to it, which fails beyond INT64_MAX,
   * then writes it, which fails when the page would end beyond INT64_MAX. A
   * failure ends the loop and leaves the pages already written in place.
   *
   * As for the read loop, each step of a turn is its own function, so that
   * the verifier unfolds one step at a time.
   */
  function WritePages(crc: Crc32c, s: PageLoop): WriteLoop
    requires s.Wf()
    decreases |s.data|, 2
  {
    if |s.data| == 0 then WriteLoop(s.store, Pass) else SeekThenWrite(crc, s)
  }

  /** The seek to the page a turn writes. */
  function SeekThenWrite(crc: Crc32c, s: PageLoop): WriteLoop
    requires s.Wf() && |s.data| > 0
    decreases |s.data|, 1
  {
    if PageStart(s.page) > MaxInt64 then WriteLoop(s.store, Fail(ErrorSeekFailed))
    else WriteThenRest(crc, s)
  }

  /** The write of the page, then the rest of the loop. */
  function WriteThenRest(crc: Crc32c, s: PageLoop): WriteLoop
    requires s.Wf() && |s.data| > 0
    decreases |s.data|, 0
  {
    if PageStart(s.page) + PhysicalPageSize > MaxInt64 then WriteLoop(s.store, Fail(ErrorWriteFailed))
    else WritePages(crc, Next(crc, s))
  }

  /** A turn of the loop with data left: it fails on the seek, fails on the write, or goes on from the next state. */
  lemma WritePagesTurn(crc: Crc32c, s: PageLoop)
    requires s.Wf() && |s.data| > 0
    ensures WritePages(crc, s) ==
      if PageStart(s.page) > MaxInt64 then WriteLoop(s.store, Fail(ErrorSeekFailed))
      else if PageStart(s.page) + PhysicalPageSize > MaxInt64 then WriteLoop(s.store, Fail(ErrorWriteFailed))
      else WritePages(crc, Next(crc, s))
  {
    assert SeekThenWrite(crc, s) == WritePages(crc, s);
    if PageStart(s.page) <= MaxInt64 {
      assert WriteThenRest(crc, s) == SeekThenWrite(crc, s);
    }
  }

  // ---------------------------------------------------------------------
  // One turn of the loop

  /** The byte at offset `x` of the page one turn writes: the chunk inside its range, the base page elsewhere. */
  lemma WrittenPageAt(crc: Crc32c, store: seq<byte>, buffer: seq<byte>, page: nat, pageOffset: nat, chunk: seq<byte>, x: nat)
    requires |buffer| == PhysicalPageSize && |store| % PhysicalPageSize == 0
    requires pageOffset + |chunk| <= LogicalPageSize && x < LogicalPageSize
    ensures WrittenPage(crc, store, buffer, page, pageOffset, chunk)[x] ==
      if pageOffset <= x < pageOffset + |chunk| then chunk[x - pageOffset] else PageBase(store, buffer, page)[x]
  {
    var o := Overlay(PageBase(store, buffer, page), pageOffset, chunk);
    var w := SealPage(crc, o);
    assert w[x] == Payload(w)[x] == Payload(o)[x] == o[x];
    OverlayAt(PageBase(store, buffer, page), pageOffset, chunk, x);
  }

  /** One turn grows the store to the end of the page it writes, if it was shorter. */
  lemma StepLength(crc: Crc32c, s: PageLoop)
    requires s.Wf() && |s.data| > 0
    ensures |Next(crc, s).store| == Max(|s.store|, PageStart(s.page + 1))
  {
    PageStartAligned(s.page);
  }

  /** After one turn, the byte at offset `x` of the page written. */
  lemma StepAtWritten(crc: Crc32c, s: PageLoop, x: nat)
    requires s.Wf() && |s.data| > 0 && x < LogicalPageSize
    ensures PhysicalByte(Next(crc, s).store, PageStart(s.page) + x) ==
      if s.pageOffset <= x < s.pageOffset + s.ChunkSize() then s.data[x - s.pageOffset]
      else if PageStart(s.page) < |s.store| then PhysicalByte(s.store, PageStart(s.page) + x)
      else s.buffer[x]
  {
    var n := s.ChunkSize();
    var w := WrittenPage(crc, s.store, s.buffer, s.page, s.pageOffset, s.data[..n]);
    PageStartAligned(s.page);
    WriteAtEffect(s.store, PageStart(s.page), w, PageStart(s.page) + x);
    WrittenPageAt(crc, s.store, s.buffer, s.page, s.pageOffset, s.data[..n], x);
    if PageStart(s.page) < |s.store| {
      AlignedPageFits(|s.store|, s.page);
    }
  }

  /** After one turn, a byte of another page is what it was. */
  lemma StepAtOther(crc: Crc32c, s: PageLoop, q: nat, x: nat)
    requires s.Wf() && |s.data| > 0 && x < LogicalPageSize && q != s.page
    ensures PhysicalByte(Next(crc, s).store, PageStart(q) + x) == PhysicalByte(s.store, PageStart(q) + x)
  {
    var n := s.ChunkSize();
    var w := WrittenPage(crc, s.store, s.buffer, s.page, s.pageOffset, s.data[..n]);
    var at := PageStart(q) + x;
    var r := WriteAt(s.store, PageStart(s.page), w);
    assert Next(crc, s).store == r;
    if q < s.page {
      PageStartOrder(q, s.page);
    } else {
      PageStartOrder(s.page, q);
    }
    if at < |r| {
      WriteAtEffect(s.store, PageStart(s.page), w, at);
    }
  }

  /**
   * After one turn, the byte at offset `x` of page `q`: on another page it is
   * what it was; on the page written it is the data's byte inside the chunk,
   * and outside it the stored byte, or the buffer's byte on a page new to the
   * store.
   */
  lemma StepAt(crc: Crc32c, s: PageLoop, q: nat, x: nat)
    requires s.Wf() && |s.data| > 0 && x < LogicalPageSize
    ensures PhysicalByte(Next(crc, s).store, PageStart(q) + x) ==
      if q != s.page then PhysicalByte(s.store, PageStart(q) + x)
      else if s.pageOffset <= x < s.pageOffset + s.ChunkSize() then s.data[x - s.pageOffset]
      else if PageStart(s.page) < |s.store| then PhysicalByte(s.store, PageStart(q) + x)
      else s.buffer[x]
  {
    if q == s.page {
      StepAtWritten(crc, s, x);
    } else {
      StepAtOther(crc, s, q, x);
    }
  }

  /** After one turn the page written is intact, and every other whole page of the store is as it was. */
  lemma StepPages(crc: Crc32c, s: PageLoop, q: nat)
    requires s.Wf() && |s.data| > 0
    ensures PageIntactAt(crc, Next(crc, s).store, s.page)
    ensures q != s.page && PageStart(q) + PhysicalPageSize <= |s.store| ==>
      PageStart(q) + PhysicalPageSize <= |Next(crc, s).store| && PageAt(Next(crc, s).store, q) == PageAt(s.store, q)
  {
    var n := s.ChunkSize();
    var w := WrittenPage(crc, s.store, s.buffer, s.page, s.pageOffset, s.data[..n]);
    var store1 := Next(crc, s).store;
    StepLength(crc, s);
    WriteAtSlice(s.store, PageStart(s.page), w);
    assert PageAt(store1, s.page) == w;
    SealPageIntact(crc, Overlay(PageBase(s.store, s.buffer, s.page), s.pageOffset, s.data[..n]));
    if q != s.page && PageStart(q) + PhysicalPageSize <= |s.store| {
      if q < s.page {
        PageStartOrder(q, s.page);
      } else {
        PageStartOrder(s.page, q);
      }
      forall j | 0 <= j < PhysicalPageSize
        ensures PageAt(store1, q)[j] == PageAt(s.store, q)[j]
      {
        WriteAtEffect(s.store, PageStart(s.page), w, PageStart(q) + j);
      }
    }
  }

  /** The next turn starts where this one stopped, at the next page. */
  lemma StepRange(crc: Crc32c, s: PageLoop)
    requires s.Wf() && |s.data| > 0
    ensures Next(crc, s).Start() == s.Start() + s.ChunkSize() || |Next(crc, s).data| == 0
    ensures |Next(crc, s).data| == |s.data| - s.ChunkSize()
    ensures |Next(crc, s).data| > 0 ==> s.ChunkSize() == LogicalPageSize - s.pageOffset
    ensures |Next(crc, s).data| > 0 ==>
      LastPage(Next(crc, s).Start(), |Next(crc, s).data|) == LastPage(s.Start(), |s.data|)
    ensures |Next(crc, s).data| == 0 ==> LastPage(s.Start(), |s.data|) == s.page
  {
    if |s.data| > s.ChunkSize() {
      ReadTailSameRange(s.page, s.pageOffset, |s.data|, 0);
    }
  }

  // ---------------------------------------------------------------------
  // The whole loop

  /**
   * The loop runs to its end exactly when every page of the range ends at or
   * below INT64_MAX; otherwise it stops with a failed seek or a failed write.
   */
  lemma {:induction false} WritePagesPass(crc: Crc32c, s: PageLoop)
    requires s.Wf()
    ensures WritePages(crc, s).outcome.Pass? <==>
      |s.data| == 0 || PageStart(LastPage(s.Start(), |s.data|)) + PhysicalPageSize <= MaxInt64
    ensures WritePages(crc, s).outcome.Fail? ==>
      WritePages(crc, s).outcome.error == ErrorSeekFailed || WritePages(crc, s).outcome.error == ErrorWriteFailed
    decreases |s.data|
  {
    if |s.data| > 0 {
      WritePagesTurn(crc, s);
      assert s.page <= LastPage(s.Start(), |s.data|);
      if PageStart(s.page) + PhysicalPageSize <= MaxInt64 {
        StepRange(crc, s);
        WritePagesPass(crc, Next(crc, s));
      } else {
        PageStartAligned(s.page);
        if s.page < LastPage(s.Start(), |s.data|) {
          PageStartOrder(s.page, LastPage(s.Start(), |s.data|));
        }
      }
    }
  }

  /** A loop that ran to its end over some data wrote nothing beyond INT64_MAX, in either coordinate space. */
  lemma WritePagesEnd(crc: Crc32c, s: PageLoop)
    requires s.Wf() && WritePages(crc, s).outcome.Pass?
    ensures |s.data| > 0 ==> s.Start() + |s.data| <= MaxInt64
  {
    WritePagesPass(crc, s);
    if |s.data| > 0 {
      var last := LastPage(s.Start(), |s.data|);
      assert s.Start() + |s.data| <= (last + 1) * LogicalPageSize;
      assert (last + 1) * LogicalPageSize <= (last + 1) * PhysicalPageSize == PageStart(last) + PhysicalPageSize;
    }
  }

  /** A loop that ran to its end leaves the store grown to the end of the last page written, if it was shorter. */
  lemma {:induction false} WritePagesLength(crc: Crc32c, s: PageLoop)
    requires s.Wf() && WritePages(crc, s).outcome.Pass?
    ensures |WritePages(crc, s).store| % PhysicalPageSize == 0
    ensures |s.data| == 0 ==> WritePages(crc, s).store == s.store
    ensures |s.data| > 0 ==>
      |WritePages(crc, s).store| == Max(|s.store|, PageStart(LastPage(s.Start(), |s.data|) + 1))
    decreases |s.data|
  {
    if |s.data| > 0 {
      WritePagesTurn(crc, s);
      StepLength(crc, s);
      StepRange(crc, s);
      WritePagesLength(crc, Next(crc, s));
      if |Next(crc, s).data| > 0 {
        if s.page + 1 < LastPage(s.Start(), |s.data|) + 1 {
          PageStartOrder(s.page + 1, LastPage(s.Start(), |s.data|) + 1);
        }
      }
    }
  }

  /** After a loop that ran to its end, the byte at offset `x` of a page inside the range is the matching byte of the data. */
  lemma {:induction false} WritePagesWritesAt(crc: Crc32c, s: PageLoop, q: nat, x: nat)
    requires s.Wf() && WritePages(crc, s).outcome.Pass? && x < LogicalPageSize
    requires s.Start() <= q * LogicalPageSize + x < s.Start() + |s.data|
    ensures PhysicalByte(WritePages(crc, s).store, PageStart(q) + x) == s.data[q * LogicalPageSize + x - s.Start()]
    decreases |s.data|
  {
    WritePagesTurn(crc, s);
    StepAt(crc, s, q, x);
    if q == s.page {
      WritePagesKeepsBeforeAt(crc, Next(crc, s), q, x);
    } else {
      StepRange(crc, s);
      WritePagesWritesAt(crc, Next(crc, s), q, x);
    }
  }

  /**
   * After a loop that ran to its end, a byte of a page before the range is
   * what it was, provided the first page either lies in the store or starts
   * from a buffer whose byte there is zero.
   */
  lemma {:induction false} WritePagesKeepsBeforeAt(crc: Crc32c, s: PageLoop, q: nat, x: nat)
    requires s.Wf() && WritePages(crc, s).outcome.Pass? && x < LogicalPageSize
    requires q < s.page || (q == s.page && x < s.pageOffset)
    requires PageStart(s.page) < |s.store| || q < s.page || s.buffer[x] == 0
    ensures PhysicalByte(WritePages(crc, s).store, PageStart(q) + x) == PhysicalByte(s.store, PageStart(q) + x)
    decreases |s.data|
  {
    if |s.data| > 0 {
      WritePagesTurn(crc, s);
      StepAt(crc, s, q, x);
      WritePagesKeepsBeforeAt(crc, Next(crc, s), q, x);
    }
  }

  /** After a loop that ran to its end, a byte the store held after the range is what it was. */
  lemma {:induction false} WritePagesKeepsAfterAt(crc: Crc32c, s: PageLoop, q: nat, x: nat)
    requires s.Wf() && WritePages(crc, s).outcome.Pass? && x < LogicalPageSize
    requires s.Start() + |s.data| <= q * LogicalPageSize + x && PageStart(q) + x < |s.store|
    ensures PhysicalByte(WritePages(crc, s).store, PageStart(q) + x) == PhysicalByte(s.store, PageStart(q) + x)
    decreases |s.data|
  {
    if |s.data| > 0 {
      WritePagesTurn(crc, s);
      StepAt(crc, s, q, x);
      StepLength(crc, s);
      StepRange(crc, s);
      if |Next(crc, s).data| > 0 {
        WritePagesKeepsAfterAt(crc, Next(crc, s), q, x);
      }
    }
  }

  /**
   * After a loop that ran to its end, every page it wrote is intact, and
   * every whole page of the old store outside the range is as it was.
   */
  lemma {:induction false} WritePagesPages(crc: Crc32c, s: PageLoop, q: nat)
    requires s.Wf() && WritePages(crc, s).outcome.Pass?
    ensures |s.data| > 0 && s.page <= q <= LastPage(s.Start(), |s.data|) ==> PageIntactAt(crc, WritePages(crc, s).store, q)
    ensures (|s.data| == 0 || q < s.page || LastPage(s.Start(), |s.data|) < q) && PageStart(q) + PhysicalPageSize <= |s.store| ==>
      PageStart(q) + PhysicalPageSize <= |WritePages(crc, s).store| && PageAt(WritePages(crc, s).store, q) == PageAt(s.store, q)
    decreases |s.data|
  {
    if |s.data| > 0 {
      WritePagesTurn(crc, s);
      StepPages(crc, s, q);
      StepRange(crc, s);
      if |Next(crc, s).data| > 0 {
        StepLength(crc, s);
        if q == s.page {
          PageStartOrder(s.page, s.page + 1);
        }
        WritePagesPages(crc, Next(crc, s), q);
      }
    }
  }

  /** After a loop that ran to its end, each logical byte of the range is the matching byte of the data. */
  lemma WritePagesWritesLogical(crc: Crc32c, s: PageLoop, i: nat)
    requires s.Wf() && WritePages(crc, s).outcome.Pass? && i < |s.data|
    ensures LogicalByte(WritePages(crc, s).store, s.Start() + i) == s.data[i]
  {
    var q, x := LogicalSplit(s.Start() + i);
    assert q * LogicalPageSize + x - s.Start() == i;
    WritePagesWritesAt(crc, s, q, x);
  }

  /** After a loop that ran to its end, the logical range holds the data. */
  lemma WritePagesContent(crc: Crc32c, s: PageLoop)
    requires s.Wf() && WritePages(crc, s).outcome.Pass?
    ensures LogicalSlice(WritePages(crc, s).store, s.Start(), |s.data|) == s.data
  {
    var slice := LogicalSlice(WritePages(crc, s).store, s.Start(), |s.data|);
    forall i | 0 <= i < |s.data|
      ensures slice[i] == s.data[i]
    {
      WritePagesWritesLogical(crc, s, i);
    }
  }

  /**
   * After a loop that ran to its end, every logical byte outside the range
   * reads as it did: before the range always (the gap between the old end of
   * the store and the range reads as zeros), provided the first page lies in
   * the store or the buffer it starts from is zero before the start offset;
   * after the range wherever the store held the byte.
   */
  lemma WritePagesKeepsOutside(crc: Crc32c, s: PageLoop, l: nat)
    requires s.Wf() && WritePages(crc, s).outcome.Pass?
    requires PageStart(s.page) < |s.store| || forall x :: 0 <= x < s.pageOffset ==> s.buffer[x] == 0
    requires l < s.Start() || (s.Start() + |s.data| <= l && LogicalToPhysical(l) < |s.store|)
    ensures LogicalByte(WritePages(crc, s).store, l) == LogicalByte(s.store, l)
  {
    var q, x := LogicalSplit(l);
    if l < s.Start() {
      WritePagesKeepsBeforeAt(crc, s, q, x);
    } else {
      WritePagesKeepsAfterAt(crc, s, q, x);
    }
  }

  /**
   * `extend` runs the loop with zeros from the current logical length to the
   * new one, starting from a zeroed buffer. Once it has run to its end, every
   * logical byte of the new range reads as zero, every byte before it reads
   * as it did, and a new length equal to the current one leaves the store as
   * it was.
   */
  lemma ExtendZeroFills(crc: Crc32c, store: seq<byte>, current: nat, target: nat, l: nat)
    requires |store| % PhysicalPageSize == 0 && current <= target
    requires WritePages(crc, PageLoop(store, Zeros(PhysicalPageSize), current / LogicalPageSize,
                                      current % LogicalPageSize, Zeros(target - current))).outcome.Pass?
    ensures var r := WritePages(crc, PageLoop(store, Zeros(PhysicalPageSize), current / LogicalPageSize,
                                              current % LogicalPageSize, Zeros(target - current)));
      (current <= l < target ==> LogicalByte(r.store, l) == 0) &&
      (l < current ==> LogicalByte(r.store, l) == LogicalByte(store, l)) &&
      (target == current ==> r.store == store)
  {
    var s := PageLoop(store, Zeros(PhysicalPageSize), current / LogicalPageSize,
                      current % LogicalPageSize, Zeros(target - current));
    assert s.Start() == current;
    if current <= l < target {
      WritePagesWritesLogical(crc, s, l - current);
    }
    if l < current {
      WritePagesKeepsOutside(crc, s, l);
    }
    if target == current {
      WritePagesLength(crc, s);
    }
  }

  /**
   * Read after write: once the loop has run to its end on an open backend,
   * reading the same logical range back succeeds under every checksum policy
   * and returns exactly the data.
   */
  lemma WriteThenReadPages(crc: Crc32c, s: PageLoop, kind: Backend, policy: ChecksumPolicy)
    requires s.Wf() && |s.store| <= MaxInt64 && |s.data| > 0 && kind != Closed
    requires WritePages(crc, s).outcome.Pass?
    ensures ReadPages(kind, WritePages(crc, s).store, crc, policy, s.page, s.pageOffset, |s.data|) == Ok(s.data)
  {
    var r := WritePages(crc, s);
    var last := LastPage(s.Start(), |s.data|);
    WritePagesPass(crc, s);
    WritePagesLength(crc, s);
    PageStartAligned(last);
    forall q | s.page <= q <= last
      ensures PageIntactAt(crc, r.store, q)
    {
      WritePagesPages(crc, s, q);
    }
    ReadIntactPagesSucceeds(kind, r.store, crc, policy, s.page, s.pageOffset, |s.data|);
    WritePagesContent(crc, s);
  }
}
