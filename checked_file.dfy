/**
 * The checked file itself: a file of checksummed pages, read and written
 * through its logical offsets, on an OS descriptor or on a borrowed memory
 * block.
 *
 * The OS is modelled by two fields: `disk`, the bytes of the file the
 * descriptor is open on, and `osCursor`, its file offset. `lseek`, `read` and
 * `write` on the descriptor act on them deterministically: a seek fails on a
 * negative target or one beyond INT64_MAX, a read returns fewer bytes at the
 * end of the file, a write fails where the file would end beyond INT64_MAX,
 * and every call on the descriptor -1 fails as with EBADF.
 */
module CheckedFiles {
  import opened Words
  import opened Paging
  import opened Results
  import opened Checksums
  import opened BufferViews
  import opened Backends
  import opened ReadSpec
  import opened WriteSpec

  /** The largest logical page index whose page still starts below 2^64, for any logical offset up to INT64_MAX. */
  lemma PageStartFits(page: nat)
    requires page * LogicalPageSize <= MaxInt64
    ensures PageStart(page) < TWO_64
  {
    assert page <= 9042521604759584;
  }

  /** The result of a read loop: the bytes already copied, in front of whatever the rest of the loop gives. */
  function Prepend(prefix: seq<byte>, r: Result<seq<byte>>): Result<seq<byte>>
  {
    match r
    case Ok(s) => Ok(prefix + s)
    case Err(e) => Err(e)
  }

  /** Proof helper for the read loop: nothing copied yet leaves the result as it is. */
  lemma PrependNothing(r: Result<seq<byte>>)
    ensures Prepend([], r) == r
  {
    if r.Ok? {
      assert [] + r.value == r.value;
    }
  }

  /** Proof helper for the read loop: bytes already copied stay in front of whatever else the loop copies. */
  lemma PrependTwice(a: seq<byte>, b: seq<byte>, r: Result<seq<byte>>)
    ensures Prepend(a, Prepend(b, r)) == Prepend(a + b, r)
  {
    if r.Ok? {
      assert a + (b + r.value) == (a + b) + r.value;
    }
  }

  /** A page that is fetched and passes its check contributes its slice in front of the rest of the read. */
  lemma ReadPagesStep(kind: Backend, store: seq<byte>, crc: Crc32c, policy: ChecksumPolicy,
                      page: nat, pageOffset: nat, nRead: nat)
    requires pageOffset < LogicalPageSize && nRead > 0 && FetchPage(kind, store, page).Ok?
    requires ShouldVerify(policy, page, nRead) ==> Intact(crc, FetchPage(kind, store, page).value)
    ensures var n := Min(nRead, LogicalPageSize - pageOffset);
      ReadPages(kind, store, crc, policy, page, pageOffset, nRead)
        == Prepend(FetchPage(kind, store, page).value[pageOffset..pageOffset + n],
                   ReadPages(kind, store, crc, policy, page + 1, 0, nRead - n))
  {
    ReadPagesTurn(kind, store, crc, policy, page, pageOffset, nRead);
  }

  class CheckedFile {
    /** The CRC-32C function the checksums are computed with. */
    const crc: Crc32c
    /** How many pages `read` verifies. */
    const policy: ChecksumPolicy
    /** The OS descriptor, or -1 when there is none. */
    var fd: int
    /** The memory backend, or null. */
    var bufView: BufferView?
    var readOnly: bool
    /** The physical length found when a read-only file was opened. */
    var physicalLength: uint64
    /** The number of payload bytes the file holds, as far as the object knows. */
    var logicalLength: uint64
    /** The bytes of the file the descriptor is open on. */
    var disk: seq<byte>
    /** The descriptor's file offset. */
    var osCursor: nat

    /** Which backend the file talks to: `lseek64` tests `fd_ < 0 && bufView_ != nullptr` for the memory block. */
    ghost function Kind(): Backend
      reads `fd, `bufView
    {
      if fd >= 0 then Descriptor else if bufView != null then Memory else Closed
    }

    /** The bytes behind the backend. */
    ghost function Store(): seq<byte>
      reads `fd, `bufView, `disk
    {
      if Kind() == Memory then bufView.stream else disk
    }

    /** The backend's cursor. */
    ghost function Cursor(): nat
      reads `fd, `bufView, `osCursor, bufView
    {
      if Kind() == Memory then bufView.cursor else osCursor
    }

    /**
     * The backend invariant: a memory block only on a read-only file without a
     * descriptor; a writable file is a descriptor on whole pages; nothing
     * beyond INT64_MAX.
     */
    ghost predicate Backing()
      reads this, bufView
    {
      fd >= -1 &&
      (bufView != null ==> fd < 0 && readOnly && bufView.Valid() && bufView.streamSize <= MaxInt64) &&
      |disk| <= MaxInt64 && osCursor <= MaxInt64 &&
      (!readOnly ==> |disk| % PhysicalPageSize == 0)
    }

    /** The cached lengths: an open read-only file knows its physical length, and the logical length fits an `int64_t`. */
    ghost predicate Cached()
      reads `fd, `bufView, `disk, `readOnly, `physicalLength, `logicalLength
    {
      (readOnly && Kind() != Closed ==> physicalLength == |Store()|) && logicalLength <= MaxInt64
    }

    ghost predicate Valid()
      reads this, bufView
    {
      Backing() && Cached()
    }

    /**
     * Opens an existing file, whose bytes are `contents`, for reading on
     * descriptor `descriptor`; the physical length is found by seeking to the
     * end, and the cursor is put back at the start.
     */
    constructor OpenRead(descriptor: nat, contents: seq<byte>, crc: Crc32c, policy: ChecksumPolicy)
      requires |contents| <= MaxInt64
      ensures Valid() && Kind() == Descriptor && readOnly
      ensures Store() == contents && Cursor() == 0
      ensures physicalLength == |contents| && logicalLength == PhysicalToLogical(|contents|)
      ensures this.crc == crc && this.policy == policy
    {
      this.crc := crc;
      this.policy := policy;
      fd := descriptor;
      bufView := null;
      readOnly := true;
      physicalLength := 0;
      logicalLength := 0;
      disk := contents;
      osCursor := 0;
      new;
      var endPos := Lseek64(0, SeekEnd);
      physicalLength := endPos.value;
      var startPos := Lseek64(0, SeekSet);
      logicalLength := PhysicalToLogical(physicalLength);
    }

    /** Creates a file for writing on descriptor `descriptor`, truncated to zero length. */
    constructor OpenWrite(descriptor: nat, crc: Crc32c, policy: ChecksumPolicy)
      ensures Valid() && Kind() == Descriptor && !readOnly
      ensures Store() == [] && Cursor() == 0 && logicalLength == 0
      ensures this.crc == crc && this.policy == policy
    {
      this.crc := crc;
      this.policy := policy;
      fd := descriptor;
      bufView := null;
      readOnly := false;
      physicalLength := 0;
      logicalLength := 0;
      disk := [];
      osCursor := 0;
    }

    /**
     * Opens a read-only file over a caller's block of `size` bytes; the
     * lengths are found as for a file on disk.
     */
    constructor FromBuffer(input: seq<byte>, size: uint64, crc: Crc32c, policy: ChecksumPolicy)
      requires |input| == size && size <= MaxInt64
      ensures Valid() && Kind() == Memory && readOnly
      ensures Store() == input && Cursor() == 0
      ensures physicalLength == size && logicalLength == PhysicalToLogical(size)
      ensures this.crc == crc && this.policy == policy
      ensures fresh(bufView)
    {
      this.crc := crc;
      this.policy := policy;
      fd := -1;
      bufView := new BufferView(input, size);
      readOnly := true;
      physicalLength := 0;
      logicalLength := 0;
      disk := [];
      osCursor := 0;
      new;
      var endPos := Lseek64(0, SeekEnd);
      physicalLength := endPos.value;
      var startPos := Lseek64(0, SeekSet);
      logicalLength := PhysicalToLogical(physicalLength);
    }

    /**
     * `lseek64`: on the memory backend the offset is reinterpreted as
     * unsigned and handed to the BufferView; otherwise the descriptor seeks.
     * Either way a failure is ErrorSeekFailed.
     */
    method Lseek64(offset: int64, whence: Whence) returns (r: Result<uint64>)
      requires Backing()
      modifies `osCursor, bufView
      ensures Backing()
      ensures r == LseekResult(Kind(), |Store()|, old(Cursor()), offset, whence)
      ensures Cursor() == LseekCursor(Kind(), |Store()|, old(Cursor()), offset, whence)
    {
      if fd < 0 && bufView != null {
        var ok := bufView.Seek(ToUint64(offset), whence);
        if ok {
          r := Ok(bufView.Pos());
        } else {
          r := Err(ErrorSeekFailed);
        }
      } else if fd < 0 {
        r := Err(ErrorSeekFailed);
      } else {
        var target := DescriptorTarget(osCursor, |disk|, offset, whence);
        if 0 <= target <= MaxInt64 {
          osCursor := target;
          r := Ok(target);
        } else {
          r := Err(ErrorSeekFailed);
        }
      }
    }

    /** `position`: the cursor, translated to a logical offset on request; the cursor does not move. */
    method Position(omode: OffsetMode) returns (r: Result<uint64>)
      requires Backing()
      modifies `osCursor, bufView
      ensures Kind() == old(Kind()) && Store() == old(Store())
      ensures Backing() && Cursor() == old(Cursor())
      ensures Kind() == Closed ==> r == Err(ErrorSeekFailed)
      ensures Kind() != Closed ==>
        r == Ok(if omode == Physical then Cursor() else PhysicalToLogical(Cursor()))
    {
      var pos := Lseek64(0, SeekCur);
      if pos.Err? {
        return pos;
      }
      if omode == Physical {
        r := pos;
      } else {
        r := Ok(PhysicalToLogical(pos.value));
      }
    }

    /**
     * `length`: the logical length is the cached one; the physical length of
     * a read-only file is the one found at open, that of a writable file is
     * found by seeking to its end and back. Either way, on an open file it is
     * the size of the store.
     */
    method Length(omode: OffsetMode) returns (r: Result<uint64>)
      requires Valid()
      modifies `osCursor, bufView
      ensures Kind() == old(Kind()) && Store() == old(Store())
      ensures Valid() && Cursor() == old(Cursor())
      ensures omode == Logical ==> r == Ok(logicalLength)
      ensures omode == Physical && readOnly ==> r == Ok(physicalLength)
      ensures omode == Physical && Kind() != Closed ==> r == Ok(|Store()|)
      ensures omode == Physical && !readOnly && Kind() == Closed ==> r == Err(ErrorSeekFailed)
    {
      if omode == Logical {
        return Ok(logicalLength);
      }
      if readOnly {
        return Ok(physicalLength);
      }
      var originalPos := Lseek64(0, SeekCur);
      if originalPos.Err? {
        return originalPos;
      }
      var endPos := Lseek64(0, SeekEnd);
      var restored := Lseek64(ToInt64(originalPos.value), SeekSet);
      r := endPos;
    }

    /**
     * `seek`: an absolute seek to `offset`, translated to a physical offset in
     * `uint64_t` in logical mode and cast to `int64_t`. On the memory backend
     * a failed seek leaves the cursor at the end of the block; on the
     * descriptor it leaves it where it was.
     */
    method Seek(offset: uint64, omode: OffsetMode) returns (o: Outcome)
      requires Backing()
      modifies `osCursor, bufView
      ensures Kind() == old(Kind()) && Store() == old(Store())
      ensures Backing()
      ensures var target := if omode == Physical then offset else LogicalSeekTarget(offset);
        (o.Pass? <==> SeekSetSucceeds(Kind(), |Store()|, target)) &&
        (o.Pass? ==> Cursor() == target)
      ensures o.Fail? ==> o.error == ErrorSeekFailed
      ensures o.Fail? && Kind() == Memory ==> Cursor() == |Store()|
      ensures o.Fail? && Kind() != Memory ==> Cursor() == old(Cursor())
    {
      var target: uint64 := if omode == Physical then offset else LogicalSeekTarget(offset);
      SeekSetAgrees(Kind(), |Store()|, Cursor(), target);
      var r := Lseek64(ToInt64(target), SeekSet);
      if r.Ok? {
        o := Pass;
      } else {
        o := Fail(r.error);
      }
    }

    /** `getCurrentPageAndOffset`: the cursor split into a page index and an offset in that page. */
    method GetCurrentPageAndOffset(omode: OffsetMode) returns (r: Result<(nat, nat)>)
      requires Backing()
      modifies `osCursor, bufView
      ensures Kind() == old(Kind()) && Store() == old(Store())
      ensures Backing() && Cursor() == old(Cursor())
      ensures Kind() == Closed ==> r == Err(ErrorSeekFailed)
      ensures Kind() != Closed ==>
        var pos := if omode == Physical then Cursor() else PhysicalToLogical(Cursor());
        r.Ok? && r.value.0 * PageSize(omode) + r.value.1 == pos && r.value.1 < PageSize(omode)
    {
      var pos := Position(omode);
      if pos.Err? {
        return Err(pos.error);
      }
      r := Ok(SplitOffset(pos.value, omode));
    }

    /**
     * The descriptor's `read`: copies up to `count` bytes from the file
     * offset and advances it by the number copied, fewer at the end of the
     * file.
     */
    method OsRead(buffer: array<byte>, count: nat) returns (got: nat)
      requires Backing() && fd >= 0 && count <= buffer.Length
      modifies `osCursor, buffer
      ensures Backing()
      ensures got == if old(osCursor) + count <= |disk| then count
                     else if old(osCursor) < |disk| then |disk| - old(osCursor) else 0
      ensures forall j :: 0 <= j < got ==> buffer[j] == disk[old(osCursor) + j]
      ensures buffer[got..] == old(buffer[got..])
      ensures osCursor == old(osCursor) + got
    {
      got := if osCursor + count <= |disk| then count else if osCursor < |disk| then |disk| - osCursor else 0;
      forall j | 0 <= j < got {
        buffer[j] := disk[osCursor + j];
      }
      osCursor := osCursor + got;
    }

    /**
     * `readPhysicalPage`: seeks to the start of the page and reads one whole
     * physical page into the buffer. A short read from the descriptor is
     * ErrorReadFailed; the memory backend is checked the same way before it
     * reads (see the findings of the model).
     */
    method ReadPhysicalPage(pageBuffer: array<byte>, page: nat) returns (o: Outcome)
      requires Valid() && pageBuffer.Length == PhysicalPageSize && PageStart(page) < TWO_64
      modifies `osCursor, bufView, pageBuffer
      ensures Valid()
      ensures var f := FetchPage(Kind(), Store(), page);
        (o.Pass? <==> f.Ok?) && (f.Ok? ==> pageBuffer[..] == f.value) && (f.Err? ==> o.error == f.error)
    {
      o := Seek(PageStart(page), Physical);
      if o.Fail? {
        return;
      }
      if fd < 0 && bufView != null {
        if bufView.Pos() + PhysicalPageSize > bufView.streamSize {
          return Fail(ErrorReadFailed);
        }
        bufView.Read(pageBuffer, PhysicalPageSize);
        return;
      }
      var got := OsRead(pageBuffer, PhysicalPageSize);
      if got != PhysicalPageSize {
        return Fail(ErrorReadFailed);
      }
    }

    /**
     * `verifyChecksum`: the trailer, read as a little-endian word, must equal
     * the checksum of the payload; otherwise ErrorBadChecksum reports the
     * page, both values and the physical length.
     */
    method VerifyChecksum(pageBuffer: array<byte>, page: nat) returns (o: Outcome)
      requires Valid() && pageBuffer.Length == PhysicalPageSize
      modifies `osCursor, bufView
      ensures Valid() && Cursor() == old(Cursor())
      ensures o.Pass? <==> Intact(crc, pageBuffer[..])
      ensures o.Fail? && (readOnly || Kind() != Closed) ==>
        o.error == ErrorBadChecksum(page, Checksum(crc, Payload(pageBuffer[..])), StoredChecksum(pageBuffer[..]),
                                    if Kind() != Closed then |Store()| else physicalLength)
      ensures o.Fail? && !readOnly && Kind() == Closed ==> o.error == ErrorSeekFailed
    {
      var sum := Checksum(crc, pageBuffer[..LogicalPageSize]);
      var stored := DecodeLE(pageBuffer[LogicalPageSize..]);
      assert Payload(pageBuffer[..]) == pageBuffer[..LogicalPageSize];
      assert StoredChecksum(pageBuffer[..]) == stored;
      if stored == sum {
        return Pass;
      }
      var len := Length(Physical);
      if len.Err? {
        return Fail(len.error);
      }
      o := Fail(ErrorBadChecksum(page, sum, stored, len.value));
    }

    /**
     * The descriptor's `write` of one page at the file offset: fails on the
     * descriptor -1 and on a descriptor opened read-only, and where the file
     * would end beyond INT64_MAX.
     */
    method OsWrite(data: seq<byte>) returns (ok: bool)
      requires Backing() && |data| == PhysicalPageSize
      requires fd >= 0 && !readOnly ==> osCursor % PhysicalPageSize == 0
      modifies `disk, `osCursor
      ensures Backing()
      ensures ok <==> fd >= 0 && !readOnly && old(osCursor) + |data| <= MaxInt64
      ensures ok ==> disk == WriteAt(old(disk), old(osCursor), data) && osCursor == old(osCursor) + |data|
      ensures !ok ==> disk == old(disk) && osCursor == old(osCursor)
    {
      if fd < 0 || readOnly || osCursor + |data| > MaxInt64 {
        return false;
      }
      PageStartAligned(osCursor / PhysicalPageSize);
      disk := WriteAt(disk, osCursor, data);
      osCursor := osCursor + |data|;
      ok := true;
    }

    /**
     * `writePhysicalPage`: stores the checksum of the payload in the trailer
     * of the buffer, little-endian, then seeks to the start of the page and
     * writes the whole page there.
     */
    method WritePhysicalPage(pageBuffer: array<byte>, page: nat) returns (o: Outcome)
      requires Valid() && pageBuffer.Length == PhysicalPageSize && PageStart(page) < TWO_64
      modifies `disk, `osCursor, bufView, pageBuffer
      ensures Valid()
      ensures pageBuffer[..] == SealPage(crc, old(pageBuffer[..]))
      ensures Kind() == Descriptor && !readOnly ==>
        o == (if PageStart(page) > MaxInt64 then Fail(ErrorSeekFailed)
              else if PageStart(page) + PhysicalPageSize > MaxInt64 then Fail(ErrorWriteFailed)
              else Pass) &&
        disk == (if o.Pass? then WriteAt(old(disk), PageStart(page), pageBuffer[..]) else old(disk)) &&
        (o.Pass? ==> osCursor == PageStart(page + 1))
      ensures !(Kind() == Descriptor && !readOnly) ==> o.Fail? && disk == old(disk)
    {
      var trailer := EncodeLE(Checksum(crc, pageBuffer[..LogicalPageSize]));
      ghost var before := pageBuffer[..];
      forall j | 0 <= j < ChecksumSize {
        pageBuffer[LogicalPageSize + j] := trailer[j];
      }
      assert pageBuffer[..] == SealPage(crc, before) by {
        assert Payload(before) == before[..LogicalPageSize];
        forall j | 0 <= j < PhysicalPageSize
          ensures pageBuffer[..][j] == SealPage(crc, before)[j]
        {
          if j < LogicalPageSize {
            assert SealPage(crc, before)[j] == Payload(SealPage(crc, before))[j];
          }
        }
      }
      o := Seek(PageStart(page), Physical);
      if o.Fail? {
        return;
      }
      PageStartAligned(page);
      var ok := OsWrite(pageBuffer[..]);
      if !ok {
        return Fail(ErrorWriteFailed);
      }
    }

    /**
     * The checks of one turn of the `read` loop: fetch page `page` into the
     * scratch buffer and verify it when the policy says so. A failure here is
     * the failure of the rest of the read.
     */
    method FetchChecked(pageBuffer: array<byte>, page: nat, pageOffset: nat, remaining: nat) returns (f: Outcome)
      requires Valid() && Kind() != Closed && pageBuffer.Length == PhysicalPageSize
      requires pageOffset < LogicalPageSize && 0 < remaining && PageStart(page) < TWO_64
      modifies `osCursor, bufView, pageBuffer
      ensures Valid() && Kind() == old(Kind()) && Store() == old(Store())
      ensures f.Pass? ==> FetchPage(Kind(), Store(), page) == Ok(pageBuffer[..])
      ensures f.Pass? ==>
        ShouldVerify(policy, page, remaining) ==> Intact(crc, pageBuffer[..])
      ensures f.Fail? ==> ReadPages(Kind(), Store(), crc, policy, page, pageOffset, remaining) == Err(f.error)
    {
      ReadPagesTurn(Kind(), Store(), crc, policy, page, pageOffset, remaining);
      f := ReadPhysicalPage(pageBuffer, page);
      if f.Fail? || !ShouldVerify(policy, page, remaining) {
        return;
      }
      f := VerifyChecksum(pageBuffer, page);
    }

    /**
     * One turn of the `read` loop: fetch and check page `page`, then copy the
     * part of its payload from `pageOffset` that the read still needs to
     * `buf` at `done`.
     */
    method ReadPageInto(ghost kind: Backend, ghost store: seq<byte>, buf: array<byte>, done: nat,
                        pageBuffer: array<byte>, page: nat, pageOffset: nat, remaining: nat)
      returns (f: Outcome)
      requires Valid() && Kind() == kind && Store() == store && kind != Closed
      requires buf != pageBuffer && pageBuffer.Length == PhysicalPageSize
      requires pageOffset < LogicalPageSize && 0 < remaining && done + remaining <= buf.Length
      requires PageStart(page) < TWO_64
      modifies `osCursor, bufView, buf, pageBuffer
      ensures Valid() && Kind() == kind && Store() == store
      ensures f.Fail? ==> ReadPages(kind, store, crc, policy, page, pageOffset, remaining) == Err(f.error)
      ensures var n := Min(remaining, LogicalPageSize - pageOffset);
        f.Pass? ==>
          Prepend(old(buf[..done]), ReadPages(kind, store, crc, policy, page, pageOffset, remaining))
          == Prepend(buf[..done + n], ReadPages(kind, store, crc, policy, page + 1, 0, remaining - n))
      ensures forall j :: done + remaining <= j < buf.Length ==> buf[j] == old(buf[j])
    {
      f := FetchChecked(pageBuffer, page, pageOffset, remaining);
      if f.Pass? {
        ghost var copied, b := buf[..done], pageBuffer[..];
        ReadPagesStep(kind, store, crc, policy, page, pageOffset, remaining);
        var n := Min(remaining, LogicalPageSize - pageOffset);
        forall j | 0 <= j < n {
          buf[done + j] := pageBuffer[pageOffset + j];
        }
        assert buf[..done + n] == copied + b[pageOffset..pageOffset + n];
        PrependTwice(copied, b[pageOffset..pageOffset + n], ReadPages(kind, store, crc, policy, page + 1, 0, remaining - n));
      }
    }

    /**
     * The page loop of `read`: `nRead` logical bytes from offset `pageOffset0`
     * of page `page0` into the front of `buf`.
     */
    method ReadLoop(buf: array<byte>, page0: nat, pageOffset0: nat, nRead: nat) returns (f: Outcome)
      requires Valid() && Kind() != Closed && nRead <= buf.Length
      requires pageOffset0 < LogicalPageSize && page0 * LogicalPageSize + pageOffset0 + nRead <= MaxInt64
      modifies `osCursor, bufView, buf
      ensures Valid() && Kind() == old(Kind()) && Store() == old(Store())
      ensures var r := ReadPages(Kind(), Store(), crc, policy, page0, pageOffset0, nRead);
        (f.Pass? <==> r.Ok?) && (r.Ok? ==> buf[..nRead] == r.value) && (r.Err? ==> f.error == r.error)
      ensures forall j :: nRead <= j < buf.Length ==> buf[j] == old(buf[j])
    {
      ghost var kind, store := Kind(), Store();
      ghost var goal := ReadPages(kind, store, crc, policy, page0, pageOffset0, nRead);
      var pageBuffer := new byte[PhysicalPageSize];
      var page: nat, pageOffset: nat, done: nat, remaining: nat := page0, pageOffset0, 0, nRead;
      PrependNothing(goal);
      while remaining > 0
        invariant Valid() && Kind() == kind && Store() == store
        invariant pageOffset < LogicalPageSize && done + remaining == nRead
        invariant remaining > 0 ==> page * LogicalPageSize + pageOffset + remaining <= MaxInt64
        invariant goal == Prepend(buf[..done], ReadPages(kind, store, crc, policy, page, pageOffset, remaining))
        invariant forall j :: nRead <= j < buf.Length ==> buf[j] == old(buf[j])
        decreases remaining
      {
        PageStartFits(page);
        var n := Min(remaining, LogicalPageSize - pageOffset);
        f := ReadPageInto(kind, store, buf, done, pageBuffer, page, pageOffset, remaining);
        if f.Fail? {
          return;
        }
        done, remaining := done + n, remaining - n;
        pageOffset, page := 0, page + 1;
      }
      assert buf[..nRead] == buf[..done];
      f := Pass;
    }

    /**
     * `read`: copies `nRead` logical bytes from the cursor into `buf`, page by
     * page, verifying the pages the checksum policy names, and leaves the
     * cursor just past the last byte read. Reading beyond the logical length
     * is ErrorInternal.
     */
    method Read(buf: array<byte>, nRead: nat) returns (o: Outcome)
      requires Valid() && nRead <= buf.Length && nRead <= MaxInt64
      modifies `osCursor, bufView, buf
      ensures Valid()
      ensures var r := ReadOutcome(Kind(), Store(), old(Cursor()), logicalLength, crc, policy, nRead);
        (o.Pass? <==> r.Ok?) && (r.Ok? ==> buf[..nRead] == r.value) && (r.Err? ==> o.error == r.error)
      ensures o.Pass? ==> Cursor() == LogicalSeekTarget(PhysicalToLogical(old(Cursor())) + nRead)
      ensures o == Fail(ErrorInternal) ==> buf[..] == old(buf[..]) && Cursor() == old(Cursor())
      ensures forall j :: nRead <= j < buf.Length ==> buf[j] == old(buf[j])
    {
      var pos := Position(Logical);
      if pos.Err? {
        o := Fail(pos.error);
      } else {
        var len := Length(Logical);
        if pos.value + nRead > len.value {
          o := Fail(ErrorInternal);
        } else {
          o := ReadAtCursor(pos.value, buf, nRead);
        }
      }
    }

    /**
     * The part of `read` after the bounds check, with the cursor at logical
     * offset `pos`: the page loop copies `nRead` bytes into `buf`, then the
     * cursor is moved just past them.
     */
    method ReadAtCursor(pos: uint64, buf: array<byte>, nRead: nat) returns (o: Outcome)
      requires Valid() && Kind() != Closed && nRead <= buf.Length
      requires pos == PhysicalToLogical(Cursor()) && pos + nRead <= MaxInt64
      modifies `osCursor, bufView, buf
      ensures Valid() && Kind() == old(Kind()) && Store() == old(Store())
      ensures var r := ReadPages(Kind(), Store(), crc, policy, pos / LogicalPageSize, pos % LogicalPageSize, nRead);
        (r.Ok? ==> buf[..nRead] == r.value) && (r.Err? ==> o == Fail(r.error)) &&
        (r.Ok? ==> (o.Pass? <==> SeekSetSucceeds(Kind(), |Store()|, LogicalSeekTarget(pos + nRead))))
      ensures o.Fail? ==> o.error == ErrorSeekFailed || ReadPages(Kind(), Store(), crc, policy, pos / LogicalPageSize, pos % LogicalPageSize, nRead).Err?
      ensures o.Fail? ==> o.error != ErrorInternal
      ensures o.Pass? ==> Cursor() == LogicalSeekTarget(pos + nRead)
      ensures forall j :: nRead <= j < buf.Length ==> buf[j] == old(buf[j])
    {
      var split := GetCurrentPageAndOffset(Logical);
      var page: nat, pageOffset: nat := split.value.0, split.value.1;
      assert page == pos / LogicalPageSize && pageOffset == pos % LogicalPageSize;
      ReadPagesErrors(Kind(), Store(), crc, policy, page, pageOffset, nRead);
      o := ReadLoop(buf, page, pageOffset, nRead);
      if o.Pass? {
        o := Seek(pos + nRead, Logical);
      }
    }

    /**
     * The start of a turn of the page loop: the physical length is taken, and
     * the page is read back into the scratch buffer when it starts inside the
     * file; otherwise the buffer keeps what it holds.
     */
    method LoadPage(pageBuffer: array<byte>, page: nat)
      requires Valid() && !readOnly && fd >= 0 && pageBuffer.Length == PhysicalPageSize
      requires PageStart(page) < TWO_64
      modifies `osCursor, bufView, pageBuffer
      ensures Valid()
      ensures pageBuffer[..] == PageBase(disk, old(pageBuffer[..]), page)
    {
      var fileLength := Length(Physical);
      if PageStart(page) < fileLength.value {
        var fetched := ReadPhysicalPage(pageBuffer, page);
        AlignedPageFits(|disk|, page);
      }
    }

    /** The `memcpy` of a turn: `n` bytes of `data` from `done` over the buffer at `pageOffset`. */
    static method CopyChunk(pageBuffer: array<byte>, pageOffset: nat, data: seq<byte>, done: nat, n: nat)
      requires pageOffset + n <= pageBuffer.Length && done + n <= |data|
      modifies pageBuffer
      ensures pageBuffer[..] == Overlay(old(pageBuffer[..]), pageOffset, data[done..done + n])
    {
      ghost var base := pageBuffer[..];
      forall j | 0 <= j < n {
        pageBuffer[pageOffset + j] := data[done + j];
      }
      assert pageBuffer[..] == base[..pageOffset] + data[done..done + n] + base[pageOffset + n..];
    }

    /**
     * One turn of the page loop shared by `write` and `extend`: the page is
     * loaded, the next chunk of `data` is copied over its payload and the
     * page is written. A failure is the outcome of the whole loop.
     */
    method WritePageTurn(ghost s: PageLoop, pageBuffer: array<byte>, page: nat, pageOffset: nat,
                         data: seq<byte>, done: nat) returns (o: Outcome)
      requires Valid() && !readOnly && fd >= 0 && pageBuffer.Length == PhysicalPageSize
      requires done < |data| && s == PageLoop(disk, pageBuffer[..], page, pageOffset, data[done..])
      requires s.Wf() && PageStart(page) < TWO_64
      modifies `disk, `osCursor, bufView, pageBuffer
      ensures Valid() && !readOnly && fd >= 0
      ensures o.Pass? <==> PageStart(page) + PhysicalPageSize <= MaxInt64
      ensures o.Fail? ==> disk == s.store && o.error == (if PageStart(page) > MaxInt64 then ErrorSeekFailed else ErrorWriteFailed)
      ensures o.Pass? ==> Next(crc, s) == PageLoop(disk, pageBuffer[..], page + 1, 0, data[done + s.ChunkSize()..])
    {
      var n := Min(|data| - done, LogicalPageSize - pageOffset);
      LoadPage(pageBuffer, page);
      ghost var loaded := pageBuffer[..];
      CopyChunk(pageBuffer, pageOffset, data, done, n);
      assert data[done..done + n] == s.data[..n];
      ghost var edited := pageBuffer[..];
      assert edited == Overlay(PageBase(s.store, s.buffer, page), pageOffset, s.data[..n]);
      o := WritePhysicalPage(pageBuffer, page);
      if o.Pass? {
        NextWrites(crc, s, SealPage(crc, edited));
        assert s.data[n..] == data[done + n..];
      }
    }

    /**
     * The page loop shared by `write` and `extend`, from page `page0` and
     * offset `pageOffset0` in its payload. The scratch buffer starts zeroed
     * and keeps the last page written.
     */
    method WritePageLoop(page0: nat, pageOffset0: nat, data: seq<byte>) returns (o: Outcome)
      requires Valid() && !readOnly && fd >= 0
      requires pageOffset0 < LogicalPageSize && PageStart(page0) < TWO_64
      modifies `disk, `osCursor, bufView
      ensures Valid()
      ensures var r := WritePages(crc, PageLoop(old(disk), Zeros(PhysicalPageSize), page0, pageOffset0, data));
        disk == r.store && o == r.outcome
    {
      var page: nat, pageOffset: nat := page0, pageOffset0;
      var pageBuffer := new byte[PhysicalPageSize](_ => 0);
      assert pageBuffer[..] == Zeros(PhysicalPageSize);
      ghost var goal := WritePages(crc, PageLoop(disk, pageBuffer[..], page, pageOffset, data));
      var done: nat := 0;
      while done < |data|
        invariant Valid() && !readOnly && fd >= 0
        invariant done <= |data| && pageOffset < LogicalPageSize && PageStart(page) < TWO_64
        invariant WritePages(crc, PageLoop(disk, pageBuffer[..], page, pageOffset, data[done..])) == goal
        decreases |data| - done
      {
        var n := Min(|data| - done, LogicalPageSize - pageOffset);
        ghost var s := PageLoop(disk, pageBuffer[..], page, pageOffset, data[done..]);
        WritePagesTurn(crc, s);
        o := WritePageTurn(s, pageBuffer, page, pageOffset, data, done);
        if o.Fail? {
          return;
        }
        done, pageOffset, page := done + n, 0, page + 1;
      }
      o := Pass;
    }

    /**
     * The tail that `write` and `extend` share once the cursor is at logical
     * offset `pos`: the page loop copies `data` from there, the logical
     * length is raised to the end of the bytes written, and the cursor is
     * left just past them. A failure of the page loop ends it early.
     */
    method WriteAtCursor(pos: uint64, data: seq<byte>) returns (o: Outcome)
      requires Valid() && !readOnly && fd >= 0
      requires pos == PhysicalToLogical(osCursor) && pos + |data| < TWO_64
      modifies `disk, `osCursor, `logicalLength, bufView
      ensures Valid()
      ensures var r := WritePages(crc, PageLoop(old(disk), Zeros(PhysicalPageSize), pos / LogicalPageSize, pos % LogicalPageSize, data));
        disk == r.store &&
        (r.outcome.Fail? ==> o == r.outcome && logicalLength == old(logicalLength)) &&
        (r.outcome.Pass? ==>
          logicalLength == Max(old(logicalLength), pos + |data|) &&
          (o.Pass? <==> SeekSetSucceeds(Descriptor, |disk|, LogicalSeekTarget(pos + |data|))) &&
          (o.Pass? ==> osCursor == LogicalSeekTarget(pos + |data|)) &&
          (o.Fail? ==> o.error == ErrorSeekFailed))
    {
      var end := pos + |data|;
      var split := GetCurrentPageAndOffset(Logical);
      var page, pageOffset := split.value.0, split.value.1;
      assert page == pos / LogicalPageSize && pageOffset == pos % LogicalPageSize;
      PageStartFits(page);
      o := WritePageLoop(page, pageOffset, data);
      if o.Pass? {
        WritePagesEnd(crc, PageLoop(old(disk), Zeros(PhysicalPageSize), page, pageOffset, data));
        o := SettleAt(end);
      }
    }

    /**
     * The end of `write` and `extend`: the logical length is raised to `end`
     * if it was shorter, and the cursor is left at `end`.
     */
    method SettleAt(end: uint64) returns (o: Outcome)
      requires Valid() && fd >= 0 && end <= MaxInt64
      modifies `osCursor, `logicalLength, bufView
      ensures Valid() && logicalLength == Max(old(logicalLength), end)
      ensures o.Pass? <==> SeekSetSucceeds(Descriptor, |disk|, LogicalSeekTarget(end))
      ensures o.Pass? ==> osCursor == LogicalSeekTarget(end)
      ensures o.Fail? ==> o.error == ErrorSeekFailed
    {
      if end > logicalLength {
        logicalLength := end;
      }
      o := Seek(end, Logical);
    }

    /**
     * `write`: copies `src` to the logical offset of the cursor, page by page,
     * raises the logical length to the end of the bytes written, and leaves
     * the cursor just past them. A read-only file refuses with
     * ErrorFileReadOnly, a closed one fails on the position query.
     */
    method Write(src: seq<byte>) returns (o: Outcome)
      requires Valid() && |src| <= MaxInt64
      modifies `disk, `osCursor, `logicalLength, bufView
      ensures Valid()
      ensures readOnly ==>
        o == Fail(ErrorFileReadOnly) && disk == old(disk) && logicalLength == old(logicalLength) && Cursor() == old(Cursor())
      ensures !readOnly && Kind() == Closed ==>
        o == Fail(ErrorSeekFailed) && disk == old(disk) && logicalLength == old(logicalLength)
      ensures !readOnly && Kind() != Closed ==>
        var pos := PhysicalToLogical(old(osCursor));
        var r := WritePages(crc, PageLoop(old(disk), Zeros(PhysicalPageSize), pos / LogicalPageSize, pos % LogicalPageSize, src));
        disk == r.store &&
        (r.outcome.Fail? ==> o == r.outcome && logicalLength == old(logicalLength)) &&
        (r.outcome.Pass? ==>
          logicalLength == Max(old(logicalLength), pos + |src|) &&
          (o.Pass? <==> SeekSetSucceeds(Descriptor, |disk|, LogicalSeekTarget(pos + |src|))) &&
          (o.Pass? ==> osCursor == LogicalSeekTarget(pos + |src|)) &&
          (o.Fail? ==> o.error == ErrorSeekFailed))
    {
      if readOnly {
        o := Fail(ErrorFileReadOnly);
      } else {
        var pos := Position(Logical);
        if pos.Err? {
          o := Fail(pos.error);
        } else {
          o := WriteAtCursor(pos.value, src);
        }
      }
    }

    /**
     * `extend`: grows the file to `newLength` (a logical length, or a
     * physical one translated first) by writing zeros from the current
     * logical end, sets the logical length, and leaves the cursor at the new
     * end. Shrinking is ErrorInternal; a read-only file refuses with
     * ErrorFileReadOnly.
     */
    method Extend(newLength: uint64, omode: OffsetMode) returns (o: Outcome)
      requires Valid()
      modifies `disk, `osCursor, `logicalLength, bufView
      ensures Valid()
      ensures readOnly ==>
        o == Fail(ErrorFileReadOnly) && disk == old(disk) && logicalLength == old(logicalLength) && Cursor() == old(Cursor())
      ensures var target := if omode == Physical then PhysicalToLogical(newLength) else newLength;
        !readOnly && target < old(logicalLength) ==>
          o == Fail(ErrorInternal) && disk == old(disk) && logicalLength == old(logicalLength) && Cursor() == old(Cursor())
      ensures var target := if omode == Physical then PhysicalToLogical(newLength) else newLength;
        !readOnly && target >= old(logicalLength) ==> ExtendedTo(old(disk), old(logicalLength), target, o)
    {
      if readOnly {
        o := Fail(ErrorFileReadOnly);
      } else {
        var newLogicalLength: uint64 := if omode == Physical then PhysicalToLogical(newLength) else newLength;
        var currentLength := Length(Logical);
        var current := currentLength.value;
        if newLogicalLength < current {
          o := Fail(ErrorInternal);
        } else {
          o := ExtendFrom(current, newLogicalLength);
        }
      }
    }

    /**
     * What `extend` does once the target `target` is known not to be below
     * the logical length `current` it found: when the seek to the current end
     * fails nothing changes; otherwise the zeros go through the page loop
     * from there, and on its success the logical length becomes `target` and
     * the cursor is left at the new end.
     */
    ghost predicate ExtendedTo(disk0: seq<byte>, current: nat, target: nat, o: Outcome)
      requires current <= target && |disk0| % PhysicalPageSize == 0
      reads this, bufView
    {
      (!SeekSetSucceeds(Kind(), |disk0|, LogicalSeekTarget(current)) ==>
         o == Fail(ErrorSeekFailed) && disk == disk0 && logicalLength == current) &&
      (SeekSetSucceeds(Kind(), |disk0|, LogicalSeekTarget(current)) ==>
         var r := WritePages(crc, PageLoop(disk0, Zeros(PhysicalPageSize), current / LogicalPageSize,
                                           current % LogicalPageSize, Zeros(target - current)));
         disk == r.store &&
         (r.outcome.Fail? ==> o == r.outcome && logicalLength == current) &&
         (r.outcome.Pass? ==>
           logicalLength == target &&
           (o.Pass? <==> SeekSetSucceeds(Descriptor, |disk|, LogicalSeekTarget(target))) &&
           (o.Pass? ==> osCursor == LogicalSeekTarget(target)) &&
           (o.Fail? ==> o.error == ErrorSeekFailed)))
    }

    /** The part of `extend` after the length check: the seek to the current end, then the zeros. */
    method ExtendFrom(current: uint64, target: uint64) returns (o: Outcome)
      requires Valid() && !readOnly && current == logicalLength && current <= target
      modifies `disk, `osCursor, `logicalLength, bufView
      ensures Valid() && ExtendedTo(old(disk), current, target, o)
    {
      o := Seek(current, Logical);
      if o.Pass? {
        LogicalToPhysicalBound(current);
        assert osCursor == LogicalToPhysical(current);
        o := WriteAtCursor(current, Zeros(target - current));
      }
    }

    /** `close`: gives up the descriptor and forgets the memory block, which belongs to the caller. */
    method Close()
      requires Valid()
      modifies `fd, `bufView
      ensures Valid() && Kind() == Closed
      ensures fd == -1 && bufView == null
    {
      if fd >= 0 {
        fd := -1;
      }
      if bufView != null {
        bufView := null;
      }
    }
  }
}
