# CheckedFile: a verified model of libE57Format's paged, checksummed file

An E57 file is stored as physical pages of 1024 bytes. Each page holds 1020
payload bytes and a 4-byte trailer, which is the CRC-32C of the payload with
its bytes reversed. Callers see only the payload bytes, through *logical*
offsets. The *physical* offsets address the store, trailers included.
`CheckedFile` is the layer that maps one space onto the other:

- `read` fetches every page it touches and verifies it when the checksum
  policy says so, then copies the wanted slice of the payload.
- `write` reads each page back (when it lies in the file), copies the new
  bytes over its payload, reseals the trailer and writes the page in place.
- `extend` writes zeros from the logical end up to a new length.
- `seek`, `position`, `length` and `getCurrentPageAndOffset` keep the cursor
  and the two lengths.
- `close` releases the backend.

A file is backed either by an OS descriptor or by a caller-owned memory block
(`BufferView`), which is always read-only.

The project is split by layer:

- `words.dfy`: fixed-width integers, the signed/unsigned casts, the
  little-endian trailer word and `swap_uint32`.
- `paging.dfy`: page geometry and the two offset translations.
- `checksums.dfy`: trailers, sealing and the read checksum policy.
- `results.dfy`: the error codes.
- `buffer_view.dfy`: the memory backend, as a class.
- `backends.dfy`: what `lseek64`, `readPhysicalPage` and a descriptor write
  do on each backend, as functions.
- `read_spec.dfy` and `write_spec.dfy`: the page loops of `read` and of
  `write`/`extend` as recursive functions, with their properties.
- `checked_file.dfy`: `CheckedFile` as a class whose methods update its
  fields. Each method is proved against those specification functions.
- `findings.dfy`: the memory backend's page read as written and as corrected.
- `scenarios.dfy`: whole-object sequences of calls.

The OS is modelled by two fields of the class: `disk` (the bytes of the file)
and `osCursor` (its offset). The rules are deterministic:

- a seek fails on a negative target or one beyond INT64_MAX;
- a read returns fewer bytes at the end of the file;
- a write fails where the file would end beyond INT64_MAX;
- any call on descriptor -1 fails, as with EBADF.

A thrown exception is modelled as a `Fail(error)` outcome. Nothing after it
runs.

The CRC-32C function is a parameter `crc` (a total function from payload bytes
to a 32-bit word). The checksum is `swap_uint32` of its value, and the trailer
is written and read as a little-endian word.

The header that defines the page constants and `physicalToLogical` /
`logicalToPhysical` is not part of this model. The shift and mask in
`getCurrentPageAndOffset` show only that the physical page size is a power of
two, and the 4-byte trailer that the payload is 4 bytes shorter. The model
fixes `physicalPageSizeLog2 = 10`, the 1024-byte page of the E57 file layout,
so the payload is 1020 bytes. `logicalToPhysical` keeps the page index and the offset within
the page. `physicalToLogical` does the same, except that it clamps an offset
that falls in a trailer to the end of that page's payload.

Two behaviours of the code are worth stating on their own:

- The sampled read policy verifies a page whose index is a multiple of the
  modulus, or any page reached while fewer than a physical page of bytes
  remain to be read. That is not always only the last page.
- A write of zero bytes past the logical end still raises the logical length
  to its end offset, as `write` does unconditionally.

## Model

| member | source | states |
|---|---|---|
| Words.ToInt64 | src/CheckedFile.cpp:456-457 | the cast to `int64_t` is non-negative exactly for values up to INT64_MAX, keeps those, and is undone by the cast back |
| Words.ToUint64 | src/CheckedFile.cpp:470 | the cast to `uint64_t` keeps non-negative values and sends negative ones above INT64_MAX |
| Words.DecodeLE | src/CheckedFile.cpp:686-687 | the trailer word read back re-encodes to the same four bytes |
| Words.DecodeEncode | src/CheckedFile.cpp:760-761 | a word stored in a trailer is read back unchanged |
| Words.SwapUint32Bytes | src/CheckedFile.cpp:97-102 | `swap_uint32` reverses the four bytes of its argument |
| Words.SwapUint32Involution | src/CheckedFile.cpp:97-102 | applying `swap_uint32` twice gives the original value |
| Paging.PhysicalToLogical | src/CheckedFile.cpp:198 | a logical offset never exceeds its physical one and lies in the same page, or at the end of its payload |
| Paging.LogicalToPhysical | src/CheckedFile.cpp:457 | the physical offset of a logical one lies inside a payload, on the same page index, and translates back to the logical offset |
| Paging.PhysicalRoundTrip | src/CheckedFile.cpp:512 | on payload offsets, physical → logical → physical is the identity |
| Paging.TranslationsMonotone | src/CheckedFile.cpp:457 | both translations preserve order |
| Paging.LogicalToPhysicalInPage | src/CheckedFile.cpp:711-712 | offset `off` of page `page`'s payload is `page * 1024 + off` in the store |
| Paging.LogicalSplit | src/CheckedFile.cpp:711-712 | every logical offset is a page and an offset below 1020, and lies at that offset of that page in the store |
| Paging.LogicalToPhysicalBound | src/CheckedFile.cpp:457 | a physical offset is at least its logical one and at most twice it |
| Paging.SplitOffset | src/CheckedFile.cpp:700-714 | the page index times the page size plus the offset gives the position, and the offset is below the page size, in both modes |
| Checksums.SealPage | src/CheckedFile.cpp:758-761 | sealing a page leaves its payload unchanged |
| Checksums.SealPageIntact | src/CheckedFile.cpp:759-761 | every page `writePhysicalPage` seals passes `verifyChecksum` |
| BufferViews.BufferView.constructor | src/CheckedFile.cpp:129-131 | the view holds the block and its size, with the cursor at 0 |
| BufferViews.BufferView.Pos | src/CheckedFile.cpp:133-136 | the cursor never lies beyond the block |
| BufferViews.BufferView.Seek | src/CheckedFile.cpp:138-160 | succeeds exactly when the wrapped target lies in the block; the cursor becomes the target, or the end of the block on failure |
| BufferViews.BufferView.Read | src/CheckedFile.cpp:162-170 | copies exactly the `count` bytes at the cursor, leaves the rest of the buffer unchanged, and advances the cursor by `count` |
| Backends.LseekResult | src/CheckedFile.cpp:466-500 | a successful seek reports a cursor within the block (memory) or within INT64_MAX (descriptor); a closed file always fails |
| Backends.LseekCursor | src/CheckedFile.cpp:466-500 | a successful seek's cursor is its result; a failed descriptor seek keeps the cursor, and a memory cursor stays in the block |
| Backends.SeekSetAgrees | src/CheckedFile.cpp:453-464 | an absolute seek to a `uint64_t` target cast to `int64_t` succeeds exactly when the backend accepts that target, and lands on it |
| Backends.FetchPage | src/CheckedFile.cpp:716-750 | a page read succeeds exactly when the file is open and the whole page lies in the store, and then delivers that page; it fails only on the seek or the read |
| Backends.FetchPageBackendsAgree | src/CheckedFile.cpp:731-735 | over the same bytes, the memory and descriptor backends deliver the same pages |
| ReadSpec.ReadPagesTurn | src/CheckedFile.cpp:313-342 | one turn of the read loop: a failed page read ends it, otherwise the check and the rest of the loop follow |
| ReadSpec.ReadPagesUnfold | src/CheckedFile.cpp:313-342 | a read succeeds exactly when its first page is readable and the rest succeeds, and then it returns the first slice followed by the rest |
| ReadSpec.PageSliceIsLogical | src/CheckedFile.cpp:334 | the bytes copied from a page's payload are the logical bytes at that place |
| ReadSpec.ReadPagesContent | src/CheckedFile.cpp:313-342 | a successful read loop returns exactly the logical bytes of its range, trailers skipped |
| ReadSpec.ReadPagesOkPageReadable | src/CheckedFile.cpp:313-342 | every page a successful read touches could be fetched and, when the policy verifies it, is intact |
| ReadSpec.ReadablePagesReadOk | src/CheckedFile.cpp:313-342 | a read whose every touched page is readable succeeds |
| ReadSpec.ReadPagesOk | src/CheckedFile.cpp:313-342 | a read succeeds if and only if every page it touches is fetchable and, when verified, intact |
| ReadSpec.ReadPagesNoneNeverBadChecksum | src/CheckedFile.cpp:319-320 | under ChecksumNone a read never fails with ErrorBadChecksum |
| ReadSpec.ReadPagesErrors | src/CheckedFile.cpp:313-342 | the read loop fails only with ErrorSeekFailed, ErrorReadFailed or ErrorBadChecksum |
| ReadSpec.ReadPagesBadChecksumNamesBadPage | src/CheckedFile.cpp:683-698 | a bad-checksum failure names a touched page the policy verifies, whose stored trailer differs from its payload's checksum, and reports both values and the physical length |
| ReadSpec.ReadAllVerifiesEveryPage | src/CheckedFile.cpp:322-324 | under ChecksumAll every page a successful read touched is intact |
| ReadSpec.ReadSampledVerifiesSampledPages | src/CheckedFile.cpp:326-331 | under a sampled policy every touched page whose index is a multiple of the modulus, and the last page, is intact after a successful read |
| ReadSpec.ReadIntactPagesSucceeds | src/CheckedFile.cpp:313-342 | over an open backend, a read whose pages all lie in the store and are intact succeeds under every policy and returns the logical bytes |
| ReadSpec.MemoryReadsLikeDescriptor | src/CheckedFile.cpp:731-735 | a memory block and a descriptor over the same bytes give the same read |
| ReadSpec.ReadInternalErrorExactly | src/CheckedFile.cpp:291-298 | `read` fails with ErrorInternal if and only if the file is open and position + nRead exceeds the logical length |
| ReadSpec.ReadReturnsLogicalBytes | src/CheckedFile.cpp:285-346 | a successful `read` stayed within the logical length and returned exactly the logical bytes from the cursor on |
| WriteSpec.WritePagesTurn | src/CheckedFile.cpp:372-398 | one turn of the write loop: the seek fails beyond INT64_MAX, the write fails where the page would end beyond it, otherwise the loop goes on from the next state |
| WriteSpec.StepLength | src/CheckedFile.cpp:388 | one turn grows the store to the end of the page written, if it was shorter |
| WriteSpec.StepAt | src/CheckedFile.cpp:374-388 | after one turn: other pages are unchanged; the written page holds the chunk in its range and the stored byte (or the buffer's byte on a new page) elsewhere |
| WriteSpec.StepPages | src/CheckedFile.cpp:758-761 | after one turn the page written is intact and every other whole page is as it was |
| WriteSpec.StepRange | src/CheckedFile.cpp:393-397 | the next turn starts where this one stopped, at offset 0 of the next page, with the same last page |
| WriteSpec.WritePagesPass | src/CheckedFile.cpp:372-398 | the write loop runs to its end exactly when the last page of the range ends within INT64_MAX; otherwise it fails with ErrorSeekFailed or ErrorWriteFailed |
| WriteSpec.WritePagesEnd | src/CheckedFile.cpp:359 | a completed write loop ended its range within INT64_MAX |
| WriteSpec.WritePagesLength | src/CheckedFile.cpp:372-398 | a completed loop leaves a store of whole pages grown to the end of its last page, and an empty write leaves the store as it was |
| WriteSpec.WritePagesWritesAt | src/CheckedFile.cpp:387-388 | after the loop, each byte of the range holds the matching byte of the data |
| WriteSpec.WritePagesKeepsBeforeAt | src/CheckedFile.cpp:376-379 | after the loop, bytes of touched pages before the range are unchanged, because the page was read back first |
| WriteSpec.WritePagesKeepsAfterAt | src/CheckedFile.cpp:376-379 | after the loop, bytes the store held after the range are unchanged |
| WriteSpec.WritePagesPages | src/CheckedFile.cpp:758-761 | after the loop every page written is intact, and every other whole page of the old store is unchanged |
| WriteSpec.WritePagesWritesLogical | src/CheckedFile.cpp:387 | after the loop, logical byte `start + i` is `data[i]` |
| WriteSpec.WritePagesContent | src/CheckedFile.cpp:372-398 | after the loop, the logical range `[pos, pos + n)` equals the data |
| WriteSpec.WritePagesKeepsOutside | src/CheckedFile.cpp:376-379 | after the loop, every logical byte before the range, and every stored byte after it, reads as it did |
| WriteSpec.ExtendZeroFills | src/CheckedFile.cpp:599-628 | `extend`'s loop makes logical bytes `[oldLen, newLen)` zero, leaves the bytes before `oldLen` unchanged, and writes nothing when the lengths are equal |
| WriteSpec.WriteThenReadPages | src/CheckedFile.cpp:372-398 | reading back a range the loop wrote succeeds under every checksum policy and returns the data |
| CheckedFiles.ReadPagesStep | src/CheckedFile.cpp:313-342 | a fetched page that passes its check puts its slice in front of the rest of the read |
| CheckedFiles.CheckedFile.OpenRead | src/CheckedFile.cpp:183-199 | a file opened for reading is read-only, has the file's size as physical length and its translation as logical length, with the cursor at 0 |
| CheckedFiles.CheckedFile.OpenWrite | src/CheckedFile.cpp:202-216 | a file opened for writing is writable, truncated to zero bytes, with logical length 0 and the cursor at 0 |
| CheckedFiles.CheckedFile.FromBuffer | src/CheckedFile.cpp:220-231 | a file over a memory block is read-only, with the block's size as physical length and its translation as logical length |
| CheckedFiles.CheckedFile.Lseek64 | src/CheckedFile.cpp:466-500 | the result and the new cursor are those of Backends.LseekResult and Backends.LseekCursor |
| CheckedFiles.CheckedFile.Position | src/CheckedFile.cpp:502-513 | returns the cursor, translated in logical mode, without moving it; fails on a closed file |
| CheckedFiles.CheckedFile.Length | src/CheckedFile.cpp:515-537 | logical mode returns the cached logical length; physical mode returns the cached length when read-only, else the end of the file; the cursor does not move |
| CheckedFiles.CheckedFile.Seek | src/CheckedFile.cpp:453-464 | succeeds exactly when the backend accepts the translated target, and then puts the cursor there; on failure the memory cursor is pinned to the end, the descriptor's unchanged |
| CheckedFiles.CheckedFile.GetCurrentPageAndOffset | src/CheckedFile.cpp:700-714 | `page * pageSize + pageOffset == pos` with `pageOffset < pageSize`, in both modes |
| CheckedFiles.CheckedFile.OsRead | src/CheckedFile.cpp:737-749 | copies the bytes at the file offset, as many as asked or as are left, and advances the offset by as many |
| CheckedFiles.CheckedFile.ReadPhysicalPage | src/CheckedFile.cpp:716-750 | the buffer receives exactly the page Backends.FetchPage delivers, and fails with its error otherwise |
| CheckedFiles.CheckedFile.VerifyChecksum | src/CheckedFile.cpp:683-698 | passes if and only if the stored trailer equals the payload's checksum; otherwise ErrorBadChecksum with page, both values and the physical length |
| CheckedFiles.CheckedFile.OsWrite | src/CheckedFile.cpp:766-778 | writes the page at the file offset exactly when the descriptor is writable and the file stays within INT64_MAX; otherwise changes nothing |
| CheckedFiles.CheckedFile.WritePhysicalPage | src/CheckedFile.cpp:752-779 | seals the buffer's trailer, then writes it at the page's start, failing on the seek or the write beyond INT64_MAX |
| CheckedFiles.CheckedFile.FetchChecked | src/CheckedFile.cpp:315-332 | on success the buffer holds the fetched page and it is intact when the policy verifies it; a failure is the read loop's failure |
| CheckedFiles.CheckedFile.ReadPageInto | src/CheckedFile.cpp:315-339 | one turn copies the page's slice after the bytes already read, or fails as the read loop does |
| CheckedFiles.CheckedFile.ReadLoop | src/CheckedFile.cpp:313-342 | the loop succeeds exactly when ReadSpec.ReadPages does, and `buf` then holds its bytes |
| CheckedFiles.CheckedFile.Read | src/CheckedFile.cpp:285-346 | ends as ReadSpec.ReadOutcome: ErrorInternal past the logical length, leaving `buf` and the cursor untouched; otherwise `buf` receives the logical bytes and the cursor ends at `logicalToPhysical(end)` |
| CheckedFiles.CheckedFile.ReadAtCursor | src/CheckedFile.cpp:300-345 | after the bounds check, `buf` receives the read loop's bytes and the cursor moves past them; it never fails with ErrorInternal |
| CheckedFiles.CheckedFile.LoadPage | src/CheckedFile.cpp:374-379 | the scratch buffer holds the stored page when the page starts inside the file, else what it held |
| CheckedFiles.CheckedFile.CopyChunk | src/CheckedFile.cpp:387 | the chunk is copied over the buffer at the page offset, nothing else changes |
| CheckedFiles.CheckedFile.WritePageTurn | src/CheckedFile.cpp:374-397 | one turn succeeds exactly when the page ends within INT64_MAX, and then the file and buffer are WriteSpec.Next's |
| CheckedFiles.CheckedFile.WritePageLoop | src/CheckedFile.cpp:372-398 | the file and the outcome are those of WriteSpec.WritePages from a zeroed buffer |
| CheckedFiles.CheckedFile.WriteAtCursor | src/CheckedFile.cpp:359-406 | the page loop writes the data at the cursor; on success the logical length becomes `max(old, end)` and the cursor moves to `end` |
| CheckedFiles.CheckedFile.SettleAt | src/CheckedFile.cpp:400-406 | the logical length becomes `max(old, end)` and the cursor moves to `end` |
| CheckedFiles.CheckedFile.Write | src/CheckedFile.cpp:348-407 | a read-only file fails with ErrorFileReadOnly and changes nothing, the cursor included; otherwise the file is WriteSpec.WritePages's, the logical length `max(old, end)`, the cursor `end` |
| CheckedFiles.CheckedFile.Extend | src/CheckedFile.cpp:539-635 | read-only fails with ErrorFileReadOnly, shrinking with ErrorInternal, both changing nothing, the cursor included; otherwise zeros are written from the logical end, the logical length becomes the new one and the cursor moves there |
| CheckedFiles.CheckedFile.ExtendFrom | src/CheckedFile.cpp:571-634 | seeks to the current end, then writes the zeros through the page loop and settles the length and cursor at the new end |
| CheckedFiles.CheckedFile.Close | src/CheckedFile.cpp:637-665 | afterwards the file is closed: `fd` is -1 and the memory block is forgotten; closing twice is harmless |
| Findings.AsWrittenMemoryFetch | src/CheckedFile.cpp:162-168 | the memory page read as written succeeds whenever the page starts in the block, even when it ends beyond it |
| Findings.AsWrittenReadsBeyondBlock | src/CheckedFile.cpp:731-735 | on a 500-byte block, a 1-byte read passes the bounds check, and the page the as-written read returns depends on memory after the block |
| Findings.CorrectedFetchStaysInBlock | src/CheckedFile.cpp:731-735 | the corrected page read agrees with the as-written one inside the block, and fails with ErrorReadFailed where that one would read beyond it |
| Findings.CorrectedReadOfShortBlockFails | src/CheckedFile.cpp:285-346 | with the correction, that 1-byte read fails with ErrorReadFailed under every policy |
| Scenarios.ReadOutcomeAfterWrite | src/CheckedFile.cpp:285-346 | writing data from the start of an empty file succeeds, and `read` of the same range returns the data |
| Scenarios.CreateAndWrite | src/CheckedFile.cpp:348-407 | a file created empty and written holds the loop's pages, with the data's length as logical length |
| Scenarios.RewindAndRead | src/CheckedFile.cpp:453-464 | seeking to logical 0 succeeds, and a read from there ends as `read` from the start of the file |
| Scenarios.WriteThenReadBack | src/CheckedFile.cpp:285-407 | created, written, rewound and read back, a file returns exactly the data written, under every checksum policy |

## Left out

- OS errors beyond the deterministic rules above are not modelled: a full disk, I/O errors, errno and signals. Neither are the platform branches (Windows `_lseeki64`, `_read`, `_write`).
- `open64` and its ErrorOpenFailed (`src/CheckedFile.cpp:233-271`) are not modelled. The constructors take an already open descriptor and the file's bytes. Neither is the UTF-8 to UTF-16 file-name conversion.
- CheckedFiles.CheckedFile.Close: `::close` never fails in the model, so ErrorCloseFailed is not produced.
- The destructor's exception swallowing, `unlink`, the `operator<<` text helpers and `writeFloatingPoint` are not modelled. They are file-system side effects or `std::stringstream` formatting over `write`.
- The CRC-32C computation comes from an external library. It is a parameter; only the byte swap applied to it is modelled.
- The sampled policy's modulus is computed in floating point (`nearbyint(100.0 / policy)`). It is taken as a positive integer parameter.
- The trailer's byte order is host-dependent in the source. The model fixes it to little-endian.
- The file name and the message text of errors are not modelled. ErrorBadChecksum carries the page, both checksums and the physical length.
- CheckedFiles.CheckedFile.Write: requires `|src| <= INT64_MAX`, the largest object a process can address, so that `position + nWrite` cannot wrap.
- CheckedFiles.CheckedFile.FromBuffer: requires a block of at most INT64_MAX bytes, the largest object a process can address, though the size parameter is a `uint64_t`.
- Paging.PhysicalToLogical: the page geometry is fixed at 1024-byte physical pages (`physicalPageSizeLog2 = 10`) and 1020-byte payloads, the E57 layout. Other page sizes are not modelled.
- CheckedFiles.CheckedFile.Read: requires `nRead <= INT64_MAX` and a buffer of at least `nRead` bytes. The source does not check `bufSize`.
- BufferViews.BufferView.Read: requires the bytes to lie in the block. The unchecked behaviour is the finding below, and CheckedFile never calls it otherwise.
- Backends.FetchPage: the memory backend refuses a page that ends beyond the block, with ErrorReadFailed. That is the corrected behaviour; the as-written one is Findings.AsWrittenMemoryFetch. CheckedFiles.CheckedFile.ReadPhysicalPage, Backends.FetchPageBackendsAgree and ReadSpec.MemoryReadsLikeDescriptor hold for this corrected fetch only.
- Scenarios.WriteThenReadBack: stated for data of at least one byte and at most 1000 pages, on a file opened on descriptor 3.

## Findings

| source | as written | input that shows it | evidently intended | confidence | as-written member | corrected member |
|---|---|---|---|---|---|---|
| src/CheckedFile.cpp:731-735 | on the memory backend `readPhysicalPage` seeks to the page start and hands a whole 1024-byte page to `BufferView::read`, which copies with no bound check; the seek only requires the page to start inside the block | a 500-byte block; `read` of 1 byte at logical offset 0 passes the bounds check (logical length 500) and copies bytes 500-1023 from memory after the block | a page that ends beyond the block fails like a short descriptor read (ErrorReadFailed) | not executed | Findings.AsWrittenReadsBeyondBlock | Findings.CorrectedReadOfShortBlockFails |
