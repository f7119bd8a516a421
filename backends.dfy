/**
 * What the two storage backends do, as functions of their state.
 *
 * A checked file talks either to an OS descriptor (a byte store with a file
 * offset) or to a BufferView over a borrowed block; once closed it has
 * neither, and every call on the descriptor path fails as a call on the
 * invalid descriptor -1 does. These functions state what `lseek64`,
 * `readPhysicalPage` and the descriptor `write` do on each backend; the
 * methods of CheckedFile are proved to behave as they say.
 */
module Backends {
  import opened Words
  import opened Paging
  import opened Results
  import opened BufferViews

  datatype Backend = Descriptor | Memory | Closed

  /** The offset a descriptor lseek asks for. */
  function DescriptorTarget(cursor: nat, size: nat, offset: int, whence: Whence): int
  {
    match whence
    case SeekSet => offset
    case SeekCur => cursor + offset
    case SeekEnd => size + offset
  }

  /**
   * The result of `CheckedFile::lseek64(offset, whence)` on a backend whose
   * store holds `size` bytes and whose cursor is at `cursor`. The memory
   * backend sees the offset reinterpreted as unsigned; the descriptor fails on
   * a negative target and on one beyond INT64_MAX.
   */
  function LseekResult(kind: Backend, size: nat, cursor: nat, offset: int64, whence: Whence): (r: Result<uint64>)
    requires kind == Memory ==> cursor <= size < TWO_64
    ensures r.Ok? && kind == Memory ==> r.value <= size
    ensures r.Ok? ==> kind != Closed && (kind == Descriptor ==> r.value <= MaxInt64)
  {
    match kind
    case Closed => Err(ErrorSeekFailed)
    case Memory =>
      var t := ViewTarget(cursor, ToUint64(offset), whence, size);
      if t <= size then Ok(t) else Err(ErrorSeekFailed)
    case Descriptor =>
      var t := DescriptorTarget(cursor, size, offset, whence);
      if 0 <= t <= MaxInt64 then Ok(t) else Err(ErrorSeekFailed)
  }

  /** The cursor after that call, whether it succeeded or not. */
  function LseekCursor(kind: Backend, size: nat, cursor: nat, offset: int64, whence: Whence): (c: nat)
    requires kind == Memory ==> cursor <= size < TWO_64
    ensures LseekResult(kind, size, cursor, offset, whence).Ok? ==> c == LseekResult(kind, size, cursor, offset, whence).value
    ensures LseekResult(kind, size, cursor, offset, whence).Err? && kind != Memory ==> c == cursor
    ensures kind == Memory ==> c <= size
  {
    match kind
    case Closed => cursor
    case Memory => Min(ViewTarget(cursor, ToUint64(offset), whence, size), size)
    case Descriptor =>
      var t := DescriptorTarget(cursor, size, offset, whence);
      if 0 <= t <= MaxInt64 then t else cursor
  }

  /**
   * Whether `seek(target, Physical)`, an absolute lseek to `target` after the
   * cast to `int64_t`, succeeds: the descriptor takes every target up to
   * INT64_MAX, the memory backend every target up to the end of the block.
   */
  predicate SeekSetSucceeds(kind: Backend, size: nat, target: nat)
  {
    match kind
    case Closed => false
    case Memory => target <= size
    case Descriptor => target <= MaxInt64
  }

  lemma SeekSetAgrees(kind: Backend, size: nat, cursor: nat, target: uint64)
    requires kind == Memory ==> cursor <= size < TWO_64
    ensures LseekResult(kind, size, cursor, ToInt64(target), SeekSet).Ok? == SeekSetSucceeds(kind, size, target)
    ensures SeekSetSucceeds(kind, size, target) ==> LseekResult(kind, size, cursor, ToInt64(target), SeekSet).value == target
  {
  }

  /**
   * What `readPhysicalPage` delivers: a seek to the start of the page, then
   * one read of a whole physical page. The descriptor fails on a short read;
   * the memory backend, whose `read` checks nothing, is guarded here the same
   * way (see the findings of the model).
   */
  function FetchPage(kind: Backend, store: seq<byte>, page: nat): (r: Result<seq<byte>>)
    ensures |store| <= MaxInt64 ==> (r.Ok? <==> kind != Closed && PageStart(page) + PhysicalPageSize <= |store|)
    ensures r.Ok? ==> PageStart(page) + PhysicalPageSize <= |store| && r.value == PageAt(store, page)
    ensures r.Err? ==> r.error == ErrorSeekFailed || r.error == ErrorReadFailed
  {
    if !SeekSetSucceeds(kind, |store|, PageStart(page)) then Err(ErrorSeekFailed)
    else if PageStart(page) + PhysicalPageSize > |store| then Err(ErrorReadFailed)
    else Ok(PageAt(store, page))
  }

  /** Over the same bytes the two backends deliver the same pages. */
  lemma FetchPageBackendsAgree(store: seq<byte>, page: nat)
    requires |store| <= MaxInt64
    ensures FetchPage(Memory, store, page).Ok? == FetchPage(Descriptor, store, page).Ok?
    ensures FetchPage(Memory, store, page).Ok? ==> FetchPage(Memory, store, page) == FetchPage(Descriptor, store, page)
  {
  }

  /**
   * A descriptor write of `data` at offset `off`; the store grows to the end
   * of the write if it was shorter.
   */
  function WriteAt(store: seq<byte>, off: nat, data: seq<byte>): (r: seq<byte>)
    ensures |r| == Max(|store|, off + |data|)
  {
    seq(Max(|store|, off + |data|), q requires 0 <= q < Max(|store|, off + |data|) =>
      if off <= q < off + |data| then data[q - off] else if q < |store| then store[q] else 0)
  }

  /**
   * After the write the bytes of `data` lie at `off`, every other byte of the
   * store is unchanged, and a gap between the old end and `off` reads as zero.
   */
  lemma WriteAtEffect(store: seq<byte>, off: nat, data: seq<byte>, q: nat)
    requires q < Max(|store|, off + |data|)
    ensures WriteAt(store, off, data)[q] ==
      if off <= q < off + |data| then data[q - off] else if q < |store| then store[q] else 0
  {
  }

  /** The bytes written, as a slice of the new store. */
  lemma WriteAtSlice(store: seq<byte>, off: nat, data: seq<byte>)
    ensures WriteAt(store, off, data)[off..off + |data|] == data
  {
    var r := WriteAt(store, off, data);
    forall j | 0 <= j < |data|
      ensures r[off..off + |data|][j] == data[j]
    {
      WriteAtEffect(store, off, data, off + j);
    }
  }
}
