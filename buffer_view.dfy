/**
 * The in-memory backend: a cursor over a caller-owned block of bytes.
 *
 * The block is borrowed, never copied or freed; the model holds it as an
 * immutable sequence. `seek` clamps the cursor to the end of the block;
 * `read` checks no bounds, so its callers must.
 */
module BufferViews {
  import opened Words

  /** The `whence` argument of a seek. */
  datatype Whence = SeekSet | SeekCur | SeekEnd

  /**
   * The cursor a BufferView seek computes before clamping, in wrapping
   * `uint64_t` arithmetic.
   */
  function ViewTarget(cursor: uint64, offset: uint64, whence: Whence, size: uint64): uint64
  {
    match whence
    case SeekCur => (cursor + offset) % TWO_64
    case SeekSet => offset
    case SeekEnd => (size - offset) % TWO_64
  }

  class BufferView {
    const stream: seq<byte>
    const streamSize: uint64
    var cursor: uint64

    ghost predicate Valid()
      reads this
    {
      |stream| == streamSize && cursor <= streamSize
    }

    constructor (input: seq<byte>, size: uint64)
      requires |input| == size
      ensures Valid()
      ensures stream == input && streamSize == size && cursor == 0
    {
      stream := input;
      streamSize := size;
      cursor := 0;
    }

    /** `pos`: the cursor, never beyond the block. */
    function Pos(): (p: uint64)
      reads this
      requires Valid()
      ensures p <= streamSize
    {
      cursor
    }

    /**
     * `seek`: moves the cursor to the computed target; a target beyond the
     * block pins the cursor to the end of the block and reports failure.
     */
    method Seek(offset: uint64, whence: Whence) returns (ok: bool)
      requires Valid()
      modifies this
      ensures Valid()
      ensures ok <==> ViewTarget(old(cursor), offset, whence, streamSize) <= streamSize
      ensures cursor == Min(ViewTarget(old(cursor), offset, whence, streamSize), streamSize)
    {
      if whence == SeekCur {
        cursor := (cursor + offset) % TWO_64;
      } else if whence == SeekSet {
        cursor := offset;
      } else if whence == SeekEnd {
        cursor := (streamSize - offset) % TWO_64;
      }
      if cursor > streamSize {
        cursor := streamSize;
        return false;
      }
      return true;
    }

    /**
     * `read`: copies `count` bytes from the cursor into `buffer` and advances
     * the cursor by `count`. Nothing is checked, so the bytes must lie in the
     * block and fit the buffer.
     */
    method Read(buffer: array<byte>, count: uint64)
      requires Valid()
      requires cursor + count <= streamSize && count <= buffer.Length
      modifies this, buffer
      ensures Valid()
      ensures buffer[..count] == stream[old(cursor)..old(cursor) + count]
      ensures buffer[count..] == old(buffer[count..])
      ensures cursor == old(cursor) + count
    {
      var start := cursor;
      var i: uint64 := 0;
      while i < count
        invariant i <= count && cursor == start + i
        invariant forall k :: 0 <= k < i ==> buffer[k] == stream[start + k]
        invariant forall k :: count <= k < buffer.Length ==> buffer[k] == old(buffer[k])
      {
        buffer[i] := stream[start + i];
        cursor := cursor + 1;
        i := i + 1;
      }
    }
  }
}
