/**
 * The part of Netty's reference-counted ByteBuf that the frame codecs use:
 * the written bytes, the reader index and its mark, the reference count, and
 * the buffers whose references a composite frame holds.
 */
module Buffers {
  import opened Errors
  import opened Wire

  class ByteBuf {
    /** The bytes written so far: index 0 up to the writer index. */
    var bytes: seq<byte>
    var readerIndex: nat
    var markedReaderIndex: nat
    var refCnt: nat
    /** Buffers whose references this buffer took over when it was assembled. */
    var components: seq<ByteBuf>

    ghost predicate Valid()
      reads this
    {
      readerIndex <= |bytes| && markedReaderIndex <= |bytes|
    }

    /** The bytes from the reader index to the writer index. */
    function Readable(): (r: seq<byte>)
      reads this
      requires Valid()
      ensures |r| == |bytes| - readerIndex
    {
      bytes[readerIndex..]
    }

    /** allocator.buffer(): an empty buffer owned once by its caller. */
    constructor Allocate()
      ensures Valid()
      ensures bytes == [] && readerIndex == 0 && markedReaderIndex == 0
      ensures refCnt == 1 && components == []
    {
      bytes := [];
      readerIndex := 0;
      markedReaderIndex := 0;
      refCnt := 1;
      components := [];
    }

    method WriteBytes(bs: seq<byte>)
      requires Valid()
      modifies this`bytes
      ensures Valid()
      ensures bytes == old(bytes) + bs
    {
      bytes := bytes + bs;
    }

    /** writeInt: appends the four big-endian bytes of x. */
    method WriteInt(x: Int32)
      requires Valid()
      modifies this`bytes
      ensures Valid()
      ensures bytes == old(bytes) + Wire.WriteInt(x)
    {
      bytes := bytes + Wire.WriteInt(x);
    }

    method MarkReaderIndex()
      requires Valid()
      modifies this`markedReaderIndex
      ensures Valid()
      ensures markedReaderIndex == readerIndex
    {
      markedReaderIndex := readerIndex;
    }

    method ResetReaderIndex()
      requires Valid()
      modifies this`readerIndex
      ensures Valid()
      ensures readerIndex == markedReaderIndex
    {
      readerIndex := markedReaderIndex;
    }

    /** skipBytes: fails, moving nothing, when fewer than n bytes are readable. */
    method SkipBytes(n: nat) returns (r: Outcome)
      requires Valid()
      modifies this`readerIndex
      ensures Valid()
      ensures r.Pass? <==> old(readerIndex) + n <= |bytes|
      ensures r.Fail? ==> r.error == IndexOutOfBounds && readerIndex == old(readerIndex)
      ensures r.Pass? ==> readerIndex == old(readerIndex) + n
    {
      if readerIndex + n > |bytes| {
        return Fail(IndexOutOfBounds);
      }
      readerIndex := readerIndex + n;
      r := Pass;
    }

    /** readInt: the next four bytes as a big-endian int, advancing past them. */
    method ReadInt() returns (r: Result<Int32>)
      requires Valid()
      modifies this`readerIndex
      ensures Valid()
      ensures r.Ok? <==> old(readerIndex) + 4 <= |bytes|
      ensures r.Err? ==> r.error == IndexOutOfBounds && readerIndex == old(readerIndex)
      ensures r.Ok? ==> readerIndex == old(readerIndex) + 4
      ensures r.Ok? ==> r.value == Wire.ReadInt(bytes[old(readerIndex)..readerIndex])
    {
      if readerIndex + 4 > |bytes| {
        return Err(IndexOutOfBounds);
      }
      r := Ok(Wire.ReadInt(bytes[readerIndex..readerIndex + 4]));
      readerIndex := readerIndex + 4;
    }

    /** retain: one more owner; a released buffer cannot be revived. */
    method Retain() returns (r: Outcome)
      modifies this`refCnt
      ensures r.Pass? <==> old(refCnt) >= 1
      ensures r.Fail? ==> r.error == IllegalReferenceCount && refCnt == old(refCnt)
      ensures r.Pass? ==> refCnt == old(refCnt) + 1
    {
      if refCnt == 0 {
        return Fail(IllegalReferenceCount);
      }
      refCnt := refCnt + 1;
      r := Pass;
    }

    /** release: one owner fewer; the result says whether that freed the buffer. */
    method Release() returns (r: Result<bool>)
      modifies this`refCnt
      ensures r.Ok? <==> old(refCnt) >= 1
      ensures r.Err? ==> r.error == IllegalReferenceCount && refCnt == old(refCnt)
      ensures r.Ok? ==> refCnt == old(refCnt) - 1 && r.value == (refCnt == 0)
    {
      if refCnt == 0 {
        return Err(IllegalReferenceCount);
      }
      refCnt := refCnt - 1;
      r := Ok(refCnt == 0);
    }
  }
}
