/**
 * A payload as the codec receives it: a reference-counted pair of a data
 * buffer and an optional metadata buffer, with ByteBufPayload's ownership
 * rules (the payload owns one reference to each buffer and gives them up
 * when its own count drops to zero).
 */
module Payloads {
  import opened Errors
  import opened Buffers

  class Payload {
    var data: ByteBuf
    /** null when the payload carries no metadata. */
    var metadata: ByteBuf?
    var refCnt: nat

    /** A live payload keeps both of its buffers alive. */
    ghost predicate Valid()
      reads this, data, metadata
    {
      && data != metadata
      && data.Valid()
      && (metadata != null ==> metadata.Valid())
      && (refCnt >= 1 ==> data.refCnt >= 1 && (metadata != null ==> metadata.refCnt >= 1))
    }

    /** ByteBufPayload.create: takes over the caller's reference to each buffer. */
    constructor Create(data: ByteBuf, metadata: ByteBuf?)
      requires data != metadata && data.Valid() && data.refCnt >= 1
      requires metadata != null ==> metadata.Valid() && metadata.refCnt >= 1
      ensures Valid()
      ensures this.data == data && this.metadata == metadata && refCnt == 1
    {
      this.data := data;
      this.metadata := metadata;
      refCnt := 1;
    }

    /** hasMetadata: whether a metadata buffer is present; a released payload cannot be read. */
    method HasMetadata() returns (r: Result<bool>)
      ensures r.Ok? <==> refCnt >= 1
      ensures r.Err? ==> r.error == IllegalReferenceCount
      ensures r.Ok? ==> r.value == (metadata != null)
    {
      if refCnt == 0 {
        return Err(IllegalReferenceCount);
      }
      r := Ok(metadata != null);
    }

    /**
     * release: one owner fewer; the last release gives up the payload's
     * reference to each buffer.
     */
    method Release() returns (r: Result<bool>)
      requires Valid()
      modifies this`refCnt, data`refCnt, metadata
      ensures Valid()
      ensures r.Ok? <==> old(refCnt) >= 1
      ensures r.Err? ==> r.error == IllegalReferenceCount
      ensures refCnt == if r.Ok? then old(refCnt) - 1 else old(refCnt)
      ensures r.Ok? ==> r.value == (refCnt == 0)
      ensures data.refCnt == old(data.refCnt) - (if r == Ok(true) then 1 else 0)
      ensures metadata != null ==> metadata.refCnt == old(metadata.refCnt) - (if r == Ok(true) then 1 else 0)
      ensures metadata != null ==> metadata.bytes == old(metadata.bytes) && metadata.readerIndex == old(metadata.readerIndex)
      ensures metadata != null ==> metadata.markedReaderIndex == old(metadata.markedReaderIndex)
      ensures metadata != null ==> metadata.components == old(metadata.components)
    {
      if refCnt == 0 {
        return Err(IllegalReferenceCount);
      }
      refCnt := refCnt - 1;
      if refCnt == 0 {
        var _ := data.Release();
        if metadata != null {
          var _ := metadata.Release();
        }
      }
      r := Ok(refCnt == 0);
    }
  }
}
