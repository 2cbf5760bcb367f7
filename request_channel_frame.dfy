/**
 * The REQUEST_CHANNEL frame (RequestChannelFrameFlyweight): checks and
 * saturates the initial credit before handing off to the shared request
 * encoder, and promotes the unbounded sentinel on the way back.
 */
module RequestChannelFrame {
  import opened Errors
  import opened Wire
  import opened Buffers
  import opened Payloads
  import opened FrameHeader
  import opened Credit
  import RequestFrame

  /** The bytes `encode` produces for a channel request whose demand is at least 1. */
  function Frame(streamId: Int32, fragmentFollows: bool, complete: bool, initialRequestN: Int64,
                 metadata: Option<seq<byte>>, data: seq<byte>): (f: seq<byte>)
    requires initialRequestN >= 1 && RequestFrame.MetadataFits(metadata)
    ensures |f| >= RequestFrame.BODY_OFFSET
    ensures FrameTypeOf(f) == REQUEST_CHANNEL && StreamIdOf(f) == streamId
    ensures HasFlag(FlagsOf(f), FLAGS_F) == fragmentFollows
    ensures HasFlag(FlagsOf(f), FLAGS_C) == complete
    ensures !HasFlag(FlagsOf(f), FLAGS_N)
    ensures HasFlag(FlagsOf(f), FLAGS_M) == metadata.Some?
    ensures FlagsOf(f) == RequestFrame.FlagsFor(metadata.Some?, fragmentFollows, complete, false)
  {
    RequestFrame.Layout(streamId, REQUEST_CHANNEL, fragmentFollows, complete, false,
                        Saturate(initialRequestN), metadata, data)
  }

  /** What `initialRequestN` returns for a buffer whose readable bytes are f. */
  function InitialRequestNOf(f: seq<byte>): (r: Result<Int64>)
    ensures r.Err? <==> |f| < RequestFrame.BODY_OFFSET
    ensures r.Err? ==> r.error == IndexOutOfBounds
  {
    match RequestFrame.RawRequestNOf(f)
    case Err(e) => Err(e)
    case Ok(w) => Ok(Promote(w))
  }

  /**
   * Round trip: the initial demand (saturated, then promoted), the metadata
   * and the data all come back out of an encoded channel frame.
   */
  lemma DecodeFrame(streamId: Int32, fragmentFollows: bool, complete: bool, initialRequestN: Int64,
                    metadata: Option<seq<byte>>, data: seq<byte>)
    requires initialRequestN >= 1 && RequestFrame.MetadataFits(metadata)
    ensures initialRequestN < INT_MAX ==>
              InitialRequestNOf(Frame(streamId, fragmentFollows, complete, initialRequestN, metadata, data)) == Ok(initialRequestN)
    ensures initialRequestN >= INT_MAX ==>
              InitialRequestNOf(Frame(streamId, fragmentFollows, complete, initialRequestN, metadata, data)) == Ok(LONG_MAX)
    ensures RequestFrame.MetadataOf(Frame(streamId, fragmentFollows, complete, initialRequestN, metadata, data)) == Ok(metadata)
    ensures RequestFrame.DataOf(Frame(streamId, fragmentFollows, complete, initialRequestN, metadata, data)) == Ok(data)
  {
    RequestFrame.LayoutDecodes(streamId, REQUEST_CHANNEL, fragmentFollows, complete, false,
                               Saturate(initialRequestN), metadata, data);
    PromoteSaturate(initialRequestN);
  }

  /**
   * encode: fails for a demand below 1, leaving the buffers alone; otherwise
   * a fresh frame with the saturated credit, the given fragment-follows and
   * complete flags and no next flag, which takes over the caller's references
   * to the metadata (when not null) and data buffers.
   */
  method Encode(streamId: Int32, fragmentFollows: bool, complete: bool, initialRequestN: Int64,
                metadata: ByteBuf?, data: ByteBuf) returns (r: Result<ByteBuf>)
    requires data.Valid()
    requires metadata != null ==> metadata.Valid() && |metadata.Readable()| <= RequestFrame.MAX_METADATA_LENGTH
    ensures r.Err? <==> initialRequestN < 1
    ensures r.Err? ==> r.error == IllegalArgument
    ensures r.Ok? ==> fresh(r.value) && r.value.Valid() && r.value.readerIndex == 0 && r.value.refCnt == 1
    ensures r.Ok? ==> r.value.markedReaderIndex == 0
    ensures r.Ok? ==> r.value.bytes == Frame(streamId, fragmentFollows, complete, initialRequestN,
                                             RequestFrame.ReadableOf(metadata), data.Readable())
    ensures r.Ok? ==> r.value.components == RequestFrame.Taken(metadata, data)
  {
    if initialRequestN < 1 {
      return Err(IllegalArgument);
    }
    var reqN := Saturate(initialRequestN);
    var frame := RequestFrame.EncodeFrame(streamId, REQUEST_CHANNEL, fragmentFollows, complete, false,
                                          reqN, metadata, data);
    r := Ok(frame);
  }

  /**
   * encodeReleasingPayload: retains the data buffer, and the metadata buffer
   * when the payload has one, releases the payload once, then encodes with
   * fragment-follows false. The retained references are what the frame takes
   * over, so both buffers are alive when `encode` runs. The credit is only
   * checked after the ownership transfer: for a demand below 1 the payload
   * has still been released and the retained references are left with the
   * failed call.
   */
  method EncodeReleasingPayload(streamId: Int32, complete: bool, initialRequestN: Int64, payload: Payload)
    returns (r: Result<ByteBuf>)
    requires payload.Valid()
    requires payload.metadata != null ==> |payload.metadata.Readable()| <= RequestFrame.MAX_METADATA_LENGTH
    modifies payload, payload.data, payload.metadata
    ensures payload.Valid()
    ensures payload.data == old(payload.data) && payload.metadata == old(payload.metadata)
    ensures old(payload.refCnt) == 0 ==> r == Err(IllegalReferenceCount)
    ensures old(payload.refCnt) == 0 ==> unchanged(payload) && unchanged(payload.data)
    ensures old(payload.refCnt) == 0 && payload.metadata != null ==> unchanged(payload.metadata)
    ensures old(payload.refCnt) >= 1 ==> payload.refCnt == old(payload.refCnt) - 1
    // one retain and, if the payload was the last owner, one release through the payload
    ensures old(payload.refCnt) >= 1 ==>
              payload.data.refCnt == old(payload.data.refCnt) + (if old(payload.refCnt) == 1 then 0 else 1)
    ensures old(payload.refCnt) >= 1 && payload.metadata != null ==>
              payload.metadata.refCnt == old(payload.metadata.refCnt) + (if old(payload.refCnt) == 1 then 0 else 1)
    ensures old(payload.refCnt) >= 1 ==>
              payload.data.refCnt >= 1 && (payload.metadata != null ==> payload.metadata.refCnt >= 1)
    ensures unchanged(payload.data`bytes, payload.data`readerIndex, payload.data`markedReaderIndex, payload.data`components)
    ensures payload.metadata != null ==>
              unchanged(payload.metadata`bytes, payload.metadata`readerIndex,
                        payload.metadata`markedReaderIndex, payload.metadata`components)
    ensures old(payload.refCnt) >= 1 && initialRequestN < 1 ==> r == Err(IllegalArgument)
    ensures old(payload.refCnt) >= 1 && initialRequestN >= 1 ==> r.Ok? && fresh(r.value)
    ensures r.Ok? ==> r.value.bytes == Frame(streamId, false, complete, initialRequestN,
                                             RequestFrame.ReadableOf(payload.metadata), payload.data.Readable())
    ensures r.Ok? ==> r.value.components == RequestFrame.Taken(payload.metadata, payload.data)
    ensures r.Ok? ==> r.value.Valid() && r.value.readerIndex == 0 && r.value.refCnt == 1
    ensures r.Ok? ==> r.value.markedReaderIndex == 0
  {
    var hasMetadata := payload.HasMetadata();
    if hasMetadata.Err? {
      return Err(hasMetadata.error);
    }
    var metadata: ByteBuf? := null;
    if hasMetadata.value {
      metadata := payload.metadata;
      var _ := metadata.Retain();
    }
    var data := payload.data;
    var _ := data.Retain();

    var _ := payload.Release();

    r := Encode(streamId, false, complete, initialRequestN, metadata, data);
  }

  /** initialRequestN: the credit after the header, with the unbounded sentinel promoted. */
  method InitialRequestN(buf: ByteBuf) returns (r: Result<Int64>)
    requires buf.Valid()
    ensures r == InitialRequestNOf(buf.Readable())
  {
    var requestN := RequestFrame.RawRequestNOf(buf.bytes[buf.readerIndex..]);
    if requestN.Err? {
      return Err(requestN.error);
    }
    r := Ok(Promote(requestN.value));
  }

  /** data: the bytes after the credit and the metadata section. */
  method Data(buf: ByteBuf) returns (r: Result<seq<byte>>)
    requires buf.Valid()
    ensures r == RequestFrame.DataOf(buf.Readable())
  {
    r := RequestFrame.DataOf(buf.bytes[buf.readerIndex..]);
  }

  /** metadata: the metadata section's contents, absent when the metadata flag is clear. */
  method Metadata(buf: ByteBuf) returns (r: Result<Option<seq<byte>>>)
    requires buf.Valid()
    ensures r == RequestFrame.MetadataOf(buf.Readable())
  {
    r := RequestFrame.MetadataOf(buf.bytes[buf.readerIndex..]);
  }
}
