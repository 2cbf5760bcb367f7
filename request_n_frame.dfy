/**
 * The REQUEST_N frame (RequestNFrameFlyweight): a header of type REQUEST_N
 * with no flags, followed by the 4-byte big-endian credit.
 */
module RequestNFrame {
  import opened Errors
  import opened Wire
  import opened Buffers
  import opened FrameHeader
  import opened Credit

  const FRAME_SIZE: nat := HEADER_SIZE + 4

  /** The bytes `encode` produces for a demand of at least 1. */
  function Frame(streamId: Int32, requestN: Int64): (f: seq<byte>)
    requires requestN >= 1
    ensures |f| == FRAME_SIZE
    ensures StreamIdOf(f) == streamId && FrameTypeOf(f) == REQUEST_N && FlagsOf(f) == 0
    ensures ReadInt(f[HEADER_SIZE..]) == Saturate(requestN)
  {
    var h := FrameHeader.Encode(streamId, REQUEST_N, 0);
    var f := h + WriteInt(Saturate(requestN));
    assert f[..HEADER_SIZE] == h && f[HEADER_SIZE..] == WriteInt(Saturate(requestN));
    FieldsOfPrefix(f);
    f
  }

  /**
   * What `requestN` returns for a buffer whose readable bytes are f: the type
   * is checked before the credit is read, and the sentinel is promoted.
   */
  function Decode(f: seq<byte>): (r: Result<Int64>)
    ensures r.Err? && |f| >= HEADER_SIZE && FrameTypeOf(f) != REQUEST_N ==> r.error == ProtocolViolation
    ensures r.Ok? ==> |f| >= FRAME_SIZE && FrameTypeOf(f) == REQUEST_N
  {
    if |f| < HEADER_SIZE then Err(IndexOutOfBounds)
    else if FrameTypeOf(f) != REQUEST_N then Err(ProtocolViolation)
    else if |f| < FRAME_SIZE then Err(IndexOutOfBounds)
    else Ok(Promote(ReadInt(f[HEADER_SIZE..FRAME_SIZE])))
  }

  /**
   * Round trip: decoding an encoded frame, whatever follows it in the buffer,
   * gives back the demand below INT_MAX and the unbounded sentinel from there on.
   */
  lemma DecodeFrame(streamId: Int32, requestN: Int64, rest: seq<byte>)
    requires requestN >= 1
    ensures requestN < INT_MAX ==> Decode(Frame(streamId, requestN) + rest) == Ok(requestN)
    ensures requestN >= INT_MAX ==> Decode(Frame(streamId, requestN) + rest) == Ok(LONG_MAX)
  {
    var f := Frame(streamId, requestN);
    var g := f + rest;
    assert g[..HEADER_SIZE] == f[..HEADER_SIZE];
    FieldsOfPrefix(g);
    FieldsOfPrefix(f);
    assert g[HEADER_SIZE..FRAME_SIZE] == f[HEADER_SIZE..];
    PromoteSaturate(requestN);
  }

  /**
   * The reader looks only at the type and the credit: whatever the flags, the
   * four bytes after a REQUEST_N header come back as their promoted int.
   */
  lemma DecodeAnyCredit(streamId: Int32, flags: Flags, w: Int32, rest: seq<byte>)
    ensures Decode(FrameHeader.Encode(streamId, REQUEST_N, flags) + WriteInt(w) + rest) == Ok(Promote(w))
  {
    var h := FrameHeader.Encode(streamId, REQUEST_N, flags);
    var g := h + WriteInt(w) + rest;
    assert g[..HEADER_SIZE] == h;
    assert g[HEADER_SIZE..FRAME_SIZE] == WriteInt(w);
    FieldsOfPrefix(g);
  }

  /** A frame whose header names another type is refused, however short its body. */
  lemma DecodeRejectsOtherTypes(streamId: Int32, frameType: FrameType, flags: Flags, body: seq<byte>)
    requires frameType != REQUEST_N
    ensures Decode(FrameHeader.Encode(streamId, frameType, flags) + body) == Err(ProtocolViolation)
  {
    var h := FrameHeader.Encode(streamId, frameType, flags);
    var g := h + body;
    assert g[..HEADER_SIZE] == h;
    FieldsOfPrefix(g);
  }

  /**
   * Re-encoding: a decoded frame with no flags and a positive credit is
   * exactly what `encode` writes for its stream id and decoded demand.
   */
  lemma EncodeDecoded(f: seq<byte>)
    requires Decode(f).Ok? && Decode(f).value >= 1
    requires FlagsOf(f) == 0
    ensures Frame(StreamIdOf(f), Decode(f).value) == f[..FRAME_SIZE]
  {
    var h := f[..HEADER_SIZE];
    var w := ReadInt(f[HEADER_SIZE..FRAME_SIZE]);
    FieldsOfPrefix(f);
    EncodeFieldsOf(h);
    SaturatePromote(w);
    WriteReadInt(f[HEADER_SIZE..FRAME_SIZE]);
    assert f[..FRAME_SIZE] == h + f[HEADER_SIZE..FRAME_SIZE];
  }

  /**
   * encode: fails for a demand below 1, otherwise a fresh buffer holding the
   * REQUEST_N header followed by the saturated credit.
   */
  method Encode(streamId: Int32, requestN: Int64) returns (r: Result<ByteBuf>)
    ensures r.Err? <==> requestN < 1
    ensures r.Err? ==> r.error == IllegalArgument
    ensures r.Ok? ==> fresh(r.value) && r.value.Valid()
    ensures r.Ok? ==> r.value.bytes == Frame(streamId, requestN)
    ensures r.Ok? ==> r.value.readerIndex == 0 && r.value.markedReaderIndex == 0
    ensures r.Ok? ==> r.value.refCnt == 1 && r.value.components == []
  {
    if requestN < 1 {
      return Err(IllegalArgument);
    }
    var reqN := Saturate(requestN);
    var header := Allocate(streamId, REQUEST_N, 0);
    header.WriteInt(reqN);
    r := Ok(header);
  }

  /**
   * requestN: reads the credit with mark, skip, read and reset. On success the
   * reader index is where it was and the mark has moved to it; when the type
   * check fails nothing moves; when the credit is cut short the reader index
   * is left past the header.
   */
  method RequestN(buf: ByteBuf) returns (r: Result<Int64>)
    requires buf.Valid()
    modifies buf`readerIndex, buf`markedReaderIndex
    ensures buf.Valid()
    ensures r == Decode(old(buf.Readable()))
    ensures r.Ok? ==> buf.readerIndex == old(buf.readerIndex) && buf.markedReaderIndex == old(buf.readerIndex)
    ensures old(|buf.Readable()| < HEADER_SIZE || FrameTypeOf(buf.Readable()) != REQUEST_N) ==>
              buf.readerIndex == old(buf.readerIndex) && buf.markedReaderIndex == old(buf.markedReaderIndex)
    ensures r.Err? && old(|buf.Readable()| >= HEADER_SIZE && FrameTypeOf(buf.Readable()) == REQUEST_N) ==>
              buf.readerIndex == old(buf.readerIndex) + HEADER_SIZE && buf.markedReaderIndex == old(buf.readerIndex)
  {
    ghost var f, start := buf.Readable(), buf.readerIndex;
    var checked := EnsureFrameType(REQUEST_N, buf);
    if checked.Fail? {
      return Err(checked.error);
    }
    buf.MarkReaderIndex();
    // cannot fail: the type check has seen a whole header
    var _ := buf.SkipBytes(HEADER_SIZE);
    var i := buf.ReadInt();
    if i.Err? {
      return Err(i.error);
    }
    assert buf.bytes[start + HEADER_SIZE..start + FRAME_SIZE] == f[HEADER_SIZE..FRAME_SIZE];
    buf.ResetReaderIndex();
    r := Ok(Promote(i.value));
  }

  /**
   * Encoding into a fresh buffer and reading it back: the demand below
   * INT_MAX, the unbounded sentinel from INT_MAX on, and an illegal-argument
   * failure, with nothing encoded, below 1.
   */
  method EncodeThenDecode(streamId: Int32, requestN: Int64) returns (r: Result<Int64>)
    ensures requestN < 1 ==> r == Err(IllegalArgument)
    ensures 1 <= requestN < INT_MAX ==> r == Ok(requestN)
    ensures requestN >= INT_MAX ==> r == Ok(LONG_MAX)
  {
    var encoded := Encode(streamId, requestN);
    if encoded.Err? {
      return Err(encoded.error);
    }
    var frame := encoded.value;
    assert frame.Readable() == Frame(streamId, requestN) + [];
    DecodeFrame(streamId, requestN, []);
    r := RequestN(frame);
  }
}
