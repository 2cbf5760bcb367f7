/**
 * The shared request-frame layout that REQUEST_CHANNEL is encoded with
 * (RequestFlyweight): header, 4-byte request n, then, when the metadata flag
 * is set, a 24-bit metadata length and the metadata, then the data to the end
 * of the frame (RSocket Protocol, version 1.0, "REQUEST_CHANNEL Frame" and
 * "Frame Metadata and Data").
 */
module RequestFrame {
  import opened Errors
  import opened Wire
  import opened Buffers
  import opened FrameHeader

  /** The metadata length field is 24 bits wide. */
  const MAX_METADATA_LENGTH: nat := 0xFF_FFFF

  /** Where the metadata section (or the data) begins. */
  const BODY_OFFSET: nat := HEADER_SIZE + 4

  predicate MetadataFits(metadata: Option<seq<byte>>)
  {
    metadata.Some? ==> |metadata.value| <= MAX_METADATA_LENGTH
  }

  /**
   * The flag bits of a request frame; each reads back as given, and no bit
   * outside M, F, C and N (the ignore bit and the five low bits) is set.
   */
  function FlagsFor(hasMetadata: bool, fragmentFollows: bool, complete: bool, next: bool): (f: Flags)
    ensures f < 0x200 && f % 0x20 == 0
    ensures HasFlag(f, FLAGS_M) == hasMetadata
    ensures HasFlag(f, FLAGS_F) == fragmentFollows
    ensures HasFlag(f, FLAGS_C) == complete
    ensures HasFlag(f, FLAGS_N) == next
  {
    (if hasMetadata then FLAGS_M else 0) + (if fragmentFollows then FLAGS_F else 0)
    + (if complete then FLAGS_C else 0) + (if next then FLAGS_N else 0)
  }

  function MetadataSection(metadata: Option<seq<byte>>): (s: seq<byte>)
    requires MetadataFits(metadata)
  {
    match metadata
    case None => []
    case Some(m) => BigEndian(|m|, 3) + m
  }

  /** The bytes of an encoded request frame. */
  function Layout(streamId: Int32, frameType: FrameType, fragmentFollows: bool, complete: bool, next: bool,
                  requestN: Int32, metadata: Option<seq<byte>>, data: seq<byte>): (f: seq<byte>)
    requires MetadataFits(metadata)
    ensures |f| >= BODY_OFFSET
    ensures StreamIdOf(f) == streamId && FrameTypeOf(f) == frameType
    ensures FlagsOf(f) == FlagsFor(metadata.Some?, fragmentFollows, complete, next)
  {
    var h := Encode(streamId, frameType, FlagsFor(metadata.Some?, fragmentFollows, complete, next));
    var f := h + WriteInt(requestN) + MetadataSection(metadata) + data;
    assert f[..HEADER_SIZE] == h;
    FieldsOfPrefix(f);
    f
  }

  /** The index where the data begins, once the metadata section (if flagged) is skipped. */
  function DataStart(f: seq<byte>): (r: Result<nat>)
    requires |f| >= HEADER_SIZE
    ensures r.Ok? ==> BODY_OFFSET <= r.value <= |f|
    ensures r.Ok? && HasFlag(FlagsOf(f), FLAGS_M) ==> BODY_OFFSET + 3 <= r.value
    ensures r.Err? ==> r.error == IndexOutOfBounds
  {
    if |f| < BODY_OFFSET then Err(IndexOutOfBounds)
    else if !HasFlag(FlagsOf(f), FLAGS_M) then Ok(BODY_OFFSET)
    else if |f| < BODY_OFFSET + 3 then Err(IndexOutOfBounds)
    else
      var end := BODY_OFFSET + 3 + FromBigEndian(f[BODY_OFFSET..BODY_OFFSET + 3]);
      if end > |f| then Err(IndexOutOfBounds) else Ok(end)
  }

  /**
   * RequestFlyweight.initialRequestN: the raw 32-bit field after the header,
   * unpromoted; a frame too short to hold it is refused.
   */
  function RawRequestNOf(f: seq<byte>): (r: Result<Int32>)
    ensures r.Err? <==> |f| < BODY_OFFSET
    ensures r.Err? ==> r.error == IndexOutOfBounds
    ensures r.Ok? ==> WriteInt(r.value) == f[HEADER_SIZE..BODY_OFFSET]
  {
    if |f| < BODY_OFFSET then Err(IndexOutOfBounds)
    else
      WriteReadInt(f[HEADER_SIZE..BODY_OFFSET]);
      Ok(ReadInt(f[HEADER_SIZE..BODY_OFFSET]))
  }

  /**
   * RequestFlyweight.metadataWithRequestN: the reader skips the header and the
   * request n before it looks at the metadata flag, so a frame too short to
   * hold both is refused even when the flag is clear; otherwise the metadata
   * is absent when the flag is clear and is the length-prefixed section when
   * it is set.
   */
  function MetadataOf(f: seq<byte>): (r: Result<Option<seq<byte>>>)
    ensures |f| < BODY_OFFSET ==> r == Err(IndexOutOfBounds)
    ensures |f| >= BODY_OFFSET && !HasFlag(FlagsOf(f), FLAGS_M) ==> r == Ok(None)
    ensures r.Err? ==> r.error == IndexOutOfBounds
    ensures r.Ok? && r.value.Some? ==>
              |f| >= BODY_OFFSET + 3 && HasFlag(FlagsOf(f), FLAGS_M)
              && |r.value.value| == FromBigEndian(f[BODY_OFFSET..BODY_OFFSET + 3])
              && BODY_OFFSET + 3 + |r.value.value| <= |f|
              && r.value.value == f[BODY_OFFSET + 3..BODY_OFFSET + 3 + |r.value.value|]
  {
    if |f| < HEADER_SIZE then Err(IndexOutOfBounds)
    else match DataStart(f)
      case Err(e) => Err(e)
      case Ok(end) =>
        if HasFlag(FlagsOf(f), FLAGS_M) then Ok(Some(f[BODY_OFFSET + 3..end])) else Ok(None)
  }

  /**
   * RequestFlyweight.dataWithRequestN: everything after the metadata section,
   * which is everything after the request n when the metadata flag is clear.
   */
  function DataOf(f: seq<byte>): (r: Result<seq<byte>>)
    ensures r.Ok? <==> |f| >= HEADER_SIZE && DataStart(f).Ok?
    ensures r.Err? ==> r.error == IndexOutOfBounds
    ensures r.Ok? ==> |r.value| <= |f| - BODY_OFFSET && r.value == f[|f| - |r.value|..]
    ensures |f| >= BODY_OFFSET && !HasFlag(FlagsOf(f), FLAGS_M) ==> r == Ok(f[BODY_OFFSET..])
  {
    if |f| < HEADER_SIZE then Err(IndexOutOfBounds)
    else match DataStart(f)
      case Err(e) => Err(e)
      case Ok(end) => Ok(f[end..])
  }

  lemma Pow256Of3()
    ensures Pow256(3) == MAX_METADATA_LENGTH + 1
  {
  }

  /** An encoded frame is the header, then the request n, then the metadata section and the data. */
  lemma LayoutSections(streamId: Int32, frameType: FrameType, fragmentFollows: bool, complete: bool, next: bool,
                       requestN: Int32, metadata: Option<seq<byte>>, data: seq<byte>)
    requires MetadataFits(metadata)
    ensures Layout(streamId, frameType, fragmentFollows, complete, next, requestN, metadata, data)[HEADER_SIZE..BODY_OFFSET]
            == WriteInt(requestN)
    ensures Layout(streamId, frameType, fragmentFollows, complete, next, requestN, metadata, data)[BODY_OFFSET..]
            == MetadataSection(metadata) + data
  {
    var h := Encode(streamId, frameType, FlagsFor(metadata.Some?, fragmentFollows, complete, next));
    var f := Layout(streamId, frameType, fragmentFollows, complete, next, requestN, metadata, data);
    assert f == h + WriteInt(requestN) + (MetadataSection(metadata) + data);
  }

  /** The 24-bit metadata length reads back as written. */
  lemma MetadataLengthRoundTrip(n: nat)
    requires n <= MAX_METADATA_LENGTH
    ensures FromBigEndian(BigEndian(n, 3)) == n
  {
    FromBigEndianOf(n, 3);
    Pow256Of3();
  }

  lemma SplitAt(s: seq<byte>, a: seq<byte>, b: seq<byte>, c: seq<byte>)
    requires s == a + b + c
    ensures s[..|a|] == a && s[|a|..|a| + |b|] == b
  {
  }

  /** A flagged metadata section is its 24-bit length followed by the metadata itself. */
  lemma MetadataSectionBounds(f: seq<byte>, m: seq<byte>, data: seq<byte>)
    requires |f| >= BODY_OFFSET && |m| <= MAX_METADATA_LENGTH
    requires f[BODY_OFFSET..] == MetadataSection(Some(m)) + data
    ensures |f| >= BODY_OFFSET + 3 + |m| == |f| - |data|
    ensures FromBigEndian(f[BODY_OFFSET..BODY_OFFSET + 3]) == |m|
    ensures f[BODY_OFFSET + 3..|f| - |data|] == m
  {
    var len := BigEndian(|m|, 3);
    MetadataLengthRoundTrip(|m|);
    SplitAt(f[BODY_OFFSET..], len, m, data);
    assert f[BODY_OFFSET..BODY_OFFSET + 3] == f[BODY_OFFSET..][..3];
    assert f[BODY_OFFSET + 3..|f| - |data|] == f[BODY_OFFSET..][3..3 + |m|];
  }

  /** The metadata section of an encoded frame ends where its data begins. */
  lemma SectionBounds(f: seq<byte>, metadata: Option<seq<byte>>, data: seq<byte>)
    requires |f| >= BODY_OFFSET && MetadataFits(metadata)
    requires HasFlag(FlagsOf(f), FLAGS_M) == metadata.Some?
    requires f[BODY_OFFSET..] == MetadataSection(metadata) + data
    ensures DataStart(f) == Ok(|f| - |data|)
    ensures metadata.Some? ==> f[BODY_OFFSET + 3..|f| - |data|] == metadata.value
  {
    if metadata.Some? {
      MetadataSectionBounds(f, metadata.value, data);
    }
  }

  /** The three readers recover the request n, metadata and data an encoded frame was built from. */
  lemma LayoutDecodes(streamId: Int32, frameType: FrameType, fragmentFollows: bool, complete: bool, next: bool,
                      requestN: Int32, metadata: Option<seq<byte>>, data: seq<byte>)
    requires MetadataFits(metadata)
    ensures RawRequestNOf(Layout(streamId, frameType, fragmentFollows, complete, next, requestN, metadata, data)) == Ok(requestN)
    ensures MetadataOf(Layout(streamId, frameType, fragmentFollows, complete, next, requestN, metadata, data)) == Ok(metadata)
    ensures DataOf(Layout(streamId, frameType, fragmentFollows, complete, next, requestN, metadata, data)) == Ok(data)
  {
    var f := Layout(streamId, frameType, fragmentFollows, complete, next, requestN, metadata, data);
    LayoutSections(streamId, frameType, fragmentFollows, complete, next, requestN, metadata, data);
    SectionBounds(f, metadata, data);
    assert f[|f| - |data|..] == data;
  }

  /** The bytes a buffer would contribute to a frame: its readable bytes, or nothing for null. */
  function ReadableOf(buf: ByteBuf?): (m: Option<seq<byte>>)
    reads buf
    requires buf != null ==> buf.Valid()
  {
    if buf == null then None else Some(buf.Readable())
  }

  /** The buffers an encoded frame takes over: the metadata buffer when present, then the data buffer. */
  function Taken(metadata: ByteBuf?, data: ByteBuf): (s: seq<ByteBuf>)
  {
    (if metadata == null then [] else [metadata]) + [data]
  }

  /**
   * RequestFlyweight.encode: a fresh frame laid out from the readable bytes of
   * the given buffers; the frame takes over the caller's reference to each of
   * them (their own state, reference counts included, is untouched).
   */
  method EncodeFrame(streamId: Int32, frameType: FrameType, fragmentFollows: bool, complete: bool, next: bool,
                     requestN: Int32, metadata: ByteBuf?, data: ByteBuf) returns (frame: ByteBuf)
    requires data.Valid()
    requires metadata != null ==> metadata.Valid() && |metadata.Readable()| <= MAX_METADATA_LENGTH
    ensures fresh(frame) && frame.Valid()
    ensures frame.bytes == Layout(streamId, frameType, fragmentFollows, complete, next, requestN,
                                  ReadableOf(metadata), data.Readable())
    ensures frame.readerIndex == 0 && frame.markedReaderIndex == 0 && frame.refCnt == 1
    ensures frame.components == Taken(metadata, data)
  {
    var md := ReadableOf(metadata);
    frame := Allocate(streamId, frameType, FlagsFor(metadata != null, fragmentFollows, complete, next));
    frame.WriteInt(requestN);
    frame.WriteBytes(MetadataSection(md));
    frame.WriteBytes(data.Readable());
    frame.components := Taken(metadata, data);
  }
}
