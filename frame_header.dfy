/**
 * The common frame header as both codecs use it: a 4-byte stream id followed
 * by 16 bits holding the 6-bit frame type above 10 flag bits (the header
 * layout of the RSocket Protocol, version 1.0, "Frame Header Format").
 */
module FrameHeader {
  import opened Errors
  import opened Wire
  import opened Buffers

  const HEADER_SIZE: nat := 6
  const FRAME_TYPE_SHIFT: nat := 10

  type FrameType = t: int | 0 <= t < 64
  type Flags = f: int | 0 <= f < 0x400

  const REQUEST_CHANNEL: FrameType := 0x07
  const REQUEST_N: FrameType := 0x08

  const FLAGS_M: Flags := 0x100   // metadata present
  const FLAGS_F: Flags := 0x080   // fragment follows
  const FLAGS_C: Flags := 0x040   // complete
  const FLAGS_N: Flags := 0x020   // next

  /** Whether the single-bit flag `bit` is set in `flags`. */
  function HasFlag(flags: Flags, bit: Flags): bool
    requires bit > 0
  {
    (flags / bit) % 2 == 1
  }

  /** The stream id: the first four bytes, read as a signed big-endian int. */
  function StreamIdOf(h: seq<byte>): (id: Int32)
    requires |h| >= HEADER_SIZE
    ensures WriteInt(id) == h[..4]
  {
    WriteReadInt(h[..4]);
    ReadInt(h[..4])
  }

  function TypeAndFlags(h: seq<byte>): (v: nat)
    requires |h| >= HEADER_SIZE
    ensures v < 0x1_0000
  {
    FromBigEndian(h[4..HEADER_SIZE])
  }

  /** The 16 bits after the stream id split into the top six bits of byte 4 and the ten bits below them. */
  lemma TypeAndFlagsBytes(h: seq<byte>)
    requires |h| >= HEADER_SIZE
    ensures TypeAndFlags(h) / 0x400 == h[4] as int / 4
    ensures TypeAndFlags(h) % 0x400 == (h[4] as int % 4) * 0x100 + h[5] as int
  {
    var a: nat, b: nat := h[4], h[5];
    var tf := h[4..HEADER_SIZE];
    assert tf[..1] == [a] && tf[..1][..0] == [];
    assert FromBigEndian(tf[..1]) == a;
    assert TypeAndFlags(h) == a * 0x100 + b;
    DivMod(a, 4);
    ModOfSum(a * 0x100 + b, 0x400, a / 4, (a % 4) * 0x100 + b);
  }

  /** The frame type: the upper six bits of the fifth header byte. */
  function FrameTypeOf(h: seq<byte>): (t: FrameType)
    requires |h| >= HEADER_SIZE
    ensures t == h[4] as int / 4
  {
    TypeAndFlagsBytes(h);
    TypeAndFlags(h) / 0x400
  }

  /** The flags: the low two bits of the fifth header byte above all of the sixth. */
  function FlagsOf(h: seq<byte>): (f: Flags)
    requires |h| >= HEADER_SIZE
    ensures f == (h[4] as int % 4) * 0x100 + h[5] as int
  {
    TypeAndFlagsBytes(h);
    TypeAndFlags(h) % 0x400
  }

  /** The header bytes; each field reads back as written. */
  function Encode(streamId: Int32, frameType: FrameType, flags: Flags): (h: seq<byte>)
    ensures |h| == HEADER_SIZE
    ensures StreamIdOf(h) == streamId
    ensures FrameTypeOf(h) == frameType
    ensures FlagsOf(h) == flags
  {
    var typeAndFlags := frameType * 0x400 + flags;
    FromBigEndianOf(typeAndFlags, 2);
    var h := WriteInt(streamId) + BigEndian(typeAndFlags, 2);
    assert h[..4] == WriteInt(streamId) && h[4..HEADER_SIZE] == BigEndian(typeAndFlags, 2);
    h
  }

  /** The header fields of a frame are those of its first six bytes. */
  lemma FieldsOfPrefix(f: seq<byte>)
    requires |f| >= HEADER_SIZE
    ensures StreamIdOf(f) == StreamIdOf(f[..HEADER_SIZE])
    ensures FrameTypeOf(f) == FrameTypeOf(f[..HEADER_SIZE])
    ensures FlagsOf(f) == FlagsOf(f[..HEADER_SIZE])
  {
    assert f[..HEADER_SIZE][..4] == f[..4];
    assert f[..HEADER_SIZE][4..HEADER_SIZE] == f[4..HEADER_SIZE];
  }

  /** Every six bytes are the header of the fields they hold. */
  lemma EncodeFieldsOf(h: seq<byte>)
    requires |h| == HEADER_SIZE
    ensures Encode(StreamIdOf(h), FrameTypeOf(h), FlagsOf(h)) == h
  {
    WriteReadInt(h[..4]);
    BigEndianOf(h[4..HEADER_SIZE]);
    assert TypeAndFlags(h) == FrameTypeOf(h) * 0x400 + FlagsOf(h);
    assert h == h[..4] + h[4..HEADER_SIZE];
  }

  /** FrameHeaderFlyweight.encode: a fresh buffer holding only the header. */
  method Allocate(streamId: Int32, frameType: FrameType, flags: Flags) returns (buf: ByteBuf)
    ensures fresh(buf) && buf.Valid()
    ensures buf.bytes == Encode(streamId, frameType, flags)
    ensures buf.readerIndex == 0 && buf.markedReaderIndex == 0 && buf.refCnt == 1 && buf.components == []
  {
    buf := new ByteBuf.Allocate();
    buf.WriteInt(streamId);
    buf.WriteBytes(BigEndian(frameType * 0x400 + flags, 2));
  }

  /**
   * FrameHeaderFlyweight.ensureFrameType: passes exactly when the readable
   * bytes start with a header of the expected type; reads without moving
   * anything.
   */
  method EnsureFrameType(expected: FrameType, buf: ByteBuf) returns (r: Outcome)
    requires buf.Valid()
    ensures r.Pass? <==> |buf.Readable()| >= HEADER_SIZE && FrameTypeOf(buf.Readable()) == expected
    ensures r.Fail? && |buf.Readable()| < HEADER_SIZE ==> r.error == IndexOutOfBounds
    ensures r.Fail? && |buf.Readable()| >= HEADER_SIZE ==> r.error == ProtocolViolation
  {
    var readable := buf.bytes[buf.readerIndex..];
    if |readable| < HEADER_SIZE {
      return Fail(IndexOutOfBounds);
    }
    if FrameTypeOf(readable) != expected {
      return Fail(ProtocolViolation);
    }
    r := Pass;
  }
}
