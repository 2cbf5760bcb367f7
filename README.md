# RSocket credit-carrying frame codecs in Dafny

This project models the two frame codecs of rsocket-java that carry
flow-control credit, and proves properties of them:

- `RequestNFrameFlyweight` (the `REQUEST_N` frame, type 0x08): `encode` checks
  that the demand is at least 1, clamps it to `Integer.MAX_VALUE`, and appends
  the credit as four big-endian bytes to a freshly encoded header (flags 0).
  `requestN` checks the header's frame type, then reads the credit with
  mark / skip / read / reset. It promotes the wire value `Integer.MAX_VALUE`
  to the unbounded demand `Long.MAX_VALUE`.
- `RequestChannelFrameFlyweight` (the `REQUEST_CHANNEL` frame, type 0x07):
  `encode` applies the same check and clamp and hands the credit, the flags
  and the metadata and data buffers to the shared request encoder.
  `encodeReleasingPayload` retains the payload's buffers, releases the payload
  and encodes with `fragmentFollows = false`. `initialRequestN` promotes the
  sentinel; `data` and `metadata` read the frame's body.

The flow-control rule is defined once (`Credit.Saturate`, `Credit.Promote`)
and used by both codecs, which repeat the same two expressions in the source.

Buffers are a class `Buffers.ByteBuf` with the written bytes, the reader
index, the marked reader index, the reference count, and the buffers a
frame took over (`components`). Payloads are a class `Payloads.Payload` with
the reference-counting rules of `ByteBufPayload`. The methods change these
fields in place and are proved against pure functions on byte sequences
(`RequestNFrame.Decode`, `RequestFrame.Layout`, ...). The lemmas about those
functions carry the round trips.

Two behaviours of the code as written are stated in the contracts:

- `requestN` restores the reader index on success and moves the mark to it.
  When the header is a `REQUEST_N` header but the credit is cut short,
  `readInt` fails after `skipBytes`, and the reader index is left six bytes on.
- `encodeReleasingPayload` retains and releases before `encode` checks the
  credit. For a demand below 1 the payload is released and the call fails
  with an illegal-argument error while the retained references stay counted.

The common header and the shared request encoder (`FrameHeaderFlyweight`,
`RequestFlyweight`, `DataAndMetadataFlyweight`) are not part of this model.
Their byte layout is taken from the RSocket Protocol, version 1.0: a 4-byte
stream id, then 16 bits holding the 6-bit frame type above 10 flag bits
(metadata 0x100, follows 0x080, complete 0x040, next 0x020). A request frame
continues with the 4-byte request n, then, if the metadata flag is set, a
24-bit metadata length and the metadata, then the data to the end of the
frame. Some descriptions of this frame place the metadata before the
request n; the protocol and the reader of `initialRequestN` (which skips only
the header) place it after, and the model follows them.

## Model

| member | source | states |
|---|---|---|
| `Wire.WriteInt` | rsocket-core/src/main/java/io/rsocket/frame/RequestNFrameFlyweight.java:19 | `writeInt` writes four bytes, and reading them back as a big-endian two's-complement `int` gives the value written |
| `Wire.ReadInt` | rsocket-core/src/main/java/io/rsocket/frame/RequestNFrameFlyweight.java:26 | `readInt` takes four bytes as a big-endian two's-complement `int`: the value is congruent to the unsigned big-endian value modulo 2^32 and is negative exactly when that value exceeds `Integer.MAX_VALUE` |
| `Wire.WriteReadInt` | rsocket-core/src/main/java/io/rsocket/frame/RequestNFrameFlyweight.java:26 | every four bytes read by `readInt` and written back are the same bytes, so the 32-bit codec is a bijection |
| `Credit.Saturate` | rsocket-core/src/main/java/io/rsocket/frame/RequestNFrameFlyweight.java:16 | for a demand of at least 1 the wire credit is in 1..demand and is the demand or `Integer.MAX_VALUE`, i.e. the demand clamped to `Integer.MAX_VALUE` |
| `Credit.Promote` | rsocket-core/src/main/java/io/rsocket/frame/RequestNFrameFlyweight.java:28 | the decoded demand never lies below the wire value, is the wire value or `Long.MAX_VALUE`, and is `Long.MAX_VALUE` exactly when the wire value is `Integer.MAX_VALUE` |
| `Credit.PromoteSaturate` | rsocket-core/src/main/java/io/rsocket/frame/RequestChannelFrameFlyweight.java:42-58 | clamping then promoting is the identity on 1..2^31-2 and sends every demand from 2^31-1 on to `Long.MAX_VALUE` |
| `Credit.SaturatePromote` | rsocket-core/src/main/java/io/rsocket/frame/RequestNFrameFlyweight.java:16-28 | re-encoding a decoded positive wire credit gives back the same wire credit |
| `Credit.PromoteInjective` | rsocket-core/src/main/java/io/rsocket/frame/RequestNFrameFlyweight.java:28 | distinct wire credits decode to distinct demands |
| `Buffers.ByteBuf.Allocate` | rsocket-core/src/main/java/io/rsocket/frame/RequestNFrameFlyweight.java:18 | a freshly allocated buffer is empty, with both indexes at 0 and one owner |
| `Buffers.ByteBuf.WriteInt` | rsocket-core/src/main/java/io/rsocket/frame/RequestNFrameFlyweight.java:19 | `writeInt` appends the four big-endian bytes of the value and changes nothing else |
| `Buffers.ByteBuf.WriteBytes` | rsocket-core/src/main/java/io/rsocket/frame/RequestChannelFrameFlyweight.java:44-45 | appending bytes (the header's type-and-flags short, the metadata section, the data) extends the written bytes by exactly those bytes and changes nothing else |
| `Buffers.ByteBuf.MarkReaderIndex` | rsocket-core/src/main/java/io/rsocket/frame/RequestNFrameFlyweight.java:24 | the mark becomes the current reader index |
| `Buffers.ByteBuf.SkipBytes` | rsocket-core/src/main/java/io/rsocket/frame/RequestNFrameFlyweight.java:25 | advances the reader index by n when n bytes are readable; otherwise fails with index-out-of-bounds and moves nothing |
| `Buffers.ByteBuf.ReadInt` | rsocket-core/src/main/java/io/rsocket/frame/RequestNFrameFlyweight.java:26 | with four readable bytes, returns their big-endian `int` and advances by four; otherwise fails with index-out-of-bounds and moves nothing |
| `Buffers.ByteBuf.ResetReaderIndex` | rsocket-core/src/main/java/io/rsocket/frame/RequestNFrameFlyweight.java:27 | the reader index returns to the mark |
| `Buffers.ByteBuf.Retain` | rsocket-core/src/main/java/io/rsocket/frame/RequestChannelFrameFlyweight.java:21-22 | adds one owner to a live buffer; a buffer whose count is 0 cannot be retained (illegal reference count) |
| `Buffers.ByteBuf.Release` | rsocket-core/src/main/java/io/rsocket/frame/RequestChannelFrameFlyweight.java:24 | removes one owner and reports whether that freed the buffer; releasing a freed buffer fails |
| `Payloads.Payload.Create` | rsocket-core/src/test/java/io/rsocket/core/TestRequesterResponderSupport.java:64 | a payload built from live buffers takes over one reference to each and has one owner |
| `Payloads.Payload.HasMetadata` | rsocket-core/src/main/java/io/rsocket/frame/RequestChannelFrameFlyweight.java:20 | a live payload reports whether it holds a metadata buffer; a released payload cannot be read |
| `Payloads.Payload.Release` | rsocket-core/src/main/java/io/rsocket/frame/RequestChannelFrameFlyweight.java:24 | one owner fewer; the last release releases the data buffer and the metadata buffer once each, and a live payload keeps its buffers alive |
| `FrameHeader.StreamIdOf` | rsocket-core/src/main/java/io/rsocket/frame/RequestNFrameFlyweight.java:23 | the stream id is the `int` whose four big-endian bytes are the first four header bytes |
| `FrameHeader.FrameTypeOf` | rsocket-core/src/main/java/io/rsocket/frame/RequestNFrameFlyweight.java:23 | the frame type `ensureFrameType` compares is the upper six bits of the fifth header byte |
| `FrameHeader.FlagsOf` | rsocket-core/src/main/java/io/rsocket/frame/RequestNFrameFlyweight.java:23 | the flags are the ten bits below the frame type: the low two bits of the fifth header byte above the sixth byte |
| `FrameHeader.Encode` | rsocket-core/src/main/java/io/rsocket/frame/RequestNFrameFlyweight.java:18 | the header is six bytes from which the stream id, frame type and flags read back as given |
| `FrameHeader.EncodeFieldsOf` | rsocket-core/src/main/java/io/rsocket/frame/RequestNFrameFlyweight.java:18 | every six bytes are the encoding of the fields read from them, so header encoding and decoding are inverse |
| `FrameHeader.Allocate` | rsocket-core/src/main/java/io/rsocket/frame/RequestNFrameFlyweight.java:18 | the header encoder returns a fresh buffer holding exactly the header, with reader index and mark at 0 and one owner |
| `FrameHeader.EnsureFrameType` | rsocket-core/src/main/java/io/rsocket/frame/RequestNFrameFlyweight.java:23 | passes exactly when the readable bytes begin with a header of the expected type; a mismatch is a protocol violation, a short buffer index-out-of-bounds; the buffer is not touched |
| `RequestFrame.FlagsFor` | rsocket-core/src/main/java/io/rsocket/frame/RequestChannelFrameFlyweight.java:44-45 | the metadata, follows, complete and next flag bits each read back as the boolean they were built from, and no other flag bit is set |
| `RequestFrame.Layout` | rsocket-core/src/main/java/io/rsocket/frame/RequestChannelFrameFlyweight.java:44-45 | an encoded request frame carries the given stream id and frame type, and its flags are those of the given booleans with the metadata bit set exactly when metadata is present |
| `RequestFrame.DataStart` | rsocket-core/src/main/java/io/rsocket/frame/RequestChannelFrameFlyweight.java:48-54 | the data begins after the header and credit, and after the metadata length field when the metadata flag is set; a frame too short for these fails with index-out-of-bounds |
| `RequestFrame.RawRequestNOf` | rsocket-core/src/main/java/io/rsocket/frame/RequestChannelFrameFlyweight.java:57 | the shared reader's raw request n is exactly the four bytes after the header (before promotion), and reading it fails with index-out-of-bounds exactly when the frame is shorter than header plus credit; round trip in `RequestFrame.LayoutDecodes` |
| `RequestFrame.MetadataOf` | rsocket-core/src/main/java/io/rsocket/frame/RequestChannelFrameFlyweight.java:53 | a frame shorter than header plus credit fails with index-out-of-bounds whatever its flags; otherwise the metadata is absent when the flag is clear, and when present it is the flag-announced section whose length is the 24-bit field after the credit; round trip in `RequestFrame.LayoutDecodes` |
| `RequestFrame.DataOf` | rsocket-core/src/main/java/io/rsocket/frame/RequestChannelFrameFlyweight.java:49 | the data is a suffix of the frame after the credit, all of it after the credit when the metadata flag is clear; it fails with index-out-of-bounds exactly when the metadata section cannot be skipped; round trip in `RequestFrame.LayoutDecodes` |
| `RequestFrame.LayoutDecodes` | rsocket-core/src/main/java/io/rsocket/frame/RequestChannelFrameFlyweight.java:44-57 | the request-n, metadata and data readers recover exactly the credit, the optional metadata and the data an encoded request frame was built from |
| `RequestFrame.EncodeFrame` | rsocket-core/src/main/java/io/rsocket/frame/RequestChannelFrameFlyweight.java:44-45 | the shared encoder returns a fresh frame, reader index and mark at 0, laid out from the buffers' readable bytes and takes over the metadata (when not null) and data buffers without changing them or their counts |
| `RequestNFrame.Frame` | rsocket-core/src/main/java/io/rsocket/frame/RequestNFrameFlyweight.java:16-19 | the encoded frame is ten bytes: a `REQUEST_N` header with the stream id and flags 0, then a credit that reads back as the clamped demand |
| `RequestNFrame.Decode` | rsocket-core/src/main/java/io/rsocket/frame/RequestNFrameFlyweight.java:22-29 | a frame of another type is a protocol violation whatever its length; success needs a `REQUEST_N` header followed by four bytes |
| `RequestNFrame.DecodeFrame` | rsocket-core/src/main/java/io/rsocket/frame/RequestNFrameFlyweight.java:9-29 | round trip: decoding an encoded frame, whatever follows it, gives the demand when it is below 2^31-1 and `Long.MAX_VALUE` from 2^31-1 on |
| `RequestNFrame.DecodeAnyCredit` | rsocket-core/src/main/java/io/rsocket/frame/RequestNFrameFlyweight.java:22-28 | whatever the flags and whatever follows, a `REQUEST_N` header followed by four bytes decodes to the promoted `int` those bytes hold |
| `RequestNFrame.DecodeRejectsOtherTypes` | rsocket-core/src/main/java/io/rsocket/frame/RequestNFrameFlyweight.java:23 | a frame whose header names any other type is refused with a protocol violation before the credit is read, even when no credit follows |
| `RequestNFrame.EncodeDecoded` | rsocket-core/src/main/java/io/rsocket/frame/RequestNFrameFlyweight.java:16-28 | a decoded frame with flags 0 and a positive credit is byte for byte what `encode` writes for its stream id and decoded demand |
| `RequestNFrame.Encode` | rsocket-core/src/main/java/io/rsocket/frame/RequestNFrameFlyweight.java:9-20 | fails with an illegal argument exactly when the demand is below 1, producing no frame; otherwise returns a fresh buffer, reader index and mark at 0, holding exactly the encoded frame |
| `RequestNFrame.RequestN` | rsocket-core/src/main/java/io/rsocket/frame/RequestNFrameFlyweight.java:22-29 | returns the decoding of the readable bytes; the bytes never change; on success the reader index is where it was (the mark now equals it); a failed type check moves nothing; a cut-short credit leaves the reader index past the header |
| `RequestNFrame.EncodeThenDecode` | rsocket-core/src/main/java/io/rsocket/frame/RequestNFrameFlyweight.java:9-29 | `requestN(encode(n))` is n for 1 <= n < 2^31-1, `Long.MAX_VALUE` for n >= 2^31-1, and an illegal-argument failure for n < 1 |
| `RequestChannelFrame.Frame` | rsocket-core/src/main/java/io/rsocket/frame/RequestChannelFrameFlyweight.java:38-45 | the encoded channel frame has type `REQUEST_CHANNEL`, the given stream id, follows and complete flags as given, the next flag clear, the metadata flag exactly when metadata is present, and no other flag bit |
| `RequestChannelFrame.InitialRequestNOf` | rsocket-core/src/main/java/io/rsocket/frame/RequestChannelFrameFlyweight.java:56-59 | reading the initial credit fails, with index-out-of-bounds, exactly when the frame is shorter than header plus credit |
| `RequestChannelFrame.DecodeFrame` | rsocket-core/src/main/java/io/rsocket/frame/RequestChannelFrameFlyweight.java:29-59 | round trip: the initial demand comes back unchanged below 2^31-1 and as `Long.MAX_VALUE` from there on, and metadata and data come back exactly |
| `RequestChannelFrame.Encode` | rsocket-core/src/main/java/io/rsocket/frame/RequestChannelFrameFlyweight.java:29-46 | fails with an illegal argument exactly when the demand is below 1; otherwise a fresh frame, reader index and mark at 0, with the clamped credit, the given follows and complete flags, next false, that takes over the metadata and data buffers |
| `RequestChannelFrame.EncodeReleasingPayload` | rsocket-core/src/main/java/io/rsocket/frame/RequestChannelFrameFlyweight.java:13-27 | a released payload is refused with nothing changed; otherwise the payload loses one owner, each present buffer gains one reference net of the payload's release, both stay alive, and the frame is encoded with follows false and metadata exactly when the payload has it |
| `RequestChannelFrame.InitialRequestN` | rsocket-core/src/main/java/io/rsocket/frame/RequestChannelFrameFlyweight.java:56-59 | returns the promoted credit of the buffer's readable bytes without touching the buffer |
| `RequestChannelFrame.Data` | rsocket-core/src/main/java/io/rsocket/frame/RequestChannelFrameFlyweight.java:48-50 | returns `RequestFrame.DataOf` of the readable bytes without touching the buffer: the bytes after the credit and any metadata section |
| `RequestChannelFrame.Metadata` | rsocket-core/src/main/java/io/rsocket/frame/RequestChannelFrameFlyweight.java:52-54 | returns `RequestFrame.MetadataOf` of the readable bytes without touching the buffer: index-out-of-bounds for a frame shorter than header plus credit whatever its flags, otherwise absent when the metadata flag is clear and the length-prefixed section when it is set |

## Left out

- `FrameHeaderFlyweight`, `RequestFlyweight` and `DataAndMetadataFlyweight` are not part of this model. Their layout comes from the RSocket Protocol, version 1.0, and their readers are given as functions on bytes. The model assumes `ensureFrameType` and the `RequestFlyweight` readers leave the reader index and the mark unchanged; the "moves nothing" clauses of `RequestNFrame.RequestN` and of the `RequestChannelFrame` readers rest on that assumption.
- RequestFrame.MetadataOf: follows a reader that skips the header and the request n before it consults the metadata flag, so a frame of six to nine bytes with the flag clear is refused with index-out-of-bounds rather than read as having no metadata; the unshown reader may order these differently.
- RequestFrame.EncodeFrame: requires metadata shorter than 2^24 bytes, the width of the metadata length field; how the unshown encoder refuses longer metadata is not modelled.
- RequestChannelFrame.Encode: requires a non-null data buffer and metadata shorter than 2^24 bytes, as above.
- RequestChannelFrame.EncodeReleasingPayload: requires the payload's metadata, when present, to be shorter than 2^24 bytes, and its data and metadata to be distinct buffers.
- FrameHeader.EnsureFrameType: compares the raw 6-bit type code; an unknown code is reported as a protocol violation like any other mismatch.
- Buffer allocation and pooling: allocation creates a fresh object; capacity limits are not modelled.
- Zero-copy composition: a frame copies the readable bytes of the buffers it takes over and records them in `components`; `data` and `metadata` return byte values, not slices that share the frame's reference count.
- Access checks on reads and writes of a released buffer (an illegal-reference-count error in Netty) are not modelled; only retain, release and payload access check the count.
- Reference counts are unbounded; Netty's overflow check on retain is not modelled.
- `ByteBufPayload` recycling (clearing its fields on deallocation) is not modelled.
- Stream-id validation and masking belong to the header encoder; the model writes the full `int`.
- The stream registry, stream-id suppliers, fragmentation and reassembly, and the test scaffolding in `TestRequesterResponderSupport` (random payloads, `synchronized` overrides, assertions) are outside this core.
