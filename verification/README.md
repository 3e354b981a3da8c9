# Lunar scale frame codec

A Dafny model of the byte-level codec that the LunarGateway library uses
to talk to a Lunar scale over Bluetooth Low Energy. The library
does two things with bytes, and both are modelled here.

- **Frame builder** (`_prepareRequest`). It builds the request frames the
  gateway writes to the scale: `EF DD`, the message type, the payload, and
  two checksum bytes. The first checksum is the low byte of the sum of the
  payload bytes at even positions. The second is the low byte of the sum
  at odd positions. The commands (settings, tare, timer start/stop/reset,
  heartbeat) are fixed message-type/payload pairs given to the builder.
  Each command is preceded by a literal identification frame. A literal
  notification-subscription frame is also sent.
- **Frame scanner and decoder** (`decodeMessage`, `_substr`). It looks for
  the first `EF DD` before the buffer's terminating zero byte. It then reads
  the topic, size and type at fixed offsets and slices out the payload.
  It updates the gateway's `battery` from topic `0x08`, and its `weight`
  from topic `0x0C` with type `0x05`.

Modules:

- `Bytes` (bytes.dfy): the `byte` type, the sync pair and the two parity sums. It also
  holds an arithmetic model of the C `&` operator with the mask lemmas the
  decoder needs.
- `FrameBuilder` (builder.dfy): `BuildFrame`, the reference layout of a request frame. `PrepareRequest`
  is the source's loop with 8-bit wrapping accumulators, proved equal to
  it. `ParseRequest` is its inverse, with round-trip lemmas in both
  directions.
- `Commands` (commands.dfy): the command vectors, the frames each command writes, and the
  two literal frames, both proved to follow the checksum rule.
- `FrameDecoder` (decoder.dfy): the gateway state, `Scan`, `Substr`, the battery and weight
  field decoders, and `Decode`.
- `DecoderProperties` (decoder_properties.dfy): what each outcome means for the buffer, the battery and
  weight rules, idempotence, independence from bytes past the frame, and
  that the decoder finds the frames the builder makes.
- `Scenarios` (scenarios.dfy): concrete buffers (1.00, -1.00, a five-byte weight frame,
  battery 43, a sync pair behind the terminator, a truncated frame).

The gateway's `battery` and `weight` fields are a `Gateway` value. `Decode`
takes one and returns the next. `weight` is held as an exact `real`.

### Where the model departs from the code

The decoder reads without bounds checks in three places. In each place the
model returns an explicit outcome and leaves the state unchanged:

- No sync pair before the terminator: the model returns `NoFrame` and
  leaves the state alone. The code instead goes on with
  `messageStart == -1`. It decodes a phantom frame with topic
  `message[1]`, size `message[2]` and type `message[3]`, and the payload
  starting at `message[4]`. When those reads stay inside the buffer, the
  battery or weight rule can fire. For example, `00 08 00 2A 00` sets the
  battery to 42 in the code (`Scenarios.PhantomFrameScenario`).
- The header is cut off (`start + 4 >= |buf|`), or the declared size runs
  past the buffer (`start + size + 5 > |buf|`): the code reads past the
  end. The model returns `MalformedFrame`.
- A weight frame (topic `0x0C`, type `0x05`) whose declared size is below
  5: the weight rule reads bytes 0 to 5 of the payload copy. `_substr`
  allocates the copy with one extra byte and stores a zero there, so
  below 5 the read runs past the allocation. The model returns
  `MalformedFrame`. It does not treat this as a precondition.

A declared size of exactly 5 is well defined. The flags byte the rule
reads is then the copy's terminating zero, so the weight is never
negated. The model reads the copy's allocation (`Allocation`) and does
the same.

The scan tests `message[i+1]` for the second sync byte. In a C string that
byte is at worst the terminator. The model asks for `i + 1 < |buf|`, so a
lone `EF` at the very end of the buffer is not a match.

The model's scan also stops at the end of the sequence. The code's loop
stops only at a zero byte, so a buffer without one would be read past its
end.

Two further facts about the code:

- The builder is bounded by its static 32-byte buffer, so payloads are at
  most 27 bytes long.
- The two "literal" frames are not independent of the checksum algorithm.
  Both are exactly what the builder produces (the identification frame
  adds one trailing zero byte), and the model proves this.

## Model

| member | source | states |
|---|---|---|
| FrameBuilder.BuildFrame | src/lunarGateway.cpp:77-97 | A request frame is five bytes longer than its payload and fits the 32-byte buffer. It opens `EF DD`, then the low byte of the message type. Payload byte i is at offset 3+i. Then come the even-position and odd-position sums, each mod 256. |
| FrameBuilder.PrepareRequest | src/lunarGateway.cpp:77-97 | The single pass with two wrapping 8-bit accumulators, selected by `i % 2`, produces exactly the reference frame. |
| FrameBuilder.WrapStep | src/lunarGateway.cpp:82-93 | An 8-bit accumulator that takes the next byte when its position's parity selects it, and otherwise keeps its value, stays equal to the low byte of its running sum. |
| FrameBuilder.ParseBuiltFrame | src/lunarGateway.cpp:77-97 | A receiver that checks the sync pair and both checksums accepts every built frame and recovers the type byte and the payload. |
| FrameBuilder.BuildParsedFrame | src/lunarGateway.cpp:77-97 | Every frame up to 32 bytes that passes the checksum check is the builder's frame for its own type and payload. |
| FrameBuilder.EmptyPayloadFrame | src/lunarGateway.cpp:85-95 | An empty payload gives the five bytes `EF DD t 00 00`. |
| Bytes.ParitySumsSnoc | src/lunarGateway.cpp:85-93 | Appending a byte adds it to the sum for its position's parity and leaves the other sum unchanged. |
| Bytes.ParitySumsAppend | src/lunarGateway.cpp:85-93 | A suffix after an odd-length prefix swaps the parity of its positions. |
| Commands.MsgType | src/lunarGateway.cpp:24-75 | Every command's message type lies in 0..255, so storing it in the frame's `uint8_t` type byte loses nothing. Exactly the three timer commands share type 13. |
| Commands.CommandWrites | src/lunarGateway.cpp:24-75 | Each command writes the identification frame and then the built frame for its (type, payload). The `sizeof(payload)+5` bytes written are the whole built frame and nothing more. |
| Commands.CommandFrames | src/lunarGateway.cpp:24-75 | Heartbeat is `EF DD 00 02 00 02 00`. Tare is `EF DD 04 00 00 00`. Timer start, reset and stop are `EF DD 0D 00 0k 00 0k` for k = 0, 1, 2. Settings is `EF DD 06` and 18 zero bytes. |
| Commands.Payload | src/lunarGateway.cpp:24-75 | Every command payload fits the request buffer (at most 27 bytes). |
| Commands.NotificationFrameIsBuilt | src/lunarGateway.cpp:66 | The 14-byte subscription literal equals the built frame for type `0x0C` and payload `09 00 01 01 02 02 05 03 04`. |
| Commands.NotificationChecksum | src/lunarGateway.cpp:66 | The subscription payload's checksum bytes are `15 06`, the last two bytes of the literal. |
| Commands.NotificationRequestWrites | src/lunarGateway.cpp:64-68 | A notification request writes the identification frame, then a frame the checksum check accepts with type `0x0C`. |
| Commands.IdFrameIsBuilt | src/lunarGateway.cpp:59-62 | The 21-byte identification literal is the built frame for type `0x0B` and identifier "012345678901234", followed by one zero byte. |
| Commands.IdChecksum | src/lunarGateway.cpp:60 | The identifier's checksum bytes are `9A 6D`. |
| FrameDecoder.ScanFrom | src/lunarGateway.cpp:117-122 | Continuing the scan from an index that every earlier index has passed finds the least sync index before the terminator, or reports that there is none. |
| FrameDecoder.Scan | src/lunarGateway.cpp:114-122 | The result is the least index i with `buf[i] = EF` and `buf[i+1] = DD`. Every byte up to i is non-zero and no earlier index matches. None means no index before the first zero byte matches. |
| FrameDecoder.Substr | src/lunarGateway.cpp:154-161 | A reversed range gives None. Otherwise the result is a copy of `src[start..end)` of length `end - start`. |
| FrameDecoder.Allocation | src/lunarGateway.cpp:158-160 | The memory a copy occupies is one byte longer than the copy. It holds the copy's bytes and then a zero byte. |
| FrameDecoder.BatteryLevel | src/lunarGateway.cpp:131 | Masking with `0x7F` leaves the byte mod 128, a value in 0..127. |
| FrameDecoder.Negative | src/lunarGateway.cpp:147 | `(flags & 0x02) == 0x02` holds exactly when bit 1 of the flags is set. |
| FrameDecoder.Magnitude | src/lunarGateway.cpp:135 | The little-endian magnitude lies in 0..65535. Its low byte is the first payload byte and its high byte the second. |
| FrameDecoder.Divisor | src/lunarGateway.cpp:136-146 | Units 1 to 4 divide by 10 to the power of the unit. Any other unit divides by 1. |
| FrameDecoder.WeightValue | src/lunarGateway.cpp:134-150 | Checked against the reference equation `ReportsWeight`: the weight times the unit's scale (10^unit for units 1 to 4, else 1) is the little-endian magnitude of bytes 0 and 1, negated exactly when bit 1 of byte 5 is set. The weight lies in -65535..65535 and is negative only with the flag set. |
| FrameDecoder.WeightFromFields | src/lunarGateway.cpp:135-149 | The magnitude divided by the unit's divisor, negated when flag bit 1 is set, satisfies `ReportsWeight`. It lies in -65535..65535 and is negative only with the flag set. |
| FrameDecoder.SignedQuotient | src/lunarGateway.cpp:137-149 | Dividing a magnitude by a divisor of at least 1, negated on request, multiplies back to the signed magnitude. It stays within the magnitude's range and is negative only when negated. |
| FrameDecoder.ApplyFrame | src/lunarGateway.cpp:130-160 | Topic `0x08` sets the battery from the type-position byte mod 128 and keeps the weight. Topic `0x0C` with type `0x05` sets the weight from the payload copy plus its terminating zero and keeps the battery. A five-byte weight payload never gives a negative weight. Anything else changes nothing. |
| FrameDecoder.Decode | src/lunarGateway.cpp:99-152 | NoFrame exactly when the scan finds nothing. Only a located frame changes the state; the code's phantom frame at start -1 is not decoded. A frame's topic, size, type and payload are the bytes at offsets 2, 3, 4 and 5.. of the scan's start, all inside the buffer. |
| DecoderProperties.DecodeMalformed | src/lunarGateway.cpp:124-160 | A located frame is malformed exactly when the header is cut off, the declared size runs past the buffer, or a weight frame declares fewer than 5 bytes. Below 5, the weight rule's six-byte read runs past the copy and its terminator. |
| DecoderProperties.DecodeBattery | src/lunarGateway.cpp:124-132 | A topic-`0x08` frame is accepted whatever its type. Its payload is the declared bytes after the type. The battery becomes the byte at offset 4 mod 128, in 0..127, and the weight is unchanged. |
| DecoderProperties.DecodeWeightFrame | src/lunarGateway.cpp:124-160 | A weight frame declaring at least 5 bytes is accepted with the declared payload. The weight becomes the rule applied to that payload plus the copy's terminating zero. The battery is kept. |
| DecoderProperties.DecodeWeight | src/lunarGateway.cpp:134-160 | For a weight frame, the weight satisfies `ReportsWeight` for the magnitude at offsets 5 and 6, the unit at offset 9, and the flags at offset 10. When the declared size is 5, the flags are the copy's terminating zero instead. The battery is unchanged. |
| DecoderProperties.DecodeUnrecognised | src/lunarGateway.cpp:130-151 | A frame of any other topic and type is accepted and leaves the state unchanged. |
| DecoderProperties.DecodeIdempotent | src/lunarGateway.cpp:130-151 | Decoding the same buffer twice gives the same outcome and state as decoding it once. |
| DecoderProperties.ScanIgnoresTail | src/lunarGateway.cpp:117-122 | The scan's answer depends only on the bytes up to the found sync pair. |
| DecoderProperties.DecodeIgnoresTail | src/lunarGateway.cpp:124-128 | Replacing every byte after the located frame's end changes neither the outcome nor the state. |
| DecoderProperties.ScanBuiltFrame | src/lunarGateway.cpp:114-122 | The scan finds every frame the builder makes at offset 0, whatever its type and payload. |
| DecoderProperties.DecodeBuiltFrame | src/lunarGateway.cpp:124-128 | When a built frame's payload opens with a size that fits and a type byte, the decoder accepts it. It reads back the builder's message type as the topic and the declared number of payload bytes. |
| Scenarios.WeightScenario | src/lunarGateway.cpp:134-150 | Magnitude 100 with unit 2 after one stray byte reads 1.00, and the battery is kept. |
| Scenarios.NegativeWeightScenario | src/lunarGateway.cpp:147-149 | The same frame with flag bit 1 set reads -1.00. |
| Scenarios.BatteryScenario | src/lunarGateway.cpp:124-131 | A battery frame declaring no payload is accepted with an empty payload. Any type-position byte b gives battery b mod 128, so `AB` gives 43. |
| Scenarios.ShortWeightScenario | src/lunarGateway.cpp:134-160 | A weight frame declaring 5 bytes (magnitude 100, unit 2) reads 1.00, not -1.00. This holds even though the byte after the frame has bit 1 set, because the flags are read from the copy's terminator. |
| Scenarios.PhantomFrameScenario | src/lunarGateway.cpp:114-131 | `00 08 00 2A 00` has no sync pair before its terminator, so the model answers NoFrame and keeps the state. The bytes the code would read at start -1 are topic `08`, size `00`, and a type-position byte whose low seven bits are 42. |
| Scenarios.SyncAfterTerminatorScenario | src/lunarGateway.cpp:117 | A sync pair after a zero byte is not found, and the state is unchanged. |
| Scenarios.TruncatedScenario | src/lunarGateway.cpp:124 | A frame that declares more bytes than the buffer holds is malformed, and the state is unchanged. |

## Left out

- The Bluetooth transport: `init`, the characteristic pointers and every `writeValue` call. A command is modelled only as the list of frames it hands to the transport.
- The debug printing in `decodeMessage`, which is switched off by `if(false)`.
- The `strcpy` into the 32-byte `msgBuffer`. Its result is never used; it can only overflow.
- Heap allocation and leaking in `_substr`, and aliasing of the static request buffer: every slice and frame is a fresh sequence. The NULL branch of `_substr` is modelled, but `decodeMessage` never reaches it, since its ranges always have `end >= start + 4`.
- `char` signedness: all bytes are unsigned 0..255. With a signed `char`, the comparisons against `0xEF` and `0xDD` would never hold.
- The `& 0xff` applied to payload bytes in the builder and to the magnitude bytes in the decoder. It is the identity on unsigned bytes.
- FrameDecoder.WeightValue: the weight is an exact real, not a 32-bit float. Float rounding of the division, and the `-0.0` that a zero magnitude with the sign flag gives, are not modelled.
- The initial values of `battery` and `weight`: the constructor leaves them uninitialised, so the model takes any starting state.
- Checksums of incoming frames: the code does not check them, and neither does the model.
- Concurrency: the code has none.
