# CRSF receiver library, receiver application and examples, in Dafny

This project models the CRSF (Crossfire serial protocol) code of a small
STM32 receiver firmware:

- **CrsfSerial** (module `Serial`, `crsf_serial.dfy`) is the library object.
  It reassembles frames from a serial byte stream. Each frame is
  `[address, frame size, type, payload…, CRC-8]`.
  - It decodes RC channels, link statistics and GPS frames.
  - It keeps the link up or down with a 300 ms failsafe.
  - It flushes a partial frame after 100 ms of silence.
  - It has a serial passthrough mode with its own baud rate.
  - It writes frames out (`queuePacket`, `queuePacketChannels`).
- **ArduinoCRSF** (`arduino_crsf.dfy`) is the older receiver of the same
  protocol, with these differences:
  - a 67-byte buffer;
  - no out-of-band hook;
  - it only accepts frames addressed to the flight controller (0xC8);
  - it scales channels with Arduino `map()`;
  - it writes only while the link is up.
- **The frame assembler** (`assembler.dfy`) is shared by both receivers:
  - the `_rxBuf` array with its `_rxBufPos` cursor;
  - the reprocess loop of `handleByteReceived`;
  - `shiftRxBuffer` and the idle flush of `checkPacketTimeout`.

  A `Config` value carries the three differences between the two receivers.
  Each method of the `FrameAssembler` class is proved against a pure function
  (`Shifted`, `Reprocessed`, `Received`, `Flushed`), and the properties are
  lemmas about those functions.
- **The wire formats** of both copies of `crsf_protocol.h` are in
  `protocol.dfy`, `bytes.dfy` and `channels.dfy`:
  - the constants;
  - `CRSF_to_US` / `US_to_CRSF`;
  - the byte-swap helpers on a little-endian target;
  - the payload layouts read at explicit byte offsets;
  - the 11-bit channel packer and unpacker, which keep the source's scratch
    register and bit count.
- **MedianAvgFilter** (`median.dfy`) is the ring of N unsigned samples
  averaged after dropping the lowest and the highest one.
- **The receiver application** `src/main.cpp` is in `app.dfy`:
  - the output map and the failsafe table;
  - the battery voltage from the smoothed ADC reading;
  - the fake flight-controller command line that starts passthrough.
- **The telemetry and handset examples** are in `telemetry.dfy` and
  `handset.dfy`.

How the model treats the outside world:

- **Callbacks.** `onLinkUp`, `onLinkDown`, `onOobData` and the packet
  callbacks are appended, in order, to a log of `Callback` values.
- **The serial port** is a log of `PortOp` values (`Begin`, `End`, `Write`).
- **Text printed on USB serial** is appended to a console string.
- **millis() and micros()** become parameters. Each received byte carries
  the millis() reading taken after it.

The CRC-8 is assumed to be the generator 0xD5, processed MSB first from 0
with no final inversion, the CRC-8 of ETSI EN 302 307-1 (DVB-S2). The Crc8
class itself is not part of this model.

Three points where the code does something other than its comments suggest:

- **Unit round trips drift.** Decoding and re-encoding a channel value is not
  idempotent. Raw 172 becomes 987 us, then raw 171, then 986 us, then raw 169
  (`Protocol.RoundTripDrifts`). Each round trip loses at most 2 counts, and
  none for multiples of 8 (`Protocol.RoundTripLoss`). The model follows the
  code.
- **The "buffer filled" reset never fires.** The reset in `handleSerialIn`
  cannot be reached by either receiver. The reprocess loop always leaves the
  cursor below the capacity (`Assembler.ResetUnreachable`).
- **The divider bound is one short.** The comment in `include/target.h` asks
  for `VBAT_R1 + VBAT_R2` "less than 3178". The largest sum for which
  `330U * adc * (R1 + R2)` cannot wrap at full scale is 3178 itself
  (`App.VbatExact`, `App.VbatWrapsAt3179`).

## Model

| member | source | states |
|---|---|---|
| Bytes.Sub32 | lib/CrsfSerial/CrsfSerial.cpp:121 | `now - _lastReceive` in uint32_t is the plain difference, or the difference plus 2^32 when the clock wrapped |
| Bytes.ToSigned | crsf_protocol.h:133-134 | reading a bit pattern as two's complement gives a value in the signed range, equal to the pattern exactly when its top bit is clear |
| Bytes.LeValueOfLeBytes | lib/CrsfSerial/crsf_protocol.h:227-261 | storing the n low bytes of x least significant first and reading them back gives x mod 2^(8n) |
| Bytes.LeBytesOfLeValue | lib/CrsfSerial/crsf_protocol.h:227-261 | reading n bytes as a number and storing that number gives back the same n bytes |
| Bytes.BeValueOfBeBytes | lib/CrsfSerial/crsf_protocol.h:227-261 | network byte order round trip: x mod 2^(8n) comes back |
| Bytes.BeBytesOfBeValue | lib/CrsfSerial/crsf_protocol.h:227-261 | network byte order round trip the other way: the bytes come back |
| Bytes.LeBytesInjective | lib/CrsfSerial/crsf_protocol.h:227-261 | two n-byte values with the same memory image are equal |
| Bytes.Bswap16Image | lib/CrsfSerial/crsf_protocol.h:227-234 | `__builtin_bswap16` reverses the two bytes of the value's memory image |
| Bytes.Bswap32Image | lib/CrsfSerial/crsf_protocol.h:245-252 | `__builtin_bswap32` reverses the four bytes of the value's memory image |
| Bytes.Be16RoundTrip | lib/CrsfSerial/crsf_protocol.h:227-243 | `be16toh(htobe16(x)) == x` and `htobe16(be16toh(x)) == x` for every 16-bit x |
| Bytes.Be32RoundTrip | lib/CrsfSerial/crsf_protocol.h:245-261 | `be32toh(htobe32(x)) == x` and `htobe32(be32toh(x)) == x` for every 32-bit x |
| Bytes.Bswap16Twice | crsf_protocol.h:161-177 | in the top-level header copy, swapping a 16-bit value twice gives it back |
| Bytes.Bswap32Twice | crsf_protocol.h:179-195 | in the top-level header copy, swapping a 32-bit value twice gives it back |
| Bytes.Htobe16Image | lib/CrsfSerial/crsf_protocol.h:227-234 | a field assigned `htobe16(x)` holds the big-endian encoding of x in memory |
| Bytes.Be16LoadIsBeValue | lib/CrsfSerial/crsf_protocol.h:236-243 | loading two payload bytes natively and applying `be16toh` gives them read most significant first |
| Bytes.Be32LoadIsBeValue | lib/CrsfSerial/crsf_protocol.h:254-261 | loading four payload bytes natively and applying `be32toh` gives them read most significant first |
| Bytes.LoadU16 | lib/CrsfSerial/CrsfSerial.cpp:230-236 | a native uint16_t load is the unique value whose memory image is the two bytes |
| Bytes.LoadU32 | lib/CrsfSerial/CrsfSerial.cpp:230-231 | a native uint32_t load is the unique value whose memory image is the four bytes |
| Bytes.Htobe24Image | lib/CrsfSerial/crsf_protocol.h:263-266 | `htobe24(v)` has a zero top byte, and its three low memory bytes are the big-endian encoding of the low 24 bits of v |
| Bytes.ReverseReverse | lib/CrsfSerial/crsf_protocol.h:227-261 | reversing a byte image twice gives it back |
| Assembler.DeclaredLengthLimit | lib/CrsfSerial/CrsfSerial.cpp:92-96 | a frame `queuePacket` builds passes CrsfSerial's size check exactly for 1 to 60 payload bytes (CRSF_MAX_PAYLOAD_LEN) and ArduinoCRSF's exactly for 1 to 62 (CRSF_MAX_PACKET_LEN − 2), with declared size length + 2; every other length is a bad length |
| Protocol.PayloadSizes | lib/CrsfSerial/crsf_protocol.h:35-41 | the GPS, link statistics and attitude decoders read nothing past their declared payload sizes (15, 10, 6): two payloads agreeing on that many leading bytes decode alike; that every one of those bytes is used is stated by `Protocol.GpsRoundTrip`, `Protocol.LinkStatisticsRoundTrip` and `Protocol.DecodeAttitude` |
| Protocol.CDiv | lib/CrsfSerial/crsf_protocol.h:221-222 | C integer division truncates toward zero for negative operands |
| Protocol.CrsfToUsRange | lib/CrsfSerial/crsf_protocol.h:223-224 | every 11-bit raw value maps into [880, 2159] us; 172 maps to 987 and 992 maps to 1500 |
| Protocol.CrsfToUsMonotone | lib/CrsfSerial/crsf_protocol.h:223-224 | `CRSF_to_US` never decreases |
| Protocol.UsToCrsfMonotone | lib/CrsfSerial/crsf_protocol.h:221-222 | `US_to_CRSF` never decreases, negative intermediates included |
| Protocol.UsToCrsfRange | lib/CrsfSerial/crsf_protocol.h:221-222 | 988..2012 us lands in the calibrated raw range 172..1811, inside 11 bits |
| Protocol.RoundTripLoss | lib/CrsfSerial/crsf_protocol.h:221-224 | decode then encode returns a value between r − 2 and r; it is exact for multiples of 8; 1500 us encodes to 992 |
| Protocol.RoundTripDrifts | lib/CrsfSerial/crsf_protocol.h:221-224 | repeated round trips are not idempotent: 172 → 987 → 171 → 986 → 169, and 1 → 880 → 0 |
| Protocol.ArduinoChannelUs | ArduinoCRSF.cpp:159-160 | `map(r, 191, 1792, 1000, 2000)` sends 191 to 1000, 992 to 1500 and 1792 to 2000 us |
| Protocol.ArduinoChannelUsRange | ArduinoCRSF.cpp:159-160 | every 11-bit raw value maps into [881, 2159] us |
| Protocol.ReadBe16 | lib/CrsfSerial/CrsfSerial.cpp:227-239 | a 16-bit field read with `be16toh` is its two bytes taken most significant first |
| Protocol.ReadBe32 | lib/CrsfSerial/CrsfSerial.cpp:227-239 | a 32-bit field read with `be32toh` is its four bytes taken most significant first |
| Protocol.I8 | lib/CrsfSerial/crsf_protocol.h:207-219 | an int8_t field reinterprets its byte into [−128, 127] |
| Protocol.I16 | crsf_protocol.h:141-150 | an int16_t field reinterprets its bit pattern into [−32768, 32767] |
| Protocol.I32 | crsf_protocol.h:131-139 | an int32_t field reinterprets its bit pattern into the 32-bit signed range |
| Protocol.DecodeGps | lib/CrsfSerial/CrsfSerial.cpp:227-239 | latitude and longitude are signed 32-bit big-endian at offsets 0 and 4; groundspeed, heading and altitude are 16-bit big-endian at 8, 10 and 12; satellites is byte 14 |
| Protocol.DecodeBaroAltitude | ArduinoCRSF.cpp:189-194 | altitude is unsigned 16-bit big-endian at offset 0; vertical speed is signed 16-bit big-endian at offset 2 |
| Protocol.DecodeVario | ArduinoCRSF.cpp:183-187 | vertical speed is signed 16-bit big-endian at payload offset 0 |
| Protocol.DecodeAttitude | ArduinoCRSF.cpp:196-202 | pitch, roll and yaw are 16-bit big-endian at offsets 0, 2 and 4 |
| Protocol.EncodeLinkStatistics | lib/CrsfSerial/crsf_protocol.h:207-219 | a link statistics record is written as exactly 10 bytes |
| Protocol.EncodeGps | lib/CrsfSerial/crsf_protocol.h:182-191 | a GPS record is written as exactly 15 bytes |
| Protocol.SignedRoundTrip | lib/CrsfSerial/crsf_protocol.h:207-219 | a value in the signed range survives conversion to bits and back |
| Protocol.LinkStatisticsRoundTrip | lib/CrsfSerial/CrsfSerial.cpp:205-209 | the `memcpy` decoder reads back every link statistics record a sender writes |
| Protocol.GpsRoundTrip | lib/CrsfSerial/CrsfSerial.cpp:227-239 | `packetGps` reads back every GPS record whose coordinates fit int32 |
| Protocol.Field16 | lib/CrsfSerial/crsf_protocol.h:115-122 | a 16-bit sensor field holds the low 16 bits of the value, most significant byte first |
| Protocol.Field16IsBeBytes | lib/CrsfSerial/crsf_protocol.h:115-122 | a 16-bit field is the general big-endian encoding of the value's low 16 bits |
| Protocol.Field16IsHtobe16 | lib/CrsfSerial/crsf_protocol.h:227-234 | a 16-bit field is what memory holds after assigning `htobe16(x)` |
| Protocol.Field24 | lib/CrsfSerial/crsf_protocol.h:137-160 | a 24-bit sensor field holds the low 24 bits of the value, most significant byte first |
| Protocol.Field24IsBeBytes | lib/CrsfSerial/crsf_protocol.h:137-160 | a 24-bit field is the general big-endian encoding of the value's low 24 bits |
| Protocol.Field24IsHtobe24 | lib/CrsfSerial/crsf_protocol.h:263-266 | a 24-bit field is the memory image of `htobe24(v)` |
| Protocol.EncodeBattery | lib/CrsfSerial/crsf_protocol.h:115-122 | the battery payload is 8 bytes: voltage and current 16-bit big-endian, capacity 24-bit big-endian, remaining last |
| Protocol.Field16Image | lib/CrsfSerial/crsf_protocol.h:115-122 | an in-range 16-bit field is the pair high byte, low byte |
| Protocol.Field24Image | lib/CrsfSerial/crsf_protocol.h:115-122 | an in-range 24-bit field is its three bytes from the top |
| Protocol.EncodeBatteryImage | lib/CrsfSerial/crsf_protocol.h:115-122 | a battery payload of in-range fields, byte by byte |
| Channels.ChannelUs | lib/CrsfSerial/CrsfSerial.cpp:183-194 | each decoded channel lies in [880, 2159] us |
| Channels.DecodedChannels | lib/CrsfSerial/CrsfSerial.cpp:183-194 | the sixteen values are `CRSF_to_US` of the sixteen 11-bit slots |
| Channels.ArduinoDecodedChannels | ArduinoCRSF.cpp:139-160 | the sixteen values are `map()` of the sixteen 11-bit slots |
| Channels.PackedValueBound | lib/CrsfSerial/crsf_protocol.h:95-113 | sixteen 11-bit values packed LSB-first fit in 176 bits |
| Channels.PackedValueExtract | lib/CrsfSerial/crsf_protocol.h:95-113 | slot i of a packed table is the i-th value |
| Channels.PackedDecodes | lib/CrsfSerial/crsf_protocol.h:95-113 | any 22 bytes that hold the packing of sixteen 11-bit values decode to exactly those values |
| Channels.AbsorbByte | lib/CrsfSerial/CrsfSerial.cpp:187-188 | taking one more byte into the scratch register keeps the unpacker's invariant |
| Channels.EmitChannel | lib/CrsfSerial/CrsfSerial.cpp:189-193 | emitting the low 11 scratch bits as a channel keeps the unpacker's invariant |
| Channels.UnpackChannels | lib/CrsfSerial/CrsfSerial.cpp:177-194 | the unpack loop reads the first 22 bytes and yields `CRSF_to_US` of each 11-bit slot, every value in [880, 2159] |
| Channels.UnpackedDecodes | lib/CrsfSerial/CrsfSerial.cpp:177-194 | once sixteen values are out, they are the sixteen slots of the payload |
| Channels.RawsOf | lib/CrsfSerial/CrsfSerial.cpp:288 | the packer takes `(uint32_t)US_to_CRSF(us)` of each channel |
| Channels.AbsorbChannel | lib/CrsfSerial/CrsfSerial.cpp:289-290 | OR-ing an 11-bit value in above the pending bits keeps the packer's invariant |
| Channels.EmitByte | lib/CrsfSerial/CrsfSerial.cpp:293-295 | writing the low scratch byte and shifting keeps the packer's invariant |
| Channels.PackChannelsAsWritten | lib/CrsfSerial/CrsfSerial.cpp:277-300 | as written the loop fills 22 bytes, leaves byte 21 as it was, and bytes 0–20 hold the packing of the table mod 2^168 when every channel fits 11 bits |
| Channels.PackChannels | lib/CrsfSerial/CrsfSerial.cpp:277-300 | corrected loop: all 22 bytes hold the packing of the table, and every channel decodes to its `US_to_CRSF` value |
| Channels.PackedRoundTrip | lib/CrsfSerial/CrsfSerial.cpp:277-300 | a completed packing of a fitting table is 22 bytes that decode to each channel's raw value |
| Channels.LastChannelFromStaleByte | lib/CrsfSerial/CrsfSerial.cpp:291-296 | with byte 21 unwritten, channel 16 decodes to its low 3 bits plus 8 × byte 21; it is right exactly when that byte happens to hold its top 8 bits |
| Channels.EarlyChannelsIntact | lib/CrsfSerial/CrsfSerial.cpp:291-296 | with byte 21 unwritten, channels 1–15 still decode correctly |
| Channels.StaleRepacked | lib/CrsfSerial/CrsfSerial.cpp:291-296 | the as-written payload is the correct packing of the same table with channel 16 replaced by its low 3 bits plus 8 × byte 21 |
| Assembler.ConfigsWellFormed | lib/CrsfSerial/CrsfSerial.h:44-45 | both buffers (64 and 67 bytes) hold the longest frame they accept, fit a uint8_t cursor and cover the 22-byte channel read at offset 3 |
| Assembler.Shifted | lib/CrsfSerial/CrsfSerial.cpp:154-173 | shifting by cnt keeps the buffer size; the cursor drops by cnt, or to 0 when cnt ≥ pos |
| Assembler.ShiftedContents | lib/CrsfSerial/CrsfSerial.cpp:154-173 | `shiftRxBuffer(cnt)` keeps old[cnt..pos) or empties the buffer; it reports old[0] out of band only for cnt == 1 with bytes left, and only where a hook exists |
| Assembler.Reprocessed | lib/CrsfSerial/CrsfSerial.cpp:81-116 | the reprocess loop keeps the buffer size and never raises the cursor |
| Assembler.ReprocessedConserves | lib/CrsfSerial/CrsfSerial.cpp:81-116 | with the hook attached, dropped bytes, dispatched frames and left-over bytes are exactly the buffered bytes, in order |
| Assembler.ReprocessedOnlyPackets | ArduinoCRSF.cpp:121-137 | the ArduinoCRSF assembler never reports a byte out of band |
| Assembler.ReprocessedFramesValid | lib/CrsfSerial/CrsfSerial.cpp:92-113 | every dispatched frame has a declared size in [3, max], is complete and CRC-correct, and sits at the front of the array it is read from |
| Assembler.ReprocessedSettles | lib/CrsfSerial/CrsfSerial.cpp:84-115 | the loop stops only with at most one byte, or a plausible frame size and fewer bytes than it needs |
| Assembler.ResetUnreachable | lib/CrsfSerial/CrsfSerial.cpp:67-74 | after processing, the cursor is always below the capacity, so the "buffer filled" reset never fires |
| Assembler.Received | lib/CrsfSerial/CrsfSerial.cpp:67-74 | one received byte leaves the cursor below the capacity |
| Assembler.ReceivedFramesValid | lib/CrsfSerial/CrsfSerial.cpp:67-74 | the frames one received byte dispatches are valid, each with the whole buffer |
| Assembler.Flushed | lib/CrsfSerial/CrsfSerial.cpp:121-123 | the idle flush empties the buffer |
| Assembler.FlushedOnlyOob | lib/CrsfSerial/CrsfSerial.cpp:121-123 | the idle flush never dispatches a frame |
| Assembler.FlushedReports | lib/CrsfSerial/CrsfSerial.cpp:121-123 | the idle flush reports all buffered bytes but the last, in order; without a hook it reports none |
| Assembler.Fed | lib/CrsfSerial/CrsfSerial.cpp:55-76 | feeding any byte sequence keeps the cursor below capacity |
| Assembler.OobAll | lib/CrsfSerial/CrsfSerial.cpp:163-164 | one out-of-band report per byte |
| Assembler.FrameBytes | lib/CrsfSerial/CrsfSerial.cpp:251-266 | an outgoing frame is its payload plus 4 bytes |
| Assembler.FrameBytesShape | lib/CrsfSerial/CrsfSerial.cpp:258-263 | a written frame declares its size as its length − 2, and its last byte is the CRC over type and payload |
| Assembler.FrameRoundTrip | lib/CrsfSerial/CrsfSerial.cpp:251-266 | a frame `queuePacket` writes, fed byte by byte into an empty assembler, comes out as exactly that frame and leaves it empty |
| Assembler.FeedRemaining | lib/CrsfSerial/CrsfSerial.cpp:84-115 | feeding the rest of a valid frame whose front is buffered dispatches it once and empties the buffer |
| Assembler.FrameByteWaits | lib/CrsfSerial/CrsfSerial.cpp:98 | a byte that does not complete a plausible frame is only buffered |
| Assembler.FrameByteCompletes | lib/CrsfSerial/CrsfSerial.cpp:98-113 | the byte that completes a valid frame dispatches it with the whole buffer and empties the buffer |
| Assembler.RejectedSizes | lib/CrsfSerial/CrsfSerial.cpp:92-96 | a declared size under 3 or over the maximum drops the first byte |
| Assembler.ArduinoOversizeRejected | ArduinoCRSF.cpp:52 | ArduinoCRSF frames with 63 or 64 payload bytes are turned away by its own receiver |
| Assembler.ReprocessedDrop | lib/CrsfSerial/CrsfSerial.cpp:92-96 | a bad size or CRC mismatch drops exactly one byte and the loop goes on |
| Assembler.ReprocessedFrame | lib/CrsfSerial/CrsfSerial.cpp:98-113 | a good frame is dispatched with the whole array, then size + 2 bytes are dropped |
| Assembler.FlushedStep | lib/CrsfSerial/CrsfSerial.cpp:121-123 | the idle flush drops one byte at a time |
| Assembler.FrameAssembler.constructor | lib/CrsfSerial/CrsfSerial.h:44-45 | a zeroed buffer of the configured capacity with the cursor at 0 |
| Assembler.FrameAssembler.Shift | lib/CrsfSerial/CrsfSerial.cpp:154-173 | the in-place copy-down leaves exactly the state and reports of `Shifted` |
| Assembler.FrameAssembler.CopyDown | lib/CrsfSerial/CrsfSerial.cpp:166-172 | the copy loop moves bytes cnt..pos − 1 to the front and leaves every byte from pos − cnt on as it was |
| Assembler.FrameAssembler.Append | lib/CrsfSerial/CrsfSerial.cpp:67-68 | `_rxBuf[_rxBufPos++] = b` |
| Assembler.FrameAssembler.HandleByteReceived | lib/CrsfSerial/CrsfSerial.cpp:81-116 | the do-while loop ends in the state and events of `Reprocessed` |
| Assembler.FrameAssembler.Judge | lib/CrsfSerial/CrsfSerial.cpp:88-113 | one pass of the loop body strictly lowers the cursor when it asks to reprocess, else it changes nothing |
| Assembler.FrameAssembler.ResetIfFull | lib/CrsfSerial/CrsfSerial.cpp:70-74 | the cursor goes to 0 exactly when it reached the capacity |
| Assembler.FrameAssembler.Receive | lib/CrsfSerial/CrsfSerial.cpp:67-74 | one byte appended, processed and reset ends as `Received` |
| Assembler.FrameAssembler.Flush | lib/CrsfSerial/CrsfSerial.cpp:121-123 | `while (_rxBufPos) shiftRxBuffer(1)` ends as `Flushed` with the cursor at 0 |
| Serial.Initial | lib/CrsfSerial/CrsfSerial.cpp:33-37 | an object in static storage starts with the link down, passthrough off and an empty buffer (the constructor sets the first two; static storage zeroes the buffer cursor) |
| Serial.Begun | lib/CrsfSerial/CrsfSerial.cpp:39-45 | `begin(b)` opens the port at b, or at `_baud` when b is 0, and changes nothing else |
| Serial.ProcessedPacket | lib/CrsfSerial/CrsfSerial.cpp:136-151 | a dispatched frame leaves the buffer, the passthrough baud and the port alone |
| Serial.Dispatched | lib/CrsfSerial/CrsfSerial.cpp:98-113 | handing events over in order leaves the buffer, passthrough baud and port alone |
| Serial.DispatchedOne | lib/CrsfSerial/CrsfSerial.cpp:163-164 | one event leaves the buffer, passthrough baud and port alone |
| Serial.ByteIn | lib/CrsfSerial/CrsfSerial.cpp:55-76 | a received byte never changes the passthrough baud or writes to the port |
| Serial.BytesIn | lib/CrsfSerial/CrsfSerial.cpp:55-76 | the receive loop never changes the passthrough baud or writes to the port |
| Serial.PacketTimeoutChecked | lib/CrsfSerial/CrsfSerial.cpp:118-124 | the timeout check keeps the object consistent; what it does is stated by `Serial.IdleFlushReports` |
| Serial.LinkDownChecked | lib/CrsfSerial/CrsfSerial.cpp:126-134 | the link-down check keeps the object consistent; what it does is stated by `Serial.LinkDownOnce` |
| Serial.SerialIn | lib/CrsfSerial/CrsfSerial.cpp:48-79 | `loop()` keeps the object consistent; its parts are stated by `Serial.BytesIn`, `Serial.PassthroughBytesAreOob`, `Serial.IdleFlushReports` and `Serial.LinkDownOnce` |
| Serial.ChannelSet | lib/CrsfSerial/examples/handset/handset.cpp:57 | setting a channel keeps sixteen channels; `Handset.Mix` and `Handset.TickedKeepsRange` state which one changes |
| Serial.PassthroughBytesAreOob | lib/CrsfSerial/CrsfSerial.cpp:60-65 | in passthrough every byte goes to `onOobData` in order, and the buffer, link and channels are left alone |
| Serial.OobCallbacks | lib/CrsfSerial/CrsfSerial.cpp:60-65 | one `onOobData` call per passthrough byte |
| Serial.LinkUpOnlyOnChannels | lib/CrsfSerial/CrsfSerial.cpp:136-151 | `onLinkUp` fires exactly for a channels frame while the link is down; GPS and link statistics frames leave the link state and channels alone |
| Serial.ChannelsPacketRaisesLink | lib/CrsfSerial/CrsfSerial.cpp:175-203 | a channels frame raises the link, stamps it and stores sixteen values in [880, 2159], each `CRSF_to_US` of its slot in bytes 3..24 |
| Serial.LinkDownOnce | lib/CrsfSerial/CrsfSerial.cpp:126-134 | the check changes the object exactly when the link is up and more than 300 ms passed; it then fires `onLinkDown` once, and later checks change nothing |
| Serial.IdleFlushReports | lib/CrsfSerial/CrsfSerial.cpp:118-124 | after 100 ms of silence the buffer is emptied and all bytes but the last are reported |
| Serial.OobBytes | lib/CrsfSerial/CrsfSerial.cpp:163-164 | one report per dropped byte |
| Serial.DispatchedOob | lib/CrsfSerial/CrsfSerial.cpp:163-164 | dropped bytes only append their `onOobData` calls |
| Serial.OobAllOnlyOob | lib/CrsfSerial/CrsfSerial.cpp:163-164 | the i-th report is the i-th byte |
| Serial.QueuePacketRoundTrip | lib/CrsfSerial/CrsfSerial.cpp:251-266 | `queuePacket` does nothing exactly in passthrough or above 60 bytes; otherwise it writes `[0xC8, len + 2, type, payload, crc]`, which a receiver hands back as that frame |
| Serial.EmptyPayloadRejected | lib/CrsfSerial/CrsfSerial.cpp:92-96 | an empty payload gives frame size 2, which the receiver drops |
| Serial.PassthroughRules | lib/CrsfSerial/CrsfSerial.cpp:311-345 | the baud rules of `setPassthroughMode`; the port is reopened exactly when entering with a baud, or leaving from a baud other than `_baud`; nothing else changes |
| Serial.PassthroughEntered | lib/CrsfSerial/CrsfSerial.cpp:311-322 | enabling without a baud enters passthrough unless both the old setting and `_baud` are 0; disabling always leaves it |
| Serial.CrsfSerial.constructor | lib/CrsfSerial/CrsfSerial.cpp:33-37 | the object starts in `Initial()` with the given baud |
| Serial.CrsfSerial.GetBaud | lib/CrsfSerial/CrsfSerial.h:23 | returns `_baud` |
| Serial.CrsfSerial.GetChannel | lib/CrsfSerial/CrsfSerial.h:25 | 1-based: channel ch is `_channels[ch - 1]` |
| Serial.CrsfSerial.IsLinkUp | lib/CrsfSerial/CrsfSerial.h:28 | returns `_linkIsUp` |
| Serial.CrsfSerial.GetPassthroughMode | lib/CrsfSerial/CrsfSerial.h:29 | true exactly when `_passthroughBaud != 0` |
| Serial.CrsfSerial.Begin | lib/CrsfSerial/CrsfSerial.cpp:39-45 | ends as `Begun` |
| Serial.CrsfSerial.HandleSerialIn | lib/CrsfSerial/CrsfSerial.cpp:48-79 | the receive loop and the two checks end as `SerialIn` |
| Serial.CrsfSerial.ByteReceived | lib/CrsfSerial/CrsfSerial.cpp:57-75 | one received byte ends as `ByteIn` |
| Serial.CrsfSerial.Dispatch | lib/CrsfSerial/CrsfSerial.cpp:98-113 | handing events over ends as `Dispatched` |
| Serial.CrsfSerial.ProcessPacketIn | lib/CrsfSerial/CrsfSerial.cpp:136-151 | dispatch on the type byte ends as `ProcessedPacket` |
| Serial.CrsfSerial.PacketChannelsPacked | lib/CrsfSerial/CrsfSerial.cpp:175-203 | stores the decoded table, raises and stamps the link, fires `onLinkUp` when it was down and then `onPacketChannels` |
| Serial.CrsfSerial.PacketLinkStatistics | lib/CrsfSerial/CrsfSerial.cpp:205-225 | copies the 10 bytes and fires the callback with them |
| Serial.CrsfSerial.PacketGps | lib/CrsfSerial/CrsfSerial.cpp:227-239 | stores the decoded GPS record and fires the callback with it |
| Serial.CrsfSerial.CheckPacketTimeout | lib/CrsfSerial/CrsfSerial.cpp:118-124 | ends as `PacketTimeoutChecked` |
| Serial.CrsfSerial.CheckLinkDown | lib/CrsfSerial/CrsfSerial.cpp:126-134 | ends as `LinkDownChecked` |
| Serial.CrsfSerial.QueuePacket | lib/CrsfSerial/CrsfSerial.cpp:251-266 | ends as `Queued` |
| Serial.CrsfSerial.QueuePacketChannels | lib/CrsfSerial/CrsfSerial.cpp:277-300 | as written: queues a 22-byte payload whose byte 21 is the stale stack byte; channels 1–15 of a fitting table decode to their `US_to_CRSF` value, channel 16 to its low 3 bits plus 8 × the stale byte, right exactly when that byte is its top 8 bits |
| Serial.CrsfSerial.QueuePacketChannelsCorrected | lib/CrsfSerial/CrsfSerial.cpp:277-300 | corrected: queues a 22-byte payload in which every channel of a fitting table decodes to its `US_to_CRSF` value |
| Serial.CrsfSerial.SetPassthroughMode | lib/CrsfSerial/CrsfSerial.cpp:311-345 | ends as `PassthroughSet` |
| Serial.CrsfSerial.SetChannel | lib/CrsfSerial/examples/handset/handset.cpp:57 | ends as `ChannelSet` |
| Arduino.Initial | ArduinoCRSF.cpp:3-8 | an object in static storage starts with the link down and an empty buffer (the constructor sets the first; static storage zeroes the buffer cursor) |
| Arduino.ProcessedPacket | ArduinoCRSF.cpp:94-118 | a dispatched frame leaves the buffer and the written log alone |
| Arduino.Dispatched | ArduinoCRSF.cpp:58-73 | handing frames over leaves the buffer and the written log alone |
| Arduino.ByteIn | ArduinoCRSF.cpp:23-36 | a received byte writes nothing |
| Arduino.BytesIn | ArduinoCRSF.cpp:23-36 | the receive loop writes nothing |
| Arduino.PacketTimeoutChecked | ArduinoCRSF.cpp:78-84 | the timeout check keeps the object consistent; what it does is stated by `Arduino.SilentFlush` |
| Arduino.LinkDownChecked | ArduinoCRSF.cpp:86-92 | the link-down check keeps the object consistent; what it does is stated by `Arduino.LinkDownOnce` |
| Arduino.LinkDownOnce | ArduinoCRSF.cpp:86-92 | the failsafe changes the object exactly when the link is up and more than 300 ms passed since the last channels frame; only the link goes down, and a later check changes nothing |
| Arduino.SerialIn | ArduinoCRSF.cpp:16-40 | `update()` keeps the object consistent; its parts are stated by `Arduino.BytesIn`, `Arduino.SilentFlush` and `Arduino.LinkDownOnce` |
| Arduino.AddressFilter | ArduinoCRSF.cpp:94-118 | frames not from 0xC8 and unhandled types change nothing; attitude is never stored |
| Arduino.ChannelsPacketRaisesLink | ArduinoCRSF.cpp:139-164 | only a channels frame from 0xC8 changes the link; it raises and stamps it and stores sixteen `map()` values in [881, 2159] |
| Arduino.SilentFlush | ArduinoCRSF.cpp:78-84 | the idle flush reports nothing and changes only the cursor, to 0 after 100 ms of silence |
| Arduino.QueuePacketRoundTrip | ArduinoCRSF.cpp:214-239 | writes nothing exactly when the link is down or above 64 bytes; otherwise writes the frame; 1..62 bytes come back from a receiver, 63 and 64 are turned away |
| Arduino.ArduinoCrsf.constructor | ArduinoCRSF.cpp:3-8 | the object starts in `Initial()` |
| Arduino.ArduinoCrsf.GetChannel | ArduinoCRSF.h:24 | 1-based: channel ch is `_channels[ch - 1]` |
| Arduino.ArduinoCrsf.IsLinkUp | ArduinoCRSF.h:29 | returns `_linkIsUp` |
| Arduino.ArduinoCrsf.HandleSerialIn | ArduinoCRSF.cpp:21-40 | ends as `SerialIn` |
| Arduino.ArduinoCrsf.ByteReceived | ArduinoCRSF.cpp:25-35 | ends as `ByteIn` |
| Arduino.ArduinoCrsf.Dispatch | ArduinoCRSF.cpp:58-73 | ends as `Dispatched` |
| Arduino.ArduinoCrsf.ProcessPacketIn | ArduinoCRSF.cpp:94-118 | ends as `ProcessedPacket` |
| Arduino.ArduinoCrsf.PacketChannelsPacked | ArduinoCRSF.cpp:139-164 | the in-place `map()` loop stores the `map()`-scaled table and raises and stamps the link |
| Arduino.ArduinoCrsf.PacketLinkStatistics | ArduinoCRSF.cpp:166-170 | copies the 10 bytes |
| Arduino.ArduinoCrsf.PacketGps | ArduinoCRSF.cpp:172-181 | stores the decoded GPS record |
| Arduino.ArduinoCrsf.PacketVario | ArduinoCRSF.cpp:183-187 | stores the decoded vertical speed |
| Arduino.ArduinoCrsf.PacketBaroAltitude | ArduinoCRSF.cpp:189-194 | stores the decoded altitude and vertical speed |
| Arduino.ArduinoCrsf.PacketAttitude | ArduinoCRSF.cpp:196-202 | stores the decoded attitude (never called) |
| Arduino.ArduinoCrsf.CheckPacketTimeout | ArduinoCRSF.cpp:78-84 | ends as `PacketTimeoutChecked` |
| Arduino.ArduinoCrsf.CheckLinkDown | ArduinoCRSF.cpp:86-92 | ends as `LinkDownChecked`: the link stays up exactly when it was up and at most 300 ms passed since the last channels frame, and nothing else changes |
| Arduino.ArduinoCrsf.QueuePacket | ArduinoCRSF.cpp:214-239 | ends as `Queued` |
| Median.CounterAfter | lib/common/median.h:15-20 | the ring position is always below N |
| Median.CounterIsCallsModN | lib/common/median.h:10-20 | after k calls the counter is k mod N, so `add` returns 0 exactly on every N-th call |
| Median.MinIdx | lib/common/median.h:36-45 | the minimum index lies among the samples looked at |
| Median.MaxIdx | lib/common/median.h:36-45 | the maximum index lies among the samples looked at |
| Median.MinIdxIsFirstMinimum | lib/common/median.h:36-45 | `minIdx` holds a smallest sample, and every earlier sample is strictly larger |
| Median.MaxIdxIsFirstMaximum | lib/common/median.h:36-45 | `maxIdx` holds a largest sample, and every earlier sample is strictly smaller |
| Median.IndicesMeetIffConstant | lib/common/median.h:36-45 | `minIdx == maxIdx` exactly when all samples are equal, and then both are 0 |
| Median.WrappedIsMod | lib/common/median.h:47-52 | the unsigned sum is the true sum mod 2^32 |
| Median.TrimmedSumSplit | lib/common/median.h:47-52 | leaving out two indices subtracts exactly those samples, once when they coincide |
| Median.TrimmedSumConstant | lib/common/median.h:47-52 | with all samples equal, only index 0 is left out |
| Median.CalcDistinct | lib/common/median.h:47-54 | with distinct extreme indices, calc is (sum − min − max) mod 2^32 / (N − 2) |
| Median.CalcConstant | lib/common/median.h:47-54 | with N equal samples v, calc is v + v / (N − 2), not v |
| Median.CalcAllEqualExample | lib/common/median.h:47-54 | five samples of 100 give 133 |
| Median.TrimmedMeanAgrees | lib/common/median.h:3-5 | calc is the documented mean whenever minimum and maximum sit at different indices |
| Median.TrimmedAtOtherMax | lib/common/median.h:3-5 | leaving out the first minimum and any other index holding the maximum gives the documented total |
| Median.TrimmedSumBounds | lib/common/median.h:47-52 | a sum of c samples each in [lo, hi] lies in [c·lo, c·hi] |
| Median.TrimmedMeanBounds | lib/common/median.h:3-5 | without wrap-around the documented mean lies between the smallest and largest sample, and equals the sample when all are equal |
| Median.InnerSumBounds | lib/common/median.h:3-5 | the sum without one lowest and one highest sample lies between (N − 2)·min and (N − 2)·max |
| Median.MedianAvgFilter.constructor | lib/common/median.h:64-65 | N ≥ 3 zeroed samples with the counter at 0 |
| Median.MedianAvgFilter.Add | lib/common/median.h:15-20 | writes only the sample at the old counter, and returns the new counter (old + 1) mod N, 0 exactly on every N-th call |
| Median.MedianAvgFilter.Clear | lib/common/median.h:25-29 | counter and samples back to 0 |
| Median.MedianAvgFilter.Calc | lib/common/median.h:34-56 | as written: the result of calc's two loops (`CalcOf`); it changes nothing, and `CalcDistinct` and `CalcConstant` say what that value is |
| Median.MedianAvgFilter.CalcTrimmed | lib/common/median.h:3-5 | corrected: returns the documented trimmed mean of the samples and changes nothing |
| Median.MedianAvgFilter.Extremes | lib/common/median.h:36-45 | the first loop yields the first minimum and first maximum indices |
| Median.MedianAvgFilter.TrimmedTotal | lib/common/median.h:47-52 | the second loop yields the unsigned sum without the two indices |
| App.MappedOutputs | src/main.cpp:67-93 | one output table entry per output; the values are stated by `App.InvertedMirrors` and `App.ConfiguredOutputs` |
| App.InvertedMirrors | src/main.cpp:67-93 | an inverted mapping mirrors the channel about 1500 us, a direct one copies it |
| App.MappedRange | src/main.cpp:67-93 | a mapped output stays within its channel's range, mirrored into [3000 − hi, 3000 − lo] when inverted |
| App.ConfiguredOutputs | src/main.cpp:11 | with the configured map, outputs 1–8 carry channels 1, 2, 3, 4, 6, 7, 8 and 12 |
| App.FailsafeOutputs | src/main.cpp:106-119 | one failsafe entry per output; the values are stated by `App.FailsafeRules` and `App.ConfiguredFailsafe` |
| App.ConfiguredFailsafe | src/main.cpp:13-16 | with the configured table outputs 1–4 go to 1500, 1500, 988, 1500, outputs 5–7 hold, output 8 stops; applying it twice changes nothing |
| App.FailsafeRules | src/main.cpp:111-118 | `fsaNoPulses` gives 0, `fsaHold` keeps the value, any other entry is the width; each rule is idempotent |
| App.VbatExact | src/main.cpp:131-132 | for a 12-bit reading and a divider sum up to 3178 nothing wraps and the value is the exact formula |
| App.VbatWrapsAt3179 | include/target.h:19 | at full scale a divider sum of 3179 already wraps and gives 1 instead of 8742 |
| App.VbatBound | src/main.cpp:131-135 | any reading gives at most 8740, so `scaledVoltage` fits uint16_t; a 12-bit reading gives at most 2585 |
| App.SmoothedOvershootWraps | src/main.cpp:131-132 | with the filter as written, five full-scale samples smooth to 5460, past the 12-bit range; with a divider sum of 3177, which the header allows, the product then wraps. The corrected filter returns 4095 and the value is exact |
| App.VbatPayload | src/main.cpp:134-138 | the battery payload is 8 bytes |
| App.VbatPayloadLayout | src/main.cpp:134-138 | the voltage goes out big-endian in the first two bytes and every other byte is 0 |
| App.CString | src/main.cpp:257-260 | the C string is the prefix before the first NUL |
| App.SkipSpace | src/main.cpp:190 | `atoi` skips a suffix-preserving run of white space |
| App.LeadingDigits | src/main.cpp:190 | the leading run of digits, stopped by the first non-digit |
| App.Decimal | src/main.cpp:190 | a rendered number is non-empty and all digits |
| App.DigitsValueOfDecimal | src/main.cpp:190 | the value of a rendered number is the number |
| App.LeadingDigitsOfDigits | src/main.cpp:190 | digits followed by a non-digit are exactly the leading digits |
| App.AtoiOfDigit | src/main.cpp:190 | text starting with a digit is read as its leading digits |
| App.AtoiOfDecimal | src/main.cpp:190 | `atoi` reads back a rendered number followed by anything but a digit |
| App.PrefixedIsNoFixedCommand | src/main.cpp:166-184 | a line with the passthrough prefix matches none of the fixed commands before it |
| App.PassthroughCommand | src/main.cpp:184-194 | passthrough is requested exactly for a line starting with the 20 characters `serialpassthrough 5 `, with the baud `atoi` reads after them |
| App.PassthroughOfDecimal | src/main.cpp:184-194 | `serialpassthrough 5 N` requests baud N |
| App.PassthroughBeginEffect | src/main.cpp:144-156 | started outside passthrough: the reboot command is written exactly when the baud differs from CrsfSerial's own, the port is reopened unless the baud is 0, passthrough is on, and channels and buffer are untouched |
| App.Handled | src/main.cpp:162-203 | a command never changes the line buffer; it reports passthrough exactly for a passthrough command, and CrsfSerial is then in passthrough when its own baud is nonzero |
| App.HandledOutsidePassthrough | src/main.cpp:162-203 | any other command only prints its reply and prompt, `#` turns echo on, and it returns false |
| App.CharIn | src/main.cpp:245-271 | one character keeps the line length below 64; what it does is stated by `App.CharInStores`, `App.CharInBlankLine` and `App.CharInEndsLine` |
| App.CliIn | src/main.cpp:243-274 | the loop reads at most the available characters; where it stops is stated by `App.CliStopsAtPassthrough` |
| App.CharInStores | src/main.cpp:266-272 | any character but CR and LF is stored; a line that fills all 64 places is discarded |
| App.CharInBlankLine | src/main.cpp:251-253 | CR or LF on an empty line only echoes |
| App.CharInEndsLine | src/main.cpp:251-264 | CR or LF after a non-empty line NUL-terminates it, resets the length and hands it over; the loop stops exactly when that starts passthrough |
| App.CStringOfLine | src/main.cpp:257-260 | a NUL-free line written before a NUL reads back as that line |
| App.CliInStep | src/main.cpp:245-273 | the loop is one character followed by the rest, unless that character stops it |
| App.CliInResume | src/main.cpp:245-273 | one turn of the loop against the whole run |
| App.CliStopsAtPassthrough | src/main.cpp:245-273 | the loop reads everything unless a line starts passthrough, and then it stops right after that line's CR or LF |
| App.StopOnlyInPassthrough | src/main.cpp:260-263 | only CR or LF ending a passthrough command stops the loop, and CrsfSerial is then in passthrough |
| App.App.constructor | src/main.cpp:30-39 | the configuration tables as built, zeroed outputs and state, an empty line buffer |
| App.App.ServoSetUs | src/main.cpp:47-65 | changes only the output's entry, to the given width |
| App.App.PacketChannels | src/main.cpp:67-93 | the output table becomes the mapped channel table |
| App.App.CrsfLinkDown | src/main.cpp:106-119 | each output gets its failsafe action |
| App.App.CheckVbatt | src/main.cpp:121-142 | within 100 ms nothing changes; otherwise a sample goes in, and on every fifth `vbatValue` becomes the scaled value of the filter's `calc()` as written and is queued as a battery frame |
| App.App.PassthroughBegin | src/main.cpp:144-156 | ends as `PassthroughBegun`, with echo cleared |
| App.App.PassthroughLine | src/main.cpp:184-194 | echoes the line, then begins passthrough at the baud read after the prefix |
| App.App.HandleSerialCommand | src/main.cpp:162-203 | ends as `Handled`, and returns whether passthrough began |
| App.App.SerialInChar | src/main.cpp:245-271 | one character ends as `CharIn` |
| App.App.SerialInNext | src/main.cpp:245-273 | one turn of the loop keeps the run's result |
| App.App.CheckSerialInNormal | src/main.cpp:243-274 | ends as `CliIn`, with the number of characters read |
| Telemetry.VbatImage | lib/CrsfSerial/examples/telemetry/telemetry.cpp:69-78 | the battery payload is `00 7B 00 C4 00 05 14 0F` |
| Telemetry.BatteryImage | lib/CrsfSerial/examples/telemetry/telemetry.cpp:72-75 | 12.3 V, 19.6 A, 1300 mAh and 15 % encode to `00 7B 00 C4 00 05 14 0F` |
| Telemetry.CellsImage | lib/CrsfSerial/examples/telemetry/telemetry.cpp:55-68 | the cells payload is source 0, then 3500, 4350, 2900 and 3141 mV big-endian: `00 0D AC 10 FE 0B 54 0C 45` |
| Telemetry.TemperaturesImage | lib/CrsfSerial/examples/telemetry/telemetry.cpp:25-37 | the temperatures payload is source 0, then 250 as `00 FA`, −109 in two's complement as `FF 93` and 1051 as `04 1B` |
| Telemetry.NegativeRpmImage | lib/CrsfSerial/examples/telemetry/telemetry.cpp:43-46 | −18003 goes out as `FF B9 AD` |
| Telemetry.RpmsHead | lib/CrsfSerial/examples/telemetry/telemetry.cpp:43-44 | source 0 and rpms 18000 and 18001, byte for byte |
| Telemetry.RpmsTail | lib/CrsfSerial/examples/telemetry/telemetry.cpp:45-46 | rpms 18002 and −18003, byte for byte |
| Telemetry.RpmsImage | lib/CrsfSerial/examples/telemetry/telemetry.cpp:39-53 | the whole 13-byte rpm payload |
| Telemetry.PayloadsFit | lib/CrsfSerial/examples/telemetry/telemetry.cpp:89-97 | the payloads are 8, 9, 7 and 13 bytes, all within the 60-byte limit |
| Telemetry.TelemetryChecked | lib/CrsfSerial/examples/telemetry/telemetry.cpp:80-99 | the item index stays below 4; what it sends is stated by `Telemetry.SendOrWait` |
| Telemetry.SendOrWait | lib/CrsfSerial/examples/telemetry/telemetry.cpp:80-99 | within 200 ms nothing happens; otherwise the current item is written as one frame outside passthrough, and the next item is due |
| Telemetry.ItemFrameReassembles | lib/CrsfSerial/examples/telemetry/telemetry.cpp:89-97 | a receiver hands each item's frame back intact |
| Telemetry.DueSend | lib/CrsfSerial/examples/telemetry/telemetry.cpp:84-97 | a call 200 ms or more after the last send, outside passthrough, appends exactly the current item's frame to the port and stays outside passthrough |
| Telemetry.TableSteps | lib/CrsfSerial/examples/telemetry/telemetry.cpp:84-97 | the item table's entries are the frames due calls write, whatever the state |
| Telemetry.TableKinds | lib/CrsfSerial/examples/telemetry/telemetry.cpp:90-97 | the frames for tlmVbat, tlmCells, tlmTemp and tlmRpms have types battery, cells, temperatures and rpms |
| Telemetry.RunItem | lib/CrsfSerial/examples/telemetry/telemetry.cpp:84-98 | after k due calls, in or out of passthrough, tlmItem is k places further round the switch |
| Telemetry.ItemAfterMod | lib/CrsfSerial/examples/telemetry/telemetry.cpp:98 | k places round is `(tlmItem + k) % TLM_COUNT` |
| Telemetry.ItemAfterCycle | lib/CrsfSerial/examples/telemetry/telemetry.cpp:89-98 | the switch returns to an item after four places round, and not after one, two or three |
| Telemetry.RunPort | lib/CrsfSerial/examples/telemetry/telemetry.cpp:80-99 | k due calls outside passthrough append exactly k frames, one per item in switch order from the current one, and stay outside passthrough |
| Telemetry.RoundRobin | lib/CrsfSerial/examples/telemetry/telemetry.cpp:80-99 | four due calls outside passthrough append exactly the four items' frames in switch order from the current item (with `Telemetry.TableKinds`: from tlmVbat, battery, cells, temperatures, rpms), and tlmItem is back at its start after the fourth call and after none of the first three |
| Telemetry.SendTemperatures | lib/CrsfSerial/examples/telemetry/telemetry.cpp:25-37 | queues the temperatures payload |
| Telemetry.SendRpms | lib/CrsfSerial/examples/telemetry/telemetry.cpp:39-53 | queues the rpm payload |
| Telemetry.SendCells | lib/CrsfSerial/examples/telemetry/telemetry.cpp:55-68 | queues the cells payload |
| Telemetry.SendVbat | lib/CrsfSerial/examples/telemetry/telemetry.cpp:69-78 | queues the battery payload |
| Telemetry.TelemetryScheduler.constructor | lib/CrsfSerial/examples/telemetry/telemetry.cpp:82-89 | both statics start at 0 |
| Telemetry.TelemetryScheduler.CheckSendTelemetry | lib/CrsfSerial/examples/telemetry/telemetry.cpp:80-99 | ends as `TelemetryChecked` |
| Handset.Mixed | lib/CrsfSerial/examples/handset/handset.cpp:53-58 | the result is old + step as unsigned int, replaced by 988 once it exceeds 2012 |
| Handset.Ticked | lib/CrsfSerial/examples/handset/handset.cpp:59-60 | one mixer pass keeps sixteen channels; which change is stated by `Handset.TickedKeepsRange` |
| Handset.TickedTimes | lib/CrsfSerial/examples/handset/handset.cpp:59-60 | k mixer passes keep sixteen channels; which change is stated by `Handset.TickedTimesChannels` |
| Handset.SetupChannels | lib/CrsfSerial/examples/handset/handset.cpp:66-71 | the setup table has sixteen channels; its values are stated by `Handset.HandsetTable` |
| Handset.MixerRangeFits | lib/CrsfSerial/examples/handset/handset.cpp:55-57 | values in [988, 2012] convert into [172, 1811], so the unmasked packer cannot bleed between channels |
| Handset.TickedKeepsRange | lib/CrsfSerial/examples/handset/handset.cpp:53-60 | a mixer pass keeps the table in [988, 2012] and changes only channel 1 (by 1) and channel 8 (by 2), wrapping to 988 |
| Handset.MixerStep | lib/CrsfSerial/examples/handset/handset.cpp:53-58 | one step from step·m above 988 goes up by step, or back to 988 from the top |
| Handset.MixerCycle | lib/CrsfSerial/examples/handset/handset.cpp:53-58 | a value climbs by step each pass and repeats with period 1024 / step + 1 |
| Handset.TickedTimesChannels | lib/CrsfSerial/examples/handset/handset.cpp:59-60 | after k passes only channels 1 and 8 have moved, each mixed k times |
| Handset.HandsetTable | lib/CrsfSerial/examples/handset/handset.cpp:53-71 | the k-th table after setup: channel 1 cycles 988..2012 by 1 from 1500, channel 8 by 2, the others stay 1500 (raw 992, whose top 8 bits are 124) |
| Channels.FittingTableFrame | lib/CrsfSerial/CrsfSerial.cpp:291-296 | with the loop as written, channels 1–15 of a fitting table decode to their values, channel 16 only when the stale byte holds its top 8 bits |
| Handset.Mix | lib/CrsfSerial/examples/handset/handset.cpp:53-58 | sets the channel to the mixed value of its old one |
| Handset.SetupCrsfChannels | lib/CrsfSerial/examples/handset/handset.cpp:66-71 | every channel becomes 1500 us and nothing else changes |
| Handset.ChannelScheduler.constructor | lib/CrsfSerial/examples/handset/handset.cpp:45 | `lastSend` starts at 0 |
| Handset.ChannelScheduler.CheckSendChannels | lib/CrsfSerial/examples/handset/handset.cpp:43-64 | within 4000 us nothing changes; otherwise the mixer pass, then one channels frame sent through `queuePacketChannels` as written: for an in-range table channels 1–15 decode to their values, channel 16 exactly when the stale byte holds its top 8 bits |

## Left out

- Crc8: the Crc8 class is not part of this model. `Crc.Crc8` is the assumed CRC-8 named above.
- Port I/O: `available`, `read`, `write`, `begin` and `end` on `HardwareSerial` / `Stream` become the `Rx` input sequence and the `PortOp` / written-frame logs. ArduinoCRSF's `begin(Stream&)` only stores the port, so it is not modelled.
- The ArduinoCRSF hex dump of every written frame (`Serial.print`) is left out because it is debug output only.
- `Serial.print` / `println` of the application become appends to a console string. The handset's `packetLinkStatistics` printing is left out.
- `millis()` and `micros()` become parameters.
- Callbacks are a log of `Callback` values; every hook is treated as attached. `src/main.cpp:289` assigns `onShiftyByte`, which CrsfSerial does not declare; the model treats `onOobData` as that hook.
- `checkSerialInPassthrough` (byte forwarding, LED blinking, the 5 s exit timer, `delay`) is I/O and timing only.
- `setup()`, `loop()`, `setupCrsf` and `setupGpio` only wire the functions together.
- GPIO, PWM and ADC are left out. `servoSetUs` keeps only the `g_OutputsUs` bookkeeping, and `analogRead` is a parameter of `CheckVbatt`.
- `VBAT_SCALE` is floating point and is taken as 1.0; `App.VbatBound` shows the value then fits uint16_t unchanged.
- The getters that return the address of a stored record (`getLinkStatistics`, `getGpsSensor`, `getBaroVarioSensor`, `getAttitudeSensor`) are not modelled; the records are fields of the state.
- The packed bit-field overlays are not modelled; the payloads are read and written at explicit byte offsets.
- `CrsfSerial.h:21` declares a 4-argument `queuePacket`; the `.cpp` defines a 3-argument one that always writes 0xC8 first. `main.cpp` calls it with 4 arguments; the model drops the address, as the definition does.
- `setChannel` and `queuePacketChannels` are not declared in `CrsfSerial.h`. `Serial.CrsfSerial.SetChannel` stores the value at index ch − 1, which is what the handset example and the comment at `CrsfSerial.cpp:270` expect.
- `ArduinoCRSF.h` declares `_baroVarioSensor` and `packetBaroVario`; the `.cpp` defines `packetBaroAltitude` and `packetVario` instead, and the model follows the `.cpp`.
- `median.h:28` misspells `sizeof` in `clear()`; `Median.MedianAvgFilter.Clear` models the evident intent (zero all samples).
- Median: samples are `unsigned int` (T = unsigned int, as `src/main.cpp` uses the filter); other element types are not modelled.
- App.Atoi: `atoi` is unbounded, then converted to `unsigned int` with `ToU32`; C leaves overflow undefined.
- Channels.PackChannelsAsWritten: a channel value whose `US_to_CRSF` falls outside 11 bits bleeds into its neighbours; the bytes are computed but the contract describes only tables that fit.
- Channels.PackChannels: the same holds for the corrected packer.
- Serial.Initial and Arduino.Initial: the constructors leave the receive buffer, its cursor `_rxBufPos`, the channels and the sensor records unset; the model starts them at zero, which is what they hold for an object in static storage (every CrsfSerial in the sketches is a global: `src/main.cpp:29`, `telemetry.cpp:23`, `handset.cpp:28`). An automatic or heap object, whose cursor is indeterminate, is not modelled.
- Commented-out code is not modelled: the hexdump helper, the link-up logic in `packetLinkStatistics` and the busy-wait in ArduinoCRSF's `queuePacket`.

## Findings

| source | as written | input that shows it | evidently intended | confidence | as-written member | corrected member |
|---|---|---|---|---|---|---|
| lib/CrsfSerial/CrsfSerial.cpp:291 | `while (bitsInScratch > 8)` stops with the last 8 bits still in the scratch register, so `packedChannels[21]` (bits 3–10 of channel 16) is never written and keeps whatever the stack held | any table, e.g. all channels at 1500 us: channel 16 decodes to 992 only if the stale byte happens to be 124 | `while (bitsInScratch >= 8)`, writing all 22 bytes | not executed | Channels.PackChannelsAsWritten, Serial.CrsfSerial.QueuePacketChannels | Channels.PackChannels, Serial.CrsfSerial.QueuePacketChannelsCorrected |
| lib/common/median.h:36-54 | with all samples equal, `minIdx == maxIdx == 0`, so only one sample is left out and N − 1 samples are divided by N − 2 | five samples of 100 give 133 instead of 100 | drop one lowest and one highest sample and average the other N − 2 | not executed | Median.MedianAvgFilter.Calc, Median.CalcAllEqualExample | Median.MedianAvgFilter.CalcTrimmed, Median.TrimmedMeanBounds |

The program-level members follow the code as written: the handset example's `CheckSendChannels` queues through `QueuePacketChannels`, whose byte 21 is a parameter standing for the stale stack byte, and the application's `CheckVbatt` reads the filter through `Calc`. The corrected members stand beside them with the intended properties proved.
