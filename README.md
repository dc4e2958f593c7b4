# wavemq packet encoder, modelled in Dafny

This project models the MQTT 3.1.1 packet encoder of wavemq (`packet.go`) and
proves what it writes. The model covers:

- the control-packet type and flag constants and the QoS constants;
- the fixed-header first byte `ptype | pflags`;
- the remaining-length routines `encodeRemainingLength` and
  `decodeRemainingLength`;
- the `Encode` methods of the CONNECT, CONNACK, PUBLISH, PUBACK, PUBREC and
  PUBREL variable headers and of the CONNECT payload;
- `packet.encode`, which assembles a frame in the packet's buffer;
- the six `init*` setters.

Modules, one per part of the encoder:

- `Common`: Go's `byte`, `uint16` and `uint32` as integer newtypes. Go's
  conversions (`byte(x)`, `uint16(n)`, `uint32(n)`) keep the low bits and are
  written out. Go's `|` on bytes is `Or`, defined bit by bit. `x & 0xF0` is
  `MaskF0` and `x & 0x0F` is `Mask0F`. Also holds the `Option`/`Result`
  wrappers and the errors (`EOF`, "Malformed remaining length", a serialiser
  failure).
- `FixedHeader`: the `ptype`/`pflags`/QoS constants, the reading of a first
  byte back into a control type (`TypeOf`), and the PUBLISH flags computed by
  `initPublish`.
- `RemainingLength`: `EncRL` and `DecRL`, the value-level encoder and decoder
  of the remaining-length field, with the round trip and the error cases.
- `Properties`: each variable-header record as a datatype whose `Encode` is a
  function returning its bytes. The `Encodeable` interface becomes the closed
  datatype `Properties` over the six records. Each encoder has a reader or a
  lemma that states what its bytes keep and what they lose.
- `Packets`: the `packet` struct as the class `Packet`. Its `bytes.Buffer` is
  the fields `data` (everything written) and `off` (the read cursor).
  `encodeRemainingLength`, `decodeRemainingLength`, `encode` and the `init*`
  setters are methods that change the packet in place. Each is proved equal
  to the value-level function that specifies it (`EncRL`, `DecRL`,
  `EncodeResult`, `InitializedFor`).

The payload serialiser (`gob`) is a parameter of type `Serializer`: a total
function from the payload value to its bytes or an error. Its wire format is
not part of this model.

### Where the encoder departs from MQTT 3.1.1

Each departure is modelled as the code does it and shown by a lemma:

- Every 2-byte length or packet identifier is written as `x & 0xF0`, `x & 0x0F`
  (`PairBytes`), not big-endian as section 1.5.2 requires.
  - Identifiers that agree in their low byte encode alike; 0x0100 and 0x0000
    both give `[0, 0]`.
  - The two forms agree only below 16.
- The CONNECT protocol name has a 1-byte length prefix, `byte(len(name))`.
  Section 3.1.2.1 uses the 2-byte string form of section 1.5.3. A name of 256
  bytes therefore announces length 0.
- The CONNECT will-QoS is a single boolean in bit 3, so QoS 2 (bit 4) cannot
  be expressed.
- The PUBLISH variable header writes the topic's length but never the topic
  bytes. It writes the packet identifier whatever the QoS, so it is always
  4 bytes (compare section 3.3.2).
- `encodeRemainingLength(0)` writes nothing. Section 2.2.3 requires one 0x00
  byte.
- `decodeRemainingLength` multiplies before it checks the bound, so the
  fourth byte read is always rejected. Every 4-byte length fails to decode,
  although section 2.2.3 allows lengths up to 268,435,455. Frames whose
  variable header and payload total more than 2,097,151 bytes are written but
  cannot be read back.
- The comment above `decodeRemainingLength` (`packet.go:340-343`) says it
  first sets the read offset to 1, past the first byte. The code does not: it
  reads from wherever the buffer's cursor stands, so on a freshly encoded
  packet (cursor 0) the first byte would be taken as the first length digit.
  The model follows the code; `FrameParses` decodes the length from the
  bytes after the first.
- `QoSLevel` is an unrestricted byte. A value outside the three constants is
  OR-ed into the first byte and can change the packet type; QoS 0x40 turns
  PUBLISH into PUBCOMP.
- `packet.go:444` ORs the QoS level into the undeclared variable `plags`, so
  the file does not compile as written. The model follows the evident intent,
  `pflags |= byte(properties.QoSLevel)`.
- `packet_test.go` calls `encodeRemainingLength(n)` for bytes and
  `decodeRemainingLength(buf)` for a value. Neither matches the `*packet`
  signatures of `packet.go`. `EncRL`/`DecRL` is that functional pair,
  proved equal to what the buffer routines append and read. The test's three
  cases are the `TestValue*` lemmas and `EncodeThenDecode`.
- `encode` passes the CONNECT payload record to `gob` like any other
  payload; `ConnectPayload.Encode` is never called (see Findings).
- `encode` never writes the packet's `length` field; only the `init*` setters
  set it, to 0.

## Model

| member | source | states |
|---|---|---|
| FixedHeader.TypeOf | packet.go:13-43 | Reading a first byte gives the control type whose `ptype` is its high nibble, and no type exactly when the high nibble is 0 or 15 |
| FixedHeader.PTypeNibbles | packet.go:13-43 | Every `ptype` constant has a zero low nibble and a high nibble in 1..14, and reads back as its own type |
| FixedHeader.PTypeInjective | packet.go:13-43 | Two types have the same `ptype` constant if and only if they are the same type |
| FixedHeader.PFlagsValues | packet.go:44-73 | Every fixed `pflags` constant is below 16; it is 0x02 exactly for PUBREL, SUBSCRIBE and UNSUBSCRIBE and 0x00 for the rest |
| FixedHeader.ControlByte | packet.go:390-391 | For flags below 16, `ptype \| pflags` is their sum; its high nibble reads back as the type and its low nibble is the flags |
| FixedHeader.PublishFlagsIsSum | packet.go:440-448 | For the three QoS constants the ORs of `initPublish` equal DUP·8 + QoS + RETAIN |
| FixedHeader.PublishFlagsFields | packet.go:83-93 | For the three QoS constants the PUBLISH flags are below 16; bit 3 is DUP, bit 0 is RETAIN, bits 2-1 are the QoS level and never 0b11 |
| FixedHeader.QoSOutsideConstantsLeaksIntoType | packet.go:78-93 | A QoS byte outside the constants reaches the type nibble: QoS 0x40 makes a PUBLISH read as PUBCOMP |
| RemainingLength.LengthByte | packet.go:331-335 | One byte of the length field carries its base-128 digit in bits 6-0 and the "more follows" flag in bit 7 |
| RemainingLength.EncRL | packet.go:328-338 | The bytes written for `n` have base-128 value `n`, least significant digit first, with bit 7 set on all but the last; they are empty exactly for 0; `n` lies between 128^(k-1) and 128^k for k bytes |
| RemainingLength.EncRLSize | packet.go:329-337 | Lengths up to 268,435,455 take at most 4 bytes, every uint32 at most 5, lengths in 1..2,097,151 at most 3, and lengths from 2,097,152 at least 4 |
| RemainingLength.DecRLCases | packet.go:344-364 | The decoder reads at most 4 bytes. It succeeds exactly when a byte with bit 7 clear ends the field within 3 bytes, and then returns that field's value. Otherwise the value is 0: "malformed" exactly when the first three bytes all have bit 7 set, EOF exactly when the input ends first |
| RemainingLength.DecRLAccepts | packet.go:348-363 | A field of 1 to 3 bytes ending in a byte with bit 7 clear decodes to its value, consuming exactly those bytes |
| RemainingLength.DecRLRejects | packet.go:356-361 | Three leading bytes with bit 7 set make the fourth read fail with "Malformed remaining length", value 0, 4 bytes consumed |
| RemainingLength.DecRLExhausts | packet.go:352-355 | Input that ends before a byte with bit 7 clear gives EOF and value 0 |
| RemainingLength.DecodedBelow | packet.go:356-361 | Every value the decoder returns is below 2,097,152 |
| RemainingLength.RoundTrip | packet.go:328-364 | For `n` in 1..2,097,151, decoding the bytes written for `n`, whatever follows, returns `n` with no error and consumes exactly those bytes |
| RemainingLength.DecodeAfterEncode | packet.go:328-364 | The same round trip, stated as: the decoder returns `n` and leaves exactly the bytes that followed the field unread |
| RemainingLength.LargeLengthRejected | packet.go:356-361 | For every `n` from 2,097,152 on, the bytes written for `n` fail to decode with "Malformed remaining length" after 4 bytes |
| RemainingLength.ZeroHasNoEncoding | packet.go:330 | Length 0 is written as no bytes, and decoding nothing reports EOF |
| RemainingLength.TestValueOneByte | packet_test.go:8-17 | 34 is written as the single byte 34 and decodes to 34 |
| RemainingLength.TestValueThreeBytes | packet_test.go:19-28 | 1,234,567 is written in 3 bytes and decodes to 1,234,567 |
| RemainingLength.TestValueTooLarge | packet_test.go:30-36 | The bytes written for 999,999,999 fail to decode with "Malformed remaining length" |
| Properties.PairBytes | packet.go:164-165 | A 2-byte field is `[x & 0xF0, x & 0x0F]`: its first byte has a zero low nibble, its second is below 16, and together they sum to the low byte of `x` |
| Properties.PairBytesCollide | packet.go:288-289 | Two values give the same 2-byte field if and only if their low bytes agree |
| Properties.PairBytesIdCollision | packet.go:288-289 | Identifiers 0x0100 and 0x0000 are both written as `[0x00, 0x00]` |
| Properties.PairBytesVersusBigEndian | packet.go:164-165 | The written field equals the big-endian one of section 1.5.2 if and only if the value is below 16 |
| Properties.FlagBits | packet.go:141-160 | The CONNECT flag byte built from six bits fits a byte; bits 0 and 4 are clear and each other bit is set exactly when its flag is |
| Properties.ConnectProperties.Flags | packet.go:141-160 | The CONNECT flag byte: 0x02, 0x04, 0x08, 0x20, 0x40 and 0x80 are set exactly when CleanSession, WillFlag, WillQoS, WillRetain, Password and UserName are; 0x01 and 0x10 are never set |
| Properties.ConnectProperties.Encode | packet.go:133-170 | The CONNECT variable header is `len(name)+5` bytes: the name's length truncated to a byte, the name, the level's low byte, the flags, the keep-alive as a 2-byte field |
| Properties.ConnectHeaderRoundTrip | packet.go:133-170 | For names under 256 bytes a reader of this layout gets back the name, the level's low byte, the flags and the keep-alive's low byte |
| Properties.ConnectNameLengthWraps | packet.go:137 | A protocol name of 256 bytes or more announces its length modulo 256 (0 for exactly 256 bytes), so the header cannot be read back |
| Properties.ConnectPayload.Encode | packet.go:184-225 | As written, the CONNECT payload encodes to no bytes at all |
| Properties.ConnectPayload.EncodeIntended | packet.go:186-222 | The five length-prefixed fields the method writes to its local buffer: 10 bytes plus the five fields' lengths |
| Properties.Field | packet.go:189-193 | One length-prefixed field is a 2-byte prefix `[n & 0xF0, n & 0x0F]` of its length n modulo 256, followed by its bytes unchanged |
| Properties.ReadFieldRoundTrip | packet.go:189-193 | A field under 256 bytes, followed by anything, reads back as itself and leaves what follows |
| Properties.LongFieldMisread | packet.go:189-193 | For fields of 256 to 65,535 bytes the two prefix bytes never add up to the field's length |
| Properties.ConnectPayloadRoundTrip | packet.go:186-222 | Fields under 256 bytes each: the intended payload bytes read back as the same five fields |
| Properties.ConnectPayloadEncodeLosesFields | packet.go:184-225 | For every payload, the bytes as written are empty, differ from the at least 10 intended bytes and read back as nothing |
| Properties.ConnectAckProperties.Encode | packet.go:236-247 | The CONNACK header is 2 bytes: 1 exactly when the session is present (else 0), then the return code's low byte, which is the code itself for 0..255 |
| Properties.PublishProperties.Encode | packet.go:262-277 | The PUBLISH header is always 4 bytes: the topic's length as a 2-byte field and the packet identifier as a 2-byte field, with no topic bytes |
| Properties.PublishHeaderIgnoresTopicAndQoS | packet.go:262-277 | Two PUBLISH headers with topics of equal length and equal identifiers encode alike, whatever their topics, QoS, DUP and RETAIN |
| Properties.PublishAckProperties.Encode | packet.go:286-291 | The PUBACK header is exactly `[id & 0xF0, id & 0x0F]`: the high and low nibble of the identifier's low byte |
| Properties.PublishRecProperties.Encode | packet.go:301-306 | The PUBREC header is exactly `[id & 0xF0, id & 0x0F]`: the high and low nibble of the identifier's low byte |
| Properties.PublishRelProperties.Encode | packet.go:316-321 | The PUBREL header is exactly `[id & 0xF0, id & 0x0F]`: the high and low nibble of the identifier's low byte |
| Properties.AckIdentifiersCollide | packet.go:286-321 | For PUBACK, PUBREC and PUBREL, two identifiers give the same header if and only if their low bytes agree |
| Properties.Properties.Encode | packet.go:113-115 | Every variable header is at least 2 bytes, so the remaining length is 0 only when header and payload together are a multiple of 2^32 bytes, where the uint32 sum wraps |
| Packets.AddUint32OfLengths | packet.go:379-386 | Adding the uint32-truncated lengths of the header and the payload gives the uint32-truncated total |
| Packets.FrameParses | packet.go:369-404 | For a header plus payload of 1..2,097,151 bytes, a receiver reads back the first byte, the total as remaining length, and exactly the header followed by the payload |
| Packets.LongFrameMisread | packet.go:379-392 | For a header plus payload of 2,097,152 bytes or more, the remaining length never reads back; below 2^32 the decoder reports "malformed" after 4 bytes |
| Packets.InitializedControlByte | packet.go:390-391 | For every packet set up by an `init*` setter, the first byte names the header's type and carries the flags in its low nibble (a PUBLISH needs a QoS constant for this) |
| Packets.Packet.constructor | packet.go:96-103 | The zero `packet{}`: empty buffer, zero type, flags and length, nil properties and payload |
| Packets.Packet.Reset | packet.go:371 | `buffer.Reset`: the buffer is empty and nothing is unread |
| Packets.Packet.WriteByte | packet.go:392 | `buffer.WriteByte`: the buffer is its old contents plus the one byte |
| Packets.Packet.Write | packet.go:396 | `buffer.Write`: the buffer is its old contents plus the bytes, in order |
| Packets.Packet.ReadByte | packet.go:352 | `buffer.ReadByte`: the next unread byte; on an exhausted buffer, EOF and a reset buffer |
| Packets.Packet.Encode | packet.go:369-404 | encode empties the buffer, then leaves in it exactly the frame `EncodeResult` describes and reports no error; if the serialiser fails, it returns that error and the buffer stays empty |
| Packets.Packet.WriteFrame | packet.go:389-401 | The writing half of encode: on an empty buffer it writes exactly the frame |
| Packets.Packet.InitConnect | packet.go:414-421 | Resets the buffer, sets length 0, CONNECT type and flags, the header and the CONNECT payload |
| Packets.Packet.InitConnectAck | packet.go:425-432 | Resets the buffer, sets length 0, CONNACK type and flags, the header and a nil payload |
| Packets.Packet.InitPublish | packet.go:436-451 | Resets the buffer, sets length 0, the PUBLISH type, flags DUP \| QoS \| RETAIN, the header and the given payload |
| Packets.Packet.InitPublishAck | packet.go:455-462 | Resets the buffer, sets length 0, PUBACK type and flags, the header and a nil payload |
| Packets.Packet.InitPublishRec | packet.go:466-473 | Resets the buffer, sets length 0, PUBREC type and flags, the header and a nil payload |
| Packets.Packet.InitPublishRel | packet.go:477-484 | Resets the buffer, sets length 0, PUBREL type and its reserved flags 0x02, the header and a nil payload |
| Packets.EncodeRemainingLength | packet.go:328-338 | The loop appends exactly `EncRL(length)` to the buffer |
| Packets.DecodeRemainingLength | packet.go:344-364 | The loop returns what `DecRL` says of the unread bytes and leaves unread exactly the bytes it did not consume; on EOF the buffer has been reset, otherwise its contents are unchanged |
| Packets.EncodeThenDecode | packet_test.go:7-38 | On a fresh packet, lengths 1..2,097,151 written and read back come out unchanged; longer ones are reported malformed with value 0; 0 gives EOF |
| Packets.TwoByteResult | packet.go:369-404 | A packet with no payload and a 2-byte header encodes to `ptype + pflags`, 0x02 and the header |
| Packets.PubackFrame | packet.go:455-462 | A PUBACK for identifier `id`, set up and encoded, is `[0x40, 0x02]` followed by the identifier field |
| Packets.PubrelFrame | packet.go:477-484 | A PUBREL for identifier `id` is `[0x62, 0x02]` followed by the identifier field |
| Packets.ConnackFrame | packet.go:425-432 | A CONNACK is 4 bytes: 0x20, 0x02, 1 exactly when the session is present, the return code's low byte |
| Packets.EncodedFirstByte | packet.go:369-404 | Encoding a set-up packet fails exactly when its payload is refused by the serialiser. Otherwise the frame is at least 4 bytes and its first byte names the header's type and carries the flags; for a PUBLISH this holds when its QoS is one of the three QoS constants |

## Left out

- `packet.decode` is a stub that returns nil; there is nothing to model.
- The `gob` wire format is a foreign library. It is the `Serializer` parameter
  of `Packet.Encode`, and an application payload is represented by its bytes.
- `properties.Encode()` can report an error in Go. None of the six `Encode`
  methods ever sets its `err` result, so that path of `encode` cannot happen
  and is not modelled.
- `Packet.Encode` requires a non-nil `properties`. Go panics on a nil
  interface there, and the model states no behaviour for that case.
- Go strings are sequences of bytes (their UTF-8 encoding). No UTF-8
  validation exists in the source, so none is modelled.
- `bytes.Buffer` is modelled by its contents and read offset only. Growth,
  capacity and the reuse of read space are left out.
- channel.go, wave.go, client.go and topic.go are not part of this model. They
  hold channel and reflection wrappers, stubs and a plain struct, with no
  protocol logic.
- `Properties.ConnectProperties.Flags` computes the OR of six disjoint single
  bits as their sum; `FlagBits` proves each bit position, which is all the
  ORs give.
- `Packets.Packet.WriteFrame` appends an empty payload when the payload is
  nil, where Go skips the `Write`. Appending nothing leaves the buffer
  unchanged.

## Findings

| source | as written | input that shows it | evidently intended | confidence | as-written member | corrected member |
|---|---|---|---|---|---|---|
| packet.go:224 | `ConnectPayload.Encode` writes the five length-prefixed fields to a local buffer but returns the never-assigned named result `buf`, so the result is always empty | any payload, e.g. identifier "a" with all other fields empty: 0 bytes instead of 11 | return `buffer.Bytes()`, the five fields with their 2-byte prefixes | not executed | Properties.ConnectPayloadEncodeLosesFields | Properties.ConnectPayloadRoundTrip |

The corrected bytes are `Properties.ConnectPayload.EncodeIntended`.
`ConnectPayloadRoundTrip` proves that they read back as the record.
`encode` never calls either version: it hands the CONNECT payload record to the
serialiser like any other payload.
