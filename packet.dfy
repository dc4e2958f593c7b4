/**
 * The packet being built for sending: its control type and flags, its
 * variable header and payload, and the bytes.Buffer the frame is written to.
 * encodeRemainingLength, decodeRemainingLength, encode and the init* setters
 * work on it in place, so it is a class whose methods change its fields.
 */
module Packets {
  import opened Common
  import opened FixedHeader
  import opened RemainingLength
  import opened Properties

  /**
   * The value stored in the packet's `payload interface{}`: the CONNECT
   * payload record, or the application's value for a PUBLISH, which only the
   * serialiser looks at and which is represented here by its bytes.
   */
  datatype Payload =
    | ConnectPayloadValue(connect: ConnectPayload)
    | ApplicationValue(value: seq<byte>)

  /**
   * The payload serialiser (`gob.NewEncoder(...).Encode(payload)`): the bytes
   * it produces for a value, or the error it reports. Its wire format is not
   * part of this model, so every encoding operation takes it as a parameter.
   */
  type Serializer = Payload -> Result<seq<byte>, Error>

  /** Go's `a += b` on uint32: wraps modulo 2^32. */
  function AddUint32(a: uint32, b: uint32): (r: uint32)
    ensures r as int == (a as int + b as int) % Two32
  {
    ToUint32(a as nat + b as nat)
  }

  /** Adding two lengths after truncating each to uint32 is truncating their sum. */
  lemma AddUint32OfLengths(a: nat, b: nat)
    ensures AddUint32(0, ToUint32(a)) == ToUint32(a)
    ensures AddUint32(ToUint32(a), ToUint32(b)) == ToUint32(a + b)
  {
    var qa, qb := a / Two32, b / Two32;
    assert a == qa * Two32 + a % Two32 && b == qb * Two32 + b % Two32;
    assert a + b == (qa + qb) * Two32 + (a % Two32 + b % Two32);
    var s := a % Two32 + b % Two32;
    assert (a + b) % Two32 == s % Two32 by {
      ModShift(s, qa + qb);
    }
  }

  lemma ModShift(s: nat, q: nat)
    ensures (q * Two32 + s) % Two32 == s % Two32
  {
    var t := s % Two32;
    assert s == (s / Two32) * Two32 + t;
    assert q * Two32 + s == (q + s / Two32) * Two32 + t;
  }

  // ---------------------------------------------------------------------------
  // The frame encode writes

  /**
   * The frame for a first byte, a variable header and payload bytes: the
   * byte, the remaining length (the total of the two lengths, accumulated in
   * a uint32 and so taken modulo 2^32), the variable header, the payload.
   */
  function Frame(control: byte, vh: seq<byte>, pl: seq<byte>): seq<byte>
  {
    [control] + EncRL(ToUint32(|vh| + |pl|) as nat) + vh + pl
  }

  /**
   * What encode produces for a packet's fields: the frame, with the payload
   * serialised when there is one, or the serialiser's error.
   */
  function EncodeResult(ptype: byte, pflags: byte, properties: Properties, payload: Option<Payload>, gob: Serializer)
    : Result<seq<byte>, Error>
  {
    var vh := properties.Encode();
    if payload.None? then Success(Frame(Or(ptype, pflags), vh, []))
    else
      match gob(payload.value)
      case Failure(e) => Failure(e)
      case Success(pl) => Success(Frame(Or(ptype, pflags), vh, pl))
  }

  /** `length` is the uint32 sum of the two parts' sizes, as encode accumulates it. */
  predicate LengthOf(length: uint32, vh: seq<byte>, pl: seq<byte>)
  {
    length == ToUint32(|vh| + |pl|)
  }

  /** The buffer encode fills, from empty, in four appends: first byte, length field, variable header, payload. */
  lemma FrameWritten(afterControl: seq<byte>, afterLength: seq<byte>, afterHeader: seq<byte>, data: seq<byte>,
                     control: byte, length: uint32, vh: seq<byte>, pl: seq<byte>)
    requires length == ToUint32(|vh| + |pl|)
    requires afterControl == [] + [control] && afterLength == afterControl + EncRL(length as nat)
    requires afterHeader == afterLength + vh && data == afterHeader + pl
    ensures data == Frame(control, vh, pl)
  {
    assert afterControl == [control];
    var e := EncRL(ToUint32(|vh| + |pl|) as nat);
    assert afterLength == [control] + e;
  }

  /** When the payload is absent, or serialises to `pl`, encode's result is the frame around `pl`. */
  lemma EncodeSucceeds(ptype: byte, pflags: byte, properties: Properties, payload: Option<Payload>, gob: Serializer, pl: seq<byte>)
    requires payload.None? ==> pl == []
    requires payload.Some? ==> gob(payload.value) == Success(pl)
    ensures EncodeResult(ptype, pflags, properties, payload, gob) == Success(Frame(Or(ptype, pflags), properties.Encode(), pl))
  {
  }

  /** When the serialiser refuses the payload, encode's result is its error. */
  lemma EncodeFails(ptype: byte, pflags: byte, properties: Properties, payload: Option<Payload>, gob: Serializer)
    requires payload.Some? && gob(payload.value).Failure?
    ensures EncodeResult(ptype, pflags, properties, payload, gob) == Failure(gob(payload.value).error)
  {
  }

  /** The parts of a frame: the first byte, then the length field followed by the rest. */
  lemma FrameSplit(control: byte, e: seq<byte>, vh: seq<byte>, pl: seq<byte>)
    ensures var f := [control] + e + vh + pl;
      f[0] == control && f[1..] == e + (vh + pl) && f[1 + |e|..] == vh + pl
  {
  }

  /**
   * A receiver reading a frame whose variable header and payload total
   * 1..2,097,151 bytes recovers the first byte, that total as the remaining
   * length, and exactly the variable header followed by the payload.
   */
  lemma FrameParses(control: byte, vh: seq<byte>, pl: seq<byte>)
    requires 1 <= |vh| + |pl| <= 2097151
    ensures var f := Frame(control, vh, pl);
      var d := DecRL(f[1..]);
      && f[0] == control
      && d.value == |vh| + |pl| && d.err == None && 1 <= d.consumed <= 3
      && f[1 + d.consumed..] == vh + pl
  {
    var n := |vh| + |pl|;
    var e := EncRL(n);
    var f := Frame(control, vh, pl);
    assert f[0] == control && f[1..] == e + (vh + pl) by {
      assert ToUint32(n) as nat == n;
      FrameSplit(control, e, vh, pl);
    }
    DecodeAfterEncode(n, vh + pl);
    var k := DecRL(f[1..]).consumed;
    assert f[1 + k..] == f[1..][k..];
  }

  /**
   * A frame whose variable header and payload total 2,097,152 bytes or more
   * never reads back with its length: up to 2^32 - 1 the decoder rejects the
   * 4-byte field, and from 2^32 on the written length has wrapped.
   */
  lemma LongFrameMisread(control: byte, vh: seq<byte>, pl: seq<byte>)
    requires |vh| + |pl| >= 2097152
    ensures var d := DecRL(Frame(control, vh, pl)[1..]);
      && d.value != |vh| + |pl|
      && (|vh| + |pl| < Two32 ==> d == Decoded(0, Some(MalformedRemainingLength), 4))
  {
    var n := |vh| + |pl|;
    var e := EncRL(ToUint32(n) as nat);
    assert Frame(control, vh, pl) == [control] + e + vh + pl;
    FrameSplit(control, e, vh, pl);
    DecodedBelow(e + (vh + pl));
    if n < Two32 {
      LargeLengthRejected(n, vh + pl);
    }
  }

  /**
   * The first byte and flags the init* setters choose for a variable header:
   * its type's `ptype`, and its type's `pflags` or, for PUBLISH, the flags
   * computed from DUP, QoS and RETAIN.
   */
  predicate InitializedFor(ptype: byte, pflags: byte, properties: Properties)
  {
    && ptype == PType(properties.Type())
    && match properties
       case PublishProps(h) => pflags == PublishFlags(h.dupFlag, h.qosLevel, h.retain)
       case _ => pflags == PFlags(properties.Type())
  }

  /**
   * The first byte of an initialised packet's frame names the type of its
   * variable header and carries its flags in the low nibble, as long as a
   * PUBLISH uses one of the three QoS constants.
   */
  lemma InitializedControlByte(ptype: byte, pflags: byte, properties: Properties)
    requires InitializedFor(ptype, pflags, properties)
    requires properties.PublishProps? ==> IsQoSConstant(properties.publish.qosLevel)
    ensures pflags < 16
    ensures TypeOf(Or(ptype, pflags)) == Some(properties.Type())
    ensures Or(ptype, pflags) as int == ptype as int + pflags as int
  {
    match properties
    case PublishProps(h) =>
      PublishFlagsFields(h.dupFlag, h.qosLevel, h.retain);
      ControlByte(Publish, pflags);
    case _ =>
      PFlagsValues(properties.Type());
      ControlByte(properties.Type(), pflags);
  }

  // ---------------------------------------------------------------------------
  // The packet

  class Packet {
    var ptype: byte
    var pflags: byte
    /** Set to 0 by the init* setters and never written by encode. */
    var length: uint32
    /** The variable header; None is Go's nil interface value. */
    var properties: Option<Properties>
    /** The payload; None is Go's nil. */
    var payload: Option<Payload>
    /** The bytes.Buffer: everything written to it, and how much has been read. */
    var data: seq<byte>
    var off: nat

    ghost predicate Valid()
      reads this
    {
      off <= |data|
    }

    /** The buffer's unread bytes (`buffer.Bytes()`). */
    function Unread(): seq<byte>
      reads this
      requires Valid()
    {
      data[off..]
    }

    /** The zero value `packet{}`. */
    constructor ()
      ensures Valid() && data == [] && off == 0
      ensures ptype == 0 && pflags == 0 && length == 0 && properties == None && payload == None
    {
      ptype, pflags, length := 0, 0, 0;
      properties, payload := None, None;
      data, off := [], 0;
    }

    /** `buffer.Reset()`: empties the buffer. */
    method Reset()
      modifies this`data, this`off
      ensures Valid() && data == [] && off == 0
    {
      data, off := [], 0;
    }

    /** `buffer.WriteByte(b)`: appends one byte. */
    method WriteByte(b: byte)
      requires Valid()
      modifies this`data
      ensures Valid() && data == old(data) + [b]
    {
      data := data + [b];
    }

    /** `buffer.Write(bs)`: appends the bytes. */
    method Write(bs: seq<byte>)
      requires Valid()
      modifies this`data
      ensures Valid() && data == old(data) + bs
    {
      data := data + bs;
    }

    /**
     * `buffer.ReadByte()`: the next unread byte; on an exhausted buffer it
     * resets the buffer and reports EOF.
     */
    method ReadByte() returns (c: byte, err: Option<Error>)
      requires Valid()
      modifies this`data, this`off
      ensures Valid()
      ensures old(Unread()) == [] ==> c == 0 && err == Some(EOF) && data == [] && off == 0
      ensures old(Unread()) != [] ==>
        c == old(Unread())[0] && err == None && data == old(data) && Unread() == old(Unread())[1..]
    {
      if off == |data| {
        data, off := [], 0;
        return 0, Some(EOF);
      }
      c := data[off];
      off := off + 1;
      err := None;
    }

    /**
     * encode: empties the buffer and writes the frame — first byte
     * `ptype | pflags`, remaining length, variable header, payload. When the
     * serialiser fails, the error is returned and the buffer is left empty.
     * Calling it on a packet with nil properties panics in the source, hence
     * the precondition.
     */
    method Encode(gob: Serializer) returns (err: Option<Error>)
      requires Valid() && properties.Some?
      modifies this`data, this`off
      ensures Valid() && off == 0
      ensures var r := EncodeResult(ptype, pflags, properties.value, payload, gob);
        && (r.Success? ==> err == None && data == r.value)
        && (r.Failure? ==> err == Some(r.error) && data == [])
    {
      var props, pl := properties.value, payload;
      Reset();
      var length: uint32 := 0;
      // properties.Encode() never reports an error
      var vheaderBytes := props.Encode();
      length := AddUint32(length, ToUint32(|vheaderBytes|));
      assert length == ToUint32(|vheaderBytes|) by { AddUint32OfLengths(|vheaderBytes|, 0); }
      var payloadBytes: seq<byte> := [];
      if pl.Some? {
        var encoded := gob(pl.value);
        if encoded.Failure? {
          EncodeFails(ptype, pflags, props, pl, gob);
          return Some(encoded.error);
        }
        payloadBytes := encoded.value;
        length := AddUint32(length, ToUint32(|payloadBytes|));
        assert LengthOf(length, vheaderBytes, payloadBytes) by {
          AddUint32OfLengths(|vheaderBytes|, |payloadBytes|);
        }
      } else {
        assert |vheaderBytes| + |payloadBytes| == |vheaderBytes|;
        assert LengthOf(length, vheaderBytes, payloadBytes);
      }
      WriteFrame(Or(ptype, pflags), length, vheaderBytes, payloadBytes);
      EncodeSucceeds(ptype, pflags, props, pl, gob, payloadBytes);
      err := None;
    }

    /**
     * The writing half of encode, on an empty buffer: the first byte, the
     * remaining length `length` (the uint32 sum of the two parts' sizes),
     * the variable header and the payload.
     */
    method WriteFrame(control: byte, length: uint32, vheaderBytes: seq<byte>, payloadBytes: seq<byte>)
      requires Valid() && data == [] && off == 0
      requires LengthOf(length, vheaderBytes, payloadBytes)
      modifies this`data
      ensures Valid() && off == 0 && data == Frame(control, vheaderBytes, payloadBytes)
    {
      WriteByte(control);
      ghost var afterControl := data;
      EncodeRemainingLength(this, length);
      ghost var afterLength := data;
      Write(vheaderBytes);
      ghost var afterHeader := data;
      Write(payloadBytes);
      FrameWritten(afterControl, afterLength, afterHeader, data, control, length, vheaderBytes, payloadBytes);
    }

    /** initConnect: a CONNECT with the given variable header and payload, buffer emptied. */
    method InitConnect(properties: ConnectProperties, payload: ConnectPayload)
      modifies this
      ensures Valid() && data == [] && off == 0 && length == 0
      ensures ptype == PtypeConnect && pflags == PflagsConnect
      ensures this.properties == Some(ConnectProps(properties))
      ensures this.payload == Some(ConnectPayloadValue(payload))
      ensures InitializedFor(ptype, pflags, this.properties.value)
    {
      Reset();
      length := 0;
      ptype := PtypeConnect;
      pflags := PflagsConnect;
      this.properties := Some(ConnectProps(properties));
      this.payload := Some(ConnectPayloadValue(payload));
    }

    /** initConnectAck: a CONNACK with the given variable header and no payload. */
    method InitConnectAck(properties: ConnectAckProperties)
      modifies this
      ensures Valid() && data == [] && off == 0 && length == 0
      ensures ptype == PtypeConnack && pflags == PflagsConnack
      ensures this.properties == Some(ConnackProps(properties)) && payload == None
      ensures InitializedFor(ptype, pflags, this.properties.value)
    {
      Reset();
      length := 0;
      ptype := PtypeConnack;
      pflags := PflagsConnack;
      this.properties := Some(ConnackProps(properties));
      payload := None;
    }

    /**
     * initPublish: a PUBLISH whose flags are DUP (0x08), the QoS level and
     * RETAIN (0x01) OR-ed together; the payload may be nil.
     */
    method InitPublish(properties: PublishProperties, payload: Option<Payload>)
      modifies this
      ensures Valid() && data == [] && off == 0 && length == 0
      ensures ptype == PtypePublish
      ensures pflags == PublishFlags(properties.dupFlag, properties.qosLevel, properties.retain)
      ensures this.properties == Some(PublishProps(properties)) && this.payload == payload
      ensures InitializedFor(ptype, pflags, this.properties.value)
    {
      Reset();
      length := 0;
      ptype := PtypePublish;
      var flags: byte := 0x00;
      if properties.dupFlag {
        flags := Or(flags, 0x08);
        assert flags == 0x08 by { OrZero(0x08); }
      }
      // the source ORs the QoS level into a misspelt variable, `plags`; the
      // evident intent, kept here, is `pflags`
      flags := Or(flags, properties.qosLevel);
      if properties.retain {
        flags := Or(flags, 0x01);
      } else {
        assert flags == Or(flags, 0x00) by { OrZero(flags); }
      }
      pflags := flags;
      this.properties := Some(PublishProps(properties));
      this.payload := payload;
    }

    /** initPublishAck: a PUBACK with the given variable header and no payload. */
    method InitPublishAck(properties: PublishAckProperties)
      modifies this
      ensures Valid() && data == [] && off == 0 && length == 0
      ensures ptype == PtypePuback && pflags == PflagsPuback
      ensures this.properties == Some(PubackProps(properties)) && payload == None
      ensures InitializedFor(ptype, pflags, this.properties.value)
    {
      Reset();
      length := 0;
      ptype := PtypePuback;
      pflags := PflagsPuback;
      this.properties := Some(PubackProps(properties));
      payload := None;
    }

    /** initPublishRec: a PUBREC with the given variable header and no payload. */
    method InitPublishRec(properties: PublishRecProperties)
      modifies this
      ensures Valid() && data == [] && off == 0 && length == 0
      ensures ptype == PtypePubrec && pflags == PflagsPubrec
      ensures this.properties == Some(PubrecProps(properties)) && payload == None
      ensures InitializedFor(ptype, pflags, this.properties.value)
    {
      Reset();
      length := 0;
      ptype := PtypePubrec;
      pflags := PflagsPubrec;
      this.properties := Some(PubrecProps(properties));
      payload := None;
    }

    /** initPublishRel: a PUBREL with the given variable header and no payload. */
    method InitPublishRel(properties: PublishRelProperties)
      modifies this
      ensures Valid() && data == [] && off == 0 && length == 0
      ensures ptype == PtypePubrel && pflags == PflagsPubrel
      ensures this.properties == Some(PubrelProps(properties)) && payload == None
      ensures InitializedFor(ptype, pflags, this.properties.value)
    {
      Reset();
      length := 0;
      ptype := PtypePubrel;
      pflags := PflagsPubrel;
      this.properties := Some(PubrelProps(properties));
      payload := None;
    }
  }

  // ---------------------------------------------------------------------------
  // The remaining-length routines

  /**
   * encodeRemainingLength: appends the base-128 digits of `length` to the
   * packet's buffer, least significant first, bit 7 set on all but the last.
   */
  method EncodeRemainingLength(p: Packet, length: uint32)
    requires p.Valid()
    modifies p`data
    ensures p.Valid() && p.data == old(p.data) + EncRL(length as nat)
  {
    var n := length;
    while n > 0
      invariant p.Valid()
      invariant p.data + EncRL(n as nat) == old(p.data) + EncRL(length as nat)
      decreases n
    {
      ghost var before := n;
      var encoded := ToByte(n as int % 0x80);
      n := n / 0x80;
      if n > 0 {
        encoded := Or(encoded, 0x80);
      }
      EncodedDigit(before, encoded, n);
      ghost var written := p.data;
      p.WriteByte(encoded);
      AppendAssoc(written, encoded, EncRL(n as nat));
    }
  }

  lemma AppendAssoc(a: seq<byte>, b: byte, t: seq<byte>)
    ensures (a + [b]) + t == a + ([b] + t)
  {
  }

  /** One pass of the encoding loop appends the first byte of EncRL. */
  lemma EncodedDigit(before: uint32, encoded: byte, n: uint32)
    requires before > 0 && n as int == before as int / 0x80
    requires encoded == if n > 0 then Or(ToByte(before as int % 0x80), 0x80) else ToByte(before as int % 0x80)
    ensures EncRL(before as nat) == [encoded] + EncRL(n as nat)
  {
    assert ToByte(before as int % 0x80) == (before as nat % 128) as byte;
  }

  /**
   * decodeRemainingLength: reads the remaining length from the packet's
   * unread bytes. It returns what DecRL says of them and leaves unread
   * exactly the bytes DecRL did not consume; on EOF the buffer has reset.
   */
  method DecodeRemainingLength(p: Packet) returns (value: uint32, err: Option<Error>)
    requires p.Valid()
    modifies p`data, p`off
    ensures p.Valid()
    ensures var d := DecRL(old(p.Unread()));
      && value as int == d.value && err == d.err
      && d.consumed <= |old(p.Unread())| && p.Unread() == old(p.Unread())[d.consumed..]
    ensures err == Some(EOF) ==> p.data == [] && p.off == 0
    ensures err != Some(EOF) ==> p.data == old(p.data)
  {
    ghost var input := p.Unread();
    ghost var k: nat := 0;
    var multiplier: uint32 := 1;
    var encoded: byte := 0;
    var first := true;
    value, err := 0, None;
    while More(encoded) || first
      invariant p.Valid() && p.data == old(p.data) && k <= 3 && k <= |input|
      invariant p.Unread() == input[k..]
      invariant multiplier as int == Pow128(k) && value as int < Pow128(k)
      invariant first <==> k == 0
      invariant err == None
      invariant More(encoded) || first ==> DecRL(input) == Shift(DecodeFrom(input[k..], value as nat, multiplier as nat), k)
      invariant !(More(encoded) || first) ==> DecRL(input) == Decoded(value as nat, None, k)
      decreases 4 - k
    {
      if first {
        first := false;
      }
      encoded, err := p.ReadByte();
      if err != None {
        return 0, err;
      }
      ghost var v0, m0 := value as nat, multiplier as nat;
      var digit := (encoded % 0x80) as uint32;
      DigitBound(digit as nat, k, v0);
      value := value + digit * multiplier;
      multiplier := multiplier * 128;
      DecodeStep(input, k, v0, m0, value as nat, multiplier as nat);
      k := k + 1;
      if multiplier > 128 * 128 * 128 {
        err := Some(MalformedRemainingLength);
        return 0, err;
      }
    }
  }

  /** The accumulated value stays below 128^(k+1), at most 2^28, so the uint32 arithmetic never wraps. */
  lemma DigitBound(digit: nat, k: nat, value: nat)
    requires digit < 128 && k <= 3 && value < Pow128(k)
    ensures Pow128(k + 1) == 128 * Pow128(k) <= 0x1000_0000
    ensures value + digit * Pow128(k) < Pow128(k + 1)
    ensures Pow128(k + 1) > 128 * 128 * 128 <==> k == 3
  {
    PowStep(k);
    PowOrder(k, 3);
    PowOrder(k + 1, 3);
    assert digit * Pow128(k) <= 127 * Pow128(k);
  }

  /** One pass of the decoding loop: DecodeFrom on the unread bytes, unfolded once. */
  lemma DecodeStep(input: seq<byte>, k: nat, value: nat, multiplier: nat, value': nat, multiplier': nat)
    requires k < |input| && value' == value + Digit(input[k]) * multiplier && multiplier' == multiplier * 128
    ensures input[k..][1..] == input[k + 1..]
    ensures var d := Shift(DecodeFrom(input[k..], value, multiplier), k);
      if multiplier' > 128 * 128 * 128 then d == Decoded(0, Some(MalformedRemainingLength), k + 1)
      else if !More(input[k]) then d == Decoded(value', None, k + 1)
      else d == Shift(DecodeFrom(input[k + 1..], value', multiplier'), k + 1)
  {
    assert input[k..][0] == input[k] && input[k..][1..] == input[k + 1..];
  }

  /**
   * The round trip the remaining-length test exercises, on a fresh packet:
   * lengths 1..2,097,151 come back unchanged, longer ones are reported
   * malformed, and 0 writes nothing, so the read hits the end of the buffer.
   */
  method EncodeThenDecode(length: uint32) returns (value: uint32, err: Option<Error>)
    ensures 1 <= length <= 2097151 ==> err == None && value == length
    ensures length >= 2097152 ==> err == Some(MalformedRemainingLength) && value == 0
    ensures length == 0 ==> err == Some(EOF) && value == 0
  {
    var p := new Packet();
    EncodeRemainingLength(p, length);
    assert p.Unread() == EncRL(length as nat) + [];
    if 1 <= length <= 2097151 {
      RoundTrip(length as nat, []);
    } else if length >= 2097152 {
      LargeLengthRejected(length as nat, []);
    } else {
      ZeroHasNoEncoding();
    }
    value, err := DecodeRemainingLength(p);
  }

  // ---------------------------------------------------------------------------
  // Whole packets

  /** The serialiser for packets without a payload: never called. */
  function NoPayload(v: Payload): Result<seq<byte>, Error>
  {
    Failure(GobFailure("no payload"))
  }

  /** A frame whose variable header is 2 bytes and which has no payload is 4 bytes: remaining length 2. */
  lemma TwoByteHeaderFrame(control: byte, vh: seq<byte>)
    requires |vh| == 2
    ensures Frame(control, vh, []) == [control, 0x02] + vh
  {
    assert ToUint32(2) == 2;
    assert EncRL(2) == [0x02];
  }

  /** A PUBACK for identifier `id`, initialised and encoded: 0x40, remaining length 2, the identifier field. */
  method PubackFrame(id: uint16) returns (frame: seq<byte>)
    ensures frame == [0x40, 0x02] + PairBytes(id)
  {
    var p := new Packet();
    p.InitPublishAck(PublishAckProperties(id));
    TwoByteResult(PtypePuback, PflagsPuback, PubackProps(PublishAckProperties(id)));
    var err := p.Encode(NoPayload);
    frame := p.data;
  }

  /** A PUBREL for identifier `id`: its first byte carries the reserved flags 0x02. */
  method PubrelFrame(id: uint16) returns (frame: seq<byte>)
    ensures frame == [0x62, 0x02] + PairBytes(id)
  {
    var p := new Packet();
    p.InitPublishRel(PublishRelProperties(id));
    TwoByteResult(PtypePubrel, PflagsPubrel, PubrelProps(PublishRelProperties(id)));
    var err := p.Encode(NoPayload);
    frame := p.data;
  }

  /** A CONNACK: 0x20, remaining length 2, the session-present byte and the return code's low byte. */
  method ConnackFrame(sessionPresent: bool, returnCode: int) returns (frame: seq<byte>)
    ensures |frame| == 4 && frame[..2] == [0x20, 0x02]
    ensures frame[2] == 1 <==> sessionPresent
    ensures frame[3] == ToByte(returnCode)
  {
    var h := ConnectAckProperties(sessionPresent, returnCode);
    var p := new Packet();
    p.InitConnectAck(h);
    TwoByteResult(PtypeConnack, PflagsConnack, ConnackProps(h));
    var err := p.Encode(NoPayload);
    frame := p.data;
    assert frame == [0x20, 0x02] + h.Encode();
    ConnackBytes(h);
  }

  lemma ConnackBytes(h: ConnectAckProperties)
    ensures var f := [0x20, 0x02] + h.Encode();
      && |f| == 4 && f[..2] == [0x20, 0x02]
      && (f[2] == 1 <==> h.sessionPresent)
      && f[3] == ToByte(h.returnCode)
  {
  }

  /** A packet without payload whose variable header is 2 bytes encodes to `ptype | pflags`, 0x02 and that header. */
  lemma TwoByteResult(ptype: byte, pflags: byte, properties: Properties)
    requires pflags < 16 && ptype == PType(properties.Type())
    requires |properties.Encode()| == 2
    ensures EncodeResult(ptype, pflags, properties, None, NoPayload)
      == Success([ptype + pflags, 0x02] + properties.Encode())
  {
    EncodeSucceeds(ptype, pflags, properties, None, NoPayload, []);
    ControlByte(properties.Type(), pflags);
    TwoByteHeaderFrame(Or(ptype, pflags), properties.Encode());
  }

  /**
   * Encoding an initialised packet fails exactly when it has a payload that
   * the serialiser refuses. Otherwise the frame has at least 4 bytes, and
   * its first byte names the type of the variable header and carries the
   * packet's flags in the low nibble (for a PUBLISH, given one of the three
   * QoS constants).
   */
  lemma EncodedFirstByte(ptype: byte, pflags: byte, properties: Properties, payload: Option<Payload>, gob: Serializer)
    requires InitializedFor(ptype, pflags, properties)
    requires properties.PublishProps? ==> IsQoSConstant(properties.publish.qosLevel)
    ensures var r := EncodeResult(ptype, pflags, properties, payload, gob);
      && (r.Failure? <==> payload.Some? && gob(payload.value).Failure?)
      && (r.Success? ==>
            && |r.value| >= 4
            && TypeOf(r.value[0]) == Some(properties.Type())
            && r.value[0] % 16 == pflags)
  {
    InitializedControlByte(ptype, pflags, properties);
    var c := Or(ptype, pflags);
    ControlByte(properties.Type(), pflags);
    var r := EncodeResult(ptype, pflags, properties, payload, gob);
    if r.Success? {
      var vh := properties.Encode();
      var pl := if payload.None? then [] else gob(payload.value).value;
      EncodeSucceeds(ptype, pflags, properties, payload, gob, pl);
      FrameLength(c, vh, pl);
    }
  }

  /** A frame is its first byte, at least one length byte, the variable header and the payload. */
  lemma FrameLength(control: byte, vh: seq<byte>, pl: seq<byte>)
    requires |vh| >= 2
    ensures Frame(control, vh, pl)[0] == control && |Frame(control, vh, pl)| >= 4
  {
  }
}
