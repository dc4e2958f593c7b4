/**
 * The variable headers ("properties") of CONNECT, CONNACK, PUBLISH, PUBACK,
 * PUBREC and PUBREL, and the CONNECT payload, each with the Encode method of
 * the Encodeable interface. Every Encode is straight-line code that appends
 * to a local buffer, so each is a function from the record to its bytes.
 *
 * None of these Encode methods ever sets its `err` result, so encoding a
 * record never fails and the functions return plain byte sequences.
 *
 * Wherever a 2-byte length or identifier is written, the source writes
 * `x & 0xF0` then `x & 0x0F` (PairBytes), not the big-endian high and low
 * bytes of section 1.5.2 of MQTT 3.1.1; the lemmas below state what that
 * keeps of `x` and what it loses.
 */
module Properties {
  import opened Common
  import opened FixedHeader

  // ---------------------------------------------------------------------------
  // Two-byte fields

  /** A 2-byte field as the source writes it: `[x & 0xF0, x & 0x0F]`. */
  function PairBytes(x: uint16): (r: seq<byte>)
    ensures |r| == 2 && r[0] % 16 == 0 && r[1] < 16
    ensures r[0] as int + r[1] as int == x as int % 0x100
  {
    [MaskF0(x), Mask0F(x)]
  }

  /** A 2-byte field as section 1.5.2 of MQTT 3.1.1 writes it: high byte, then low byte. */
  function BigEndian(x: uint16): (r: seq<byte>)
    ensures |r| == 2 && r[0] as int * 0x100 + r[1] as int == x as int
  {
    [(x as int / 0x100) as byte, (x as int % 0x100) as byte]
  }

  /** Two values get the same 2-byte field exactly when their low bytes agree: bits 15-8 are lost. */
  lemma PairBytesCollide(x: uint16, y: uint16)
    ensures PairBytes(x) == PairBytes(y) <==> x % 0x100 == y % 0x100
  {
    if x % 0x100 == y % 0x100 {
      assert (x as int / 0x10) % 0x10 == ((x as int % 0x100) / 0x10);
      assert (y as int / 0x10) % 0x10 == ((y as int % 0x100) / 0x10);
    }
  }

  /** Identifiers 0x0100 and 0x0000 are written identically, as [0x00, 0x00]. */
  lemma PairBytesIdCollision()
    ensures PairBytes(0x0100) == PairBytes(0x0000) == [0x00, 0x00]
  {
    PairBytesCollide(0x0100, 0x0000);
  }

  /** The source's 2-byte field agrees with the big-endian one only for values below 16. */
  lemma PairBytesVersusBigEndian(x: uint16)
    ensures PairBytes(x) == BigEndian(x) <==> x < 16
  {
    if x < 16 {
      assert PairBytes(x) == [0, x as byte];
    }
  }

  /** Go's `uint16(len(b))` followed by the 2-byte field: the length prefix of a string field. */
  function LengthPrefix(b: seq<byte>): (r: seq<byte>)
    ensures |r| == 2
  {
    PairBytes(ToUint16(|b|))
  }

  // ---------------------------------------------------------------------------
  // CONNECT variable header (section 3.1.2)

  /** The CONNECT flag byte laid out from six bits: bit k of the sum is the bit placed there. */
  lemma FlagBits(c: int, w: int, q: int, r: int, pw: int, u: int)
    requires 0 <= c <= 1 && 0 <= w <= 1 && 0 <= q <= 1 && 0 <= r <= 1 && 0 <= pw <= 1 && 0 <= u <= 1
    ensures var f := 2 * c + 4 * w + 8 * q + 32 * r + 64 * pw + 128 * u;
      && 0 <= f < 0x100
      && !HasBit(f, 0x01) && !HasBit(f, 0x10)
      && (HasBit(f, 0x02) <==> c == 1) && (HasBit(f, 0x04) <==> w == 1) && (HasBit(f, 0x08) <==> q == 1)
      && (HasBit(f, 0x20) <==> r == 1) && (HasBit(f, 0x40) <==> pw == 1) && (HasBit(f, 0x80) <==> u == 1)
  {
    var f := 2 * c + 4 * w + 8 * q + 32 * r + 64 * pw + 128 * u;
    assert (f / 0x01) % 2 == 0 by { BitAt(f, 0, 0, c + 2 * w + 4 * q + 16 * r + 32 * pw + 64 * u, 0x01); }
    assert (f / 0x02) % 2 == c by { BitAt(f, 0, c, w + 2 * q + 8 * r + 16 * pw + 32 * u, 0x02); }
    assert (f / 0x04) % 2 == w by { BitAt(f, 2 * c, w, q + 4 * r + 8 * pw + 16 * u, 0x04); }
    assert (f / 0x08) % 2 == q by { BitAt(f, 2 * c + 4 * w, q, 2 * r + 4 * pw + 8 * u, 0x08); }
    assert (f / 0x10) % 2 == 0 by { BitAt(f, 2 * c + 4 * w + 8 * q, 0, r + 2 * pw + 4 * u, 0x10); }
    assert (f / 0x20) % 2 == r by { BitAt(f, 2 * c + 4 * w + 8 * q, r, pw + 2 * u, 0x20); }
    assert (f / 0x40) % 2 == pw by { BitAt(f, 2 * c + 4 * w + 8 * q + 32 * r, pw, u, 0x40); }
    assert (f / 0x80) % 2 == u by { BitAt(f, 2 * c + 4 * w + 8 * q + 32 * r + 64 * pw, u, 0, 0x80); }
  }

  /** 1 for true, 0 for false: the bit a flag sets. */
  function Bit(b: bool): (r: int)
    ensures 0 <= r <= 1 && (r == 1 <==> b)
  {
    if b then 1 else 0
  }

  datatype ConnectProperties = ConnectProperties(
    protocolName: seq<byte>,
    protocolLevel: int,
    cleanSession: bool,
    willFlag: bool,
    willQoS: bool,
    willRetain: bool,
    userName: bool,
    password: bool,
    keepAlive: uint16)
  {
    /**
     * The connect-flags byte. The source ORs 0x02, 0x04, 0x08, 0x20, 0x40
     * and 0x80 into a zero byte; the masks are distinct bits, so that is
     * their sum. Bit 0 (reserved) stays clear, and so does bit 4: WillQoS is
     * a single boolean, so a will QoS of 2 cannot be expressed.
     */
    function Flags(): (f: byte)
      ensures !HasBit(f as int, 0x01) && !HasBit(f as int, 0x10)
      ensures HasBit(f as int, 0x02) == cleanSession
      ensures HasBit(f as int, 0x04) == willFlag
      ensures HasBit(f as int, 0x08) == willQoS
      ensures HasBit(f as int, 0x20) == willRetain
      ensures HasBit(f as int, 0x40) == password
      ensures HasBit(f as int, 0x80) == userName
    {
      var c, w, q, r, pw, u := Bit(cleanSession), Bit(willFlag), Bit(willQoS), Bit(willRetain), Bit(password), Bit(userName);
      FlagBits(c, w, q, r, pw, u);
      (2 * c + 4 * w + 8 * q + 32 * r + 64 * pw + 128 * u) as byte
    }

    /**
     * The CONNECT variable header: a 1-byte length (`byte(len(name))`, the
     * low 8 bits) where section 1.5.3 asks for 2 bytes, the name, the level,
     * the flags and the keep-alive as a 2-byte field.
     */
    function Encode(): (r: seq<byte>)
      ensures |r| == |protocolName| + 5
      ensures r[0] == ToByte(|protocolName|)
      ensures r[1..|protocolName| + 1] == protocolName
      ensures r[|protocolName| + 1] == ToByte(protocolLevel)
      ensures r[|protocolName| + 2] == Flags()
      ensures r[|protocolName| + 3..] == PairBytes(keepAlive)
    {
      [ToByte(|protocolName|)] + protocolName + [ToByte(protocolLevel), Flags()] + PairBytes(keepAlive)
    }
  }

  /** What a reader following the source's CONNECT layout can take back from its bytes. */
  datatype ConnectHeaderView = ConnectHeaderView(protocolName: seq<byte>, protocolLevel: byte, flags: byte, keepAlive: uint16)

  /** Reads the CONNECT layout written by ConnectProperties.Encode: length byte, name, level, flags, 2-byte field. */
  function ReadConnectHeader(r: seq<byte>): (v: Option<ConnectHeaderView>)
    ensures v.Some? ==> |r| > 0 && |r| == r[0] as int + 5 && |v.value.protocolName| == r[0] as int
  {
    if |r| == 0 || |r| != r[0] as int + 5 then None
    else
      var n := r[0] as int;
      Some(ConnectHeaderView(r[1..n + 1], r[n + 1], r[n + 2], (r[n + 3] as int + r[n + 4] as int) as uint16))
  }

  /**
   * For protocol names under 256 bytes the CONNECT header reads back with
   * its name, its level modulo 256, its flags and the low byte of its
   * keep-alive; the high byte of the keep-alive is lost.
   */
  lemma ConnectHeaderRoundTrip(h: ConnectProperties)
    requires |h.protocolName| < 0x100
    ensures ReadConnectHeader(h.Encode()) ==
      Some(ConnectHeaderView(h.protocolName, ToByte(h.protocolLevel), h.Flags(), h.keepAlive % 0x100))
  {
    var r := h.Encode();
    var n := |h.protocolName|;
    assert r[0] as int == n;
    assert r[n + 3..] == PairBytes(h.keepAlive);
    assert r[n + 3] == PairBytes(h.keepAlive)[0] && r[n + 4] == PairBytes(h.keepAlive)[1];
  }

  /**
   * A protocol name of 256 bytes or more gets its length modulo 256 in the
   * 1-byte prefix (0 for exactly 256 bytes), so no reader of this layout can
   * find where the name ends.
   */
  lemma ConnectNameLengthWraps(h: ConnectProperties)
    requires |h.protocolName| >= 0x100
    ensures h.Encode()[0] as int == |h.protocolName| % 0x100
    ensures |h.protocolName| == 0x100 ==> h.Encode()[0] == 0
    ensures ReadConnectHeader(h.Encode()).None?
  {
  }

  // ---------------------------------------------------------------------------
  // CONNECT payload (section 3.1.3)

  datatype ConnectPayload = ConnectPayload(
    identifier: seq<byte>,
    willTopic: seq<byte>,
    willMessage: seq<byte>,
    userName: seq<byte>,
    password: seq<byte>)
  {
    /**
     * As written: the fields are written to a local buffer, but the method
     * returns its named result `buf`, which is never assigned, so the result
     * is always empty.
     */
    function Encode(): (r: seq<byte>)
      ensures |r| == 0
    {
      []
    }

    /**
     * The bytes of the local buffer, which the method evidently meant to
     * return: each of the five fields after its 2-byte length.
     */
    function EncodeIntended(): (r: seq<byte>)
      ensures |r| == 10 + |identifier| + |willTopic| + |willMessage| + |userName| + |password|
    {
      Field(identifier) + Field(willTopic) + Field(willMessage) + Field(userName) + Field(password)
    }
  }

  /** A length-prefixed field: `uint16(len(b))` as a 2-byte field, then `b`. */
  function Field(b: seq<byte>): (r: seq<byte>)
    ensures |r| == |b| + 2 && r[2..] == b
    ensures r[0] % 16 == 0 && r[1] < 16 && r[0] as int + r[1] as int == |b| % 0x100
  {
    ToUint16LowByte(|b|);
    LengthPrefix(b) + b
  }

  /**
   * Reads one length-prefixed field as the source lays it out: the two
   * prefix bytes add up to the field's length. Returns the field and what
   * follows it.
   */
  function ReadField(s: seq<byte>): (r: Option<(seq<byte>, seq<byte>)>)
    ensures r.Some? ==> |r.value.0| + |r.value.1| + 2 == |s|
  {
    if |s| < 2 then None
    else
      var n := s[0] as int + s[1] as int;
      if |s| < 2 + n then None else Some((s[2..2 + n], s[2 + n..]))
  }

  /** A field shorter than 256 bytes reads back, followed by whatever came after it. */
  lemma ReadFieldRoundTrip(b: seq<byte>, rest: seq<byte>)
    requires |b| < 0x100
    ensures ReadField(Field(b) + rest) == Some((b, rest))
  {
    var s := Field(b) + rest;
    assert s[0] as int + s[1] as int == |b|;
    assert s[2..2 + |b|] == b && s[2 + |b|..] == rest;
  }

  /** A field of 256 bytes or more has a prefix that no longer says its length. */
  lemma LongFieldMisread(b: seq<byte>)
    requires 0x100 <= |b| < 0x1_0000
    ensures var p := Field(b); p[0] as int + p[1] as int != |b|
  {
  }

  /** Reads the five fields of a CONNECT payload in order, as EncodeIntended lays them out. */
  function ReadConnectPayload(s: seq<byte>): (r: Option<ConnectPayload>)
  {
    match ReadField(s)
    case None => None
    case Some((identifier, s1)) =>
      match ReadField(s1)
      case None => None
      case Some((willTopic, s2)) =>
        match ReadField(s2)
        case None => None
        case Some((willMessage, s3)) =>
          match ReadField(s3)
          case None => None
          case Some((userName, s4)) =>
            match ReadField(s4)
            case None => None
            case Some((password, s5)) =>
              if s5 == [] then Some(ConnectPayload(identifier, willTopic, willMessage, userName, password))
              else None
  }

  /** The intended CONNECT payload reads back field for field when every field is shorter than 256 bytes. */
  lemma ConnectPayloadRoundTrip(p: ConnectPayload)
    requires |p.identifier| < 0x100 && |p.willTopic| < 0x100 && |p.willMessage| < 0x100
    requires |p.userName| < 0x100 && |p.password| < 0x100
    ensures ReadConnectPayload(p.EncodeIntended()) == Some(p)
  {
    var e := Field(p.password);
    var d := Field(p.userName) + e;
    var c := Field(p.willMessage) + d;
    var b := Field(p.willTopic) + c;
    assert p.EncodeIntended() == Field(p.identifier) + b;
    ReadFieldRoundTrip(p.identifier, b);
    ReadFieldRoundTrip(p.willTopic, c);
    ReadFieldRoundTrip(p.willMessage, d);
    ReadFieldRoundTrip(p.userName, e);
    ReadFieldRoundTrip(p.password, []);
    assert e + [] == e;
  }

  /**
   * The CONNECT payload encoder as written loses every payload: its result
   * is empty, unlike the at least 10 bytes of the buffer it discards, and
   * reads back as no payload at all. ConnectPayloadRoundTrip is the intended
   * half: the discarded buffer reads back as the payload.
   */
  lemma ConnectPayloadEncodeLosesFields(p: ConnectPayload)
    ensures p.Encode() == [] && |p.EncodeIntended()| >= 10
    ensures p.Encode() != p.EncodeIntended()
    ensures ReadConnectPayload(p.Encode()) == None
  {
  }

  // ---------------------------------------------------------------------------
  // CONNACK variable header (section 3.2.2)

  datatype ConnectAckProperties = ConnectAckProperties(sessionPresent: bool, returnCode: int)
  {
    /** The acknowledge flags (bit 0 is session-present, bits 7-1 zero) and `byte(ReturnCode)`. */
    function Encode(): (r: seq<byte>)
      ensures |r| == 2 && r[0] < 2
      ensures r[0] == 1 <==> sessionPresent
      ensures r[1] == ToByte(returnCode)
      ensures 0 <= returnCode < 0x100 ==> r[1] as int == returnCode
    {
      [if sessionPresent then 0x01 else 0x00, ToByte(returnCode)]
    }
  }

  // ---------------------------------------------------------------------------
  // PUBLISH variable header (section 3.3.2)

  datatype PublishProperties = PublishProperties(
    dupFlag: bool,
    qosLevel: QoSLevel,
    retain: bool,
    topicName: seq<byte>,
    packetID: uint16)
  {
    /**
     * The PUBLISH variable header as written: the topic's length prefix,
     * without the topic bytes, then the packet identifier, whatever the QoS
     * level. Always 4 bytes.
     */
    function Encode(): (r: seq<byte>)
      ensures |r| == 4
      ensures r[..2] == LengthPrefix(topicName) && r[2..] == PairBytes(packetID)
    {
      LengthPrefix(topicName) + PairBytes(packetID)
    }
  }

  /**
   * The PUBLISH header depends only on the topic's length and on the packet
   * identifier: the topic bytes are never written, and the identifier is
   * written even at QoS 0 (section 3.3.2.2 writes it only at QoS 1 and 2).
   */
  lemma PublishHeaderIgnoresTopicAndQoS(h1: PublishProperties, h2: PublishProperties)
    requires |h1.topicName| == |h2.topicName| && h1.packetID == h2.packetID
    ensures h1.Encode() == h2.Encode()
  {
  }

  // ---------------------------------------------------------------------------
  // PUBACK, PUBREC and PUBREL variable headers (sections 3.4.2, 3.5.2, 3.6.2)

  datatype PublishAckProperties = PublishAckProperties(packetID: uint16)
  {
    /** The packet identifier as a 2-byte field. */
    function Encode(): (r: seq<byte>)
      ensures |r| == 2 && r[0] % 16 == 0 && r[1] < 16
      ensures r[0] as int + r[1] as int == packetID as int % 0x100
    {
      PairBytes(packetID)
    }
  }

  datatype PublishRecProperties = PublishRecProperties(packetID: uint16)
  {
    /** The packet identifier as a 2-byte field. */
    function Encode(): (r: seq<byte>)
      ensures |r| == 2 && r[0] % 16 == 0 && r[1] < 16
      ensures r[0] as int + r[1] as int == packetID as int % 0x100
    {
      PairBytes(packetID)
    }
  }

  datatype PublishRelProperties = PublishRelProperties(packetID: uint16)
  {
    /** The packet identifier as a 2-byte field. */
    function Encode(): (r: seq<byte>)
      ensures |r| == 2 && r[0] % 16 == 0 && r[1] < 16
      ensures r[0] as int + r[1] as int == packetID as int % 0x100
    {
      PairBytes(packetID)
    }
  }

  /**
   * The acknowledgement headers tell identifiers apart only by their low
   * byte: PUBACK, PUBREC and PUBREL for identifiers x and y are the same
   * bytes exactly when x and y agree modulo 256.
   */
  lemma AckIdentifiersCollide(x: uint16, y: uint16)
    ensures PublishAckProperties(x).Encode() == PublishAckProperties(y).Encode() <==> x % 0x100 == y % 0x100
    ensures PublishRecProperties(x).Encode() == PublishRecProperties(y).Encode() <==> x % 0x100 == y % 0x100
    ensures PublishRelProperties(x).Encode() == PublishRelProperties(y).Encode() <==> x % 0x100 == y % 0x100
  {
    PairBytesCollide(x, y);
  }

  // ---------------------------------------------------------------------------
  // The Encodeable properties a packet can carry

  /** The closed set of variable headers the init* setters install, in place of the Encodeable interface. */
  datatype Properties =
    | ConnectProps(connect: ConnectProperties)
    | ConnackProps(connack: ConnectAckProperties)
    | PublishProps(publish: PublishProperties)
    | PubackProps(puback: PublishAckProperties)
    | PubrecProps(pubrec: PublishRecProperties)
    | PubrelProps(pubrel: PublishRelProperties)
  {
    /** The interface call `properties.Encode()`: never empty, at least 2 bytes. */
    function Encode(): (r: seq<byte>)
      ensures |r| >= 2
    {
      match this
      case ConnectProps(h) => h.Encode()
      case ConnackProps(h) => h.Encode()
      case PublishProps(h) => h.Encode()
      case PubackProps(h) => h.Encode()
      case PubrecProps(h) => h.Encode()
      case PubrelProps(h) => h.Encode()
    }

    /** The control type whose variable header this is. */
    function Type(): ControlType
    {
      match this
      case ConnectProps(_) => Connect
      case ConnackProps(_) => Connack
      case PublishProps(_) => Publish
      case PubackProps(_) => Puback
      case PubrecProps(_) => Pubrec
      case PubrelProps(_) => Pubrel
    }
  }
}
