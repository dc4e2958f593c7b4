/**
 * The first byte of every control packet (sections 2.2.1 and 2.2.2 of MQTT
 * 3.1.1): the packet type in bits 7-4, OR-ed with the type's flags in bits 3-0.
 * The type and flag values are the package's constants; the flags of PUBLISH
 * are computed from DUP, the QoS level and RETAIN.
 */
module FixedHeader {
  import opened Common

  /** The fourteen control packet types. */
  datatype ControlType =
    | Connect | Connack | Publish | Puback | Pubrec | Pubrel | Pubcomp
    | Subscribe | Suback | Unsubscribe | Unsuback | Pingreq | Pingresp | Disconnect

  const PtypeConnect: byte := 0x10
  const PtypeConnack: byte := 0x20
  const PtypePublish: byte := 0x30
  const PtypePuback: byte := 0x40
  const PtypePubrec: byte := 0x50
  const PtypePubrel: byte := 0x60
  const PtypePubcomp: byte := 0x70
  const PtypeSubscribe: byte := 0x80
  const PtypeSuback: byte := 0x90
  const PtypeUnsubscribe: byte := 0xA0
  const PtypeUnsuback: byte := 0xB0
  const PtypePingreq: byte := 0xC0
  const PtypePingresp: byte := 0xD0
  const PtypeDisconnect: byte := 0xE0

  const PflagsConnect: byte := 0x00
  const PflagsConnack: byte := 0x00
  const PflagsPuback: byte := 0x00
  const PflagsPubrec: byte := 0x00
  const PflagsPubrel: byte := 0x02
  const PflagsPubcomp: byte := 0x00
  const PflagsSubscribe: byte := 0x02
  const PflagsSuback: byte := 0x00
  const PflagsUnsubscribe: byte := 0x02
  const PflagsUnsuback: byte := 0x00
  const PflagsPingreq: byte := 0x00
  const PflagsPingresp: byte := 0x00
  const PflagsDisconnect: byte := 0x00

  /** The `ptype` constant of each control type. */
  function PType(t: ControlType): byte
  {
    match t
    case Connect => PtypeConnect
    case Connack => PtypeConnack
    case Publish => PtypePublish
    case Puback => PtypePuback
    case Pubrec => PtypePubrec
    case Pubrel => PtypePubrel
    case Pubcomp => PtypePubcomp
    case Subscribe => PtypeSubscribe
    case Suback => PtypeSuback
    case Unsubscribe => PtypeUnsubscribe
    case Unsuback => PtypeUnsuback
    case Pingreq => PtypePingreq
    case Pingresp => PtypePingresp
    case Disconnect => PtypeDisconnect
  }

  /** The fixed `pflags` constant of each control type but PUBLISH, whose flags are computed. */
  function PFlags(t: ControlType): byte
    requires t != Publish
  {
    match t
    case Connect => PflagsConnect
    case Connack => PflagsConnack
    case Puback => PflagsPuback
    case Pubrec => PflagsPubrec
    case Pubrel => PflagsPubrel
    case Pubcomp => PflagsPubcomp
    case Subscribe => PflagsSubscribe
    case Suback => PflagsSuback
    case Unsubscribe => PflagsUnsubscribe
    case Unsuback => PflagsUnsuback
    case Pingreq => PflagsPingreq
    case Pingresp => PflagsPingresp
    case Disconnect => PflagsDisconnect
  }

  /**
   * The control type a first byte announces in its high nibble; the values 0
   * and 15 name no type. This is the reading a receiver applies to the byte.
   */
  function TypeOf(b: byte): (r: Option<ControlType>)
    ensures r.Some? ==> PType(r.value) as int == b as int / 16 * 16
    ensures r.None? <==> b < 0x10 || b >= 0xF0
  {
    match b / 16
    case 1 => Some(Connect)
    case 2 => Some(Connack)
    case 3 => Some(Publish)
    case 4 => Some(Puback)
    case 5 => Some(Pubrec)
    case 6 => Some(Pubrel)
    case 7 => Some(Pubcomp)
    case 8 => Some(Subscribe)
    case 9 => Some(Suback)
    case 10 => Some(Unsubscribe)
    case 11 => Some(Unsuback)
    case 12 => Some(Pingreq)
    case 13 => Some(Pingresp)
    case 14 => Some(Disconnect)
    case _ => None
  }

  /** Every `ptype` constant has a zero low nibble and a high nibble in 1..14 that names its type. */
  lemma PTypeNibbles(t: ControlType)
    ensures PType(t) % 16 == 0 && 1 <= PType(t) / 16 <= 14
    ensures TypeOf(PType(t)) == Some(t)
  {
  }

  /** The `ptype` constants are pairwise distinct. */
  lemma PTypeInjective(t: ControlType, u: ControlType)
    ensures PType(t) == PType(u) <==> t == u
  {
    PTypeNibbles(t);
    PTypeNibbles(u);
  }

  /**
   * Every fixed `pflags` constant fits the low nibble; it is 0x02 for PUBREL,
   * SUBSCRIBE and UNSUBSCRIBE (the reserved values of section 2.2.2) and 0x00
   * for the rest.
   */
  lemma PFlagsValues(t: ControlType)
    requires t != Publish
    ensures PFlags(t) < 16
    ensures PFlags(t) == 0x02 <==> t in {Pubrel, Subscribe, Unsubscribe}
    ensures PFlags(t) == 0x00 <==> t !in {Pubrel, Subscribe, Unsubscribe}
  {
  }

  /** The first byte `ptype | pflags`: for flags below 16, its high nibble gives back the type and its low nibble the flags. */
  lemma ControlByte(t: ControlType, flags: byte)
    requires flags < 16
    ensures Or(PType(t), flags) == PType(t) + flags
    ensures TypeOf(Or(PType(t), flags)) == Some(t)
    ensures Or(PType(t), flags) % 16 == flags
  {
    PTypeNibbles(t);
    var p := PType(t);
    LowNibbleZero(p as nat);
    assert Pow2(4) == 16;
    OrDisjoint(flags, p, 4);
    OrCommutes(p, flags);
    ControlSum(t, flags);
  }

  lemma ControlSum(t: ControlType, flags: byte)
    requires flags < 16
    ensures PType(t) as int + flags as int < 0x100
    ensures TypeOf(PType(t) + flags) == Some(t) && (PType(t) + flags) % 16 == flags
  {
    PTypeNibbles(t);
    var b := PType(t) + flags;
    assert b as int / 16 * 16 == PType(t) as int;
    var r := TypeOf(b);
    PTypeInjective(r.value, t);
  }

  /** Go's `type QoSLevel byte`: any byte, of which three are named. */
  type QoSLevel = byte

  /** The QoS constants, already shifted into bits 2-1 of the PUBLISH flags. */
  const QoSAtMostOnce: QoSLevel := 0x00
  const QoSAtLeastOnce: QoSLevel := 0x02
  const QoSExactlyOnce: QoSLevel := 0x04

  predicate IsQoSConstant(q: QoSLevel)
  {
    q == QoSAtMostOnce || q == QoSAtLeastOnce || q == QoSExactlyOnce
  }

  /** The PUBLISH flags initPublish computes: `(Dup ? 0x08) | QoSLevel | (Retain ? 0x01)`. */
  function PublishFlags(dup: bool, qos: QoSLevel, retain: bool): byte
  {
    Or(Or(if dup then 0x08 else 0x00, qos), if retain then 0x01 else 0x00)
  }

  /**
   * For the three QoS constants the PUBLISH flags fit the low nibble; bit 3 is
   * DUP, bit 0 is RETAIN, bits 2-1 are the QoS level and are never 0b11.
   */
  lemma PublishFlagsFields(dup: bool, qos: QoSLevel, retain: bool)
    requires IsQoSConstant(qos)
    ensures var f := PublishFlags(dup, qos, retain);
      && f < 16
      && HasBit(f as int, 0x08) == dup
      && HasBit(f as int, 0x01) == retain
      && (f as int / 2) % 4 == qos as int / 2
      && (f as int / 2) % 4 != 3
  {
    PublishFlagsIsSum(dup, qos, retain);
    PublishFlagsSum(dup, qos, retain);
  }

  /** For the QoS constants the three ORs of PublishFlags touch disjoint bits, so they add. */
  lemma PublishFlagsIsSum(dup: bool, qos: QoSLevel, retain: bool)
    requires IsQoSConstant(qos)
    ensures PublishFlags(dup, qos, retain) as int == (if dup then 8 else 0) + qos as int + (if retain then 1 else 0)
  {
    var d: byte := if dup then 0x08 else 0x00;
    DupQoSOr(d, qos);
    assert Or(d, qos) == d + qos;
    RetainOr(d + qos);
    if retain {
      assert PublishFlags(dup, qos, retain) == Or(d + qos, 0x01);
    } else {
      assert PublishFlags(dup, qos, retain) == Or(d + qos, 0x00);
    }
  }

  /** DUP (bit 3) and a QoS constant (bits 2-1) do not overlap. */
  lemma DupQoSOr(d: byte, qos: QoSLevel)
    requires d == 0x08 || d == 0x00
    requires IsQoSConstant(qos)
    ensures Or(d, qos) as int == d as int + qos as int && (d + qos) % 2 == 0
  {
    assert Pow2(3) == 8;
    assert LowZero(d as nat, 3);
    OrDisjoint(qos, d, 3);
    OrCommutes(d, qos);
  }

  /** RETAIN (bit 0) does not overlap an even byte. */
  lemma RetainOr(x: byte)
    requires x % 2 == 0
    ensures Or(x, 0x01) as int == x as int + 1 && Or(x, 0x00) == x
  {
    assert Pow2(1) == 2;
    assert LowZero(x as nat, 1);
    OrDisjoint(0x01, x, 1);
    OrCommutes(x, 0x01);
    OrZero(x);
  }

  /** The fields of the sum `(Dup ? 8) + QoSLevel + (Retain ? 1)`, which is what the ORs of PublishFlags compute. */
  lemma PublishFlagsSum(dup: bool, qos: QoSLevel, retain: bool)
    requires IsQoSConstant(qos)
    ensures var f := (if dup then 8 else 0) + qos as int + (if retain then 1 else 0);
      && f < 16
      && HasBit(f, 0x08) == dup
      && HasBit(f, 0x01) == retain
      && (f / 2) % 4 == qos as int / 2
      && (f / 2) % 4 != 3
  {
  }

  /**
   * QoSLevel is an unrestricted byte: a value outside the three constants
   * reaches the type nibble of the first byte. QoS 0x40 turns a PUBLISH into
   * what a receiver reads as PUBCOMP.
   */
  lemma QoSOutsideConstantsLeaksIntoType()
    ensures TypeOf(Or(PtypePublish, PublishFlags(false, 0x40, false))) == Some(Pubcomp)
  {
    OrZero(0x40);
    assert PublishFlags(false, 0x40, false) == 0x40;
    PublishOr40();
  }

  lemma PublishOr40()
    ensures Or(PtypePublish, 0x40) == 0x70
  {
    assert Pow2(6) == 64 && LowZero(0x40, 6);
    OrDisjoint(0x30, 0x40, 6);
  }
}
