// The builders that lay out the fixed-size parts of each packet in the
// encode buffer: fixed headers, the CONNECT variable header, packet
// identifiers and requested QoS bytes (src/lmqtt_packet.c). Each is
// modelled as the sequence of bytes it leaves in the buffer.

module Builders {
  import opened Base
  import opened PacketTypes
  import opened RemainingLength
  import opened Validate
  import FixedHeader

  /** Bit k (0 = least significant) of a byte; ResultFlags.Bit is the same
      test on the 32-bit result word. */
  predicate ByteBit(b: byte, k: nat)
    requires k < 8
  {
    (b / [1, 2, 4, 8, 16, 32, 64, 128][k]) % 2 == 1
  }

  /** connect_build_fixed_header */
  function ConnectFixedHeader(c: Connect): (r: seq<byte>)
    requires ConnectValidate(c)
    ensures 2 <= |r| <= 5 && r[0] / 16 == TYPE_CONNECT && FixedHeader.LegalFirstByte(r[0])
    ensures r[1..] == Encoding(ConnectRemainingLength(c))
  {
    [TYPE_CONNECT * 16] + Encoding(ConnectRemainingLength(c))
  }

  /** The connect flags byte of connect_build_variable_header: will QoS
      shifted to bits 4-3, then clean session (0x02), will flag (0x04),
      will retain (0x20), password (0x40) and user name (0x80). The bits
      are disjoint, so or-ing them is adding them. */
  function ConnectFlags(c: Connect): byte
    requires IsValidQos(c.willQos)
  {
    c.willQos * 8
      + (if c.cleanSession then 0x02 else 0)
      + (if c.willTopic.len > 0 then 0x04 else 0)
      + (if c.willRetain then 0x20 else 0)
      + (if c.password.len > 0 then 0x40 else 0)
      + (if c.userName.len > 0 then 0x80 else 0)
  }

  /** The connect flags of a valid connect say what the connect carries,
      bit by bit as section 3.1.2.3 of MQTT 3.1.1 lays them out, keep the
      reserved bit clear, and obey the standard's dependencies: no will
      retain without a will, no password without a user name. (A will QoS
      without a will is accepted, as lmqtt_connect_validate accepts it.) */
  lemma ConnectFlagsFields(c: Connect)
    requires ConnectValidate(c)
    ensures var f := ConnectFlags(c);
      && !ByteBit(f, 0)
      && (ByteBit(f, 1) <==> c.cleanSession)
      && (ByteBit(f, 2) <==> HasWill(c))
      && (f / 8) % 4 == c.willQos
      && (ByteBit(f, 5) <==> c.willRetain)
      && (ByteBit(f, 6) <==> c.password.len > 0)
      && (ByteBit(f, 7) <==> c.userName.len > 0)
      && (ByteBit(f, 5) ==> ByteBit(f, 2))
      && (ByteBit(f, 6) ==> ByteBit(f, 7))
  {
    var q := c.willQos;
    var cs := if c.cleanSession then 1 else 0;
    var w := if c.willTopic.len > 0 then 1 else 0;
    var r := if c.willRetain then 1 else 0;
    var p := if c.password.len > 0 then 1 else 0;
    var u := if c.userName.len > 0 then 1 else 0;
    assert ConnectFlags(c) == 128 * u + 64 * p + 32 * r + 8 * q + 4 * w + 2 * cs;
    FlagDigits(u, p, r, q, w, cs);
  }

  /** Reading the fields back out of a sum of disjoint bit fields. */
  lemma FlagDigits(u: int, p: int, r: int, q: int, w: int, cs: int)
    requires 0 <= u <= 1 && 0 <= p <= 1 && 0 <= r <= 1 && 0 <= q <= 2 && 0 <= w <= 1 && 0 <= cs <= 1
    ensures var f := 128 * u + 64 * p + 32 * r + 8 * q + 4 * w + 2 * cs;
      && f % 2 == 0 && (f / 2) % 2 == cs && (f / 4) % 2 == w && (f / 8) % 4 == q
      && (f / 32) % 2 == r && (f / 64) % 2 == p && (f / 128) % 2 == u
  {
    var f := 128 * u + 64 * p + 32 * r + 8 * q + 4 * w + 2 * cs;
    assert f / 2 == 64 * u + 32 * p + 16 * r + 4 * q + 2 * w + cs;
    assert f / 4 == 32 * u + 16 * p + 8 * r + 2 * q + w;
    assert f / 8 == 16 * u + 8 * p + 4 * r + q;
    assert f / 32 == 4 * u + 2 * p + r;
    assert f / 64 == 2 * u + p;
    assert f / 128 == u;
  }

  /** connect_build_variable_header: the protocol name "MQTT" with its
      length prefix, protocol level 4, the connect flags and the keep
      alive, most significant byte first (sections 3.1.2.1 to 3.1.2.10 of
      MQTT 3.1.1). */
  function ConnectVariableHeader(c: Connect): (r: seq<byte>)
    requires IsValidQos(c.willQos)
    ensures |r| == CONNECT_HEADER_SIZE
    ensures r[..2] == BigEndian16(4) && r[2..6] == ['M' as byte, 'Q' as byte, 'T' as byte, 'T' as byte]
    ensures r[6] == 4 && r[7] == ConnectFlags(c) && r[8..] == BigEndian16(c.keepAlive)
  {
    [0, 4, 'M' as byte, 'Q' as byte, 'T' as byte, 'T' as byte, 4, ConnectFlags(c)]
      + [c.keepAlive / 256, c.keepAlive % 256]
  }

  /** encode_buffer_encode_packet_id: a fixed header followed by a packet
      identifier. */
  function PacketIdHeader(firstByte: byte, remainingLength: int, packetId: u16): (r: seq<byte>)
    requires 0 <= remainingLength <= MAX_REMAINING_LENGTH
    ensures 4 <= |r| <= 7 && r[0] == firstByte
    ensures r[1..|r| - 2] == Encoding(remainingLength) && r[|r| - 2..] == BigEndian16(packetId)
  {
    [firstByte] + Encoding(remainingLength) + BigEndian16(packetId)
  }

  /** subscribe_build_header_subscribe and subscribe_build_header_unsubscribe.
      encode_remaining_length asserts the remaining length is in range. */
  function SubscribeHeader(s: Subscribe, includeQos: bool, packetId: u16): (r: seq<byte>)
    requires SubscribeIndexable(s) && 0 <= SubscribeRemainingLength(s, includeQos) <= MAX_REMAINING_LENGTH
    ensures 4 <= |r| <= 7
  {
    var t := if includeQos then TYPE_SUBSCRIBE else TYPE_UNSUBSCRIBE;
    PacketIdHeader(t * 16 + 2, SubscribeRemainingLength(s, includeQos), packetId)
  }

  /** The header of a SUBSCRIBE or UNSUBSCRIBE is a first byte of its type
      with the flags 0b0010 the protocol demands, then its remaining
      length and its packet identifier. */
  lemma SubscribeHeaderFields(s: Subscribe, includeQos: bool, packetId: u16)
    requires SubscribeIndexable(s) && 0 <= SubscribeRemainingLength(s, includeQos) <= MAX_REMAINING_LENGTH
    ensures var r := SubscribeHeader(s, includeQos, packetId);
      && r[0] / 16 == (if includeQos then TYPE_SUBSCRIBE else TYPE_UNSUBSCRIBE)
      && r[1..|r| - 2] == Encoding(SubscribeRemainingLength(s, includeQos)) && r[|r| - 2..] == BigEndian16(packetId)
      && FixedHeader.LegalFirstByte(r[0])
  {
  }

  /** subscribe_build_qos */
  function SubscribeQos(sub: Subscription): (r: seq<byte>)
    requires IsValidQos(sub.requestedQos)
    ensures |r| == 1 && r[0] == sub.requestedQos
  {
    [sub.requestedQos]
  }

  /** The first byte of publish_build_fixed_header, with the DUP bit set
      on every encoding after the first when `dup` says so. */
  function PublishFirstByte(p: Publish, dup: bool): byte
    requires IsValidQos(p.qos)
  {
    TYPE_PUBLISH * 16 + (if dup then 0x08 else 0) + p.qos * 2 + (if p.retain then 0x01 else 0)
  }

  /** publish_build_fixed_header as written: DUP is set whenever the
      publish was encoded before, whatever its QoS. */
  function PublishFixedHeaderAsWritten(p: Publish): (r: seq<byte>)
    requires PublishValidate(p)
    ensures |r| >= 2 && (r[0] / 8) % 2 == (if p.encodeCount > 0 then 1 else 0)
    ensures r[1..] == PublishFixedHeader(p)[1..]
    ensures p.qos > 0 || p.encodeCount == 0 ==> r == PublishFixedHeader(p)
  {
    [PublishFirstByte(p, p.encodeCount > 0)] + Encoding(PublishRemainingLength(p))
  }

  /** A QoS 0 publish queued again after being sent once is framed with
      DUP set, which section 3.3.1.1 of MQTT 3.1.1 forbids for QoS 0 and
      which lightmqtt's own fixed_header_decode rejects. */
  lemma ResentQos0PublishIsMalformed()
    ensures var p := Publish(0, false, LString(1, None, false, 0), LString(0, None, false, 0), 1);
      && PublishValidate(p)
      && !FixedHeader.LegalFirstByte(PublishFixedHeaderAsWritten(p)[0])
      && FixedHeader.Feed(FixedHeader.CLEARED, PublishFixedHeaderAsWritten(p)).1[0] == DecodeError
  {
  }

  /** publish_build_fixed_header, setting DUP only on a QoS 1 or 2
      publish that was encoded before (a re-delivery, section 3.3.1.1 of
      MQTT 3.1.1). */
  function PublishFixedHeader(p: Publish): (r: seq<byte>)
    requires PublishValidate(p)
    ensures 2 <= |r| <= 5 && r[1..] == Encoding(PublishRemainingLength(p))
    ensures FixedHeader.LegalFirstByte(r[0])
  {
    [PublishFirstByte(p, p.encodeCount > 0 && p.qos > 0)] + Encoding(PublishRemainingLength(p))
  }

  /** The fixed header of every valid publish decodes back to its QoS,
      retain flag, DUP flag and remaining length. */
  lemma PublishFixedHeaderRoundTrip(p: Publish)
    requires PublishValidate(p)
    ensures var f := FixedHeader.Feed(FixedHeader.CLEARED, PublishFixedHeader(p));
      && FixedHeader.Accepted(f.1)
      && f.0.ptype == TYPE_PUBLISH && f.0.qos == p.qos
      && f.0.retain == (if p.retain then 1 else 0)
      && f.0.dup == (if p.encodeCount > 0 && p.qos > 0 then 1 else 0)
      && f.0.remainingLength == PublishRemainingLength(p)
  {
    var r := PublishFixedHeader(p);
    var b0 := r[0];
    assert r == [b0] + Encoding(PublishRemainingLength(p));
    FixedHeader.RemainingLengthRoundTrip(FixedHeader.CLEARED, b0, PublishRemainingLength(p));
    var s := FixedHeader.Step(FixedHeader.CLEARED, b0);
    FixedHeader.StepFirstByte(FixedHeader.CLEARED, b0);
    var rest := Encoding(PublishRemainingLength(p));
    assert FixedHeader.Feed(FixedHeader.CLEARED, r).0 == FixedHeader.Feed(s.0, rest).0;
    FixedHeader.DecodeLengthDigits(s.0, PublishRemainingLength(p), 0);
  }

  /** publish_build_packet_id */
  function PublishPacketId(packetId: u16): (r: seq<byte>)
    ensures |r| == 2 && (r[0] as int) * 256 + (r[1] as int) == packetId
  {
    BigEndian16(packetId)
  }

  /** puback_build, pubrec_build, pubrel_build and pubcomp_build: the
      acknowledgement of a QoS 1 or 2 exchange, remaining length 2 and
      the packet identifier. */
  function AckHeader(ackType: int, packetId: u16): (r: seq<byte>)
    requires ackType in {TYPE_PUBACK, TYPE_PUBREC, TYPE_PUBREL, TYPE_PUBCOMP}
    ensures |r| == 4 && r[0] / 16 == ackType && r[1] == 2 && r[2..] == BigEndian16(packetId)
    ensures FixedHeader.LegalFirstByte(r[0])
  {
    PacketIdHeader(ackType * 16 + (if ackType == TYPE_PUBREL then 2 else 0), 2, packetId)
  }

  /** pingreq_build and disconnect_build: a fixed header with nothing
      following it. */
  function EmptyHeader(packetType: int): (r: seq<byte>)
    requires packetType in {TYPE_PINGREQ, TYPE_DISCONNECT}
    ensures |r| == 2 && r[0] / 16 == packetType && r[1..] == Encoding(0)
    ensures FixedHeader.LegalFirstByte(r[0])
  {
    [packetType * 16, 0]
  }
}
