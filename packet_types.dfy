// The packet objects a user hands to the client and the constants of
// include/lightmqtt/packet.h and lightmqtt/types.h.

module PacketTypes {
  import opened Base

  // lmqtt_kind_t: what an entry of a store is waiting to send.
  const KIND_CONNECT: int := 200
  const KIND_PUBLISH_0: int := 201
  const KIND_PUBLISH_1: int := 202
  const KIND_PUBLISH_2: int := 203
  const KIND_PUBACK: int := 204
  const KIND_PUBREC: int := 205
  const KIND_PUBREL: int := 206
  const KIND_PUBCOMP: int := 207
  const KIND_SUBSCRIBE: int := 208
  const KIND_UNSUBSCRIBE: int := 209
  const KIND_PINGREQ: int := 210
  const KIND_DISCONNECT: int := 211

  predicate IsKind(kind: int) {
    KIND_CONNECT <= kind <= KIND_DISCONNECT
  }

  // MQTT control packet types (section 2.2.1 of MQTT 3.1.1), the values
  // of LMQTT_TYPE_*. lightmqtt/types.h is not part of this model; the
  // values and the bounds TYPE_MIN / TYPE_MAX are the standard's.
  const TYPE_CONNECT: int := 1
  const TYPE_CONNACK: int := 2
  const TYPE_PUBLISH: int := 3
  const TYPE_PUBACK: int := 4
  const TYPE_PUBREC: int := 5
  const TYPE_PUBREL: int := 6
  const TYPE_PUBCOMP: int := 7
  const TYPE_SUBSCRIBE: int := 8
  const TYPE_SUBACK: int := 9
  const TYPE_UNSUBSCRIBE: int := 10
  const TYPE_UNSUBACK: int := 11
  const TYPE_PINGREQ: int := 12
  const TYPE_PINGRESP: int := 13
  const TYPE_DISCONNECT: int := 14
  const TYPE_MIN: int := TYPE_CONNECT
  const TYPE_MAX: int := TYPE_DISCONNECT

  /** The size of a string's length prefix and of a packet identifier. */
  const STRING_LEN_SIZE: int := 2
  const PACKET_ID_SIZE: int := 2

  const CONNACK_RC_ACCEPTED: int := 0
  const CONNACK_RC_MAX: int := 5

  // lmqtt_qos_t
  predicate IsValidQos(qos: int) {
    0 <= qos <= 2
  }

  // lmqtt_encode_result_t and lmqtt_decode_result_t
  datatype EncodeResult = EncodeFinished | EncodeContinue | EncodeWouldBlock | EncodeError
  datatype DecodeResult = DecodeFinished | DecodeContinue | DecodeWouldBlock | DecodeError

  /** lmqtt_string_t as far as sending is concerned: its declared length,
      the buffer it is read from (None for NULL), whether a `read`
      callback is installed instead, and the read position kept in
      `internal.pos`. */
  datatype LString = LString(len: int, buf: Option<seq<byte>>, hasRead: bool, pos: int)

  /** The string has a buffer holding exactly its declared bytes. */
  predicate IsBufferString(s: LString) {
    s.buf.Some? && !s.hasRead && 0 <= s.len == |s.buf.value|
  }

  datatype Connect = Connect(
    keepAlive: u16,
    cleanSession: bool,
    willQos: int,
    willRetain: bool,
    clientId: LString,
    willTopic: LString,
    willMessage: LString,
    userName: LString,
    password: LString)

  datatype Subscription = Subscription(requestedQos: int, topic: LString)

  /** lmqtt_subscribe_t: `count` entries of `subscriptions` (None for a
      NULL array). */
  datatype Subscribe = Subscribe(count: int, subscriptions: Option<seq<Subscription>>)

  /** The array of a subscribe holds at least `count` entries, as the C
      code trusts whenever it indexes it. */
  predicate SubscribeWellFormed(s: Subscribe) {
    s.subscriptions.Some? ==> s.count <= |s.subscriptions.value|
  }

  /** lmqtt_publish_t; `encodeCount` is `internal.encode_count`, the
      number of times the packet was completely encoded. */
  datatype Publish = Publish(qos: int, retain: bool, topic: LString, payload: LString, encodeCount: int)

  /** The object a store entry points to (`lmqtt_store_value_t.value`). */
  datatype Packet = NoPacket | ConnectPacket(connect: Connect) | SubscribePacket(subscribe: Subscribe)
                  | PublishPacket(publish: Publish)

  /** The MQTT packet that answers a packet of the given kind, or 0 when
      the protocol defines no answer (section 4.3 and sections 3.1 to 3.14
      of MQTT 3.1.1). */
  function AnswerType(kind: int): int {
    if kind == KIND_CONNECT then TYPE_CONNACK
    else if kind == KIND_PUBLISH_1 then TYPE_PUBACK
    else if kind == KIND_PUBLISH_2 then TYPE_PUBREC
    else if kind == KIND_PUBREC then TYPE_PUBREL
    else if kind == KIND_PUBREL then TYPE_PUBCOMP
    else if kind == KIND_SUBSCRIBE then TYPE_SUBACK
    else if kind == KIND_UNSUBSCRIBE then TYPE_UNSUBACK
    else if kind == KIND_PINGREQ then TYPE_PINGRESP
    else 0
  }

  /** kind_expects_response: after sending, an entry of this kind stays in
      the store (marked) until its answer arrives; entries of the other
      kinds are dropped once sent. Every known kind other than PUBREC
      expects a response exactly when the protocol answers it. A PUBREC
      is answered by a PUBREL too, but that PUBREL is handled through the
      id set, which queues the PUBCOMP without looking in the store
      (src/lmqtt_packet.c:1380-1386), so the PUBREC is not kept. */
  function KindExpectsResponse(kind: int): (r: bool)
    ensures IsKind(kind) && kind != KIND_PUBREC ==> (r <==> AnswerType(kind) != 0)
    ensures kind == KIND_PUBREC ==> !r && AnswerType(kind) == TYPE_PUBREL
    ensures !IsKind(kind) ==> r
  {
    kind != KIND_PUBLISH_0 && kind != KIND_PUBACK && kind != KIND_PUBREC &&
    kind != KIND_PUBCOMP && kind != KIND_DISCONNECT
  }
}
