// The checks lmqtt_client_t applies to user packets before queueing
// them, and the remaining-length arithmetic of the packets they guard
// (lmqtt_connect_validate, lmqtt_subscribe_validate,
// lmqtt_publish_validate and *_calc_remaining_length in
// src/lmqtt_packet.c).

module Validate {
  import opened Base
  import opened PacketTypes
  import opened RemainingLength

  const CONNECT_HEADER_SIZE: int := 10

  /** string_calc_field_length: an optional string takes its two-byte
      length prefix and its bytes when it is not empty, nothing when it is. */
  function FieldLength(s: LString): int {
    if s.len > 0 then STRING_LEN_SIZE + s.len else 0
  }

  /** string_validate_field_length: the length fits the two-byte prefix. */
  predicate ValidFieldLength(s: LString) {
    0 <= s.len <= 0xffff
  }

  /** The connect carries a Will Message (section 3.1.2.5 of MQTT 3.1.1). */
  predicate HasWill(c: Connect) {
    c.willTopic.len > 0
  }

  /** connect_calc_remaining_length */
  function ConnectRemainingLength(c: Connect): int {
    CONNECT_HEADER_SIZE + STRING_LEN_SIZE + c.clientId.len
      + FieldLength(c.willTopic) + FieldLength(c.willMessage)
      + FieldLength(c.userName) + FieldLength(c.password)
  }

  /** lmqtt_connect_validate. A valid connect fits its encoding: every
      string fits its length prefix, and the remaining length is positive
      and within what four length bytes can express, as
      encode_remaining_length asserts. */
  function ConnectValidate(c: Connect): (r: bool)
    ensures r <==>
      && ValidFieldLength(c.clientId) && ValidFieldLength(c.willTopic)
      && ValidFieldLength(c.willMessage) && ValidFieldLength(c.userName)
      && ValidFieldLength(c.password)
      && (HasWill(c) <==> c.willMessage.len > 0)
      && (c.willRetain ==> HasWill(c))
      && (c.clientId.len == 0 ==> c.cleanSession)
      && (c.password.len > 0 ==> c.userName.len > 0)
      && IsValidQos(c.willQos)
    ensures r ==> 0 < ConnectRemainingLength(c) <= MAX_REMAINING_LENGTH
  {
    if !ValidFieldLength(c.clientId) || !ValidFieldLength(c.willTopic)
      || !ValidFieldLength(c.willMessage) || !ValidFieldLength(c.userName)
      || !ValidFieldLength(c.password) then false
    else if (c.willTopic.len == 0) != (c.willMessage.len == 0) then false
    else if c.willTopic.len == 0 && c.willRetain then false
    else if c.clientId.len == 0 && !c.cleanSession then false
    else if c.userName.len == 0 && c.password.len != 0 then false
    else IsValidQos(c.willQos)
  }

  /** The first `count` subscriptions of a subscribe can be indexed, as
      the C code assumes once the subscription array is not NULL. */
  predicate SubscribeIndexable(s: Subscribe) {
    SubscribeWellFormed(s) && (s.count > 0 ==> s.subscriptions.Some?)
  }

  /** The subscriptions the C loops visit: the first `count` of them
      (none for a count that is not positive). */
  function Visited(s: Subscribe): (subs: seq<Subscription>)
    requires SubscribeIndexable(s)
    ensures |subs| == if s.count > 0 then s.count else 0
  {
    if s.count <= 0 then [] else s.subscriptions.value[..s.count]
  }

  /** What each topic adds to a SUBSCRIBE (prefix, topic, requested QoS)
      or UNSUBSCRIBE (prefix, topic) payload. */
  function TopicsLength(subs: seq<Subscription>, includeQos: bool): int
    decreases |subs|
  {
    if subs == [] then 0
    else
      var last := subs[|subs| - 1];
      TopicsLength(subs[..|subs| - 1], includeQos) + last.topic.len + STRING_LEN_SIZE
        + (if includeQos then 1 else 0)
  }

  /** The remaining length of a SUBSCRIBE (includeQos) or UNSUBSCRIBE. */
  function SubscribeRemainingLength(s: Subscribe, includeQos: bool): int
    requires SubscribeIndexable(s)
  {
    PACKET_ID_SIZE + TopicsLength(Visited(s), includeQos)
  }

  /** subscribe_calc_remaining_length */
  method CalcSubscribeRemainingLength(s: Subscribe, includeQos: bool) returns (result: int)
    requires SubscribeIndexable(s)
    ensures result == SubscribeRemainingLength(s, includeQos)
  {
    ghost var subs := Visited(s);
    result := PACKET_ID_SIZE;
    var i := 0;
    while i < s.count
      invariant 0 <= i <= |subs|
      invariant i > 0 ==> s.count > 0
      invariant result == PACKET_ID_SIZE + TopicsLength(subs[..i], includeQos)
    {
      assert subs[..i + 1][..i] == subs[..i];
      result := result + s.subscriptions.value[i].topic.len + STRING_LEN_SIZE
        + (if includeQos then 1 else 0);
      i := i + 1;
    }
    assert subs[..i] == subs;
  }

  /** A subscription the server can accept: a topic filter of 1 to 65535
      bytes and a requested QoS of 0, 1 or 2. */
  predicate ValidSubscription(sub: Subscription) {
    ValidFieldLength(sub.topic) && sub.topic.len > 0 && IsValidQos(sub.requestedQos)
  }

  /** What lmqtt_subscribe_validate accepts. A negative count is not
      rejected: the loop then visits nothing. */
  predicate SubscribeValid(s: Subscribe)
    requires SubscribeWellFormed(s)
  {
    s.count != 0 && s.subscriptions.Some?
      && forall i :: 0 <= i < s.count ==> ValidSubscription(s.subscriptions.value[i])
  }

  /** lmqtt_subscribe_validate */
  method SubscribeValidate(s: Subscribe) returns (r: bool)
    requires SubscribeWellFormed(s)
    ensures r <==> SubscribeValid(s)
  {
    if s.count == 0 || s.subscriptions.None? {
      return false;
    }
    var subs := s.subscriptions.value;
    var i := 0;
    while i < s.count
      invariant 0 <= i
      invariant i > 0 ==> i <= s.count
      invariant forall j :: 0 <= j < i ==> ValidSubscription(subs[j])
    {
      var sub := subs[i];
      if !ValidFieldLength(sub.topic) {
        return false;
      }
      if sub.topic.len == 0 || !IsValidQos(sub.requestedQos) {
        return false;
      }
      i := i + 1;
    }
    return true;
  }

  /** Every topic of a valid subscribe contributes at least its prefix and
      one byte, and at most its prefix and 65535 bytes. Nothing bounds the
      count, so nothing keeps a valid subscribe within
      MAX_REMAINING_LENGTH. */
  lemma {:induction false} TopicsLengthBounds(subs: seq<Subscription>, includeQos: bool)
    requires forall i :: 0 <= i < |subs| ==> ValidSubscription(subs[i])
    ensures var per := STRING_LEN_SIZE + (if includeQos then 1 else 0);
      |subs| * (per + 1) <= TopicsLength(subs, includeQos) <= |subs| * (per + 0xffff)
    decreases |subs|
  {
    if subs != [] {
      var init := subs[..|subs| - 1];
      assert forall i :: 0 <= i < |init| ==> init[i] == subs[i];
      TopicsLengthBounds(init, includeQos);
      var per := STRING_LEN_SIZE + (if includeQos then 1 else 0);
      assert |subs| * (per + 1) == |init| * (per + 1) + (per + 1);
      assert |subs| * (per + 0xffff) == |init| * (per + 0xffff) + (per + 0xffff);
    }
  }

  /** publish_calc_remaining_length */
  function PublishRemainingLength(p: Publish): int {
    STRING_LEN_SIZE + p.topic.len + (if p.qos == 0 then 0 else PACKET_ID_SIZE) + p.payload.len
  }

  /** lmqtt_publish_validate as written: the topic is 1 to 65535 bytes,
      the QoS is 0, 1 or 2 and the remaining length does not exceed
      MAX_REMAINING_LENGTH. The payload length is not checked. */
  function PublishValidateAsWritten(p: Publish): (r: bool)
    ensures r <==> 1 <= p.topic.len <= 0xffff && IsValidQos(p.qos)
                   && PublishRemainingLength(p) <= MAX_REMAINING_LENGTH
  {
    ValidFieldLength(p.topic) && p.topic.len > 0 && IsValidQos(p.qos)
      && PublishRemainingLength(p) <= MAX_REMAINING_LENGTH
  }

  /** A publish with a negative payload length passes the check as
      written, yet its remaining length is negative, which
      encode_remaining_length asserts against once publish_build_fixed_header
      runs. */
  lemma NegativePayloadPassesValidation()
    ensures var p := Publish(0, false, LString(1, None, false, 0), LString(-10, None, false, 0), 0);
      PublishValidateAsWritten(p) && PublishRemainingLength(p) < 0
  {
  }

  /** lmqtt_publish_validate with the payload length also required to be
      non-negative, which is what publish_build_fixed_header relies on. */
  function PublishValidate(p: Publish): (r: bool)
    ensures r <==> PublishValidateAsWritten(p) && p.payload.len >= 0
    ensures r ==> 3 <= PublishRemainingLength(p) <= MAX_REMAINING_LENGTH
  {
    ValidFieldLength(p.topic) && p.topic.len > 0 && IsValidQos(p.qos)
      && p.payload.len >= 0 && PublishRemainingLength(p) <= MAX_REMAINING_LENGTH
  }
}
