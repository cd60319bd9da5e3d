// The step tables of the transmit buffer: for each kind of queued entry,
// which encoder writes the part at each position (tx_buffer_finder_* and
// tx_buffer_finder_by_kind_impl in src/lmqtt_packet.c), and the bytes all
// the steps of a packet write together.

module TxFinders {
  import opened Base
  import opened PacketTypes
  import opened RemainingLength
  import opened Validate
  import opened StringEncode
  import B = Builders
  import opened Store

  /** The encoders a finder can return. The subscription an encoder works
      on (`internal.current`) is recorded as its index. */
  datatype Encoder =
    | ConnectFixedHeader | ConnectVariableHeader | ConnectClientId | ConnectWillTopic
    | ConnectWillMessage | ConnectUserName | ConnectPassword
    | SubscribeHeader | UnsubscribeHeader | SubscribeTopic(index: nat) | SubscribeQos(index: nat)
    | PublishFixedHeader | PublishTopic | PublishPacketId | PublishPayload
    | PubackHeader | PubrecHeader | PubrelHeader | PubcompHeader | PingreqHeader | DisconnectHeader

  /** The entry's packet object is of the type its kind says, as the
      finders assume when they cast `value->value`. */
  predicate PacketFitsKind(kind: int, packet: Packet) {
    && (kind == KIND_CONNECT ==> packet.ConnectPacket?)
    && (kind == KIND_SUBSCRIBE || kind == KIND_UNSUBSCRIBE ==> packet.SubscribePacket?)
    && (KIND_PUBLISH_0 <= kind <= KIND_PUBLISH_2 ==> packet.PublishPacket?)
  }

  /** tx_buffer_finder_connect */
  function FindConnect(pos: nat): Option<Encoder> {
    if pos == 0 then Some(ConnectFixedHeader)
    else if pos == 1 then Some(ConnectVariableHeader)
    else if pos == 2 then Some(ConnectClientId)
    else if pos == 3 then Some(ConnectWillTopic)
    else if pos == 4 then Some(ConnectWillMessage)
    else if pos == 5 then Some(ConnectUserName)
    else if pos == 6 then Some(ConnectPassword)
    else None
  }

  /** tx_buffer_finder_subscribe and tx_buffer_finder_unsubscribe: the
      header, then for each subscription its topic and, for SUBSCRIBE, its
      requested QoS. */
  function FindSubscribe(pos: nat, s: Subscribe, includeQos: bool): Option<Encoder> {
    if pos == 0 then Some(if includeQos then SubscribeHeader else UnsubscribeHeader)
    else
      var p := pos - 1;
      if includeQos then
        if p < s.count * 2 then Some(if p % 2 == 0 then SubscribeTopic(p / 2) else SubscribeQos(p / 2))
        else None
      else if p < s.count then Some(SubscribeTopic(p))
      else None
  }

  /** tx_buffer_finder_publish: fixed header, topic, packet id (QoS 1 and
      2 only) and payload. Running off the end of the table counts one
      more complete encoding of the publish. */
  function FindPublish(pos: nat, p: Publish): (Option<Encoder>, Publish) {
    var e :=
      if pos == 0 then Some(PublishFixedHeader)
      else if pos == 1 then Some(PublishTopic)
      else if p.qos == 0 then (if pos == 2 then Some(PublishPayload) else None)
      else if pos == 2 then Some(PublishPacketId)
      else if pos == 3 then Some(PublishPayload)
      else None;
    if e.None? then (e, p.(encodeCount := p.encodeCount + 1)) else (e, p)
  }

  /** The finder of the entry's kind applied at step `pos`, and the packet
      as the finder leaves it. */
  function Find(kind: int, pos: nat, packet: Packet): (Option<Encoder>, Packet)
    requires PacketFitsKind(kind, packet)
  {
    if kind == KIND_CONNECT then (FindConnect(pos), packet)
    else if kind == KIND_SUBSCRIBE then (FindSubscribe(pos, packet.subscribe, true), packet)
    else if kind == KIND_UNSUBSCRIBE then (FindSubscribe(pos, packet.subscribe, false), packet)
    else if KIND_PUBLISH_0 <= kind <= KIND_PUBLISH_2 then
      var r := FindPublish(pos, packet.publish);
      (r.0, PublishPacket(r.1))
    else
      var e :=
        if kind == KIND_PUBACK then Some(PubackHeader)
        else if kind == KIND_PUBREC then Some(PubrecHeader)
        else if kind == KIND_PUBREL then Some(PubrelHeader)
        else if kind == KIND_PUBCOMP then Some(PubcompHeader)
        else if kind == KIND_PINGREQ then Some(PingreqHeader)
        else if kind == KIND_DISCONNECT then Some(DisconnectHeader)
        else None;
      (if pos == 0 then e else None, packet)
  }

  /** How many parts a (UN)SUBSCRIBE is sent in. */
  function SubscribeStepCount(s: Subscribe, includeQos: bool): nat {
    1 + (if includeQos then 2 else 1) * (if s.count > 0 then s.count else 0)
  }

  /** How many parts a packet of the given kind is sent in. */
  function StepCount(kind: int, packet: Packet): nat
    requires PacketFitsKind(kind, packet)
  {
    if kind == KIND_CONNECT then 7
    else if kind == KIND_SUBSCRIBE then SubscribeStepCount(packet.subscribe, true)
    else if kind == KIND_UNSUBSCRIBE then SubscribeStepCount(packet.subscribe, false)
    else if KIND_PUBLISH_0 <= kind <= KIND_PUBLISH_2 then (if packet.publish.qos == 0 then 3 else 4)
    else if IsKind(kind) then 1
    else 0
  }

  /** The table of every kind is a run of steps from position 0: a finder
      returns an encoder exactly at the positions below the packet's step
      count, and the packet is changed only when the publish table runs
      out, by counting one more encoding. */
  lemma FinderTable(kind: int, pos: nat, packet: Packet)
    requires PacketFitsKind(kind, packet)
    ensures var r := Find(kind, pos, packet);
      && (r.0.Some? <==> pos < StepCount(kind, packet))
      && (r.1 != packet <==> KIND_PUBLISH_0 <= kind <= KIND_PUBLISH_2 && r.0.None?)
      && (r.1 != packet ==> r.1.publish == packet.publish.(encodeCount := packet.publish.encodeCount + 1))
  {
    if kind == KIND_SUBSCRIBE && pos > 0 {
      var c := packet.subscribe.count;
      assert pos - 1 < c * 2 <==> pos < 1 + 2 * (if c > 0 then c else 0);
    }
  }

  /** A connect can be sent in full from buffers: it is valid and every
      string it sends is held in a buffer. */
  predicate ConnectSendable(c: Connect) {
    && ConnectValidate(c)
    && IsBufferString(c.clientId) && IsBufferString(c.willTopic) && IsBufferString(c.willMessage)
    && IsBufferString(c.userName) && IsBufferString(c.password)
  }

  /** A subscribe can be sent in full from buffers: it is valid, its
      topics are held in buffers, and its remaining length is within
      range, which nothing upstream checks. */
  predicate SubscribeSendable(s: Subscribe, includeQos: bool) {
    && SubscribeWellFormed(s) && SubscribeValid(s)
    && 0 <= SubscribeRemainingLength(s, includeQos) <= MAX_REMAINING_LENGTH
    && forall i :: 0 <= i < s.count ==> IsBufferString(s.subscriptions.value[i].topic)
  }

  /** A publish can be sent in full from buffers. */
  predicate PublishSendable(p: Publish) {
    PublishValidate(p) && IsBufferString(p.topic) && IsBufferString(p.payload)
  }

  /** The bytes a string encoder writes over all its calls. */
  function StringOutput(s: LString, encodeLen: bool, encodeIfEmpty: bool): seq<byte>
    requires IsBufferString(s)
  {
    if s.len == 0 && !encodeIfEmpty then [] else Field(s, encodeLen)
  }

  /** The bytes the CONNECT encoder at a step writes over all its calls. */
  function ConnectOutput(e: Encoder, c: Connect): seq<byte>
    requires ConnectSendable(c)
  {
    match e
    case ConnectFixedHeader => B.ConnectFixedHeader(c)
    case ConnectVariableHeader => B.ConnectVariableHeader(c)
    case ConnectClientId => StringOutput(c.clientId, true, true)
    case ConnectWillTopic => StringOutput(c.willTopic, true, false)
    case ConnectWillMessage => StringOutput(c.willMessage, true, false)
    case ConnectUserName => StringOutput(c.userName, true, false)
    case ConnectPassword => StringOutput(c.password, true, false)
    case _ => []
  }

  /** The bytes a (UN)SUBSCRIBE encoder writes over all its calls. */
  function SubscribeOutput(e: Encoder, s: Subscribe, includeQos: bool, packetId: u16): seq<byte>
    requires SubscribeSendable(s, includeQos)
  {
    match e
    case SubscribeHeader => B.SubscribeHeader(s, includeQos, packetId)
    case UnsubscribeHeader => B.SubscribeHeader(s, includeQos, packetId)
    case SubscribeTopic(i) =>
      if i < s.count then StringOutput(s.subscriptions.value[i].topic, true, true) else []
    case SubscribeQos(i) =>
      if i < s.count then B.SubscribeQos(s.subscriptions.value[i]) else []
    case _ => []
  }

  /** The bytes a PUBLISH encoder writes over all its calls; the fixed
      header is the one publish_build_fixed_header builds, with DUP set
      on every encoding after the first. */
  function PublishOutput(e: Encoder, p: Publish, packetId: u16): seq<byte>
    requires PublishSendable(p)
  {
    match e
    case PublishFixedHeader => B.PublishFixedHeaderAsWritten(p)
    case PublishTopic => StringOutput(p.topic, true, true)
    case PublishPacketId => B.PublishPacketId(packetId)
    case PublishPayload => StringOutput(p.payload, false, false)
    case _ => []
  }

  /** The bytes the first `n` steps of a CONNECT write. */
  function ConnectEmitted(c: Connect, n: nat): seq<byte>
    requires ConnectSendable(c)
  {
    if n == 0 then []
    else
      var e := FindConnect(n - 1);
      ConnectEmitted(c, n - 1) + (if e.Some? then ConnectOutput(e.value, c) else [])
  }

  /** The bytes the first `n` steps of a (UN)SUBSCRIBE write. */
  function SubscribeEmitted(s: Subscribe, includeQos: bool, packetId: u16, n: nat): seq<byte>
    requires SubscribeSendable(s, includeQos)
  {
    if n == 0 then []
    else
      var e := FindSubscribe(n - 1, s, includeQos);
      SubscribeEmitted(s, includeQos, packetId, n - 1)
        + (if e.Some? then SubscribeOutput(e.value, s, includeQos, packetId) else [])
  }

  /** The bytes the first `n` steps of a PUBLISH write. */
  function PublishEmitted(p: Publish, packetId: u16, n: nat): seq<byte>
    requires PublishSendable(p)
  {
    if n == 0 then []
    else
      var e := FindPublish(n - 1, p).0;
      PublishEmitted(p, packetId, n - 1) + (if e.Some? then PublishOutput(e.value, p, packetId) else [])
  }

  /** What an optional CONNECT string adds to the payload. */
  lemma OptionalFieldLength(s: LString)
    requires IsBufferString(s)
    ensures |StringOutput(s, true, false)| == FieldLength(s)
  {
  }

  lemma PrefixKept(a: seq<byte>, b: seq<byte>, p: seq<byte>)
    requires |p| <= |a| && a[..|p|] == p
    ensures (a + b)[..|p|] == p
  {
    assert (a + b)[..|p|] == a[..|p|];
  }

  /** Every step of a CONNECT after the first keeps its fixed header at
      the front. */
  lemma {:induction false} ConnectHeaderFirst(c: Connect, n: nat)
    requires ConnectSendable(c) && n >= 1
    ensures var fh := B.ConnectFixedHeader(c);
      |fh| <= |ConnectEmitted(c, n)| && ConnectEmitted(c, n)[..|fh|] == fh
  {
    if n == 1 {
      assert ConnectEmitted(c, 1) == B.ConnectFixedHeader(c);
    } else {
      ConnectHeaderFirst(c, n - 1);
      var e := FindConnect(n - 1);
      PrefixKept(ConnectEmitted(c, n - 1), if e.Some? then ConnectOutput(e.value, c) else [], B.ConnectFixedHeader(c));
    }
  }

  /** The seven steps of a CONNECT write its fixed header, its variable
      header and its five strings. */
  lemma ConnectLength(c: Connect)
    requires ConnectSendable(c)
    ensures |ConnectEmitted(c, 7)| == |B.ConnectFixedHeader(c)| + CONNECT_HEADER_SIZE
      + |StringOutput(c.clientId, true, true)| + |StringOutput(c.willTopic, true, false)|
      + |StringOutput(c.willMessage, true, false)| + |StringOutput(c.userName, true, false)|
      + |StringOutput(c.password, true, false)|
  {
    ConnectEmittedLength(c, 0);
    ConnectEmittedLength(c, 1);
    ConnectEmittedLength(c, 2);
    ConnectEmittedLength(c, 3);
    ConnectEmittedLength(c, 4);
    ConnectEmittedLength(c, 5);
    ConnectEmittedLength(c, 6);
  }

  /** Each step of a CONNECT adds the bytes of its encoder. */
  lemma ConnectEmittedLength(c: Connect, n: nat)
    requires ConnectSendable(c) && n < 7
    ensures |ConnectEmitted(c, n + 1)| == |ConnectEmitted(c, n)| + |ConnectOutput(FindConnect(n).value, c)|
  {
  }

  /** A CONNECT is sent as its fixed header followed by exactly as many
      bytes as the remaining length the header announces:
      connect_calc_remaining_length counts what the variable header and
      payload encoders write. */
  lemma ConnectLayout(c: Connect)
    requires ConnectSendable(c)
    ensures var bytes, fh := ConnectEmitted(c, StepCount(KIND_CONNECT, ConnectPacket(c))), B.ConnectFixedHeader(c);
      |bytes| == |fh| + ConnectRemainingLength(c) && |fh| <= |bytes| && bytes[..|fh|] == fh
  {
    OptionalFieldLength(c.willTopic);
    OptionalFieldLength(c.willMessage);
    OptionalFieldLength(c.userName);
    OptionalFieldLength(c.password);
    ConnectLength(c);
    ConnectHeaderFirst(c, 7);
  }

  /** A step the publish finder has an encoder for appends that
      encoder's bytes. */
  lemma PublishEmittedStep(p: Publish, packetId: u16, n: nat)
    requires PublishSendable(p) && FindPublish(n, p).0.Some?
    ensures PublishEmitted(p, packetId, n + 1)
      == PublishEmitted(p, packetId, n) + PublishOutput(FindPublish(n, p).0.value, p, packetId)
  {
  }

  /** The first two steps of a PUBLISH write its fixed header and topic. */
  lemma PublishHeadAndTopic(p: Publish, packetId: u16)
    requires PublishSendable(p)
    ensures PublishEmitted(p, packetId, 2) == B.PublishFixedHeaderAsWritten(p) + StringOutput(p.topic, true, true)
  {
    PublishEmittedStep(p, packetId, 0);
    PublishEmittedStep(p, packetId, 1);
  }

  /** The three steps of a QoS 0 PUBLISH write its fixed header, topic
      and payload. */
  lemma PublishStepsQos0(p: Publish, packetId: u16)
    requires PublishSendable(p) && p.qos == 0
    ensures PublishEmitted(p, packetId, 3)
      == B.PublishFixedHeaderAsWritten(p) + (StringOutput(p.topic, true, true) + StringOutput(p.payload, false, false))
  {
    PublishHeadAndTopic(p, packetId);
    PublishEmittedStep(p, packetId, 2);
    Assoc(B.PublishFixedHeaderAsWritten(p), StringOutput(p.topic, true, true), StringOutput(p.payload, false, false));
  }

  /** The four steps of a QoS 1 or 2 PUBLISH write its fixed header,
      topic, packet id and payload. */
  lemma PublishStepsWithId(p: Publish, packetId: u16)
    requires PublishSendable(p) && p.qos != 0
    ensures PublishEmitted(p, packetId, 4)
      == B.PublishFixedHeaderAsWritten(p)
         + (StringOutput(p.topic, true, true) + B.PublishPacketId(packetId) + StringOutput(p.payload, false, false))
  {
    var fh, topic, pid := B.PublishFixedHeaderAsWritten(p), StringOutput(p.topic, true, true), B.PublishPacketId(packetId);
    PublishHeadAndTopic(p, packetId);
    PublishEmittedStep(p, packetId, 2);
    PublishEmittedStep(p, packetId, 3);
    Assoc(fh, topic, pid);
    Assoc(fh, topic + pid, StringOutput(p.payload, false, false));
  }

  /** A PUBLISH is sent as its fixed header, DUP set once it was encoded
      before, followed by exactly as many bytes as the remaining length
      the header announces. */
  lemma PublishLayout(p: Publish, packetId: u16)
    requires PublishSendable(p)
    ensures var bytes := PublishEmitted(p, packetId, StepCount(KIND_PUBLISH_0 + p.qos, PublishPacket(p)));
      var fh := B.PublishFixedHeaderAsWritten(p);
      && |bytes| == |fh| + PublishRemainingLength(p) && bytes[..|fh|] == fh
      && fh[1..] == Encoding(PublishRemainingLength(p)) && ((fh[0] / 8) % 2 == 1 <==> p.encodeCount > 0)
  {
    var fh := B.PublishFixedHeaderAsWritten(p);
    var rest := StringOutput(p.topic, true, true) + (if p.qos == 0 then [] else B.PublishPacketId(packetId))
      + StringOutput(p.payload, false, false);
    if p.qos == 0 {
      PublishStepsQos0(p, packetId);
    } else {
      PublishStepsWithId(p, packetId);
    }
    assert |rest| == PublishRemainingLength(p);
    PrefixKept(fh, rest, fh);
  }

  /** The bytes the topics (and requested QoS bytes) of the first
      subscriptions write. */
  function TopicsBytes(subs: seq<Subscription>, includeQos: bool): seq<byte>
    requires forall i :: 0 <= i < |subs| ==> IsBufferString(subs[i].topic) && IsValidQos(subs[i].requestedQos)
    decreases |subs|
  {
    if subs == [] then []
    else
      var last := subs[|subs| - 1];
      TopicsBytes(subs[..|subs| - 1], includeQos) + Field(last.topic, true)
        + (if includeQos then B.SubscribeQos(last) else [])
  }

  lemma {:induction false} TopicsBytesLength(subs: seq<Subscription>, includeQos: bool)
    requires forall i :: 0 <= i < |subs| ==> IsBufferString(subs[i].topic) && IsValidQos(subs[i].requestedQos)
    ensures |TopicsBytes(subs, includeQos)| == TopicsLength(subs, includeQos)
    decreases |subs|
  {
    if subs != [] {
      TopicsBytesLength(subs[..|subs| - 1], includeQos);
    }
  }

  /** The number of steps the first `k` subscriptions take. */
  function TopicSteps(k: nat, includeQos: bool): nat {
    if includeQos then 2 * k else k
  }

  lemma Halves(k: nat)
    requires k > 0
    ensures (2 * k - 2) % 2 == 0 && (2 * k - 2) / 2 == k - 1
    ensures (2 * k - 1) % 2 == 1 && (2 * k - 1) / 2 == k - 1
  {
  }

  lemma Assoc(a: seq<byte>, b: seq<byte>, c: seq<byte>)
    ensures (a + b) + c == a + (b + c)
  {
  }

  /** The bytes the first `k` subscriptions add after the header. */
  function SentTopics(s: Subscribe, includeQos: bool, k: nat): seq<byte>
    requires SubscribeSendable(s, includeQos) && k <= s.count
  {
    assert forall i :: 0 <= i < k ==> ValidSubscription(s.subscriptions.value[i]);
    TopicsBytes(s.subscriptions.value[..k], includeQos)
  }

  /** The first `k` subscriptions write what the first `k - 1` write,
      then the k-th topic (and, for SUBSCRIBE, its requested QoS). */
  lemma SentTopicsStep(s: Subscribe, includeQos: bool, k: nat)
    requires SubscribeSendable(s, includeQos) && 0 < k <= s.count
    ensures var sub := s.subscriptions.value[k - 1];
      SentTopics(s, includeQos, k)
        == SentTopics(s, includeQos, k - 1) + Field(sub.topic, true) + (if includeQos then B.SubscribeQos(sub) else [])
  {
    var subs := s.subscriptions.value;
    assert ValidSubscription(subs[k - 1]);
    assert subs[..k][..k - 1] == subs[..k - 1];
    assert subs[..k][k - 1] == subs[k - 1];
  }

  /** A step the (un)subscribe finder has an encoder for appends that
      encoder's bytes. */
  lemma SubscribeEmittedStep(s: Subscribe, includeQos: bool, packetId: u16, n: nat, e: Encoder)
    requires SubscribeSendable(s, includeQos) && FindSubscribe(n, s, includeQos) == Some(e)
    ensures SubscribeEmitted(s, includeQos, packetId, n + 1)
      == SubscribeEmitted(s, includeQos, packetId, n) + SubscribeOutput(e, s, includeQos, packetId)
  {
  }

  /** The steps of the k-th subscription of a SUBSCRIBE are its topic and
      then its requested QoS. */
  lemma SubscribeFindsPair(s: Subscribe, k: nat)
    requires 0 < k <= s.count
    ensures FindSubscribe(2 * k - 1, s, true) == Some(SubscribeTopic(k - 1))
    ensures FindSubscribe(2 * k, s, true) == Some(SubscribeQos(k - 1))
  {
    Halves(k);
  }

  /** The k-th subscription's steps append its topic and requested QoS. */
  lemma SubscribeStepWithQos(s: Subscribe, packetId: u16, k: nat)
    requires SubscribeSendable(s, true) && 0 < k <= s.count
    ensures var topic := Field(s.subscriptions.value[k - 1].topic, true);
      var qos := B.SubscribeQos(s.subscriptions.value[k - 1]);
      SubscribeEmitted(s, true, packetId, 1 + 2 * k)
        == SubscribeEmitted(s, true, packetId, 1 + 2 * (k - 1)) + topic + qos
  {
    var sub := s.subscriptions.value[k - 1];
    assert ValidSubscription(sub);
    var n := 2 * k - 1;
    SubscribeFindsPair(s, k);
    SubscribeEmittedStep(s, true, packetId, n, SubscribeTopic(k - 1));
    SubscribeEmittedStep(s, true, packetId, n + 1, SubscribeQos(k - 1));
    assert SubscribeOutput(SubscribeTopic(k - 1), s, true, packetId) == Field(sub.topic, true);
    assert SubscribeOutput(SubscribeQos(k - 1), s, true, packetId) == B.SubscribeQos(sub);
    assert 1 + 2 * k == n + 2 && 1 + 2 * (k - 1) == n;
  }

  /** The k-th subscription's step of an UNSUBSCRIBE appends its topic. */
  lemma UnsubscribeStep(s: Subscribe, packetId: u16, k: nat)
    requires SubscribeSendable(s, false) && 0 < k <= s.count
    ensures var topic := Field(s.subscriptions.value[k - 1].topic, true);
      SubscribeEmitted(s, false, packetId, 1 + k) == SubscribeEmitted(s, false, packetId, k) + topic
  {
    assert ValidSubscription(s.subscriptions.value[k - 1]);
    assert FindSubscribe(k, s, false) == Some(SubscribeTopic(k - 1));
    SubscribeEmittedStep(s, false, packetId, k, SubscribeTopic(k - 1));
  }

  /** The steps of a (UN)SUBSCRIBE after its header write the topic (and,
      for SUBSCRIBE, the requested QoS) of each subscription in order. */
  lemma {:induction false} SubscribeSteps(s: Subscribe, includeQos: bool, packetId: u16, k: nat)
    requires SubscribeSendable(s, includeQos)
    requires k <= s.count
    ensures SubscribeEmitted(s, includeQos, packetId, 1 + TopicSteps(k, includeQos))
        == B.SubscribeHeader(s, includeQos, packetId) + SentTopics(s, includeQos, k)
    decreases k
  {
    if k == 0 {
      assert SubscribeEmitted(s, includeQos, packetId, 1) == B.SubscribeHeader(s, includeQos, packetId);
    } else {
      SubscribeSteps(s, includeQos, packetId, k - 1);
      if includeQos {
        SubscribeStepsNext(s, packetId, k);
      } else {
        UnsubscribeStepsNext(s, packetId, k);
      }
    }
  }

  /** The inductive step of SubscribeSteps for a SUBSCRIBE. */
  lemma SubscribeStepsNext(s: Subscribe, packetId: u16, k: nat)
    requires SubscribeSendable(s, true) && 0 < k <= s.count
    requires SubscribeEmitted(s, true, packetId, 1 + 2 * (k - 1))
      == B.SubscribeHeader(s, true, packetId) + SentTopics(s, true, k - 1)
    ensures SubscribeEmitted(s, true, packetId, 1 + TopicSteps(k, true))
      == B.SubscribeHeader(s, true, packetId) + SentTopics(s, true, k)
  {
    var header := B.SubscribeHeader(s, true, packetId);
    var sub := s.subscriptions.value[k - 1];
    var prev := SentTopics(s, true, k - 1);
    var topic := Field(sub.topic, true);
    var qos := B.SubscribeQos(sub);
    SentTopicsStep(s, true, k);
    SubscribeStepWithQos(s, packetId, k);
    calc {
      SubscribeEmitted(s, true, packetId, 1 + 2 * k);
      SubscribeEmitted(s, true, packetId, 1 + 2 * (k - 1)) + topic + qos;
      header + prev + topic + qos;
      { Assoc(header, prev, topic); Assoc(header, prev + topic, qos); }
      header + (prev + topic + qos);
    }
  }

  /** The inductive step of SubscribeSteps for an UNSUBSCRIBE. */
  lemma UnsubscribeStepsNext(s: Subscribe, packetId: u16, k: nat)
    requires SubscribeSendable(s, false) && 0 < k <= s.count
    requires SubscribeEmitted(s, false, packetId, 1 + (k - 1))
      == B.SubscribeHeader(s, false, packetId) + SentTopics(s, false, k - 1)
    ensures SubscribeEmitted(s, false, packetId, 1 + TopicSteps(k, false))
      == B.SubscribeHeader(s, false, packetId) + SentTopics(s, false, k)
  {
    var header := B.SubscribeHeader(s, false, packetId);
    var prev := SentTopics(s, false, k - 1);
    var topic := Field(s.subscriptions.value[k - 1].topic, true);
    SentTopicsStep(s, false, k);
    UnsubscribeStep(s, packetId, k);
    calc {
      SubscribeEmitted(s, false, packetId, 1 + k);
      SubscribeEmitted(s, false, packetId, k) + topic;
      header + prev + topic;
      { Assoc(header, prev, topic); }
      header + (prev + topic);
    }
    assert SentTopics(s, false, k) == prev + topic + [];
  }

  /** A (UN)SUBSCRIBE is sent as its fixed header and packet id followed
      by exactly as many bytes as the remaining length announces, less the
      two bytes of the packet id. */
  lemma SubscribeLayout(s: Subscribe, includeQos: bool, packetId: u16)
    requires SubscribeSendable(s, includeQos)
    ensures var bytes := SubscribeEmitted(s, includeQos, packetId, SubscribeStepCount(s, includeQos));
      var header := B.SubscribeHeader(s, includeQos, packetId);
      && |bytes| + PACKET_ID_SIZE == |header| + SubscribeRemainingLength(s, includeQos)
      && |header| <= |bytes| && bytes[..|header|] == header
  {
    if s.count > 0 {
      SubscribeLayoutNonEmpty(s, includeQos, packetId);
    } else {
      assert SubscribeEmitted(s, includeQos, packetId, 1) == B.SubscribeHeader(s, includeQos, packetId);
    }
  }

  /** SubscribeLayout for a packet with at least one subscription. */
  lemma SubscribeLayoutNonEmpty(s: Subscribe, includeQos: bool, packetId: u16)
    requires SubscribeSendable(s, includeQos) && s.count > 0
    ensures var bytes := SubscribeEmitted(s, includeQos, packetId, SubscribeStepCount(s, includeQos));
      var header := B.SubscribeHeader(s, includeQos, packetId);
      && |bytes| + PACKET_ID_SIZE == |header| + SubscribeRemainingLength(s, includeQos)
      && |header| <= |bytes| && bytes[..|header|] == header
  {
    var header := B.SubscribeHeader(s, includeQos, packetId);
    var topics := SentTopics(s, includeQos, s.count);
    SubscribeSteps(s, includeQos, packetId, s.count);
    assert 1 + TopicSteps(s.count, includeQos) == SubscribeStepCount(s, includeQos);
    SentTopicsLength(s, includeQos);
    PrefixKept(header, topics, header);
  }

  lemma SentTopicsLength(s: Subscribe, includeQos: bool)
    requires SubscribeSendable(s, includeQos) && s.count > 0
    ensures |SentTopics(s, includeQos, s.count)| + PACKET_ID_SIZE == SubscribeRemainingLength(s, includeQos)
  {
    assert forall i :: 0 <= i < s.count ==> ValidSubscription(s.subscriptions.value[i]);
    TopicsBytesLength(Visited(s), includeQos);
    assert SentTopics(s, includeQos, s.count) == TopicsBytes(Visited(s), includeQos);
  }
}
