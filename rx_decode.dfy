// The receive-side decoders of the remaining part of CONNACK and SUBACK
// packets, and the length check every decoder result goes through
// (rx_buffer_decode_connack, rx_buffer_decode_suback and
// rx_buffer_decode_remaining_without_id in src/lmqtt_packet.c). Each
// decoder is handed at least one byte and consumes at most one.

module RxDecode {
  import opened Base
  import opened PacketTypes

  /** The `response` part of a connect that a CONNACK fills in. */
  datatype ConnackResponse = ConnackResponse(sessionPresent: byte, returnCode: byte)

  /** Section 3.2.2 of MQTT 3.1.1: the first byte of a CONNACK's variable
      header has only its lowest bit (Session Present) in use, and the
      return codes are 0 to 5. */
  predicate ValidConnack(b0: byte, b1: byte) {
    b0 <= 1 && b1 <= CONNACK_RC_MAX
  }

  /** rx_buffer_decode_connack: decode byte `b`, found at offset `remPos`
      of the remaining part, into the response. Returns the result, the
      number of bytes consumed and the new response. */
  function DecodeConnack(remPos: int, b: byte, resp: ConnackResponse): (r: (DecodeResult, nat, ConnackResponse))
    ensures r.0 == DecodeError <==> r.1 == 0
    ensures r.0 == DecodeError ==> r.2 == resp
    ensures r.0 == DecodeContinue <==> remPos == 0 && b <= 1
    ensures r.0 == DecodeFinished <==> remPos == 1 && b <= CONNACK_RC_MAX
    ensures r.0 != DecodeWouldBlock && r.1 <= 1
    ensures remPos == 0 && r.0 != DecodeError ==> r.2 == resp.(sessionPresent := b)
    ensures remPos == 1 && r.0 != DecodeError ==> r.2 == resp.(returnCode := b)
  {
    if remPos == 0 then
      // b & ~1: any bit but the lowest
      if b / 2 != 0 then (DecodeError, 0, resp)
      else (DecodeContinue, 1, resp.(sessionPresent := b))
    else if remPos == 1 then
      if b > CONNACK_RC_MAX then (DecodeError, 0, resp)
      else (DecodeFinished, 1, resp.(returnCode := b))
    else
      (DecodeError, 0, resp)
  }

  /** rx_buffer_decode_remaining_without_id: the result `res` of a decoder
      that consumed `written` bytes at offset `remPos` stands only if it
      agrees with the remaining length: a packet finishes exactly at its
      end and nothing else may reach the end. */
  function CheckRemaining(res: DecodeResult, remPos: int, written: nat, remLen: int): (r: DecodeResult)
    ensures res == DecodeError ==> r == DecodeError
    ensures r != DecodeError ==> r == res
    ensures r == DecodeFinished ==> remPos + written == remLen
    ensures r == DecodeContinue || r == DecodeWouldBlock ==> remPos + written < remLen
    ensures res == DecodeFinished && remPos + written == remLen ==> r == DecodeFinished
    ensures (res == DecodeContinue || res == DecodeWouldBlock) && remPos + written < remLen ==> r == res
  {
    var pos := remPos + written;
    if res == DecodeError then DecodeError
    else if res != DecodeFinished && pos >= remLen then DecodeError
    else if res == DecodeFinished && pos != remLen then DecodeError
    else res
  }

  /** The remaining part of a CONNACK, fed one byte per decoder call from
      offset `remPos` until the decoder stops: the final result (CONTINUE
      when the bytes ran out) and the response. */
  function ConnackRun(remLen: int, bs: seq<byte>, remPos: nat, resp: ConnackResponse): (DecodeResult, ConnackResponse)
    decreases |bs|
  {
    if bs == [] then (DecodeContinue, resp)
    else
      var step := DecodeConnack(remPos, bs[0], resp);
      var res := CheckRemaining(step.0, remPos, step.1, remLen);
      if res == DecodeContinue then ConnackRun(remLen, bs[1..], remPos + step.1, step.2)
      else (res, step.2)
  }

  /** A CONNACK finishes exactly when its remaining length is 2 and its
      two bytes are valid; the response then holds those two bytes, and
      otherwise the bytes that complete the packet are refused. */
  lemma {:induction false} ConnackRunAccepts(remLen: int, bs: seq<byte>, resp: ConnackResponse)
    ensures var r := ConnackRun(remLen, bs, 0, resp);
      && (r.0 == DecodeFinished <==> |bs| >= 2 && remLen == 2 && ValidConnack(bs[0], bs[1]))
      && (r.0 == DecodeFinished ==> r.1 == ConnackResponse(bs[0], bs[1]))
      && (|bs| >= 2 ==> r.0 == DecodeFinished || r.0 == DecodeError)
  {
    if bs != [] {
      var first := DecodeConnack(0, bs[0], resp);
      var res := CheckRemaining(first.0, 0, first.1, remLen);
      if res == DecodeContinue {
        var rest := bs[1..];
        assert ConnackRun(remLen, bs, 0, resp) == ConnackRun(remLen, rest, 1, first.2);
        if rest != [] {
          assert rest[0] == bs[1];
          var second := DecodeConnack(1, rest[0], first.2);
          var res2 := CheckRemaining(second.0, 1, second.1, remLen);
          assert res2 != DecodeContinue;
          assert ConnackRun(remLen, rest, 1, first.2) == (res2, second.2);
        }
      }
    }
  }

  /** Section 3.9.3 of MQTT 3.1.1: a SUBACK return code grants QoS 0, 1 or
      2, or is the failure code 0x80. */
  predicate ValidSubackCode(b: byte) {
    b <= 2 || b == 0x80
  }

  /** rx_buffer_decode_suback: decode the return code `b` found at offset
      `remPos` of the remaining part (after the packet identifier) into the
      subscription it answers; `codes` are the return codes of the
      SUBSCRIBE's subscriptions. The source indexes the subscriptions with
      the offset unchecked: its callers stop at the last one. */
  function DecodeSuback(remPos: int, b: byte, remLen: int, codes: seq<byte>): (r: (DecodeResult, nat, seq<byte>))
    requires 0 <= remPos - PACKET_ID_SIZE < |codes|
    ensures r.0 == DecodeError <==> r.1 == 0
    ensures r.0 == DecodeError <==>
      (remPos == PACKET_ID_SIZE && remLen - PACKET_ID_SIZE != |codes|) || !ValidSubackCode(b)
    ensures r.0 == DecodeError ==> r.2 == codes
    ensures r.0 != DecodeError ==> r.1 == 1 && r.2 == codes[remPos - PACKET_ID_SIZE := b]
    ensures r.0 != DecodeWouldBlock
    ensures r.0 == DecodeFinished <==> r.0 != DecodeError && remPos - PACKET_ID_SIZE + 1 >= |codes|
  {
    var pos := remPos - PACKET_ID_SIZE;
    if pos == 0 && remLen - PACKET_ID_SIZE != |codes| then (DecodeError, 0, codes)
    else if b > 2 && b != 0x80 then (DecodeError, 0, codes)
    else
      var codes' := codes[pos := b];
      if pos + 1 >= |codes| then (DecodeFinished, 1, codes') else (DecodeContinue, 1, codes')
  }

  /** The return codes of a SUBACK, fed one byte per decoder call from
      offset `remPos` until the decoder stops. */
  function SubackRun(remLen: int, bs: seq<byte>, remPos: nat, codes: seq<byte>): (DecodeResult, seq<byte>)
    requires 0 <= remPos - PACKET_ID_SIZE < |codes|
    decreases |bs|
  {
    if bs == [] then (DecodeContinue, codes)
    else
      var step := DecodeSuback(remPos, bs[0], remLen, codes);
      var res := CheckRemaining(step.0, remPos, step.1, remLen);
      if res == DecodeContinue then SubackRun(remLen, bs[1..], remPos + step.1, step.2)
      else (res, step.2)
  }

  /** From any return code on, a SUBACK whose length matches finishes
      exactly when the remaining codes are all there and valid, and then
      holds them in order after the ones already decoded. */
  lemma {:induction false} SubackRunFrom(remLen: int, bs: seq<byte>, remPos: nat, codes: seq<byte>)
    requires 0 <= remPos - PACKET_ID_SIZE < |codes|
    requires remLen == PACKET_ID_SIZE + |codes|
    ensures var left := |codes| - (remPos - PACKET_ID_SIZE);
      var r := SubackRun(remLen, bs, remPos, codes);
      && (r.0 == DecodeFinished <==> |bs| >= left && forall i :: 0 <= i < left ==> ValidSubackCode(bs[i]))
      && (r.0 == DecodeFinished ==> r.1 == codes[..remPos - PACKET_ID_SIZE] + bs[..left])
    decreases |bs|
  {
    var pos := remPos - PACKET_ID_SIZE;
    var left := |codes| - pos;
    if bs != [] {
      var step := DecodeSuback(remPos, bs[0], remLen, codes);
      var res := CheckRemaining(step.0, remPos, step.1, remLen);
      if res == DecodeContinue {
        SubackRunFrom(remLen, bs[1..], remPos + 1, step.2);
        var rest := bs[1..];
        assert forall i :: 1 <= i < left && i < |bs| ==> rest[i - 1] == bs[i];
        assert step.2[..pos + 1] == codes[..pos] + [bs[0]];
        if |bs| >= left {
          assert bs[..left] == [bs[0]] + rest[..left - 1];
        }
      } else if res == DecodeFinished {
        assert left == 1;
        assert step.2 == codes[..pos] + [bs[0]];
        assert bs[..left] == [bs[0]];
      }
    }
  }

  /** A SUBACK answering `|codes|` subscriptions finishes exactly when its
      remaining length covers the packet identifier and one return code
      per subscription and every code is valid; the subscriptions then
      hold the codes in order. */
  lemma SubackRunAccepts(remLen: int, bs: seq<byte>, codes: seq<byte>)
    requires |codes| > 0
    ensures var r := SubackRun(remLen, bs, PACKET_ID_SIZE, codes);
      && (r.0 == DecodeFinished <==>
           && remLen == PACKET_ID_SIZE + |codes| && |bs| >= |codes|
           && forall i :: 0 <= i < |codes| ==> ValidSubackCode(bs[i]))
      && (r.0 == DecodeFinished ==> r.1 == bs[..|codes|])
  {
    if remLen == PACKET_ID_SIZE + |codes| {
      SubackRunFrom(remLen, bs, PACKET_ID_SIZE, codes);
      assert codes[..0] == [];
    }
  }
}
