// The byte-at-a-time decoder of an MQTT fixed header: the packet type
// and flags byte, then the Remaining Length field (sections 2.2.1 to
// 2.2.3 of MQTT 3.1.1). fixed_header_decode in src/lmqtt_packet.c.

module FixedHeader {
  import opened Base
  import opened PacketTypes
  import opened RemainingLength

  /** lmqtt_fixed_header_t, with its `internal` decoding state. */
  datatype Header = Header(
    ptype: int, dup: int, qos: int, retain: int, remainingLength: int,
    bytesRead: nat, failed: bool, multiplier: int, accumulator: int, finished: bool)

  /** A header cleared with memset, as lmqtt_rx_buffer_reset leaves it. */
  const CLEARED: Header := Header(0, 0, 0, 0, 0, 0, false, 0, 0, false)

  /** A header that has read nothing yet and has not failed. */
  predicate Fresh(h: Header) {
    !h.failed && h.bytesRead == 0
  }

  /** The flags a first byte may carry for its packet type, as table 2.2
      of MQTT 3.1.1 lists them: PUBREL, SUBSCRIBE and UNSUBSCRIBE carry
      0b0010; PUBLISH carries DUP, QoS and RETAIN, where QoS 3 is
      malformed and so is DUP set on a QoS 0 message; every other type
      carries 0. The type must be one a client can receive or send. */
  predicate LegalFirstByte(b: byte) {
    var t, f := b / 16, b % 16;
    var dup, qos := f / 8, (f / 2) % 4;
    TYPE_MIN <= t <= TYPE_MAX &&
    if t == TYPE_PUBREL || t == TYPE_SUBSCRIBE || t == TYPE_UNSUBSCRIBE then f == 2
    else if t == TYPE_PUBLISH then qos != 3 && !(dup == 1 && qos == 0)
    else f == 0
  }

  /** 128 to the power k: the weight of the k-th length digit. */
  function Pow128(k: nat): nat {
    if k == 0 then 1 else 128 * Pow128(k - 1)
  }

  /** fixed_header_decode: feed one byte to the decoder. What it does is
      stated by StepFailure, StepFirstByte and StepLengthByte. */
  function Step(h: Header, b: byte): (Header, DecodeResult)
  {
    if h.failed then (h, DecodeError)
    else if h.bytesRead == 0 then
      var t, flags := b / 16, b % 16;
      var badFlags :=
        if t == TYPE_PUBREL || t == TYPE_SUBSCRIBE || t == TYPE_UNSUBSCRIBE then flags != 2
        // (flags & 6) == 6 || (flags & 14) == 8
        else if t == TYPE_PUBLISH then (flags / 2) % 4 == 3 || flags / 2 == 4
        else flags != 0;
      if t < TYPE_MIN || t > TYPE_MAX || badFlags then (h.(failed := true), DecodeError)
      else
        var h1 := h.(ptype := t, multiplier := 1, accumulator := 0, finished := false,
                     bytesRead := h.bytesRead + 1);
        if t == TYPE_PUBLISH then
          (h1.(dup := flags / 8, qos := (flags / 2) % 4, retain := flags % 2), DecodeContinue)
        else
          (h1.(dup := 0, qos := 0, retain := 0), DecodeContinue)
    else if (h.multiplier > 128 * 128 && b >= 128) || (h.multiplier > 1 && b == 0) || h.finished then
      (h.(failed := true), DecodeError)
    else
      var acc := h.accumulator + (b % 128) * h.multiplier;
      var h1 := h.(accumulator := acc, multiplier := h.multiplier * 128, bytesRead := h.bytesRead + 1);
      if b >= 128 then (h1, DecodeContinue)
      else (h1.(remainingLength := acc, finished := true), DecodeFinished)
  }

  /** Failure is recorded in the header and is final; every accepted
      byte is counted. */
  lemma StepFailure(h: Header, b: byte)
    ensures var r := Step(h, b);
      && (r.0.failed <==> r.1 == DecodeError)
      && (h.failed ==> r == (h, DecodeError))
      && (r.1 != DecodeError ==> r.0.bytesRead == h.bytesRead + 1)
  {
  }

  /** The first byte is accepted exactly when its type and flags are
      legal; it sets the type and, for a PUBLISH, DUP, QoS and RETAIN. */
  lemma StepFirstByte(h: Header, b: byte)
    requires Fresh(h)
    ensures var r := Step(h, b);
      && (r.1 != DecodeError <==> LegalFirstByte(b))
      && (LegalFirstByte(b) ==>
        && r.1 == DecodeContinue && r.0.ptype == b / 16
        && r.0.multiplier == 1 && r.0.accumulator == 0 && !r.0.finished
        && 0 <= r.0.dup <= 1 && IsValidQos(r.0.qos) && 0 <= r.0.retain <= 1
        && (b / 16 == TYPE_PUBLISH ==> b == 16 * TYPE_PUBLISH + 8 * r.0.dup + 2 * r.0.qos + r.0.retain)
        && (b / 16 != TYPE_PUBLISH ==> r.0.dup == 0 && r.0.qos == 0 && r.0.retain == 0))
  {
  }

  /** A length byte after the header is complete, a continuation byte
      after three length bytes and a zero after a continuation byte are
      errors; any other length byte adds its seven bits at the current
      weight, and the first byte without the continuation bit completes
      the header. */
  lemma StepLengthByte(h: Header, b: byte)
    requires !h.failed && h.bytesRead > 0
    ensures var r := Step(h, b);
      && (h.finished ==> r.1 == DecodeError)
      && (h.multiplier > 128 * 128 && b >= 128 ==> r.1 == DecodeError)
      && (h.multiplier > 1 && b == 0 ==> r.1 == DecodeError)
      && (r.1 != DecodeError ==>
        && r.0.accumulator == h.accumulator + (b % 128) * h.multiplier
        && r.0.multiplier == h.multiplier * 128
        && r.0.ptype == h.ptype && r.0.dup == h.dup && r.0.qos == h.qos && r.0.retain == h.retain
        && (r.1 == DecodeContinue <==> b >= 128)
        && (r.1 == DecodeFinished ==> r.0.finished && r.0.remainingLength == r.0.accumulator)
        && (r.1 == DecodeContinue ==> !r.0.finished))
  {
  }

  /** The state after feeding `bs` byte by byte, and the result of each
      call. */
  function Feed(h: Header, bs: seq<byte>): (r: (Header, seq<DecodeResult>))
    ensures |r.1| == |bs|
    decreases |bs|
  {
    if bs == [] then (h, [])
    else
      var s := Step(h, bs[0]);
      var rest := Feed(s.0, bs[1..]);
      (rest.0, [s.1] + rest.1)
  }

  /** The decoder asked for more after every byte but the last, which
      completed the header. */
  predicate Accepted(rs: seq<DecodeResult>) {
    |rs| > 0 && rs[|rs| - 1] == DecodeFinished && forall i :: 0 <= i < |rs| - 1 ==> rs[i] == DecodeContinue
  }

  /** Once the decoder has failed, every later byte is an error and the
      state no longer changes. */
  lemma {:induction false} FailureIsSticky(h: Header, bs: seq<byte>)
    requires h.failed
    ensures Feed(h, bs).0 == h
    ensures forall i :: 0 <= i < |bs| ==> Feed(h, bs).1[i] == DecodeError
    decreases |bs|
  {
    if bs != [] {
      FailureIsSticky(h, bs[1..]);
    }
  }

  /** Any byte after the header is complete is an error, and so is every
      byte after that. */
  lemma NothingAfterFinished(h: Header, bs: seq<byte>)
    requires !h.failed && h.bytesRead > 0 && h.finished
    ensures forall i :: 0 <= i < |bs| ==> Feed(h, bs).1[i] == DecodeError
  {
    if bs != [] {
      FailureIsSticky(Step(h, bs[0]).0, bs[1..]);
    }
  }

  lemma MulSplit(m: int, d: int, q: int)
    ensures m * (d + 128 * q) == d * m + (m * 128) * q
  {
  }

  lemma Pow128Small(k: nat)
    ensures k <= 2 ==> Pow128(k) <= 128 * 128
    ensures k >= 1 ==> Pow128(k) > 1
    ensures k == 3 ==> Pow128(k) > 128 * 128
  {
    if k >= 1 {
      Pow128Small(k - 1);
    }
  }

  /** The length bytes of `Encoding(rest)`, read after `k` digits have
      been accumulated, complete the header with the accumulated value
      plus `rest` times the current digit weight. */
  lemma {:induction false} DecodeLengthDigits(h: Header, rest: nat, k: nat)
    requires !h.failed && h.bytesRead > 0 && !h.finished
    requires h.multiplier == Pow128(k) && k + |Encoding(rest)| <= 4
    requires k > 0 ==> rest > 0
    ensures var f := Feed(h, Encoding(rest));
      && Accepted(f.1) && !f.0.failed && f.0.finished
      && f.0.remainingLength == h.accumulator + h.multiplier * rest
      && f.0.ptype == h.ptype && f.0.dup == h.dup && f.0.qos == h.qos && f.0.retain == h.retain
    decreases rest
  {
    var enc := Encoding(rest);
    Pow128Small(k);
    if rest >= 128 {
      var b := enc[0];
      assert b == rest % 128 + 128;
      var s := Step(h, b);
      assert s.1 == DecodeContinue;
      assert enc[1..] == Encoding(rest / 128);
      DecodeLengthDigits(s.0, rest / 128, k + 1);
      MulSplit(h.multiplier, rest % 128, rest / 128);
      var f := Feed(h, enc);
      assert f.1 == [DecodeContinue] + Feed(s.0, enc[1..]).1;
    }
  }

  /** encode_remaining_length and fixed_header_decode agree: after a
      legal first byte, the bytes encode_remaining_length writes for `len`
      are decoded back to `len`, the last of them completing the header. */
  lemma RemainingLengthRoundTrip(h: Header, b0: byte, len: nat)
    requires Fresh(h) && LegalFirstByte(b0) && len <= MAX_REMAINING_LENGTH
    ensures var f := Feed(h, [b0] + Encoding(len));
      && Accepted(f.1) && !f.0.failed
      && f.0.remainingLength == len && f.0.ptype == b0 / 16
  {
    var s := Step(h, b0);
    DecodeLengthDigits(s.0, len, 0);
    assert ([b0] + Encoding(len))[1..] == Encoding(len);
  }

  /** Conversely, a sequence of length bytes the decoder accepts after
      `k` digits is the encoding of some number. */
  lemma {:induction false} AcceptedLengthDigits(h: Header, bs: seq<byte>, k: nat) returns (rest: nat)
    requires !h.failed && h.bytesRead > 0 && !h.finished
    requires h.multiplier == Pow128(k) && k <= 3
    requires Accepted(Feed(h, bs).1)
    ensures bs == Encoding(rest) && k + |bs| <= 4
    ensures k > 0 ==> rest > 0
    ensures Feed(h, bs).0.remainingLength == h.accumulator + h.multiplier * rest
    decreases |bs|
  {
    Pow128Small(k);
    var b := bs[0];
    var s := Step(h, b);
    var rs := Feed(h, bs).1;
    assert rs[0] == s.1;
    if |bs| == 1 {
      assert bs == [b];
      LastLengthDigit(h, b, k);
      rest := b;
    } else {
      assert s.1 == DecodeContinue;
      assert Feed(s.0, bs[1..]).1 == rs[1..];
      Pow128Small(k + 1);
      var rest' := AcceptedLengthDigits(s.0, bs[1..], k + 1);
      NextLengthDigit(h, bs, rest');
      rest := (b - 128) + 128 * rest';
    }
  }

  /** The length byte that completes the header is the encoding of
      itself, and is zero only as the first length byte. */
  lemma LastLengthDigit(h: Header, b: byte, k: nat)
    requires !h.failed && h.bytesRead > 0 && !h.finished && h.multiplier == Pow128(k)
    requires Step(h, b).1 == DecodeFinished
    ensures [b] == Encoding(b) && (k > 0 ==> b > 0)
    ensures Feed(h, [b]).0.remainingLength == h.accumulator + h.multiplier * b
  {
    var s := Step(h, b).0;
    StepLengthByte(h, b);
    assert b < 128;
    assert b % 128 == b;
    assert s.remainingLength == h.accumulator + b * h.multiplier;
    assert Feed(h, [b]).0 == s;
    if k > 0 {
      Pow128Small(k);
    }
  }

  /** A continuation byte in front of the encoding of `rest'` encodes the
      number the decoder accumulates from both. */
  lemma NextLengthDigit(h: Header, bs: seq<byte>, rest': nat)
    requires !h.failed && h.bytesRead > 0 && |bs| >= 2
    requires Step(h, bs[0]).1 == DecodeContinue
    requires bs[1..] == Encoding(rest') && rest' > 0
    requires var s := Step(h, bs[0]).0;
      Feed(s, bs[1..]).0.remainingLength == s.accumulator + s.multiplier * rest'
    ensures bs == Encoding((bs[0] - 128) + 128 * rest')
    ensures Feed(h, bs).0.remainingLength == h.accumulator + h.multiplier * ((bs[0] - 128) + 128 * rest')
  {
    var b := bs[0];
    var s := Step(h, b).0;
    StepLengthByte(h, b);
    EncodingCons(b, rest');
    assert bs == [b] + bs[1..];
    assert b % 128 == b - 128;
    assert s.accumulator == h.accumulator + (b - 128) * h.multiplier && s.multiplier == h.multiplier * 128;
    assert Feed(h, bs).0 == Feed(s, bs[1..]).0;
    MulSplit(h.multiplier, b - 128, rest');
  }

  /** A continuation byte `b` in front of the encoding of `rest'` encodes
      its low seven bits plus 128 times `rest'`. */
  lemma EncodingCons(b: byte, rest': nat)
    requires b >= 128 && rest' > 0
    ensures Encoding((b - 128) + 128 * rest') == [b] + Encoding(rest')
  {
    var rest := (b - 128) + 128 * rest';
    assert rest % 128 == b - 128 && rest / 128 == rest';
  }

  /** Only the shortest encodings of lengths up to MAX_REMAINING_LENGTH,
      after a legal first byte, are accepted: a fifth length byte, a
      continuation on the fourth, or a zero after a continuation byte is
      rejected. */
  lemma AcceptedIsCanonical(h: Header, b0: byte, bs: seq<byte>)
    requires Fresh(h)
    requires Accepted(Feed(h, [b0] + bs).1)
    ensures LegalFirstByte(b0)
    ensures var len := Feed(h, [b0] + bs).0.remainingLength;
      0 <= len <= MAX_REMAINING_LENGTH && bs == Encoding(len)
  {
    var s := Step(h, b0);
    var f := Feed(h, [b0] + bs);
    assert ([b0] + bs)[1..] == bs;
    assert f.1 == [s.1] + Feed(s.0, bs).1;
    assert f.1[0] == s.1;
    assert s.1 != DecodeFinished;
    assert |f.1| > 1;
    assert f.1[0] == DecodeContinue;
    assert Feed(s.0, bs).1 == f.1[1..];
    var rest := AcceptedLengthDigits(s.0, bs, 0);
    EncodingGrows(rest);
  }

  /** Numbers beyond MAX_REMAINING_LENGTH take more than four bytes. */
  lemma {:induction false} EncodingGrows(len: nat)
    ensures len > MAX_REMAINING_LENGTH ==> |Encoding(len)| > 4
  {
    if len > MAX_REMAINING_LENGTH {
      var l1 := len / 128;
      var l2 := l1 / 128;
      var l3 := l2 / 128;
      assert l3 >= 128;
      assert Encoding(len)[1..] == Encoding(l1);
      assert Encoding(l1)[1..] == Encoding(l2);
      assert Encoding(l2)[1..] == Encoding(l3);
    }
  }

  /** lmqtt_fixed_header_t as the rx buffer keeps it: decode() updates
      these fields in place. */
  class FixedHeaderDecoder {
    var ptype: int
    var dup: int
    var qos: int
    var retain: int
    var remainingLength: int
    var bytesRead: nat
    var failed: bool
    var multiplier: int
    var accumulator: int
    var finished: bool

    function State(): Header
      reads this
    {
      Header(ptype, dup, qos, retain, remainingLength, bytesRead, failed, multiplier, accumulator, finished)
    }

    constructor ()
      ensures State() == CLEARED
    {
      ptype, dup, qos, retain, remainingLength := 0, 0, 0, 0, 0;
      bytesRead, failed, multiplier, accumulator, finished := 0, false, 0, 0, false;
    }

    /** fixed_header_decode */
    method Decode(b: byte) returns (result: DecodeResult)
      modifies this
      ensures (State(), result) == Step(old(State()), b)
    {
      if failed {
        return DecodeError;
      }
      result := DecodeError;
      if bytesRead == 0 {
        var t, flags := b / 16, b % 16;
        var badFlags: bool;
        if t == TYPE_PUBREL || t == TYPE_SUBSCRIBE || t == TYPE_UNSUBSCRIBE {
          badFlags := flags != 2;
        } else if t == TYPE_PUBLISH {
          badFlags := (flags / 2) % 4 == 3 || flags / 2 == 4;
        } else {
          badFlags := flags != 0;
        }
        if t < TYPE_MIN || t > TYPE_MAX || badFlags {
          result := DecodeError;
        } else {
          ptype := t;
          multiplier := 1;
          accumulator := 0;
          finished := false;
          if t == TYPE_PUBLISH {
            dup, qos, retain := flags / 8, (flags / 2) % 4, flags % 2;
          } else {
            dup, qos, retain := 0, 0, 0;
          }
          result := DecodeContinue;
        }
      } else {
        if (multiplier > 128 * 128 && b >= 128) || (multiplier > 1 && b == 0) || finished {
          result := DecodeError;
        } else {
          accumulator := accumulator + (b % 128) * multiplier;
          multiplier := multiplier * 128;
          if b >= 128 {
            result := DecodeContinue;
          } else {
            remainingLength := accumulator;
            finished := true;
            result := DecodeFinished;
          }
        }
      }
      if result == DecodeError {
        failed := true;
      } else {
        bytesRead := bytesRead + 1;
      }
    }
  }
}
