// The "Remaining Length" field of the MQTT fixed header: a variable
// byte integer, seven bits per byte, least significant group first, the
// top bit saying that another byte follows (section 2.2.3 of MQTT 3.1.1).
// encode_remaining_length in src/lmqtt_packet.c.

module RemainingLength {
  import opened Base

  /** The largest remaining length the protocol can express. */
  const MAX_REMAINING_LENGTH: int := 0x0fff_ffff

  /** The number a sequence of length bytes stands for. */
  function DigitsValue(bs: seq<byte>): nat {
    if bs == [] then 0 else bs[0] % 128 + 128 * DigitsValue(bs[1..])
  }

  /** The bytes encode_remaining_length writes for `len`. */
  function Encoding(len: nat): (r: seq<byte>)
    ensures 1 <= |r|
    ensures len < 0x80 ==> |r| == 1
    ensures 0x80 <= len < 0x4000 ==> |r| == 2
    ensures 0x4000 <= len < 0x20_0000 ==> |r| == 3
    ensures 0x20_0000 <= len <= MAX_REMAINING_LENGTH ==> |r| == 4
    decreases len
  {
    if len < 128 then [len] else [len % 128 + 128] + Encoding(len / 128)
  }

  /** Every byte but the last carries the continuation bit 0x80, the
      last does not and is zero only when it is the only byte (the
      encoding is the shortest one), and the digits add up to `len`. */
  lemma {:induction false} EncodingDigits(len: nat)
    ensures var r := Encoding(len);
      && (forall i :: 0 <= i < |r| - 1 ==> r[i] >= 128)
      && r[|r| - 1] < 128
      && (|r| > 1 ==> r[|r| - 1] != 0)
      && DigitsValue(r) == len
    decreases len
  {
    if len >= 128 {
      EncodingDigits(len / 128);
      var r := Encoding(len);
      assert r[1..] == Encoding(len / 128);
    }
  }

  /** encode_remaining_length: write the encoding of `len` into `buf` at
      `at` and return how many bytes it took. The source asserts the
      range of `len` and leaves it to its callers to provide four bytes. */
  method EncodeRemainingLength(len: int, buf: array<byte>, at: nat) returns (n: nat)
    requires 0 <= len <= MAX_REMAINING_LENGTH
    requires at + 4 <= buf.Length
    modifies buf
    ensures n == |Encoding(len)| && at + n <= buf.Length
    ensures buf[at..at + n] == Encoding(len)
    ensures buf[..at] == old(buf[..at]) && buf[at + n..] == old(buf[at + n..])
  {
    ghost var enc := Encoding(len);
    var rest := len;
    var done := false;
    n := 0;
    while !done
      invariant 0 <= rest <= len
      invariant n <= |enc| <= 4
      invariant done ==> n == |enc|
      invariant !done ==> n < |enc| && enc[n..] == Encoding(rest)
      invariant forall j :: 0 <= j < n ==> buf[at + j] == enc[j]
      invariant forall j :: 0 <= j < buf.Length && !(at <= j < at + n) ==> buf[j] == old(buf[j])
      decreases rest + (if done then 0 else 1)
    {
      ghost var tail := Encoding(rest);
      var b := rest % 128;
      rest := rest / 128;
      var digit := if rest > 0 then b + 128 else b;
      assert tail[0] == digit;
      assert rest > 0 ==> tail[1..] == Encoding(rest);
      assert rest == 0 ==> |tail| == 1;
      buf[at + n] := digit;
      n := n + 1;
      done := rest == 0;
    }
    assert buf[at..at + n] == enc;
    assert buf[..at] == old(buf[..at]);
    assert buf[at + n..] == old(buf[at + n..]);
  }
}
