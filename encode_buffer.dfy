// lmqtt_encode_buffer_t and encode_buffer_encode (src/lmqtt_packet.c):
// the sixteen-byte scratch buffer in which the fixed-size parts of a
// packet are built once and then copied out to the caller's buffer in as
// many calls as the caller's room requires.

module EncodeBuffer {
  import opened Base
  import opened PacketTypes

  const ENCODE_BUFFER_SIZE: int := 16

  class EncodeBuffer {
    /** Whether the builder has run for the part being sent. */
    var encoded: bool
    /** How many bytes of `buf` the builder produced. */
    var bufLen: nat
    const buf: array<byte>

    ghost predicate Valid()
      reads this
    {
      buf.Length == ENCODE_BUFFER_SIZE && bufLen <= buf.Length
    }

    /** The bytes built and not yet acknowledged as sent. */
    function Contents(): seq<byte>
      reads this, buf
      requires Valid()
    {
      buf[..bufLen]
    }

    /** The state memset leaves: nothing built, every byte zero. */
    predicate Cleared()
      reads this, buf
    {
      !encoded && bufLen == 0 && forall i :: 0 <= i < buf.Length ==> buf[i] == 0
    }

    constructor ()
      ensures Valid() && Cleared()
    {
      encoded := false;
      bufLen := 0;
      buf := new byte[ENCODE_BUFFER_SIZE](_ => 0);
    }

    /** encode_buffer_encode. `built` is what the part's builder lays out
        in the buffer; it is used only when nothing is built yet. The bytes
        from `offset` are copied to `out`, at most `outLen` of them; the
        call finishes, and the buffer is cleared, exactly when the rest
        fits. */
    method Encode(built: seq<byte>, offset: nat, out: array<byte>, outLen: nat)
      returns (result: EncodeResult, written: nat)
      requires Valid() && out != buf && outLen <= out.Length
      requires !encoded ==> 0 < |built| <= ENCODE_BUFFER_SIZE && offset < |built|
      requires encoded ==> 0 < bufLen && offset < bufLen
      modifies this`encoded, this`bufLen, buf, out
      ensures Valid()
      ensures var data := if old(encoded) then old(Contents()) else built;
        && written == (if outLen < |data| - offset then outLen else |data| - offset)
        && out[..written] == data[offset..offset + written]
        && out[written..] == old(out[written..])
        && (result == EncodeFinished <==> offset + outLen >= |data|)
        && (result == EncodeFinished ==> Cleared())
        && (result != EncodeFinished ==> result == EncodeContinue && encoded && Contents() == data)
    {
      if !encoded {
        Fill(buf, built);
        bufLen := |built|;
        encoded := true;
      }
      ghost var data := Contents();
      var cnt := bufLen - offset;
      result := EncodeFinished;
      if cnt > outLen {
        cnt := outLen;
        result := EncodeContinue;
      }
      CopyOut(buf, offset, out, cnt);
      written := cnt;
      assert data[offset..offset + written] == buf[offset..offset + written];
      if result == EncodeFinished {
        encoded := false;
        bufLen := 0;
        Zero(buf);
      }
    }

    /** The builder laying out `bs` at the front of `a`. */
    static method Fill(a: array<byte>, bs: seq<byte>)
      requires |bs| <= a.Length
      modifies a
      ensures a[..|bs|] == bs
    {
      var i := 0;
      while i < |bs|
        invariant 0 <= i <= |bs|
        invariant forall j :: 0 <= j < i ==> a[j] == bs[j]
      {
        a[i] := bs[i];
        i := i + 1;
      }
    }

    /** The memcpy of `cnt` bytes from `src` at `from` to the front of `out`. */
    static method CopyOut(src: array<byte>, from: nat, out: array<byte>, cnt: nat)
      requires src != out && from + cnt <= src.Length && cnt <= out.Length
      modifies out
      ensures out[..cnt] == src[from..from + cnt]
      ensures out[cnt..] == old(out[cnt..])
    {
      var i := 0;
      while i < cnt
        invariant 0 <= i <= cnt
        invariant forall j :: 0 <= j < i ==> out[j] == src[from + j]
        invariant forall j :: i <= j < out.Length ==> out[j] == old(out[j])
      {
        out[i] := src[from + i];
        i := i + 1;
      }
    }

    /** The memset that clears the buffer. */
    static method Zero(a: array<byte>)
      modifies a
      ensures forall i :: 0 <= i < a.Length ==> a[i] == 0
    {
      var k := 0;
      while k < a.Length
        invariant 0 <= k <= a.Length
        invariant forall j :: 0 <= j < k ==> a[j] == 0
      {
        a[k] := 0;
        k := k + 1;
      }
    }
  }
}
