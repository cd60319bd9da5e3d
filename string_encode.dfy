// Resumable serialisation of an lmqtt_string_t: its optional two-byte
// length prefix followed by its bytes, read from a buffer or from a read
// callback, written in as many calls as the output buffer requires
// (string_move, string_read and string_encode in src/lmqtt_packet.c).

module StringEncode {
  import opened Base
  import opened PacketTypes


  /** lmqtt_string_result_t */
  datatype StringResult = StringSuccess | StringWouldBlock | StringOsError | StringInvalidObject

  /** What a string's read callback does when asked for bytes: its status
      and the bytes it delivers. The callback itself is not modelled. */
  datatype ReadOutcome = ReadOutcome(status: IoResult, data: seq<byte>)

  /** One call of string_encode as its caller sees it: the result, the
      bytes written to the output buffer, the string with its updated read
      position, and whether the encode buffer now records the string as
      blocking (`blocking_str`) or an encode error. */
  datatype Outcome = Outcome(result: EncodeResult, written: seq<byte>, str: LString,
                             blocking: bool, error: bool)

  /** The C code trusts a read callback never to deliver more bytes than it
      was asked for, and asserts that a buffer read stays within the
      string. */
  predicate ReadFits(s: LString, n: int, io: ReadOutcome) {
    && (s.hasRead && n > 0 ==> |io.data| <= n)
    && (s.buf.Some? && !s.hasRead && n > 0 ==> 0 <= s.pos && s.pos + n <= s.len <= |s.buf.value|)
  }

  /** string_read (string_move in the reading direction): read `n` bytes
      of the string. */
  function StringRead(s: LString, n: int, io: ReadOutcome): (r: (StringResult, seq<byte>, LString))
    requires ReadFits(s, n, io)
    ensures r.2.len == s.len && r.2.buf == s.buf && r.2.hasRead == s.hasRead
    ensures n > 0 ==> |r.1| <= n
    ensures n <= 0 ==> r.1 == []
    ensures s.hasRead && s.buf.Some? ==> r.0 == StringInvalidObject
    ensures !s.hasRead && s.buf.None? && n > 0 ==> r.0 == StringInvalidObject
    ensures IsBufferString(s) && n > 0 ==>
      r.0 == StringSuccess && r.1 == s.buf.value[s.pos..s.pos + n] && r.2.pos == s.pos + n
    ensures s.hasRead && s.buf.None? && n > 0 ==>
      r.1 == io.data && r.2 == s && (r.0 == StringSuccess <==> io.status == IoSuccess)
      && (r.0 == StringWouldBlock <==> io.status == IoWouldBlock)
  {
    if s.hasRead && s.buf.Some? then (StringInvalidObject, [], s)
    else if n <= 0 then (StringSuccess, [], s)
    else if s.hasRead then
      var status := match io.status
        case IoSuccess => StringSuccess
        case IoWouldBlock => StringWouldBlock
        case IoError => StringOsError;
      (status, io.data, s)
    else if s.buf.Some? then (StringSuccess, s.buf.value[s.pos..s.pos + n], s.(pos := s.pos + n))
    else (StringInvalidObject, [], s)
  }

  /** The bytes of the length prefix, most significant first
      (STRING_LEN_BYTE keeps the low 16 bits). */
  function LengthPrefix(len: int): seq<byte> {
    [(len / 256) % 256, len % 256]
  }

  /** The prefix bytes still to be written when resuming at `offset`. */
  function PendingPrefix(s: LString, encodeLen: bool, offset: nat): seq<byte> {
    if !encodeLen then [] else if offset >= 2 then [] else LengthPrefix(s.len)[offset..]
  }

  /** Where in the string's bytes a call resuming at `offset` starts. */
  function StrOffset(encodeLen: bool, offset: nat): nat {
    if !encodeLen then offset else if offset <= STRING_LEN_SIZE then 0 else offset - STRING_LEN_SIZE
  }

  /** The string as the read sees it: the read position is reset when the
      call starts at the string's first byte. */
  function ReadFrom(s: LString, encodeLen: bool, offset: nat): LString {
    if StrOffset(encodeLen, offset) == 0 then s.(pos := 0) else s
  }

  /** How many bytes of the string a call asks for: what remains of it,
      capped by the room left after the prefix. */
  function ReadCount(s: LString, encodeLen: bool, offset: nat, bufLen: nat): int {
    var remaining := s.len - StrOffset(encodeLen, offset);
    var room := bufLen - |PendingPrefix(s, encodeLen, offset)|;
    if remaining > room then room else remaining
  }

  /** What string_encode demands of its callers: a non-negative length,
      an offset inside the field whenever something is to be written,
      and a read that fits (see ReadFits). */
  predicate EncodeRequest(s: LString, encodeLen: bool, encodeIfEmpty: bool, offset: nat, bufLen: nat,
                          io: ReadOutcome) {
    && 0 <= s.len
    && ((s.len != 0 || encodeIfEmpty) && bufLen > 0 ==>
          offset < s.len + (if encodeLen then STRING_LEN_SIZE else 0))
    && ReadFits(ReadFrom(s, encodeLen, offset), ReadCount(s, encodeLen, offset, bufLen), io)
  }

  /** string_encode, with the test that ends a call inside the length
      prefix as a parameter: as written it counts only the prefix bytes
      written by this call (`pos`); `countOffset` also counts those
      written by earlier calls (`offset + pos`). */
  function Encode(s: LString, encodeLen: bool, encodeIfEmpty: bool, offset: nat, bufLen: nat,
                  io: ReadOutcome, countOffset: bool): (o: Outcome)
    requires EncodeRequest(s, encodeLen, encodeIfEmpty, offset, bufLen, io)
  {
    if s.len == 0 && !encodeIfEmpty then Outcome(EncodeFinished, [], s, false, false)
    else if bufLen == 0 then Outcome(EncodeContinue, [], s, false, false)
    else
      var prefix := PendingPrefix(s, encodeLen, offset);
      if |prefix| >= bufLen then
        // the output buffer fills up inside the length prefix
        var w := prefix[..bufLen];
        var prefixDone := if countOffset then offset + |w| >= STRING_LEN_SIZE else |w| >= STRING_LEN_SIZE;
        Outcome(if prefixDone && s.len == 0 then EncodeFinished else EncodeContinue, w, s, false, false)
      else
        var remaining := s.len - StrOffset(encodeLen, offset);
        var read := StringRead(ReadFrom(s, encodeLen, offset), ReadCount(s, encodeLen, offset, bufLen), io);
        var w := prefix + read.1;
        if read.0 == StringWouldBlock then Outcome(EncodeWouldBlock, w, read.2, true, false)
        else if read.0 == StringSuccess && |read.1| >= remaining then Outcome(EncodeFinished, w, read.2, false, false)
        else if read.0 == StringSuccess && |read.1| > 0 then Outcome(EncodeContinue, w, read.2, false, false)
        else Outcome(EncodeError, w, read.2, false, true)
  }

  /** The whole field a string is serialised to. */
  function Field(s: LString, encodeLen: bool): seq<byte>
    requires IsBufferString(s)
  {
    (if encodeLen then LengthPrefix(s.len) else []) + s.buf.value
  }

  /** An empty string sent with its prefix, resumed after the first prefix
      byte with room for one more byte: the call as written writes the
      last byte of the field and yet reports CONTINUE, so the next call
      comes at an offset equal to the field's length, which string_encode
      asserts against. */
  lemma EmptyStringResumedAtLastByte()
    ensures var s := LString(0, Some([]), false, 0);
      var io := ReadOutcome(IoSuccess, []);
      var o := StringEncodeAsWritten(s, true, true, 1, 1, io);
      && o.result == EncodeContinue && o.written == Field(s, true)[1..]
      && 1 + |o.written| == |Field(s, true)|
      && !EncodeRequest(s, true, true, 1 + |o.written|, 1, io)
  {
  }

  /** string_encode, ending the call as finished once the whole prefix of
      an empty string has been written, by this call or earlier ones. */
  function StringEncode(s: LString, encodeLen: bool, encodeIfEmpty: bool, offset: nat, bufLen: nat,
                        io: ReadOutcome): (o: Outcome)
    requires EncodeRequest(s, encodeLen, encodeIfEmpty, offset, bufLen, io)
    ensures o.error <==> o.result == EncodeError
    ensures o.blocking <==> o.result == EncodeWouldBlock
    ensures |o.written| <= bufLen
    ensures o.str.len == s.len && o.str.buf == s.buf && o.str.hasRead == s.hasRead
    ensures s.len == 0 && !encodeIfEmpty ==> o == Outcome(EncodeFinished, [], s, false, false)
    ensures (s.len != 0 || encodeIfEmpty) && bufLen == 0 ==> o == Outcome(EncodeContinue, [], s, false, false)
  {
    Encode(s, encodeLen, encodeIfEmpty, offset, bufLen, io, true)
  }

  /** string_encode as written. */
  function StringEncodeAsWritten(s: LString, encodeLen: bool, encodeIfEmpty: bool, offset: nat, bufLen: nat,
                                 io: ReadOutcome): (o: Outcome)
    requires EncodeRequest(s, encodeLen, encodeIfEmpty, offset, bufLen, io)
    ensures o.written == StringEncode(s, encodeLen, encodeIfEmpty, offset, bufLen, io).written
    ensures offset == 0 || s.len != 0 || !encodeLen ==> o == StringEncode(s, encodeLen, encodeIfEmpty, offset, bufLen, io)
  {
    Encode(s, encodeLen, encodeIfEmpty, offset, bufLen, io, false)
  }

  /** The read position of a buffer string is where a call resuming at
      `offset` continues reading; the caller keeps it so between calls. */
  predicate InStep(s: LString, encodeLen: bool, offset: nat) {
    StrOffset(encodeLen, offset) > 0 ==> s.pos == StrOffset(encodeLen, offset)
  }

  /** A string held in a buffer is written as a resumable chunked copy of
      its field: each call writes the next bytes of the field from
      `offset`, as many as fit, and reports FINISHED exactly when they
      reach the end of the field, leaving the read position ready for the
      next call otherwise. */
  lemma BufferStringChunk(s: LString, encodeLen: bool, encodeIfEmpty: bool, offset: nat, bufLen: nat,
                          io: ReadOutcome)
    requires IsBufferString(s) && s.len <= 0xffff && (s.len != 0 || encodeIfEmpty)
    requires offset < |Field(s, encodeLen)| && bufLen > 0 && InStep(s, encodeLen, offset)
    ensures EncodeRequest(s, encodeLen, encodeIfEmpty, offset, bufLen, io)
    ensures var o := StringEncode(s, encodeLen, encodeIfEmpty, offset, bufLen, io);
      var f := Field(s, encodeLen);
      var k := if bufLen < |f| - offset then bufLen else |f| - offset;
      && o.written == f[offset..offset + k]
      && (o.result == EncodeFinished <==> offset + k == |f|)
      && (o.result != EncodeFinished ==> o.result == EncodeContinue && InStep(o.str, encodeLen, offset + k))
  {
    var f := Field(s, encodeLen);
    var prefix := PendingPrefix(s, encodeLen, offset);
    var from := StrOffset(encodeLen, offset);
    assert |f| - offset == |prefix| + s.len - from;
    assert f[offset..] == prefix + s.buf.value[from..];
    ChunkRequest(s, encodeLen, encodeIfEmpty, offset, bufLen, io);
    if |prefix| >= bufLen {
      PrefixChunk(s, encodeLen, encodeIfEmpty, offset, bufLen, io);
    } else {
      BodyChunk(s, encodeLen, encodeIfEmpty, offset, bufLen, io);
    }
  }

  lemma ChunkRequest(s: LString, encodeLen: bool, encodeIfEmpty: bool, offset: nat, bufLen: nat,
                     io: ReadOutcome)
    requires IsBufferString(s) && s.len <= 0xffff && (s.len != 0 || encodeIfEmpty)
    requires offset < |Field(s, encodeLen)| && bufLen > 0 && InStep(s, encodeLen, offset)
    ensures EncodeRequest(s, encodeLen, encodeIfEmpty, offset, bufLen, io)
  {
  }

  /** The call ends inside the length prefix. */
  lemma PrefixChunk(s: LString, encodeLen: bool, encodeIfEmpty: bool, offset: nat, bufLen: nat,
                    io: ReadOutcome)
    requires IsBufferString(s) && s.len <= 0xffff && (s.len != 0 || encodeIfEmpty)
    requires offset < |Field(s, encodeLen)| && bufLen > 0 && InStep(s, encodeLen, offset)
    requires EncodeRequest(s, encodeLen, encodeIfEmpty, offset, bufLen, io)
    requires |PendingPrefix(s, encodeLen, offset)| >= bufLen
    ensures var o := StringEncode(s, encodeLen, encodeIfEmpty, offset, bufLen, io);
      var f := Field(s, encodeLen);
      && bufLen <= |f| - offset
      && o.written == f[offset..offset + bufLen]
      && (o.result == EncodeFinished <==> offset + bufLen == |f|)
      && (o.result != EncodeFinished ==> o.result == EncodeContinue && InStep(o.str, encodeLen, offset + bufLen))
  {
    var f := Field(s, encodeLen);
    assert encodeLen && offset < 2;
    assert f[..2] == LengthPrefix(s.len);
  }

  /** The call writes what is left of the prefix and then the next
      bytes of the string, as many as fit. */
  lemma BodyOutcome(s: LString, encodeLen: bool, encodeIfEmpty: bool, offset: nat, bufLen: nat,
                    io: ReadOutcome)
    requires IsBufferString(s) && s.len <= 0xffff && (s.len != 0 || encodeIfEmpty)
    requires offset < |Field(s, encodeLen)| && bufLen > 0 && InStep(s, encodeLen, offset)
    requires EncodeRequest(s, encodeLen, encodeIfEmpty, offset, bufLen, io)
    requires |PendingPrefix(s, encodeLen, offset)| < bufLen
    ensures var o := StringEncode(s, encodeLen, encodeIfEmpty, offset, bufLen, io);
      var from, n := StrOffset(encodeLen, offset), ReadCount(s, encodeLen, offset, bufLen);
      && 0 <= n <= s.len - from
      && o.written == PendingPrefix(s, encodeLen, offset) + s.buf.value[from..from + n]
      && o.str.pos == from + n
      && (o.result == EncodeFinished <==> n == s.len - from)
      && (o.result != EncodeFinished ==> o.result == EncodeContinue)
  {
    var from, n := StrOffset(encodeLen, offset), ReadCount(s, encodeLen, offset, bufLen);
    var s1 := ReadFrom(s, encodeLen, offset);
    assert s1.pos == from;
    var read := StringRead(s1, n, io);
    assert read.0 == StringSuccess && read.1 == s.buf.value[from..from + n];
  }

  lemma BodyChunk(s: LString, encodeLen: bool, encodeIfEmpty: bool, offset: nat, bufLen: nat,
                  io: ReadOutcome)
    requires IsBufferString(s) && s.len <= 0xffff && (s.len != 0 || encodeIfEmpty)
    requires offset < |Field(s, encodeLen)| && bufLen > 0 && InStep(s, encodeLen, offset)
    requires EncodeRequest(s, encodeLen, encodeIfEmpty, offset, bufLen, io)
    requires |PendingPrefix(s, encodeLen, offset)| < bufLen
    ensures var o := StringEncode(s, encodeLen, encodeIfEmpty, offset, bufLen, io);
      var f := Field(s, encodeLen);
      var k := if bufLen < |f| - offset then bufLen else |f| - offset;
      && o.written == f[offset..offset + k]
      && (o.result == EncodeFinished <==> offset + k == |f|)
      && (o.result != EncodeFinished ==> o.result == EncodeContinue && InStep(o.str, encodeLen, offset + k))
  {
    BodyOutcome(s, encodeLen, encodeIfEmpty, offset, bufLen, io);
    FieldChunk(s, encodeLen, offset, bufLen);
  }

  /** Past the prefix, the next `k` bytes of the field are what is left of
      the prefix and then the `ReadCount` bytes of the string a call reads;
      they reach the end of the field exactly when the read takes the rest
      of the string, and a call resuming after them starts reading where
      this one stopped. */
  lemma FieldChunk(s: LString, encodeLen: bool, offset: nat, bufLen: nat)
    requires IsBufferString(s) && s.len <= 0xffff
    requires offset < |Field(s, encodeLen)| && |PendingPrefix(s, encodeLen, offset)| < bufLen
    ensures var f, from, n := Field(s, encodeLen), StrOffset(encodeLen, offset), ReadCount(s, encodeLen, offset, bufLen);
      var k := if bufLen < |f| - offset then bufLen else |f| - offset;
      && 0 <= n <= s.len - from
      && f[offset..offset + k] == PendingPrefix(s, encodeLen, offset) + s.buf.value[from..from + n]
      && (offset + k == |f| <==> n == s.len - from)
      && StrOffset(encodeLen, offset + k) == from + n
  {
    var f := Field(s, encodeLen);
    FieldChunkCounts(s, encodeLen, offset, bufLen);
    FieldChunkBytes(s, encodeLen, offset, if bufLen < |f| - offset then bufLen else |f| - offset);
  }

  /** Past the prefix, a call reads `ReadCount` bytes of the string: it
      reaches the end of the field exactly when it reads the rest of the
      string, and a call resuming after it starts reading where this one
      stopped. */
  lemma FieldChunkCounts(s: LString, encodeLen: bool, offset: nat, bufLen: nat)
    requires IsBufferString(s) && s.len <= 0xffff
    requires offset < |Field(s, encodeLen)| && |PendingPrefix(s, encodeLen, offset)| < bufLen
    ensures var f, from, n := Field(s, encodeLen), StrOffset(encodeLen, offset), ReadCount(s, encodeLen, offset, bufLen);
      var k := if bufLen < |f| - offset then bufLen else |f| - offset;
      && 0 <= n <= s.len - from
      && n == k - |PendingPrefix(s, encodeLen, offset)|
      && (offset + k == |f| <==> n == s.len - from)
      && StrOffset(encodeLen, offset + k) == from + n
  {
  }

  /** The next `k` bytes of the field are what is left of the prefix and
      then the next `k - |prefix|` bytes of the string. */
  lemma FieldChunkBytes(s: LString, encodeLen: bool, offset: nat, k: nat)
    requires IsBufferString(s) && s.len <= 0xffff
    requires |PendingPrefix(s, encodeLen, offset)| <= k <= |Field(s, encodeLen)| - offset
    ensures var prefix, from := PendingPrefix(s, encodeLen, offset), StrOffset(encodeLen, offset);
      from + k - |prefix| <= s.len
      && Field(s, encodeLen)[offset..offset + k] == prefix + s.buf.value[from..from + k - |prefix|]
  {
    var f := Field(s, encodeLen);
    var prefix := PendingPrefix(s, encodeLen, offset);
    var from := StrOffset(encodeLen, offset);
    var body := s.buf.value[from..];
    assert f[offset..] == prefix + body;
    TakeOfConcat(prefix, body, k);
    assert body[..k - |prefix|] == s.buf.value[from..from + k - |prefix|];
    assert f[offset..offset + k] == f[offset..][..k];
  }

  /** The first `k` bytes of `a + b` reach into `b` once `k` passes `a`. */
  lemma TakeOfConcat(a: seq<byte>, b: seq<byte>, k: nat)
    requires |a| <= k <= |a| + |b|
    ensures (a + b)[..k] == a + b[..k - |a|]
  {
  }
}
