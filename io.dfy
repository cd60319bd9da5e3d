// The byte pump between a producer and a consumer of a client's buffer
// (lmqtt_io_t with io_append, io_shift and io_exec in src/lmqtt_client.c).
// An input side appends what its callback produced at the end of the
// buffer; an output side drops from the front what its callback consumed.

module Io {
  import opened Base

  /** lmqtt_io_status_t: what one round of transfers reports. */
  datatype IoStatus = IoStatusReady | IoStatusBlockConn | IoStatusBlockData | IoStatusError

  /** The step io_exec runs after its callback: io_append or io_shift. */
  datatype AfterExec = AppendAfter | ShiftAfter

  /** A client's read or write buffer and its fill position
      (read_buf/read_buf_pos, write_buf/write_buf_pos). */
  class Buffer {
    const data: array<byte>
    var pos: nat

    ghost predicate Valid()
      reads this
    {
      pos <= data.Length
    }

    /** The bytes waiting in the buffer. */
    ghost function Contents(): seq<byte>
      reads this, data
      requires Valid()
    {
      data[..pos]
    }

    constructor (capacity: nat)
      ensures Valid() && fresh(data) && data.Length == capacity && Contents() == []
    {
      data := new byte[capacity];
      pos := 0;
    }
  }

  /** lmqtt_io_t. The callback and its data are outside this model: each
      call of Exec is told what the callback reported. */
  class Io {
    const blockStatus: IoStatus
    var available: bool
    var stale: bool
    var result: IoResult
    /** `size_t count`; io_initialize stores -1 in it, and it is only
        read after the callback has set it. */
    var count: int

    /** io_initialize */
    constructor (blockStatus: IoStatus)
      ensures this.blockStatus == blockStatus
      ensures available && stale && result == IoSuccess && count == -1
    {
      this.blockStatus := blockStatus;
      available := true;
      stale := true;
      result := IoSuccess;
      count := -1;
    }

    /** io_is_eof: the callback succeeded without moving a byte. */
    predicate IsEof()
      reads this
    {
      result == IoSuccess && count == 0
    }

    /** io_append: the `count` bytes the callback stored after the
        buffer's contents now belong to it. */
    method Append(buf: Buffer)
      requires buf.Valid() && 0 <= count && buf.pos + count <= buf.data.Length
      modifies buf`pos
      ensures buf.Valid() && buf.pos == old(buf.pos) + count
      ensures buf.Contents() == old(buf.data[..buf.pos + count])
    {
      buf.pos := buf.pos + count;
    }

    /** io_shift: the `count` bytes the callback consumed leave the front
        of the buffer; the rest move to the front in order. */
    method Shift(buf: Buffer)
      requires buf.Valid() && 0 <= count <= buf.pos
      modifies buf`pos, buf.data
      ensures buf.Valid() && buf.pos == old(buf.pos) - count
      ensures buf.Contents() == old(buf.Contents())[count..]
      ensures buf.data[..] == old(buf.data[count..buf.pos]) + old(buf.data[buf.pos - count..])
    {
      MoveDown(buf.data, count, buf.pos - count);
      buf.pos := buf.pos - count;
    }

    /** The memmove of io_shift: the `n` bytes at `from` move to the front
        of `a`; the bytes from `n` on keep what they held. */
    static method MoveDown(a: array<byte>, from: nat, n: nat)
      requires from + n <= a.Length
      modifies a
      ensures a[..] == old(a[from..from + n]) + old(a[n..])
      ensures a[..n] == old(a[..from + n])[from..]
    {
      ghost var before := a[..];
      var i := 0;
      while i < n
        invariant 0 <= i <= n
        invariant forall j :: 0 <= j < i ==> a[j] == before[j + from]
        invariant forall j :: i <= j < a.Length ==> a[j] == before[j]
      {
        a[i] := a[i + from];
        i := i + 1;
      }
      ShiftedView(before, a[..], from, n + from);
    }

    /** A buffer whose first `pos - count` bytes were moved down by
        `count` and whose other bytes stayed put. */
    static lemma ShiftedView(before: seq<byte>, after: seq<byte>, count: nat, pos: nat)
      requires count <= pos <= |before| == |after|
      requires forall j :: 0 <= j < pos - count ==> after[j] == before[j + count]
      requires forall j :: pos - count <= j < |after| ==> after[j] == before[j]
      ensures after == before[count..pos] + before[pos - count..]
      ensures after[..pos - count] == before[..pos][count..]
    {
      var moved := before[count..pos] + before[pos - count..];
      forall j | 0 <= j < |after|
        ensures after[j] == moved[j]
      {
        if j < pos - count {
          assert moved[j] == before[j + count];
        } else {
          assert moved[j] == before[j];
        }
      }
    }

    /** What the input callback stores: `incoming` at offset `at`. */
    static method Store(buf: Buffer, at: nat, incoming: seq<byte>)
      requires at + |incoming| <= buf.data.Length
      modifies buf.data
      ensures buf.data[..] == old(buf.data[..at]) + incoming + old(buf.data[at + |incoming|..])
    {
      ghost var before := buf.data[..];
      var i := 0;
      while i < |incoming|
        modifies buf.data
        invariant 0 <= i <= |incoming|
        invariant forall j :: 0 <= j < buf.data.Length && !(at <= j < at + i) ==> buf.data[j] == before[j]
        invariant forall j :: 0 <= j < i ==> buf.data[at + j] == incoming[j]
      {
        buf.data[at + i] := incoming[i];
        i := i + 1;
      }
      assert buf.data[..] == before[..at] + incoming + before[at + |incoming|..];
    }

    /** io_exec: while this side is available and the window
        [left, right) of the buffer is not empty, call the callback, which
        reports `callResult` and a byte count `callCount` (and, for an
        input side, stores `incoming` at `left`), then append or shift.
        The side stays available only while its callback moves bytes, and
        stops being stale once it has. The result is false only after an
        error. */
    method Exec(buf: Buffer, after: AfterExec, left: int, right: int,
                callResult: IoResult, callCount: nat, incoming: seq<byte>) returns (ok: bool)
      requires buf.Valid()
      requires after == AppendAfter ==> left == buf.pos && right == buf.data.Length && |incoming| == callCount
      requires after == ShiftAfter ==> left == 0 && right == buf.pos
      requires left < right ==> callCount <= right - left
      modifies this`available, this`stale, this`result, this`count, buf`pos, buf.data
      ensures buf.Valid()
      ensures ok <==> result != IoError
      ensures !(old(available) && left < right) ==>
        && !available && result == old(result) && count == old(count) && stale == old(stale)
        && buf.pos == old(buf.pos) && buf.data[..] == old(buf.data[..])
      ensures old(available) && left < right ==>
        && result == callResult && count == callCount
        && available == (callResult == IoSuccess && callCount > 0)
        && stale == (old(stale) && !available)
      ensures old(available) && left < right && after == AppendAfter ==>
        buf.Contents() == old(buf.Contents()) + incoming
        && buf.data[buf.pos..] == old(buf.data[..])[buf.pos..]
      ensures old(available) && left < right && after == ShiftAfter ==>
        buf.Contents() == old(buf.Contents())[callCount..]
    {
      available := available && left < right;
      if available {
        if after == AppendAfter {
          Store(buf, left as nat, incoming);
        }
        result := callResult;
        count := callCount;
        if after == AppendAfter {
          ghost var stored := buf.data[..];
          Append(buf);
          assert buf.data[..buf.pos] == stored[..old(buf.pos) + callCount];
        } else {
          Shift(buf);
        }
        available := result == IoSuccess && count > 0;
        if available {
          stale := false;
        }
      }
      ok := result != IoError;
    }
  }
}
