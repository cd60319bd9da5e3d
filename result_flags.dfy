// The result word of lmqtt_client_run_once and the predicates that
// decode it (include/lightmqtt/client.h). A result is a C `int`; it is
// modelled as a 32-bit vector so that the masks are exact.

module ResultFlags {
  type Res = bv32

  const RES_ERROR: Res := 0x00ff
  const RES_WOULD_BLOCK_CONN_RD: Res := 0x0100
  const RES_WOULD_BLOCK_CONN_WR: Res := 0x0200
  const RES_WOULD_BLOCK_DATA_RD: Res := 0x0400
  const RES_WOULD_BLOCK_DATA_WR: Res := 0x0800
  const RES_EOF: Res := 0x1000
  const RES_QUEUEABLE: Res := 0x2000
  const RES_EOF_RD: Res := 0x1100
  const RES_EOF_WR: Res := 0x1200

  /** Bit `k` of `res` is set. */
  predicate Bit(res: Res, k: nat)
    requires k < 32
  {
    (res >> k) & 1 == 1
  }

  /** LMQTT_IS_ERROR: the low byte carries an error code. */
  predicate IsError(res: Res)
    ensures IsError(res) <==> exists k :: 0 <= k < 8 && Bit(res, k)
  {
    assert Bit(res, 0) <==> res & 0x01 != 0;
    assert Bit(res, 1) <==> res & 0x02 != 0;
    assert Bit(res, 2) <==> res & 0x04 != 0;
    assert Bit(res, 3) <==> res & 0x08 != 0;
    assert Bit(res, 4) <==> res & 0x10 != 0;
    assert Bit(res, 5) <==> res & 0x20 != 0;
    assert Bit(res, 6) <==> res & 0x40 != 0;
    assert Bit(res, 7) <==> res & 0x80 != 0;
    res & RES_ERROR != 0
  }

  /** LMQTT_WOULD_BLOCK_CONN_RD: blocked reading the connection, and not
      at end of file. */
  predicate WouldBlockConnRd(res: Res)
    ensures WouldBlockConnRd(res) <==> Bit(res, 8) && !Bit(res, 12)
    ensures WouldBlockConnRd(res) ==> !IsEofRd(res)
  {
    res & RES_EOF_RD == RES_WOULD_BLOCK_CONN_RD
  }

  /** LMQTT_WOULD_BLOCK_CONN_WR: blocked writing the connection, and not
      at end of file. */
  predicate WouldBlockConnWr(res: Res)
    ensures WouldBlockConnWr(res) <==> Bit(res, 9) && !Bit(res, 12)
    ensures WouldBlockConnWr(res) ==> !IsEofWr(res)
  {
    res & RES_EOF_WR == RES_WOULD_BLOCK_CONN_WR
  }

  /** LMQTT_WOULD_BLOCK_DATA_RD: a string being sent blocks its read
      callback. */
  predicate WouldBlockDataRd(res: Res)
    ensures WouldBlockDataRd(res) <==> Bit(res, 10)
  {
    res & RES_WOULD_BLOCK_DATA_RD != 0
  }

  /** LMQTT_WOULD_BLOCK_DATA_WR: a string being received blocks its write
      callback. */
  predicate WouldBlockDataWr(res: Res)
    ensures WouldBlockDataWr(res) <==> Bit(res, 11)
  {
    res & RES_WOULD_BLOCK_DATA_WR != 0
  }

  /** LMQTT_IS_EOF: the connection was closed. */
  predicate IsEof(res: Res)
    ensures IsEof(res) <==> Bit(res, 12)
  {
    res & RES_EOF != 0
  }

  /** LMQTT_IS_EOF_RD: closed while reading. */
  predicate IsEofRd(res: Res)
    ensures IsEofRd(res) <==> Bit(res, 12) && Bit(res, 8)
    ensures IsEofRd(res) ==> IsEof(res)
  {
    res & RES_EOF_RD == RES_EOF_RD
  }

  /** LMQTT_IS_EOF_WR: closed while writing. */
  predicate IsEofWr(res: Res)
    ensures IsEofWr(res) <==> Bit(res, 12) && Bit(res, 9)
    ensures IsEofWr(res) ==> IsEof(res)
  {
    res & RES_EOF_WR == RES_EOF_WR
  }

  /** LMQTT_IS_QUEUEABLE: the main store can take another command. */
  predicate IsQueueable(res: Res)
    ensures IsQueueable(res) <==> Bit(res, 13)
  {
    res & RES_QUEUEABLE != 0
  }

  /** LMQTT_RES_ERROR reports an error and nothing else. */
  lemma ResErrorIsOnlyAnError()
    ensures IsError(RES_ERROR)
    ensures !IsEof(RES_ERROR) && !IsEofRd(RES_ERROR) && !IsEofWr(RES_ERROR)
    ensures !WouldBlockConnRd(RES_ERROR) && !WouldBlockConnWr(RES_ERROR)
    ensures !WouldBlockDataRd(RES_ERROR) && !WouldBlockDataWr(RES_ERROR)
    ensures !IsQueueable(RES_ERROR)
  {
  }

  /** Blocking on the connection and end of file exclude each other, in
      both directions. */
  lemma BlockAndEofExclusive(res: Res)
    ensures !(WouldBlockConnRd(res) && IsEofRd(res))
    ensures !(WouldBlockConnWr(res) && IsEofWr(res))
  {
  }
}
