// Basic types shared by every part of the model of lightmqtt.

module Base {
  /** An octet. The C code works on `unsigned char`; masks on a byte are
      written in this model as the equivalent arithmetic (b & 0x80 is
      b >= 128, b & 0x7f is b % 128, b >> 4 is b / 16, and so on). */
  type byte = x: int | 0 <= x < 0x100

  /** `u16` / `unsigned short`, used for packet identifiers. */
  type u16 = x: int | 0 <= x < 0x1_0000

  datatype Option<T> = None | Some(value: T)

  /** lmqtt_io_result_t: what a read or write callback reports. */
  datatype IoResult = IoSuccess | IoWouldBlock | IoError

  /** The high and low byte of a 16-bit quantity, most significant first,
      as STRING_LEN_BYTE writes string lengths and packet identifiers. */
  function BigEndian16(v: u16): (r: seq<byte>)
    ensures |r| == 2 && (r[0] as int) * 256 + (r[1] as int) == v
  {
    [v / 256, v % 256]
  }

  /** The memmove with which the store and the id set close the gap left
      by the element at `i` among the first `n` of `a`: the later ones
      move one place towards the front, in order. */
  method CloseGap<T>(a: array<T>, i: nat, n: nat)
    requires i < n <= a.Length
    modifies a
    ensures a[..n - 1] == old(a[..n])[..i] + old(a[..n])[i + 1..]
  {
    ghost var s := a[..n];
    var k := i;
    while k + 1 < n
      invariant i <= k < n
      invariant forall j :: 0 <= j < i ==> a[j] == s[j]
      invariant forall j :: i <= j < k ==> a[j] == s[j + 1]
      invariant forall j :: k <= j < n ==> a[j] == s[j]
    {
      a[k] := a[k + 1];
      k := k + 1;
    }
    ClosedGap(s, a[..n - 1], i);
  }

  /** A sequence that agrees with `s` before `i` and with `s` one place
      further on from `i` is `s` without its element at `i`. */
  lemma ClosedGap<T>(s: seq<T>, t: seq<T>, i: nat)
    requires i < |s| && |t| == |s| - 1
    requires forall j :: 0 <= j < i ==> t[j] == s[j]
    requires forall j :: i <= j < |t| ==> t[j] == s[j + 1]
    ensures t == s[..i] + s[i + 1..]
  {
    var u := s[..i] + s[i + 1..];
    forall j | 0 <= j < |t|
      ensures t[j] == u[j]
    {
      if j < i {
        assert u[j] == s[j];
      } else {
        assert u[j] == s[j + 1];
      }
    }
  }
}
