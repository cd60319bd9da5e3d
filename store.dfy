// The store (src/lmqtt_store.c): a fixed-capacity queue of commands
// waiting to be sent or to be answered. The first `pos` entries are
// "marked" (already sent, waiting for their answer); the entries from
// `pos` up to `count` are still to be sent.

module Store {
  import opened Base
  import opened PacketTypes
  import opened Time

  /** The function a finished entry calls (lmqtt_store_entry_callback_t),
      recorded by name; the callbacks themselves are not part of this
      model. */
  datatype Callback = NoCallback | OnConnack | OnSuback | OnUnsuback | OnPublish | OnPingresp

  /** lmqtt_store_value_t: packet id, the packet object and the callback
      (whose `callback_data` is always the client). */
  datatype Value = Value(packetId: u16, packet: Packet, callback: Callback)

  /** A value cleared with memset. */
  const ZERO_VALUE: Value := Value(0, NoPacket, NoCallback)

  /** lmqtt_store_entry_t; its `time` field is not read by the code
      modelled here. */
  datatype Entry = Entry(kind: int, value: Value)

  predicate Matches(e: Entry, kind: int, packetId: int) {
    e.kind == kind && e.value.packetId == packetId
  }

  /** The index of the first of the first `n` entries with the given kind
      and packet id, or `n` when there is none. */
  ghost function FirstMatch(items: seq<Entry>, n: nat, kind: int, packetId: int): (r: nat)
    requires n <= |items|
    ensures r <= n
    ensures r < n ==> Matches(items[r], kind, packetId)
    ensures forall j :: 0 <= j < r ==> !Matches(items[j], kind, packetId)
  {
    if n == 0 then 0
    else
      var r := FirstMatch(items, n - 1, kind, packetId);
      if r < n - 1 then r
      else if Matches(items[n - 1], kind, packetId) then n - 1
      else n
  }

  /** The first match is the one index that matches with none before it
      (or `n` when none of the first `n` matches). */
  lemma FirstMatchIs(items: seq<Entry>, n: nat, kind: int, packetId: int, p: nat)
    requires p <= n <= |items|
    requires p < n ==> Matches(items[p], kind, packetId)
    requires forall j :: 0 <= j < p ==> !Matches(items[j], kind, packetId)
    ensures FirstMatch(items, n, kind, packetId) == p
  {
  }

  /** The outputs of lmqtt_store_get_timeout. */
  datatype StoreTimeout = StoreTimeout(armed: bool, count: nat, left: Time)

  class Store {
    /** The entry buffer; its length is `capacity`. */
    const entries: array<Entry>
    var count: nat
    var pos: nat
    var nextPacketId: u16
    /** `keep_alive` and `timeout` are C `int`s, read as `unsigned short`. */
    var keepAlive: int
    var timeout: int
    const lastTouch: Stamp

    ghost predicate Valid()
      reads this
    {
      pos <= count <= entries.Length
    }

    /** The queued entries, oldest first. */
    ghost function Items(): seq<Entry>
      reads this, entries
      requires Valid()
    {
      entries[..count]
    }

    /** A zeroed store over a buffer of `capacity` entries, as
        lmqtt_client_initialize sets one up. */
    constructor (capacity: nat)
      ensures Valid() && fresh(entries) && fresh(lastTouch)
      ensures entries.Length == capacity && Items() == [] && pos == 0
      ensures nextPacketId == 0 && keepAlive == 0 && timeout == 0
      ensures lastTouch.Value() == Time(0, 0)
    {
      entries := new Entry[capacity];
      count := 0;
      pos := 0;
      nextPacketId := 0;
      keepAlive := 0;
      timeout := 0;
      lastTouch := new Stamp();
    }

    /** lmqtt_store_get_id: hand out the next packet id; the 16-bit counter
        wraps. */
    method GetId() returns (id: u16)
      modifies this`nextPacketId
      ensures id == old(nextPacketId)
      ensures nextPacketId == (old(nextPacketId) + 1) % 0x1_0000
    {
      id := nextPacketId;
      nextPacketId := (nextPacketId + 1) % 0x1_0000;
    }

    /** lmqtt_store_count */
    function Count(): (n: nat)
      reads this, entries
      requires Valid()
      ensures n == |Items()|
    {
      count
    }

    /** lmqtt_store_is_queueable: there is room for another entry. */
    function IsQueueable(): (r: bool)
      reads this, entries
      requires Valid()
      ensures r <==> |Items()| < entries.Length
    {
      count < entries.Length
    }

    /** lmqtt_store_has_current: some entry is still to be sent. */
    function HasCurrent(): (r: bool)
      reads this, entries
      requires Valid()
      ensures r <==> pos < |Items()|
    {
      pos < count
    }

    /** lmqtt_store_append: queue an entry at the end; None stands for a
        NULL value, which is stored zeroed. Fails when the store is full. */
    method Append(kind: int, value: Option<Value>) returns (ok: bool)
      requires Valid()
      modifies this`count, entries
      ensures Valid()
      ensures ok <==> old(|Items()|) < entries.Length
      ensures Items() == if ok then old(Items()) + [Entry(kind, if value.Some? then value.value else ZERO_VALUE)]
                         else old(Items())
    {
      if count >= entries.Length {
        return false;
      }
      entries[count] := Entry(kind, if value.Some? then value.value else ZERO_VALUE);
      count := count + 1;
      ok := true;
    }

    /** lmqtt_store_get_at: the entry at index `p`, or a zeroed kind and
        value when there is none. */
    method GetAt(p: int) returns (ok: bool, kind: int, value: Value)
      requires Valid()
      ensures ok <==> 0 <= p < |Items()|
      ensures ok ==> Entry(kind, value) == Items()[p]
      ensures !ok ==> kind == 0 && value == ZERO_VALUE
    {
      if p < 0 || p >= count {
        return false, 0, ZERO_VALUE;
      }
      var e := entries[p];
      ok, kind, value := true, e.kind, e.value;
    }

    /** store_pop_at: remove the entry at index `p`, move the later
        entries one place towards the front, and keep `pos` on the same
        first unsent entry. */
    method PopAt(p: int) returns (ok: bool, kind: int, value: Value)
      requires Valid()
      modifies this`count, this`pos, entries
      ensures Valid()
      ensures ok <==> 0 <= p < old(|Items()|)
      ensures ok ==> Entry(kind, value) == old(Items())[p]
      ensures ok ==> Items() == old(Items())[..p] + old(Items())[p + 1..]
      ensures ok ==> pos == if old(pos) > p then old(pos) - 1 else old(pos)
      ensures !ok ==> kind == 0 && value == ZERO_VALUE && Items() == old(Items()) && pos == old(pos)
    {
      ok, kind, value := GetAt(p);
      if !ok {
        return;
      }
      count := count - 1;
      if pos > p {
        pos := pos - 1;
      }
      CloseGap(entries, p, count + 1);
    }

    /** lmqtt_store_delete_at */
    method DeleteAt(p: int) returns (ok: bool)
      requires Valid()
      modifies this`count, this`pos, entries
      ensures Valid()
      ensures ok <==> 0 <= p < old(|Items()|)
      ensures ok ==> Items() == old(Items())[..p] + old(Items())[p + 1..]
      ensures ok ==> pos == if old(pos) > p then old(pos) - 1 else old(pos)
      ensures !ok ==> Items() == old(Items()) && pos == old(pos)
    {
      var kind, value;
      ok, kind, value := PopAt(p);
    }

    /** lmqtt_store_mark_current: the current entry was sent; move the
        mark past it. */
    method MarkCurrent() returns (ok: bool)
      requires Valid()
      modifies this`pos
      ensures Valid()
      ensures ok <==> old(pos) < |Items()|
      ensures pos == if ok then old(pos) + 1 else old(pos)
    {
      if pos < count {
        pos := pos + 1;
        return true;
      }
      return false;
    }

    /** lmqtt_store_drop_current: remove the first unsent entry. */
    method DropCurrent() returns (ok: bool)
      requires Valid()
      modifies this`count, this`pos, entries
      ensures Valid()
      ensures ok <==> old(pos) < old(|Items()|)
      ensures ok ==> Items() == old(Items())[..old(pos)] + old(Items())[old(pos) + 1..]
      ensures pos == old(pos)
      ensures !ok ==> Items() == old(Items())
    {
      var kind, value;
      ok, kind, value := PopAt(pos);
    }

    /** lmqtt_store_peek: the first unsent entry. */
    method Peek() returns (ok: bool, kind: int, value: Value)
      requires Valid()
      ensures ok <==> pos < |Items()|
      ensures ok ==> Entry(kind, value) == Items()[pos]
      ensures !ok ==> kind == 0 && value == ZERO_VALUE
    {
      ok, kind, value := GetAt(pos);
    }

    /** store_find: search the marked entries for (kind, packet id). */
    method Find(kind: int, packetId: int) returns (found: bool, p: nat)
      requires Valid()
      ensures found ==> p < pos && Matches(Items()[p], kind, packetId)
      ensures found ==> forall j :: 0 <= j < p ==> !Matches(Items()[j], kind, packetId)
      ensures !found ==> p == 0 && forall j :: 0 <= j < pos ==> !Matches(Items()[j], kind, packetId)
    {
      var i := 0;
      while i < pos
        invariant 0 <= i <= pos
        invariant forall j :: 0 <= j < i ==> !Matches(Items()[j], kind, packetId)
      {
        var e := entries[i];
        if e.kind == kind && e.value.packetId == packetId {
          return true, i;
        }
        i := i + 1;
      }
      return false, 0;
    }

    /** lmqtt_store_pop_marked_by: remove the first marked entry with the
        given kind and packet id; unsent entries are never matched. */
    method PopMarkedBy(kind: int, packetId: int) returns (ok: bool, value: Value)
      requires Valid()
      modifies this`count, this`pos, entries
      ensures Valid()
      ensures var j := FirstMatch(old(Items()), old(pos), kind, packetId);
        && (ok <==> j < old(pos))
        && (ok ==> value == old(Items())[j].value && pos == old(pos) - 1
                   && Items() == old(Items())[..j] + old(Items())[j + 1..])
      ensures !ok ==> value == ZERO_VALUE && Items() == old(Items()) && pos == old(pos)
    {
      var found, p := Find(kind, packetId);
      if found {
        FirstMatchIs(Items(), pos, kind, packetId, p);
        var k;
        ok, k, value := PopAt(p);
      } else {
        FirstMatchIs(Items(), pos, kind, packetId, pos);
        ok, value := false, ZERO_VALUE;
      }
    }

    /** lmqtt_store_shift: remove the oldest entry. */
    method Shift() returns (ok: bool, kind: int, value: Value)
      requires Valid()
      modifies this`count, this`pos, entries
      ensures Valid()
      ensures ok <==> old(|Items()|) > 0
      ensures ok ==> Entry(kind, value) == old(Items())[0] && Items() == old(Items())[1..]
      ensures ok ==> pos == if old(pos) > 0 then old(pos) - 1 else 0
      ensures !ok ==> Items() == [] && pos == 0
    {
      ok, kind, value := PopAt(0);
    }

    /** lmqtt_store_unmark_all: every entry is to be sent again. */
    method UnmarkAll()
      requires Valid()
      modifies this`pos
      ensures Valid() && pos == 0 && Items() == old(Items())
    {
      pos := 0;
    }

    /** The timeout in force, as an `unsigned short`: the answer timeout
        while something is queued, the keep-alive interval otherwise. */
    function Interval(): u16
      reads this
    {
      (if count > 0 then timeout else keepAlive) % 0x1_0000
    }

    /** lmqtt_store_get_timeout, given the current clock reading. */
    function GetTimeout(now: Time): (r: StoreTimeout)
      reads this, entries, lastTouch
      requires Valid()
      ensures !r.armed <==> Interval() == 0 || lastTouch.Value() == Time(0, 0)
      ensures !r.armed ==> r.count == 0 && r.left == Time(0, 0)
      ensures r.armed ==> r.count == |Items()|
      ensures r.armed ==> r.left == GetTimeoutTo(lastTouch.Value(), now, Interval()).left
    {
      var when := Interval();
      if when == 0 || (lastTouch.secs == 0 && lastTouch.nsecs == 0) then StoreTimeout(false, 0, Time(0, 0))
      else
        var t := GetTimeoutTo(lastTouch.Value(), now, when);
        StoreTimeout(t.armed, count, t.left)
    }

    /** lmqtt_store_touch: remember when the connection was last active. */
    method Touch(now: Time)
      modifies lastTouch
      ensures lastTouch.Value() == now
    {
      lastTouch.Touch(now);
    }
  }
}
