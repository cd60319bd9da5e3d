// The bounded set of packet ids of QoS 2 messages received but not yet
// released (lmqtt_id_set_*, src/lmqtt_packet.c); it lets the client
// deliver a QoS 2 message only once (section 4.3.3 of MQTT 3.1.1).

module IdSet {
  import opened Base

  predicate NoDuplicates(s: seq<u16>) {
    forall i, j :: 0 <= i < j < |s| ==> s[i] != s[j]
  }

  /** The position of the first occurrence of `id` in `s`. */
  ghost function IndexOf(s: seq<u16>, id: u16): (i: nat)
    requires id in s
    ensures i < |s| && s[i] == id
    ensures forall j :: 0 <= j < i ==> s[j] != id
  {
    if s[0] == id then 0 else 1 + IndexOf(s[1..], id)
  }

  /** Taking one element out of a sequence without duplicates leaves no
      copy of it behind, and keeps every other element. */
  lemma {:induction false} RemoveAtKeepsOthers(s: seq<u16>, i: nat)
    requires NoDuplicates(s) && i < |s|
    ensures var t := s[..i] + s[i + 1..];
      && NoDuplicates(t) && s[i] !in t
      && forall x :: x in t <==> x in s && x != s[i]
  {
    var t := s[..i] + s[i + 1..];
    forall a, b | 0 <= a < b < |t| ensures t[a] != t[b] {
      var a', b' := if a < i then a else a + 1, if b < i then b else b + 1;
      assert t[a] == s[a'] && t[b] == s[b'] && a' < b';
    }
    forall x | x in t ensures x in s && x != s[i] {
      var k :| 0 <= k < |t| && t[k] == x;
      var k' := if k < i then k else k + 1;
      assert s[k'] == x && k' != i;
    }
    forall x | x in s && x != s[i] ensures x in t {
      var k :| 0 <= k < |s| && s[k] == x;
      assert k != i;
      assert t[if k < i then k else k - 1] == x;
    }
  }

  class IdSet {
    /** The item buffer; its length is `capacity`. */
    const items: array<u16>
    var count: nat

    ghost predicate Valid()
      reads this, items
    {
      count <= items.Length && NoDuplicates(items[..count])
    }

    ghost function Ids(): seq<u16>
      reads this, items
      requires Valid()
    {
      items[..count]
    }

    constructor (capacity: nat)
      ensures Valid() && fresh(items) && items.Length == capacity && Ids() == []
    {
      items := new u16[capacity];
      count := 0;
    }

    /** lmqtt_id_set_clear (which in the source falls off the end of an
        `int` function without returning a value). */
    method Clear()
      requires Valid()
      modifies this`count
      ensures Valid() && Ids() == []
    {
      count := 0;
    }

    /** lmqtt_id_set_contains */
    method Contains(id: u16) returns (r: bool)
      requires Valid()
      ensures r <==> id in Ids()
    {
      var i := 0;
      while i < count
        invariant 0 <= i <= count
        invariant forall j :: 0 <= j < i ==> items[j] != id
      {
        if items[i] == id {
          return true;
        }
        i := i + 1;
      }
      return false;
    }

    /** lmqtt_id_set_put: add an id; fails, changing nothing, when the
        set is full or already holds it. */
    method Put(id: u16) returns (ok: bool)
      requires Valid()
      modifies this`count, items
      ensures Valid()
      ensures ok <==> old(|Ids()|) < items.Length && id !in old(Ids())
      ensures Ids() == if ok then old(Ids()) + [id] else old(Ids())
    {
      if count >= items.Length {
        return false;
      }
      var i := 0;
      while i < count
        invariant 0 <= i <= count
        invariant forall j :: 0 <= j < i ==> items[j] != id
      {
        if items[i] == id {
          return false;
        }
        i := i + 1;
      }
      ghost var s := items[..count];
      items[count] := id;
      count := count + 1;
      assert items[..count] == s + [id];
      ok := true;
    }

    /** lmqtt_id_set_remove: take an id out, keeping the other ids in
        order. */
    method Remove(id: u16) returns (ok: bool)
      requires Valid()
      modifies this`count, items
      ensures Valid()
      ensures ok <==> id in old(Ids())
      ensures ok ==> var i := IndexOf(old(Ids()), id); Ids() == old(Ids())[..i] + old(Ids())[i + 1..]
      ensures id !in Ids()
      ensures !ok ==> Ids() == old(Ids())
    {
      var i := 0;
      while i < count
        invariant 0 <= i <= count
        invariant forall j :: 0 <= j < i ==> items[j] != id
      {
        if items[i] == id {
          ghost var s := items[..count];
          assert IndexOf(s, id) == i;
          CloseGap(items, i, count);
          count := count - 1;
          RemoveAtKeepsOthers(s, i);
          return true;
        }
        i := i + 1;
      }
      return false;
    }
  }
}
