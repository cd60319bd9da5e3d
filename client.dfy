// The client (src/lmqtt_client.c): a state machine over a connection.
// The source encodes the state in the `closed` and `failed` flags and in
// the table of command functions `internal.*`, which each state rewrites;
// here the table is the `state` field, and each command consults it.
// User callbacks and the clock are outside the model: the clock reading
// is a parameter, and callbacks are recorded in the store entries by name.

module Client {
  import opened Base
  import opened PacketTypes
  import opened Validate
  import opened Time
  import opened Io
  import opened ResultFlags
  import S = Store
  import I = IdSet

  /** The states; the source's command table in each state is:
      Initial: only connect; Connecting: nothing; Connected: everything
      but connect; Failed: nothing. */
  datatype State = Initial | Connecting | Connected | Failed

  /** Entries that belong to one connection only and are dropped on a
      reconnect that keeps the session. */
  predicate Transient(e: S.Entry) {
    e.kind == KIND_PINGREQ || e.kind == KIND_DISCONNECT
  }

  /** The entries that survive client_cleanup_stores with keep_session, in
      their order. */
  function Kept(s: seq<S.Entry>): seq<S.Entry>
    decreases |s|
  {
    if s == [] then []
    else
      var last := s[|s| - 1];
      Kept(s[..|s| - 1]) + (if Transient(last) then [] else [last])
  }

  lemma KeptStep(s: seq<S.Entry>, j: nat)
    requires j < |s|
    ensures Kept(s[..j + 1]) == Kept(s[..j]) + (if Transient(s[j]) then [] else [s[j]])
  {
    assert s[..j + 1][..j] == s[..j];
  }

  /** Cleaning up keeps exactly the entries that are not PINGREQ or
      DISCONNECT, never more than there were, and is a no-op on a queue
      that holds none of those. */
  lemma KeptExactly(s: seq<S.Entry>)
    ensures forall e :: e in Kept(s) <==> e in s && !Transient(e)
    ensures |Kept(s)| <= |s|
    ensures (forall i :: 0 <= i < |s| ==> !Transient(s[i])) ==> Kept(s) == s
  {
    KeptMembers(s);
    KeptShorter(s);
    KeptAllKept(s);
  }

  lemma {:induction false} KeptMembers(s: seq<S.Entry>)
    ensures forall e :: e in Kept(s) <==> e in s && !Transient(e)
    decreases |s|
  {
    if s != [] {
      var init := s[..|s| - 1];
      KeptMembers(init);
      assert s == init + [s[|s| - 1]];
    }
  }

  lemma {:induction false} KeptShorter(s: seq<S.Entry>)
    ensures |Kept(s)| <= |s|
    decreases |s|
  {
    if s != [] {
      KeptShorter(s[..|s| - 1]);
    }
  }

  lemma {:induction false} KeptAllKept(s: seq<S.Entry>)
    ensures (forall i :: 0 <= i < |s| ==> !Transient(s[i])) ==> Kept(s) == s
    decreases |s|
  {
    if s != [] && forall i :: 0 <= i < |s| ==> !Transient(s[i]) {
      var init := s[..|s| - 1];
      assert forall i :: 0 <= i < |init| ==> !Transient(init[i]);
      KeptAllKept(init);
      assert s == init + [s[|s| - 1]];
    }
  }

  /** Cleaning up twice is cleaning up once. */
  lemma {:induction false} KeptIdempotent(s: seq<S.Entry>)
    ensures Kept(Kept(s)) == Kept(s)
  {
    KeptExactly(s);
    var k := Kept(s);
    assert forall i :: 0 <= i < |k| ==> k[i] in k;
    KeptExactly(k);
  }

  /** Where the mark of the main store is while client_cleanup_stores has
      looked at the first `j` of the `s` entries, `pos0` of them marked:
      the kept marked entries, plus the marked ones not looked at yet. */
  ghost function PosDuring(s: seq<S.Entry>, pos0: nat, j: nat): nat
    requires pos0 <= |s| && j <= |s|
  {
    if j <= pos0 then |Kept(s[..j])| + (pos0 - j) else |Kept(s[..pos0])|
  }

  lemma PosDuringStep(s: seq<S.Entry>, pos0: nat, j: nat)
    requires pos0 <= |s| && j < |s|
    ensures PosDuring(s, pos0, j + 1) ==
      if Transient(s[j]) && |Kept(s[..j])| < PosDuring(s, pos0, j) then PosDuring(s, pos0, j) - 1
      else PosDuring(s, pos0, j)
  {
    KeptStep(s, j);
    if j == pos0 {
      assert s[..j + 1][..pos0] == s[..pos0];
    } else if j > pos0 {
      KeptGrows(s, pos0, j);
    }
  }

  /** A longer prefix keeps at least as many entries. */
  lemma {:induction false} KeptGrows(s: seq<S.Entry>, a: nat, b: nat)
    requires a <= b <= |s|
    ensures |Kept(s[..a])| <= |Kept(s[..b])|
    decreases b - a
  {
    if a < b {
      KeptGrows(s, a, b - 1);
      KeptStep(s, b - 1);
    }
  }

  /** Deleting the entry after the kept ones moves on to the next one. */
  lemma DropStep(s: seq<S.Entry>, j: nat, items: seq<S.Entry>)
    requires j < |s| && items == Kept(s[..j]) + s[j..]
    ensures var i := |Kept(s[..j])|;
      && i < |items|
      && items[..i] + items[i + 1..] == Kept(s[..j]) + s[j + 1..]
      && Kept(s[..j]) + s[j..] == (Kept(s[..j]) + [s[j]]) + s[j + 1..]
      && items[i] == s[j]
  {
    var k := Kept(s[..j]);
    assert items[..|k|] == k;
    assert items[|k| + 1..] == s[j + 1..];
    assert s[j..] == [s[j]] + s[j + 1..];
  }

  /** Cleaning up a queue of `s` with `pos0` entries marked leaves marked
      exactly the kept entries among the marked ones. */
  lemma PosDuringEnd(s: seq<S.Entry>, pos0: nat)
    requires pos0 <= |s|
    ensures PosDuring(s, pos0, |s|) == |Kept(s[..pos0])|
  {
    assert s[..|s|] == s;
  }

  class Client {
    var state: State
    var closed: bool
    var failed: bool
    var cleanSession: bool
    const mainStore: S.Store
    /** A store of capacity 1 that holds the CONNECT being sent. */
    const connectStore: S.Store
    /** The store the transmitter and receiver work on. */
    var currentStore: S.Store
    /** The receiver's set of QoS 2 packet ids already delivered. */
    const idSet: I.IdSet
    const readBuf: Buffer
    const writeBuf: Buffer

    ghost predicate Valid()
      reads this, mainStore, connectStore, idSet, idSet.items, readBuf, writeBuf
    {
      && mainStore.Valid() && connectStore.Valid() && idSet.Valid()
      && readBuf.Valid() && writeBuf.Valid()
      && connectStore.entries.Length == 1
      && mainStore != connectStore && mainStore.entries != connectStore.entries
      && mainStore.lastTouch != connectStore.lastTouch
      && readBuf != writeBuf && readBuf.data != writeBuf.data
      && Encoded()
    }

    /** How the source's flags and current store encode each state. */
    ghost predicate Encoded()
      reads this
    {
      match state
      case Initial => closed && !failed && currentStore == connectStore
      case Connecting => !closed && !failed && currentStore == connectStore
      case Connected => !closed && !failed && currentStore == mainStore
      case Failed => closed && failed && (currentStore == mainStore || currentStore == connectStore)
    }

    /** What client_cleanup_stores leaves behind, given the main store's
        entries and mark and the id set before it. */
    ghost predicate CleanedUp(keepSession: bool, main0: seq<S.Entry>, pos0: nat, ids0: seq<u16>)
      reads this, mainStore, mainStore.entries, connectStore, connectStore.entries, idSet, idSet.items
      requires mainStore.Valid() && connectStore.Valid() && idSet.Valid() && pos0 <= |main0|
    {
      && connectStore.Items() == [] && connectStore.pos == 0
      && (keepSession ==>
            mainStore.Items() == Kept(main0) && mainStore.pos == |Kept(main0[..pos0])| && idSet.Ids() == ids0)
      && (!keepSession ==> mainStore.Items() == [] && mainStore.pos == 0 && idSet.Ids() == [])
    }

    /** lmqtt_client_initialize: empty stores of the given capacities, an
        empty id set and empty buffers, then client_set_state_initial:
        closed, not failed, on the connect store, touched now. The clean-up
        client_set_state_initial runs finds the stores and the id set
        already empty, so it has nothing to do here. */
    constructor (storeCapacity: nat, idSetCapacity: nat, readBufSize: nat, writeBufSize: nat, now: Time)
      ensures Valid() && state == Initial && !cleanSession
      ensures mainStore.entries.Length == storeCapacity && mainStore.Items() == []
      ensures connectStore.Items() == [] && idSet.Ids() == [] && idSet.items.Length == idSetCapacity
      ensures readBuf.data.Length == readBufSize && readBuf.pos == 0
      ensures writeBuf.data.Length == writeBufSize && writeBuf.pos == 0
      ensures connectStore.lastTouch.Value() == now && mainStore.lastTouch.Value() == Time(0, 0)
      ensures mainStore.nextPacketId == 0 && mainStore.keepAlive == 0
      ensures mainStore.timeout == 0 && connectStore.timeout == 0
    {
      mainStore := new S.Store(storeCapacity);
      var connect := new S.Store(1);
      connect.Touch(now);
      connectStore := connect;
      currentStore := connect;
      idSet := new I.IdSet(idSetCapacity);
      readBuf := new Buffer(readBufSize);
      writeBuf := new Buffer(writeBufSize);
      cleanSession := false;
      closed := true;
      failed := false;
      state := Initial;
    }

    /** client_flush_store: empty a store oldest entry first; the
        result lists the flushed entries in that order (the source calls
        the callback of each entry that has one). */
    static method FlushStore(store: S.Store) returns (flushed: seq<S.Entry>)
      requires store.Valid()
      modifies store`count, store`pos, store.entries
      ensures store.Valid() && store.Items() == [] && store.pos == 0
      ensures flushed == old(store.Items())
    {
      ghost var all := store.Items();
      flushed := [];
      var ok, kind, value := store.Shift();
      while ok
        modifies store`count, store`pos, store.entries
        invariant store.Valid()
        invariant ok ==> all == flushed + [S.Entry(kind, value)] + store.Items()
        invariant !ok ==> all == flushed && store.Items() == [] && store.pos == 0
        decreases |store.Items()| + (if ok then 1 else 0)
      {
        flushed := flushed + [S.Entry(kind, value)];
        ghost var rest := store.Items();
        ok, kind, value := store.Shift();
        if ok {
          ShiftedOff(all, flushed, rest, S.Entry(kind, value), store.Items());
        }
      }
    }

    /** One more entry shifted off the front of what is left. */
    static lemma ShiftedOff(all: seq<S.Entry>, flushed: seq<S.Entry>, rest: seq<S.Entry>, e: S.Entry, after: seq<S.Entry>)
      requires all == flushed + rest && |rest| > 0 && e == rest[0] && after == rest[1..]
      ensures all == flushed + [e] + after
    {
      assert rest == [e] + after;
    }

    /** client_cleanup_stores: keeping the session, drop the PINGREQ and
        DISCONNECT entries of the main store; otherwise empty the main
        store and the set of QoS 2 ids. The connect store is emptied in
        both cases. */
    method CleanupStores(keepSession: bool)
      requires Valid()
      modifies mainStore`count, mainStore`pos, mainStore.entries
      modifies connectStore`count, connectStore`pos, connectStore.entries, idSet`count
      ensures Valid()
      ensures CleanedUp(keepSession, old(mainStore.Items()), old(mainStore.pos), old(idSet.Ids()))
    {
      if keepSession {
        DropTransient();
      } else {
        var flushed := FlushStore(mainStore);
        idSet.Clear();
      }
      var flushed := FlushStore(connectStore);
    }

    /** The keep_session loop of client_cleanup_stores. */
    method DropTransient()
      requires Valid()
      modifies mainStore`count, mainStore`pos, mainStore.entries
      ensures Valid()
      ensures mainStore.Items() == Kept(old(mainStore.Items()))
      ensures mainStore.pos == |Kept(old(mainStore.Items())[..old(mainStore.pos)])|
    {
      ghost var s := mainStore.Items();
      ghost var pos0 := mainStore.pos;
      ghost var j := 0;
      var i := 0;
      var ok, kind, value := mainStore.GetAt(i);
      while ok
        modifies mainStore`count, mainStore`pos, mainStore.entries
        invariant mainStore.Valid()
        invariant 0 <= j <= |s| && i == |Kept(s[..j])|
        invariant mainStore.Items() == Kept(s[..j]) + s[j..]
        invariant mainStore.pos == PosDuring(s, pos0, j)
        invariant ok <==> j < |s|
        invariant ok ==> kind == s[j].kind
        decreases |s| - j
      {
        i := DropOrKeep(s, pos0, j, i, kind);
        j := j + 1;
        ok, kind, value := mainStore.GetAt(i);
      }
      assert s[..j] == s;
      PosDuringEnd(s, pos0);
    }

    /** One turn of the keep_session loop, at the `j`-th of the entries
        `s` the loop started with, found at index `i`. */
    method DropOrKeep(ghost s: seq<S.Entry>, ghost pos0: nat, ghost j: nat, i: nat, kind: int) returns (next: nat)
      requires mainStore.Valid() && pos0 <= |s| && j < |s| && kind == s[j].kind
      requires i == |Kept(s[..j])| && mainStore.Items() == Kept(s[..j]) + s[j..]
      requires mainStore.pos == PosDuring(s, pos0, j)
      modifies mainStore`count, mainStore`pos, mainStore.entries
      ensures mainStore.Valid()
      ensures next == |Kept(s[..j + 1])| && mainStore.Items() == Kept(s[..j + 1]) + s[j + 1..]
      ensures mainStore.pos == PosDuring(s, pos0, j + 1)
    {
      KeptStep(s, j);
      PosDuringStep(s, pos0, j);
      DropStep(s, j, mainStore.Items());
      if kind == KIND_PINGREQ || kind == KIND_DISCONNECT {
        var deleted := mainStore.DeleteAt(i);
        next := i;
      } else {
        next := i + 1;
      }
    }

    /** client_set_state_initial: closed, not failed, working on the
        connect store (touched now), with the stores cleaned up for a
        session kept unless it was clean. */
    method SetStateInitial(now: Time)
      requires Valid()
      modifies this`closed, this`failed, this`state, this`currentStore, connectStore.lastTouch
      modifies mainStore`count, mainStore`pos, mainStore.entries
      modifies connectStore`count, connectStore`pos, connectStore.entries, idSet`count
      ensures Valid() && state == Initial
      ensures connectStore.lastTouch.Value() == now
      ensures CleanedUp(!cleanSession, old(mainStore.Items()), old(mainStore.pos), old(idSet.Ids()))
    {
      closed := true;
      failed := false;
      state := Initial;
      connectStore.Touch(now);
      currentStore := connectStore;
      CleanupStores(!cleanSession);
    }

    /** client_set_state_connecting: open, with empty read and write
        buffers. */
    method SetStateConnecting()
      requires Valid() && currentStore == connectStore
      modifies this`closed, this`failed, this`state, readBuf`pos, writeBuf`pos
      ensures Valid() && state == Connecting && readBuf.pos == 0 && writeBuf.pos == 0
    {
      closed := false;
      failed := false;
      state := Connecting;
      readBuf.pos := 0;
      writeBuf.pos := 0;
    }

    /** client_set_state_connected: open, working on the main store, with
        the stores cleaned up and every remaining entry to be sent again. */
    method SetStateConnected()
      requires Valid()
      modifies this`closed, this`failed, this`state, this`currentStore
      modifies mainStore`count, mainStore`pos, mainStore.entries
      modifies connectStore`count, connectStore`pos, connectStore.entries, idSet`count
      ensures Valid() && state == Connected
      ensures connectStore.Items() == [] && mainStore.pos == 0
      ensures cleanSession ==> mainStore.Items() == [] && idSet.Ids() == []
      ensures !cleanSession ==> mainStore.Items() == Kept(old(mainStore.Items())) && idSet.Ids() == old(idSet.Ids())
    {
      closed := false;
      failed := false;
      state := Connected;
      currentStore := mainStore;
      CleanupStores(!cleanSession);
      mainStore.UnmarkAll();
    }

    /** client_set_state_failed: closed and failed; every command fails. */
    method SetStateFailed()
      requires Valid()
      modifies this`closed, this`failed, this`state
      ensures Valid() && state == Failed && closed && failed
    {
      closed := true;
      failed := true;
      state := Failed;
    }

    /** lmqtt_client_connect. Only the initial state accepts it; then a
        valid connect is queued on the connect store, with client_on_connack
        as its callback, and the client starts connecting. */
    method DoConnect(c: Connect) returns (ok: bool)
      requires Valid()
      modifies this`closed, this`failed, this`state, connectStore`count, connectStore.entries
      modifies readBuf`pos, writeBuf`pos
      ensures Valid()
      ensures ok <==> old(state) == Initial && ConnectValidate(c)
                      && old(|connectStore.Items()|) < connectStore.entries.Length
      ensures ok ==> state == Connecting && readBuf.pos == 0 && writeBuf.pos == 0
      ensures ok ==> (connectStore.Items() ==
        old(connectStore.Items()) + [S.Entry(KIND_CONNECT, S.Value(0, ConnectPacket(c), S.OnConnack))])
      ensures !ok ==> state == old(state) && connectStore.Items() == old(connectStore.Items())
                      && readBuf.pos == old(readBuf.pos) && writeBuf.pos == old(writeBuf.pos)
    {
      if state != Initial || !ConnectValidate(c) {
        return false;
      }
      ok := connectStore.Append(KIND_CONNECT, Some(S.Value(0, ConnectPacket(c), S.OnConnack)));
      if ok {
        SetStateConnecting();
      }
    }

    /** client_subscribe_with_kind: a valid (UN)SUBSCRIBE takes the next
        packet id (even when the store then turns out to be full) and is
        queued on the main store. */
    method SubscribeWithKind(s: Subscribe, kind: int, callback: S.Callback) returns (ok: bool)
      requires Valid() && SubscribeWellFormed(s)
      modifies mainStore`nextPacketId, mainStore`count, mainStore.entries
      ensures Valid()
      ensures ok <==> SubscribeValid(s) && old(|mainStore.Items()|) < mainStore.entries.Length
      ensures if SubscribeValid(s) then mainStore.nextPacketId == (old(mainStore.nextPacketId) + 1) % 0x1_0000
              else mainStore.nextPacketId == old(mainStore.nextPacketId)
      ensures mainStore.Items() == if ok
        then old(mainStore.Items()) + [S.Entry(kind, S.Value(old(mainStore.nextPacketId), SubscribePacket(s), callback))]
        else old(mainStore.Items())
    {
      var valid := SubscribeValidate(s);
      if !valid {
        return false;
      }
      var id := mainStore.GetId();
      ok := mainStore.Append(kind, Some(S.Value(id, SubscribePacket(s), callback)));
    }

    /** lmqtt_client_subscribe: only a connected client queues it. */
    method DoSubscribe(s: Subscribe) returns (ok: bool)
      requires Valid() && SubscribeWellFormed(s)
      modifies mainStore`nextPacketId, mainStore`count, mainStore.entries
      ensures Valid()
      ensures ok <==> old(state) == Connected && SubscribeValid(s)
                      && old(|mainStore.Items()|) < mainStore.entries.Length
      ensures mainStore.nextPacketId == if old(state) == Connected && SubscribeValid(s)
        then (old(mainStore.nextPacketId) + 1) % 0x1_0000 else old(mainStore.nextPacketId)
      ensures mainStore.Items() == if ok
        then old(mainStore.Items())
             + [S.Entry(KIND_SUBSCRIBE, S.Value(old(mainStore.nextPacketId), SubscribePacket(s), S.OnSuback))]
        else old(mainStore.Items())
    {
      if state != Connected {
        return false;
      }
      ok := SubscribeWithKind(s, KIND_SUBSCRIBE, S.OnSuback);
    }

    /** lmqtt_client_unsubscribe: only a connected client queues it. */
    method DoUnsubscribe(s: Subscribe) returns (ok: bool)
      requires Valid() && SubscribeWellFormed(s)
      modifies mainStore`nextPacketId, mainStore`count, mainStore.entries
      ensures Valid()
      ensures ok <==> old(state) == Connected && SubscribeValid(s)
                      && old(|mainStore.Items()|) < mainStore.entries.Length
      ensures mainStore.nextPacketId == if old(state) == Connected && SubscribeValid(s)
        then (old(mainStore.nextPacketId) + 1) % 0x1_0000 else old(mainStore.nextPacketId)
      ensures mainStore.Items() == if ok
        then old(mainStore.Items())
             + [S.Entry(KIND_UNSUBSCRIBE, S.Value(old(mainStore.nextPacketId), SubscribePacket(s), S.OnUnsuback))]
        else old(mainStore.Items())
    {
      if state != Connected {
        return false;
      }
      ok := SubscribeWithKind(s, KIND_UNSUBSCRIBE, S.OnUnsuback);
    }

    /** lmqtt_client_publish: a connected client queues a valid publish.
        QoS 0 goes out as PUBLISH_0 with packet id 0 and takes no id; QoS 1
        and 2 go out as PUBLISH_1 and PUBLISH_2 with the next packet id. */
    method DoPublish(p: Publish) returns (ok: bool)
      requires Valid()
      modifies mainStore`nextPacketId, mainStore`count, mainStore.entries
      ensures Valid()
      ensures ok <==> old(state) == Connected && PublishValidate(p)
                      && old(|mainStore.Items()|) < mainStore.entries.Length
      ensures mainStore.nextPacketId ==
        if old(state) == Connected && PublishValidate(p) && p.qos != 0
        then (old(mainStore.nextPacketId) + 1) % 0x1_0000 else old(mainStore.nextPacketId)
      ensures mainStore.Items() == if ok
        then old(mainStore.Items()) + [S.Entry(KIND_PUBLISH_0 + p.qos,
               S.Value(if p.qos == 0 then 0 else old(mainStore.nextPacketId), PublishPacket(p), S.OnPublish))]
        else old(mainStore.Items())
    {
      if state != Connected || !PublishValidate(p) {
        return false;
      }
      var kind: int;
      var id: u16;
      if p.qos == 0 {
        kind := KIND_PUBLISH_0;
        id := 0;
      } else {
        kind := if p.qos == 1 then KIND_PUBLISH_1 else KIND_PUBLISH_2;
        id := mainStore.GetId();
      }
      ok := mainStore.Append(kind, Some(S.Value(id, PublishPacket(p), S.OnPublish)));
    }

    /** lmqtt_client's pingreq command: only a connected client queues a
        PINGREQ. */
    method DoPingreq() returns (ok: bool)
      requires Valid()
      modifies mainStore`count, mainStore.entries
      ensures Valid()
      ensures ok <==> old(state) == Connected && old(|mainStore.Items()|) < mainStore.entries.Length
      ensures mainStore.Items() == if ok
        then old(mainStore.Items()) + [S.Entry(KIND_PINGREQ, S.Value(0, NoPacket, S.OnPingresp))]
        else old(mainStore.Items())
    {
      if state != Connected {
        return false;
      }
      ok := mainStore.Append(KIND_PINGREQ, Some(S.Value(0, NoPacket, S.OnPingresp)));
    }

    /** lmqtt_client_disconnect: only a connected client queues a
        DISCONNECT, with a zeroed value. */
    method DoDisconnect() returns (ok: bool)
      requires Valid()
      modifies mainStore`count, mainStore.entries
      ensures Valid()
      ensures ok <==> old(state) == Connected && old(|mainStore.Items()|) < mainStore.entries.Length
      ensures mainStore.Items() == if ok
        then old(mainStore.Items()) + [S.Entry(KIND_DISCONNECT, S.ZERO_VALUE)]
        else old(mainStore.Items())
    {
      if state != Connected {
        return false;
      }
      ok := mainStore.Append(KIND_DISCONNECT, None);
    }

    /** client_on_connack, called with the connect whose response byte
        `returnCode` arrived. A closed client ignores it; an accepted
        connection takes the connect's clean-session flag and keep-alive
        interval and becomes connected; a refused one returns to the
        initial state. */
    method OnConnack(c: Connect, returnCode: byte, now: Time) returns (ok: bool)
      requires Valid()
      modifies this`closed, this`failed, this`state, this`currentStore, this`cleanSession
      modifies mainStore`keepAlive, connectStore.lastTouch
      modifies mainStore`count, mainStore`pos, mainStore.entries
      modifies connectStore`count, connectStore`pos, connectStore.entries, idSet`count
      ensures Valid() && ok
      ensures old(closed) ==> (state == old(state) && cleanSession == old(cleanSession)
        && mainStore.Items() == old(mainStore.Items()) && mainStore.pos == old(mainStore.pos)
        && connectStore.Items() == old(connectStore.Items()) && idSet.Ids() == old(idSet.Ids())
        && currentStore == old(currentStore) && connectStore.pos == old(connectStore.pos)
        && connectStore.lastTouch.Value() == old(connectStore.lastTouch.Value())
        && mainStore.keepAlive == old(mainStore.keepAlive))
      ensures !old(closed) && returnCode == CONNACK_RC_ACCEPTED ==>
        (state == Connected && cleanSession == c.cleanSession && mainStore.keepAlive == c.keepAlive
         && mainStore.pos == 0 && connectStore.Items() == []
         && (c.cleanSession ==> mainStore.Items() == [] && idSet.Ids() == [])
         && (!c.cleanSession ==> mainStore.Items() == Kept(old(mainStore.Items())) && idSet.Ids() == old(idSet.Ids())))
      ensures !old(closed) && returnCode != CONNACK_RC_ACCEPTED ==>
        (state == Initial && cleanSession == old(cleanSession) && connectStore.lastTouch.Value() == now
         && mainStore.keepAlive == old(mainStore.keepAlive)
         && CleanedUp(!cleanSession, old(mainStore.Items()), old(mainStore.pos), old(idSet.Ids())))
    {
      if closed {
      } else if returnCode == CONNACK_RC_ACCEPTED {
        cleanSession := c.cleanSession;
        mainStore.keepAlive := c.keepAlive;
        SetStateConnected();
      } else {
        SetStateInitial(now);
      }
      ok := true;
    }

    /** client_keep_alive at clock reading `now`. A failed client reports
        an error. While no timeout is armed or it has not run out, nothing
        happens. When it runs out with entries still waiting for their
        answer, the connection is given up; with none, a PINGREQ is queued
        (by a connected client). */
    method KeepAlive(now: Time) returns (status: IoStatus)
      requires Valid()
      modifies this`closed, this`failed, this`state, mainStore`count, mainStore.entries
      ensures Valid()
      ensures var t := old(currentStore.GetTimeout(now));
        && (old(failed) ==> status == IoStatusError && state == old(state) && mainStore.Items() == old(mainStore.Items()))
        && (!old(failed) && (!t.armed || t.left != Time(0, 0)) ==>
              status == IoStatusReady && state == old(state) && mainStore.Items() == old(mainStore.Items()))
        && (!old(failed) && t.armed && t.left == Time(0, 0) && t.count > 0 ==>
              status == IoStatusError && state == Failed && mainStore.Items() == old(mainStore.Items()))
        && (!old(failed) && t.armed && t.left == Time(0, 0) && t.count == 0 ==>
              status == IoStatusReady && state == old(state)
              && mainStore.Items() == if old(state) == Connected && old(|mainStore.Items()|) < mainStore.entries.Length
                 then old(mainStore.Items()) + [S.Entry(KIND_PINGREQ, S.Value(0, NoPacket, S.OnPingresp))]
                 else old(mainStore.Items()))
    {
      if failed {
        return IoStatusError;
      }
      var t := currentStore.GetTimeout(now);
      if !t.armed || t.left.secs != 0 || t.left.nsecs != 0 {
        return IoStatusReady;
      }
      if t.count > 0 {
        SetStateFailed();
        return IoStatusError;
      }
      var queued := DoPingreq();
      status := IoStatusReady;
    }

    /** lmqtt_client_reset: only a failed client changes; it returns to
        the initial state. */
    method Reset(now: Time)
      requires Valid()
      modifies this`closed, this`failed, this`state, this`currentStore, connectStore.lastTouch
      modifies mainStore`count, mainStore`pos, mainStore.entries
      modifies connectStore`count, connectStore`pos, connectStore.entries, idSet`count
      ensures Valid()
      ensures old(state) == Failed ==> (state == Initial && currentStore == connectStore
        && connectStore.lastTouch.Value() == now
        && CleanedUp(!cleanSession, old(mainStore.Items()), old(mainStore.pos), old(idSet.Ids())))
      ensures old(state) != Failed ==> (state == old(state) && currentStore == old(currentStore)
        && closed == old(closed) && failed == old(failed)
        && mainStore.Items() == old(mainStore.Items()) && mainStore.pos == old(mainStore.pos)
        && connectStore.Items() == old(connectStore.Items()) && connectStore.pos == old(connectStore.pos)
        && connectStore.lastTouch.Value() == old(connectStore.lastTouch.Value())
        && idSet.Ids() == old(idSet.Ids()))
    {
      if closed && failed {
        SetStateInitial(now);
      }
    }

    /** lmqtt_client_finalize: the client fails for good and drops every
        entry and every QoS 2 id. */
    method Finalize()
      requires Valid()
      modifies this`closed, this`failed, this`state
      modifies mainStore`count, mainStore`pos, mainStore.entries
      modifies connectStore`count, connectStore`pos, connectStore.entries, idSet`count
      ensures Valid() && state == Failed
      ensures mainStore.Items() == [] && connectStore.Items() == [] && idSet.Ids() == []
    {
      SetStateFailed();
      CleanupStores(false);
    }
  }

  /** client_process_buffer, given the status `status` its `process`
      reported and whether the side's blocking string is set. Returns
      whether run_once goes on, the new result word, and whether a
      blocking string is now reported (`blockingOut` when it is left
      alone). A pass that blocked goes on, keeping every flag of the word
      and adding only this side's; a closed connection or an error ends
      run_once with a word of its own. */
  function ProcessBuffer(status: IoStatus, connVal: Res, dataVal: Res, blocking: bool,
                         result: Res, blockingOut: bool): (r: (bool, Res, bool))
    ensures r.0 <==> status == IoStatusBlockConn || status == IoStatusBlockData
    ensures status == IoStatusBlockData ==> r.2 == blocking && (!blocking ==> r.1 == result)
    ensures status != IoStatusBlockData ==> r.2 == blockingOut
  {
    match status
    case IoStatusReady => (false, RES_EOF | connVal, blockingOut)
    case IoStatusError => (false, RES_ERROR, blockingOut)
    case IoStatusBlockConn => (true, result | connVal, blockingOut)
    case IoStatusBlockData => (true, if blocking then result | dataVal else result, blocking)
  }

  /** A pass that finds the connection closed ends run_once with this
      side's end of file, and one that fails ends it with LMQTT_RES_ERROR
      alone; neither touches the blocking string. */
  lemma ProcessBufferEnds(status: IoStatus, connVal: Res, dataVal: Res, blocking: bool,
                          result: Res, blockingOut: bool)
    requires status == IoStatusReady || status == IoStatusError
    ensures var r := ProcessBuffer(status, connVal, dataVal, blocking, result, blockingOut);
      !r.0 && r.2 == blockingOut
      && (status == IoStatusReady ==> r.1 == RES_EOF | connVal)
      && (status == IoStatusError ==> r.1 == RES_ERROR)
  {
  }

  /** A pass through a buffer that blocked on the connection keeps every
      flag of the word it was given and adds the side's connection flag. */
  lemma ProcessBufferBlockConn(connVal: Res, dataVal: Res, blocking: bool,
                               result: Res, blockingOut: bool)
    ensures var r := ProcessBuffer(IoStatusBlockConn, connVal, dataVal, blocking, result, blockingOut);
      r.0 && r.1 & result == result && r.1 & connVal == connVal && r.2 == blockingOut
  {
    OrKeepsBoth(result, connVal);
  }

  /** A pass through a buffer that blocked on its data keeps every flag of
      the word it was given, and adds the side's data flag exactly when its
      blocking string is set. */
  lemma ProcessBufferBlockData(connVal: Res, dataVal: Res, blocking: bool,
                               result: Res, blockingOut: bool)
    ensures var r := ProcessBuffer(IoStatusBlockData, connVal, dataVal, blocking, result, blockingOut);
      r.0 && r.1 & result == result && (blocking ==> r.1 & dataVal == dataVal)
      && (!blocking ==> r.1 == result) && r.2 == blocking
  {
    OrKeepsBoth(result, dataVal);
  }

  /** Or-ing a flag into a word keeps the word's flags and sets the flag's. */
  lemma OrKeepsBoth(a: Res, b: Res)
    ensures (a | b) & a == a && (a | b) & b == b && a & a == a
  {
  }

  /** The result word of lmqtt_client_run_once from the statuses of the
      keep-alive check and of the last pass through output and input
      (whose flags are all the result keeps, as each pass starts from 0),
      whether the transmitter and receiver have a blocking string, and
      whether the main store has room. */
  function RunOnceResult(keepAlive: IoStatus, output: IoStatus, txBlocking: bool,
                         input: IoStatus, rxBlocking: bool, queueable: bool): Res
  {
    if keepAlive == IoStatusError then RES_ERROR
    else
      var o := ProcessBuffer(output, RES_WOULD_BLOCK_CONN_WR, RES_WOULD_BLOCK_DATA_RD, txBlocking, 0, false);
      if !o.0 then o.1
      else
        var i := ProcessBuffer(input, RES_WOULD_BLOCK_CONN_RD, RES_WOULD_BLOCK_DATA_WR, rxBlocking, o.1, false);
        if !i.0 then i.1
        else if queueable then i.1 | RES_QUEUEABLE else i.1
  }

  /** The output pass blocked, so the input pass ran. */
  predicate InputRuns(keepAlive: IoStatus, output: IoStatus) {
    keepAlive != IoStatusError && (output == IoStatusBlockConn || output == IoStatusBlockData)
  }

  /** The result reports an error exactly when the keep-alive check, the
      output pass or an input pass that ran failed, and then it is
      LMQTT_RES_ERROR and nothing else. */
  lemma RunOnceError(keepAlive: IoStatus, output: IoStatus, txBlocking: bool,
                     input: IoStatus, rxBlocking: bool, queueable: bool)
    ensures var r := RunOnceResult(keepAlive, output, txBlocking, input, rxBlocking, queueable);
      && (IsError(r) <==> keepAlive == IoStatusError || output == IoStatusError || (InputRuns(keepAlive, output) && input == IoStatusError))
      && (IsError(r) ==> r == RES_ERROR)
  {
    var r := RunOnceResult(keepAlive, output, txBlocking, input, rxBlocking, queueable);
    ResErrorIsOnlyAnError();
    if keepAlive == IoStatusError || output == IoStatusError {
      assert r == RES_ERROR;
    } else if output == IoStatusReady {
      assert r == RES_EOF_WR;
      EofFlags();
    } else if input == IoStatusError {
      assert InputRuns(keepAlive, output);
      assert r == RES_ERROR;
    } else if input == IoStatusReady {
      RunOnceInputEof(keepAlive, output, txBlocking, rxBlocking, queueable);
    } else {
      RunOnceBlocking(keepAlive, output, txBlocking, input, rxBlocking, queueable);
    }
  }

  /** Every side that reports an error makes the whole result exactly
      LMQTT_RES_ERROR; a closed connection makes it EOF for that side and
      nothing else; otherwise the result says, for each direction, whether
      the connection blocked, and never both blocked and closed. */
  lemma RunOnceResultFlags(keepAlive: IoStatus, output: IoStatus, txBlocking: bool,
                           input: IoStatus, rxBlocking: bool, queueable: bool)
    ensures var r := RunOnceResult(keepAlive, output, txBlocking, input, rxBlocking, queueable);
      && (IsError(r) <==> keepAlive == IoStatusError || output == IoStatusError || (InputRuns(keepAlive, output) && input == IoStatusError))
      && (IsError(r) ==> r == RES_ERROR)
      && (keepAlive != IoStatusError && output == IoStatusReady ==> r == RES_EOF_WR && IsEofWr(r) && !IsEofRd(r))
      && (InputRuns(keepAlive, output) && input == IoStatusReady ==> IsEofRd(r) && !IsQueueable(r))
      && (InputRuns(keepAlive, output) && input != IoStatusReady && input != IoStatusError ==>
            && !IsEof(r)
            && (WouldBlockConnWr(r) <==> output == IoStatusBlockConn)
            && (WouldBlockConnRd(r) <==> input == IoStatusBlockConn)
            && (WouldBlockDataRd(r) <==> output == IoStatusBlockData && txBlocking)
            && (WouldBlockDataWr(r) <==> input == IoStatusBlockData && rxBlocking)
            && (IsQueueable(r) <==> queueable))
  {
    RunOnceError(keepAlive, output, txBlocking, input, rxBlocking, queueable);
    if keepAlive == IoStatusError || output == IoStatusError || input == IoStatusError {
    } else if output == IoStatusReady {
      assert RunOnceResult(keepAlive, output, txBlocking, input, rxBlocking, queueable) == RES_EOF_WR;
      EofFlags();
    } else if input == IoStatusReady {
      RunOnceInputEof(keepAlive, output, txBlocking, rxBlocking, queueable);
    } else {
      RunOnceBlocking(keepAlive, output, txBlocking, input, rxBlocking, queueable);
    }
  }

  /** LMQTT_RES_EOF_WR is closed for writing only, and no error. */
  lemma EofFlags()
    ensures IsEofWr(RES_EOF_WR) && !IsEofRd(RES_EOF_WR) && !IsError(RES_EOF_WR)
  {
  }

  /** An input pass that finds the connection closed ends the result with
      EOF_RD and without the queueable flag. */
  lemma RunOnceInputEof(keepAlive: IoStatus, output: IoStatus, txBlocking: bool, rxBlocking: bool, queueable: bool)
    requires InputRuns(keepAlive, output)
    ensures var r := RunOnceResult(keepAlive, output, txBlocking, IoStatusReady, rxBlocking, queueable);
      !IsError(r) && IsEofRd(r) && !IsQueueable(r)
  {
    assert RunOnceResult(keepAlive, output, txBlocking, IoStatusReady, rxBlocking, queueable) == RES_EOF | RES_WOULD_BLOCK_CONN_RD;
  }

  /** When both passes block, the result holds exactly the blocking flag
      of each side and the queueable flag. */
  lemma RunOnceBlocking(keepAlive: IoStatus, output: IoStatus, txBlocking: bool, input: IoStatus,
                        rxBlocking: bool, queueable: bool)
    requires InputRuns(keepAlive, output) && (input == IoStatusBlockConn || input == IoStatusBlockData)
    ensures var r := RunOnceResult(keepAlive, output, txBlocking, input, rxBlocking, queueable);
      && !IsError(r) && !IsEof(r)
      && (WouldBlockConnWr(r) <==> output == IoStatusBlockConn)
      && (WouldBlockConnRd(r) <==> input == IoStatusBlockConn)
      && (WouldBlockDataRd(r) <==> output == IoStatusBlockData && txBlocking)
      && (WouldBlockDataWr(r) <==> input == IoStatusBlockData && rxBlocking)
      && (IsQueueable(r) <==> queueable)
  {
    var o: Res := if output == IoStatusBlockConn then RES_WOULD_BLOCK_CONN_WR
      else if txBlocking then RES_WOULD_BLOCK_DATA_RD else 0;
    var i: Res := if input == IoStatusBlockConn then RES_WOULD_BLOCK_CONN_RD
      else if rxBlocking then RES_WOULD_BLOCK_DATA_WR else 0;
    var q: Res := if queueable then RES_QUEUEABLE else 0;
    assert RunOnceResult(keepAlive, output, txBlocking, input, rxBlocking, queueable) == o | i | q;
  }
}
