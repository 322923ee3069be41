/** Reassembly of fragmented UDP messages: `Defragger` in core/src/frag.rs. */
module Defrag {
  import opened Base
  import opened Proxy

  const MAX_IN_FLIGHT_PACKETS: nat := 64

  type Slots = seq<Option<UdpMessage>>

  datatype PacketState = PacketState(
    sessionId: U32, addr: seq<Byte>, fragments: Slots, count: nat, size: nat)

  /** The packets being reassembled and the order in which they were started. */
  datatype Table = Table(packets: map<U16, PacketState>, order: seq<U16>)

  const EMPTY := Table(map[], [])

  // ================================================================ slots

  function Filled(slots: Slots): (n: nat)
    ensures n <= |slots|
  {
    if slots == [] then 0 else Filled(slots[1..]) + (if slots[0].Some? then 1 else 0)
  }

  function Payload(slot: Option<UdpMessage>): seq<Byte> {
    if slot.Some? then slot.value.data else []
  }

  function SlotPayloads(slots: Slots): (ps: seq<seq<Byte>>)
    ensures |ps| == |slots|
  {
    seq(|slots|, i requires 0 <= i < |slots| => Payload(slots[i]))
  }

  function Bytes(slots: Slots): nat {
    if slots == [] then 0 else |Payload(slots[0])| + Bytes(slots[1..])
  }

  lemma {:induction false} FilledAll(slots: Slots)
    ensures Filled(slots) == |slots| <==> forall i | 0 <= i < |slots| :: slots[i].Some?
  {
    if slots != [] {
      FilledAll(slots[1..]);
      assert forall i | 1 <= i < |slots| :: slots[i] == slots[1..][i - 1];
      if forall i | 0 <= i < |slots| :: slots[i].Some? {
        assert forall i | 0 <= i < |slots| - 1 :: slots[1..][i].Some?;
      }
    }
  }

  lemma {:induction false} FilledUpdate(slots: Slots, k: nat, m: UdpMessage)
    requires k < |slots| && slots[k] == None
    ensures Filled(slots[k := Some(m)]) == Filled(slots) + 1
    ensures Bytes(slots[k := Some(m)]) == Bytes(slots) + |m.data|
  {
    if k == 0 {
      assert slots[k := Some(m)][1..] == slots[1..];
    } else {
      FilledUpdate(slots[1..], k - 1, m);
      assert slots[k := Some(m)][1..] == slots[1..][k - 1 := Some(m)];
    }
  }

  lemma {:induction false} EmptySlots(n: nat)
    ensures Filled(seq(n, _ => None)) == 0 && Bytes(seq(n, _ => None)) == 0
  {
    if n > 0 {
      EmptySlots(n - 1);
      assert seq<Option<UdpMessage>>(n, _ => None)[1..] == seq(n - 1, _ => None);
    }
  }

  // ================================================================ the order queue

  /** The queue without the first occurrence of `id` (`position` and `remove`). */
  function Without(order: seq<U16>, id: U16): (r: seq<U16>)
    ensures id !in order ==> r == order
    ensures id in order ==> |r| == |order| - 1
  {
    if order == [] then []
    else if order[0] == id then order[1..]
    else [order[0]] + Without(order[1..], id)
  }

  /** The packets started after `id`. */
  function After(order: seq<U16>, id: U16): (r: seq<U16>)
    ensures |r| <= |order| && (id in order ==> |r| < |order|)
  {
    if order == [] then [] else if order[0] == id then order[1..] else After(order[1..], id)
  }

  predicate NoDuplicates(order: seq<U16>) {
    forall i, j | 0 <= i < j < |order| :: order[i] != order[j]
  }

  lemma {:induction false} WithoutMembers(order: seq<U16>, id: U16)
    requires NoDuplicates(order)
    ensures NoDuplicates(Without(order, id))
    ensures forall x :: x in Without(order, id) <==> x in order && x != id
  {
    if order != [] {
      assert order == [order[0]] + order[1..];
      if order[0] != id {
        WithoutMembers(order[1..], id);
        var rest := Without(order[1..], id);
        assert order[0] !in rest;
        assert forall i | 0 <= i < |rest| :: rest[i] != order[0];
      }
    }
  }

  lemma {:induction false} WithoutAt(order: seq<U16>, id: U16, index: nat)
    requires index < |order| && order[index] == id && id !in order[..index]
    ensures Without(order, id) == order[..index] + order[index + 1..]
  {
    if index > 0 {
      assert order[0] == order[..index][0];
      assert order[1..][..index - 1] == order[..index][1..];
      WithoutAt(order[1..], id, index - 1);
    }
  }

  lemma {:induction false} AfterWithout(order: seq<U16>, id: U16, other: U16)
    requires NoDuplicates(order) && id in order && other != id
    ensures forall x :: x in After(Without(order, other), id) <==> x in After(order, id) && x != other
  {
    if order[0] == id {
      assert Without(order, other) == [id] + Without(order[1..], other);
      WithoutMembers(order[1..], other);
    } else if order[0] == other {
      AfterMembers(order[1..], id);
    } else {
      AfterWithout(order[1..], id, other);
      assert Without(order, other)[1..] == Without(order[1..], other);
    }
  }

  lemma {:induction false} AfterMembers(order: seq<U16>, id: U16)
    requires NoDuplicates(order)
    ensures NoDuplicates(After(order, id)) && id !in After(order, id)
    ensures forall x | x in After(order, id) :: x in order
  {
    if order != [] && order[0] != id {
      AfterMembers(order[1..], id);
    }
  }

  lemma {:induction false} AfterAppend(order: seq<U16>, id: U16, last: U16)
    ensures id in order ==> After(order + [last], id) == After(order, id) + [last]
    ensures id !in order && last == id ==> After(order + [last], id) == []
  {
    if order != [] {
      assert (order + [last])[1..] == order[1..] + [last];
      AfterAppend(order[1..], id, last);
    }
  }

  // ================================================================ the operations on values

  /** The key under which fragments belong together, besides the packet id. */
  predicate SameKey(s: PacketState, m: UdpMessage) {
    s.sessionId == m.sessionId && s.addr == m.addr && |s.fragments| == m.fragCount
  }

  predicate InProgress(t: Table, m: UdpMessage) {
    m.packetId in t.packets && SameKey(t.packets[m.packetId], m)
  }

  /** A fragment the reassembler looks at: part of a real split, with an index inside it. */
  predicate IsFragment(m: UdpMessage) {
    2 <= m.fragCount && m.fragId < m.fragCount
  }

  /** Feeding `m` (re)starts its packet. */
  predicate Starts(t: Table, m: UdpMessage) {
    IsFragment(m) && !InProgress(t, m)
  }

  /** `remove_packet`. */
  function Remove(t: Table, id: U16): Table {
    Table(t.packets - {id}, Without(t.order, id))
  }

  /** The eviction loop of `insert_packet`. */
  function Evict(t: Table): Table
    decreases |t.order|
  {
    if |t.order| < MAX_IN_FLIGHT_PACKETS then t
    else Evict(Table(t.packets - {t.order[0]}, t.order[1..]))
  }

  function Fresh(m: UdpMessage): PacketState
    requires IsFragment(m)
  {
    PacketState(m.sessionId, m.addr, seq(m.fragCount, _ => None)[m.fragId := Some(m)], 1, |m.data|)
  }

  /** `insert_packet`. */
  function Insert(t: Table, m: UdpMessage): Table
    requires IsFragment(m)
  {
    var room := Evict(Remove(t, m.packetId));
    Table(room.packets[m.packetId := Fresh(m)], room.order + [m.packetId])
  }

  /** Store a fragment in its slot unless the slot is taken: the first arrival wins. */
  function Fill(s: PacketState, m: UdpMessage): PacketState
    requires m.fragId < |s.fragments|
  {
    if s.fragments[m.fragId].Some? then s
    else s.(size := s.size + |m.data|, count := s.count + 1,
            fragments := s.fragments[m.fragId := Some(m)])
  }

  function Assemble(slots: Slots, m: UdpMessage): UdpMessage {
    m.(data := Concat(SlotPayloads(slots)), fragId := 0, fragCount := 1)
  }

  /** `feed`. */
  function Feed(t: Table, m: UdpMessage): (Table, Option<UdpMessage>) {
    if m.fragCount <= 1 then (t, Some(m))
    else if m.fragId >= m.fragCount then (t, None)
    else if !InProgress(t, m) then (Insert(t, m), None)
    else
      var s := Fill(t.packets[m.packetId], m);
      if s.count == |s.fragments| then (Remove(t, m.packetId), Some(Assemble(s.fragments, m)))
      else (t.(packets := t.packets[m.packetId := s]), None)
  }

  // ================================================================ the structural invariant

  predicate ValidState(id: U16, s: PacketState) {
    && 2 <= |s.fragments| < 256
    && s.count == Filled(s.fragments) && 1 <= s.count < |s.fragments|
    && s.size == Bytes(s.fragments)
    && forall i | 0 <= i < |s.fragments| && s.fragments[i].Some? ::
         var m := s.fragments[i].value;
         m.packetId == id && m.fragId == i && SameKey(s, m)
  }

  /** Map and queue agree, the queue is bounded, and every packet's books are in order. */
  ghost predicate Inv(t: Table) {
    && NoDuplicates(t.order)
    && (forall id :: id in t.order <==> id in t.packets)
    && |t.order| <= MAX_IN_FLIGHT_PACKETS
    && forall id | id in t.packets :: ValidState(id, t.packets[id])
  }

  lemma {:induction false} FreshValid(m: UdpMessage)
    requires IsFragment(m)
    ensures ValidState(m.packetId, Fresh(m))
  {
    EmptySlots(m.fragCount);
    FilledUpdate(seq(m.fragCount, _ => None), m.fragId, m);
  }

  lemma {:induction false} RemoveInv(t: Table, id: U16)
    requires Inv(t)
    ensures Inv(Remove(t, id))
  {
    WithoutMembers(t.order, id);
  }

  /** Under the invariant the eviction loop runs at most once, and only on a full queue. */
  lemma {:induction false} EvictOnce(t: Table)
    requires Inv(t)
    ensures Evict(t) == if |t.order| < MAX_IN_FLIGHT_PACKETS then t
                        else Table(t.packets - {t.order[0]}, t.order[1..])
    ensures Inv(Evict(t)) && |Evict(t).order| < MAX_IN_FLIGHT_PACKETS
  {
    if |t.order| >= MAX_IN_FLIGHT_PACKETS {
      var next := Table(t.packets - {t.order[0]}, t.order[1..]);
      assert t.order == [t.order[0]] + t.order[1..];
      assert Evict(next) == next;
      forall id
        ensures id in next.order <==> id in next.packets
      {
      }
    }
  }

  lemma {:induction false} AppendInv(t: Table, id: U16, s: PacketState)
    requires Inv(t) && |t.order| < MAX_IN_FLIGHT_PACKETS && id !in t.order && ValidState(id, s)
    ensures Inv(Table(t.packets[id := s], t.order + [id]))
  {
    var next := Table(t.packets[id := s], t.order + [id]);
    forall x
      ensures x in next.order <==> x in next.packets
    {
      assert x in next.order <==> x in t.order || x == id;
    }
  }

  lemma {:induction false} InsertInv(t: Table, m: UdpMessage)
    requires Inv(t) && IsFragment(m)
    ensures Inv(Insert(t, m))
  {
    var removed := Remove(t, m.packetId);
    RemoveInv(t, m.packetId);
    WithoutMembers(t.order, m.packetId);
    EvictOnce(removed);
    FreshValid(m);
    assert m.packetId !in Evict(removed).packets;
    AppendInv(Evict(removed), m.packetId, Fresh(m));
  }

  lemma {:induction false} FillValid(id: U16, s: PacketState, m: UdpMessage)
    requires ValidState(id, s) && m.packetId == id && SameKey(s, m) && m.fragId < m.fragCount
    ensures
      var f := Fill(s, m);
      && f.count == Filled(f.fragments) <= |f.fragments|
      && f.size == Bytes(f.fragments)
      && (f.count < |f.fragments| ==> ValidState(id, f))
  {
    if s.fragments[m.fragId].None? {
      FilledUpdate(s.fragments, m.fragId, m);
    }
  }

  /** Every step keeps the invariant: it holds in every reachable state. */
  lemma {:induction false} FeedInv(t: Table, m: UdpMessage)
    requires Inv(t)
    ensures Inv(Feed(t, m).0)
  {
    if IsFragment(m) {
      if InProgress(t, m) {
        FillValid(m.packetId, t.packets[m.packetId], m);
        RemoveInv(t, m.packetId);
      } else {
        InsertInv(t, m);
      }
    }
  }

  // ================================================================ the imperative code

  class Defragger {
    var packets: map<U16, PacketState>
    var order: seq<U16>

    ghost function View(): Table
      reads this
    {
      Table(packets, order)
    }

    ghost predicate Valid()
      reads this
    {
      Inv(View())
    }

    constructor ()
      ensures View() == EMPTY && Valid()
    {
      packets := map[];
      order := [];
    }

    method RemovePacket(id: U16)
      modifies this
      ensures View() == Remove(old(View()), id)
    {
      packets := packets - {id};
      var index := 0;
      while index < |order| && order[index] != id
        invariant index <= |order| && id !in order[..index]
      {
        index := index + 1;
      }
      if index < |order| {
        WithoutAt(order, id, index);
        order := order[..index] + order[index + 1..];
      } else {
        assert order[..index] == order;
      }
    }

    method InsertPacket(id: U16, fragCount: nat, m: UdpMessage)
      requires IsFragment(m) && id == m.packetId && fragCount == m.fragCount
      modifies this
      ensures View() == Insert(old(View()), m)
    {
      RemovePacket(id);
      ghost var removed := View();
      while |order| >= MAX_IN_FLIGHT_PACKETS
        invariant Evict(View()) == Evict(removed)
        decreases |order|
      {
        var oldest := order[0];
        order := order[1..];
        packets := packets - {oldest};
      }
      var fragments: Slots := seq(fragCount, _ => None);
      fragments := fragments[m.fragId := Some(m)];
      packets := packets[id := PacketState(m.sessionId, m.addr, fragments, 1, |m.data|)];
      order := order + [id];
    }

    /** `feed`; `count` never leaves the range of a u8 and no slot is missing when it reaches the slot count. */
    method FeedMessage(m: UdpMessage) returns (out: Option<UdpMessage>)
      requires Valid()
      modifies this
      ensures Valid()
      ensures (View(), out) == Feed(old(View()), m)
    {
      FeedInv(View(), m);
      if m.fragCount <= 1 {
        return Some(m);
      }
      if m.fragId >= m.fragCount {
        return None;
      }
      var packetId := m.packetId;
      var resetPacket := packetId !in packets
                         || packets[packetId].sessionId != m.sessionId
                         || packets[packetId].addr != m.addr
                         || |packets[packetId].fragments| != m.fragCount;
      if resetPacket {
        InsertPacket(packetId, m.fragCount, m);
        return None;
      }
      out := FillPacket(packetId, m);
    }

    /** The rest of `feed`, for a packet in progress under the same key. */
    method FillPacket(packetId: U16, m: UdpMessage) returns (out: Option<UdpMessage>)
      requires IsFragment(m) && packetId == m.packetId
      requires InProgress(View(), m) && ValidState(packetId, packets[packetId])
      modifies this
      ensures (View(), out) == Feed(old(View()), m)
    {
      var state := packets[packetId];
      FillValid(packetId, state, m);
      if state.fragments[m.fragId].None? {
        assert state.count + 1 < 256;
        state := state.(size := state.size + |m.data|, count := state.count + 1,
                        fragments := state.fragments[m.fragId := Some(m)]);
      }
      if state.count == |state.fragments| {
        FilledAll(state.fragments);
        BytesConcat(state.fragments);
        var data := AssembleSlots(state.fragments);
        assert |data| == state.size;
        RemovePacket(packetId);
        return Some(m.(data := data, fragId := 0, fragCount := 1));
      }
      packets := packets[packetId := state];
      return None;
    }
  }

  /** The loop of `feed` over a full row of slots. */
  method AssembleSlots(slots: Slots) returns (data: seq<Byte>)
    requires forall i | 0 <= i < |slots| :: slots[i].Some?
    ensures data == Concat(SlotPayloads(slots))
  {
    data := [];
    ghost var parts := SlotPayloads(slots);
    for i := 0 to |slots|
      invariant data == Concat(parts[..i])
    {
      ConcatTake(parts, i);
      data := data + slots[i].value.data;
    }
    assert parts[..|slots|] == parts;
  }

  /** The capacity reserved for the assembled payload is exactly its length. */
  lemma {:induction false} BytesConcat(slots: Slots)
    ensures |Concat(SlotPayloads(slots))| == Bytes(slots)
  {
    if slots != [] {
      BytesConcat(slots[1..]);
      assert SlotPayloads(slots)[1..] == SlotPayloads(slots[1..]);
    }
  }
}
