/** What the reassembler of core/src/frag.rs guarantees over whole runs of arriving messages. */
module Reassembly {
  import opened Base
  import opened Proxy
  import opened Frag
  import opened Defrag

  /** The table after a run of messages. */
  ghost function Run(t: Table, ms: seq<UdpMessage>): Table {
    if ms == [] then t else Feed(Run(t, ms[..|ms| - 1]), ms[|ms| - 1]).0
  }

  /** What message `k` of the run makes `feed` return. */
  ghost function Output(t: Table, ms: seq<UdpMessage>, k: nat): Option<UdpMessage>
    requires k < |ms|
  {
    Feed(Run(t, ms[..k]), ms[k]).1
  }

  lemma {:induction false} RunAppend(t: Table, a: seq<UdpMessage>, b: seq<UdpMessage>)
    ensures Run(t, a + b) == Run(Run(t, a), b)
  {
    if b == [] {
      assert a + b == a;
    } else {
      var init := b[..|b| - 1];
      assert (a + b)[..|a + b| - 1] == a + init;
      RunAppend(t, a, init);
    }
  }

  lemma {:induction false} OutputAppend(t: Table, a: seq<UdpMessage>, b: seq<UdpMessage>, k: nat)
    requires k < |b|
    ensures Output(t, a + b, |a| + k) == Output(Run(t, a), b, k)
  {
    assert (a + b)[..|a| + k] == a + b[..k];
    RunAppend(t, a, b[..k]);
  }

  lemma {:induction false} RunInv(t: Table, ms: seq<UdpMessage>)
    requires Inv(t)
    ensures Inv(Run(t, ms))
  {
    if ms != [] {
      RunInv(t, ms[..|ms| - 1]);
      FeedInv(Run(t, ms[..|ms| - 1]), ms[|ms| - 1]);
    }
  }

  // ================================================================ delivery under interleaving

  /** The fragments of one packet, in order. */
  ghost predicate IsPacket(frs: seq<UdpMessage>) {
    && 2 <= |frs| < 256
    && forall i | 0 <= i < |frs| ::
         && frs[i].fragId == i && frs[i].fragCount == |frs|
         && frs[i].packetId == frs[0].packetId
         && frs[i].sessionId == frs[0].sessionId
         && frs[i].addr == frs[0].addr
  }

  /** The message the fragments were cut from. */
  ghost function Whole(frs: seq<UdpMessage>): UdpMessage
    requires frs != []
  {
    frs[0].(data := Concat(Payloads(frs)), fragId := 0, fragCount := 1)
  }

  /** A message that may be mixed in: of another packet id, or not a fragment at all. */
  predicate Unrelated(m: UdpMessage, id: U16) {
    m.packetId != id || !IsFragment(m)
  }

  /** The fragments that have arrived. */
  ghost function Seen(frs: seq<UdpMessage>, ms: seq<UdpMessage>): set<nat> {
    set i: nat | i < |frs| && frs[i] in ms
  }

  ghost function Elements(s: seq<U16>): set<U16> {
    set x | x in s
  }

  /** The packets queued behind `id`. */
  ghost function Behind(t: Table, id: U16): set<U16> {
    Elements(After(t.order, id))
  }

  /** How a message of another packet changes a set of younger packets: it may start or complete one. */
  ghost function YoungerAfter(t: Table, younger: set<U16>, m: UdpMessage): set<U16> {
    if Starts(t, m) then younger + {m.packetId}
    else if IsFragment(m) && Feed(t, m).1.Some? then younger - {m.packetId}
    else younger
  }

  /** The other packets that were started since the first fragment of this one arrived and are incomplete. */
  ghost function Younger(t: Table, ms: seq<UdpMessage>, frs: seq<UdpMessage>): set<U16>
    requires frs != []
  {
    if ms == [] then {}
    else
      var before := ms[..|ms| - 1];
      var m := ms[|ms| - 1];
      if Seen(frs, before) == {} then {}
      else if m.packetId == frs[0].packetId then Younger(t, before, frs)
      else YoungerAfter(Run(t, before), Younger(t, before, frs), m)
  }

  /** There were never 64 of them. */
  ghost predicate Uncrowded(t: Table, ms: seq<UdpMessage>, frs: seq<UdpMessage>)
    requires frs != []
  {
    && |Younger(t, ms, frs)| < 64
    && (ms != [] ==> Uncrowded(t, ms[..|ms| - 1], frs))
  }

  /** The slots hold exactly the fragments in `seen`. */
  ghost predicate Holds(slots: Slots, frs: seq<UdpMessage>, seen: set<nat>) {
    && |slots| == |frs|
    && forall i: nat | i < |frs| :: slots[i] == if i in seen then Some(frs[i]) else None
  }

  /** The packet is in the table with exactly the fragments in `seen`, or not in progress when there are none. */
  ghost predicate Tracks(t: Table, frs: seq<UdpMessage>, seen: set<nat>)
    requires IsPacket(frs)
  {
    && Inv(t)
    && if seen == {} then !InProgress(t, frs[0])
       else InProgress(t, frs[0]) && Holds(t.packets[frs[0].packetId].fragments, frs, seen)
  }

  lemma {:induction false} ElementsSize(s: seq<U16>)
    requires NoDuplicates(s)
    ensures |Elements(s)| == |s|
  {
    if s != [] {
      var init, last := s[..|s| - 1], s[|s| - 1];
      ElementsSize(init);
      assert s == init + [last];
      assert Elements(s) == Elements(init) + {last};
      assert last !in Elements(init);
    }
  }

  /** The queue when a packet is started: its old entry removed, and if it is still full the oldest. */
  function Room(order: seq<U16>, other: U16): seq<U16> {
    var rest := Without(order, other);
    if |rest| < MAX_IN_FLIGHT_PACKETS then rest else rest[1..]
  }

  lemma {:induction false} RoomDropsIff(order: seq<U16>, other: U16, id: U16)
    requires NoDuplicates(order) && |order| <= MAX_IN_FLIGHT_PACKETS && id in order && other != id
    ensures id !in Room(order, other) <==>
            |Elements(After(order, id))| == MAX_IN_FLIGHT_PACKETS - 1 && other !in Elements(After(order, id))
  {
    WithoutMembers(order, other);
    AfterMembers(order, id);
    ElementsSize(After(order, id));
    QueueHead(order, id);
    var rest := Without(order, other);
    assert rest != [] ==> rest == [rest[0]] + rest[1..];
  }

  lemma {:induction false} RoomBehind(order: seq<U16>, other: U16, id: U16)
    requires NoDuplicates(order) && |order| <= MAX_IN_FLIGHT_PACKETS && id in order && other != id
    requires id in Room(order, other)
    ensures Elements(After(Room(order, other) + [other], id)) == Elements(After(order, id)) + {other}
  {
    AfterWithout(order, id, other);
    AfterRoom(order, other, id);
    AfterAppend(Room(order, other), id, other);
  }

  lemma {:induction false} AfterRoom(order: seq<U16>, other: U16, id: U16)
    requires NoDuplicates(order) && |order| <= MAX_IN_FLIGHT_PACKETS && id in Room(order, other)
    ensures After(Room(order, other), id) == After(Without(order, other), id)
  {
    var rest := Without(order, other);
    WithoutMembers(order, other);
    if |rest| == MAX_IN_FLIGHT_PACKETS {
      assert rest == [rest[0]] + rest[1..];
      assert rest[0] != id;
    }
  }

  /**
   * A message that starts another packet evicts this one exactly when 63 packets are queued behind it
   * and the new one is not among them. Otherwise it goes behind this one, which stays as it is.
   */
  lemma {:induction false} EvictsIff(t: Table, m: UdpMessage, id: U16)
    requires Inv(t) && Starts(t, m) && id in t.packets && m.packetId != id
    ensures id !in Feed(t, m).0.packets <==>
            |Behind(t, id)| == MAX_IN_FLIGHT_PACKETS - 1 && m.packetId !in Behind(t, id)
    ensures id in Feed(t, m).0.packets ==>
              && Feed(t, m).0.packets[id] == t.packets[id]
              && Behind(Feed(t, m).0, id) == Behind(t, id) + {m.packetId}
  {
    StartedQueue(t, m, id);
    RoomDropsIff(t.order, m.packetId, id);
    if id in Room(t.order, m.packetId) {
      RoomBehind(t.order, m.packetId, id);
    }
  }

  lemma {:induction false} StartedQueue(t: Table, m: UdpMessage, id: U16)
    requires Inv(t) && Starts(t, m) && id in t.packets && m.packetId != id
    ensures Feed(t, m).0.order == Room(t.order, m.packetId) + [m.packetId]
    ensures id in Feed(t, m).0.packets <==> id in Room(t.order, m.packetId)
    ensures id in Feed(t, m).0.packets ==> Feed(t, m).0.packets[id] == t.packets[id]
  {
    var removed := Remove(t, m.packetId);
    RemoveInv(t, m.packetId);
    EvictOnce(removed);
  }

  /** A packet has all others behind it exactly when it is the oldest. */
  lemma {:induction false} QueueHead(order: seq<U16>, id: U16)
    requires id in order
    ensures |After(order, id)| == |order| - 1 <==> order[0] == id
    ensures order[0] == id ==> order == [id] + After(order, id)
  {
  }

  /** A message that does not belong to the packet leaves what is stored of it alone. */
  lemma {:induction false} UnrelatedStep(t: Table, frs: seq<UdpMessage>, seen: set<nat>, m: UdpMessage)
    requires IsPacket(frs) && Tracks(t, frs, seen) && Unrelated(m, frs[0].packetId)
    requires seen != {} && Starts(t, m) ==> |Behind(t, frs[0].packetId) + {m.packetId}| < MAX_IN_FLIGHT_PACKETS
    ensures Tracks(Feed(t, m).0, frs, seen)
    ensures seen != {} ==>
              var id := frs[0].packetId;
              Behind(Feed(t, m).0, id) ==
              if m.packetId == id then Behind(t, id) else YoungerAfter(t, Behind(t, id), m)
  {
    var id := frs[0].packetId;
    FeedInv(t, m);
    if Starts(t, m) {
      if seen != {} {
        EvictsIff(t, m, id);
      } else if id in t.packets {
        InsertOnlyDrops(t, m, id);
      } else {
        InsertAddsOne(t, m, id);
      }
    } else if IsFragment(m) && id in t.packets {
      FilledQueue(t, m, id);
    }
  }

  lemma {:induction false} FilledQueue(t: Table, m: UdpMessage, id: U16)
    requires Inv(t) && IsFragment(m) && InProgress(t, m) && id in t.packets && m.packetId != id
    ensures id in Feed(t, m).0.packets && Feed(t, m).0.packets[id] == t.packets[id]
    ensures Behind(Feed(t, m).0, id) == YoungerAfter(t, Behind(t, id), m)
  {
    AfterWithout(t.order, id, m.packetId);
  }

  lemma {:induction false} InsertOnlyDrops(t: Table, m: UdpMessage, id: U16)
    requires Inv(t) && IsFragment(m) && m.packetId != id && id in t.packets
    ensures id in Insert(t, m).packets ==> Insert(t, m).packets[id] == t.packets[id]
  {
    RemoveInv(t, m.packetId);
    EvictOnce(Remove(t, m.packetId));
  }

  lemma {:induction false} InsertAddsOne(t: Table, m: UdpMessage, id: U16)
    requires Inv(t) && IsFragment(m) && m.packetId != id && id !in t.packets
    ensures id !in Insert(t, m).packets
  {
    RemoveInv(t, m.packetId);
    EvictOnce(Remove(t, m.packetId));
  }

  /** The first fragment to arrive starts the packet at the back of the queue. */
  lemma {:induction false} FirstStep(t: Table, frs: seq<UdpMessage>, j: nat)
    requires IsPacket(frs) && Tracks(t, frs, {}) && j < |frs|
    ensures Feed(t, frs[j]).1 == None
    ensures Tracks(Feed(t, frs[j]).0, frs, {j})
    ensures After(Feed(t, frs[j]).0.order, frs[0].packetId) == []
  {
    FeedInv(t, frs[j]);
    StartsLast(t, frs[j]);
  }

  lemma {:induction false} StartsLast(t: Table, m: UdpMessage)
    requires Inv(t) && Starts(t, m)
    ensures
      var t' := Feed(t, m).0;
      m.packetId in t'.packets && t'.packets[m.packetId] == Fresh(m) && After(t'.order, m.packetId) == []
  {
    var removed := Remove(t, m.packetId);
    RemoveInv(t, m.packetId);
    WithoutMembers(t.order, m.packetId);
    EvictOnce(removed);
    AfterAppend(Evict(removed).order, m.packetId, m.packetId);
  }

  /** A later fragment ends up in its slot. */
  lemma {:induction false} FillHolds(t: Table, frs: seq<UdpMessage>, seen: set<nat>, j: nat)
    requires IsPacket(frs) && Tracks(t, frs, seen) && seen != {} && j < |frs|
    ensures
      var s := Fill(t.packets[frs[0].packetId], frs[j]);
      && Holds(s.fragments, frs, seen + {j})
      && s.count == Filled(s.fragments)
  {
    FillValid(frs[0].packetId, t.packets[frs[0].packetId], frs[j]);
  }

  /** The last missing fragment completes the packet. */
  lemma {:induction false} LastStep(t: Table, frs: seq<UdpMessage>, seen: set<nat>, j: nat)
    requires IsPacket(frs) && Tracks(t, frs, seen) && seen != {} && j < |frs|
    requires forall i: nat | i < |frs| :: i in seen || i == j
    ensures Feed(t, frs[j]).1 == Some(Whole(frs))
  {
    FillHolds(t, frs, seen, j);
    var s := Fill(t.packets[frs[0].packetId], frs[j]);
    FilledAll(s.fragments);
    assert SlotPayloads(s.fragments) == Payloads(frs);
  }

  /** A fragment that leaves another one missing is stored, or ignored when it is a duplicate. */
  lemma {:induction false} NextStep(t: Table, frs: seq<UdpMessage>, seen: set<nat>, j: nat, missing: nat)
    requires IsPacket(frs) && Tracks(t, frs, seen) && seen != {} && j < |frs|
    requires missing < |frs| && missing !in seen && missing != j
    ensures Feed(t, frs[j]).1 == None
    ensures Tracks(Feed(t, frs[j]).0, frs, seen + {j})
    ensures Feed(t, frs[j]).0.order == t.order
  {
    FeedInv(t, frs[j]);
    FillHolds(t, frs, seen, j);
    var s := Fill(t.packets[frs[0].packetId], frs[j]);
    FilledAll(s.fragments);
    assert s.fragments[missing] == None;
  }

  lemma {:induction false} SeenSnoc(frs: seq<UdpMessage>, before: seq<UdpMessage>, m: UdpMessage)
    requires IsPacket(frs)
    ensures Seen(frs, before + [m]) ==
            Seen(frs, before) + if m in frs then {m.fragId as nat} else {}
  {
    forall i: nat | i < |frs|
      ensures frs[i] in before + [m] <==> frs[i] in before || frs[i] == m
    {
    }
    if m in frs {
      var j :| 0 <= j < |frs| && frs[j] == m;
      assert j == m.fragId;
    }
  }

  /** The arrivals of a packet, still incomplete, among unrelated messages. */
  ghost predicate Arriving(t: Table, frs: seq<UdpMessage>, ms: seq<UdpMessage>) {
    && IsPacket(frs) && Inv(t) && !InProgress(t, frs[0])
    && forall m | m in ms :: m in frs || Unrelated(m, frs[0].packetId)
  }

  /**
   * While a fragment is missing and never 64 younger packets are incomplete, the table keeps all that
   * arrived, and the packets queued behind are exactly the younger ones.
   */
  lemma {:induction false} Tracking(t: Table, frs: seq<UdpMessage>, ms: seq<UdpMessage>)
    requires Arriving(t, frs, ms)
    requires exists i: nat :: i < |frs| && frs[i] !in ms
    requires Uncrowded(t, ms, frs)
    ensures Tracks(Run(t, ms), frs, Seen(frs, ms))
    ensures Seen(frs, ms) != {} ==> Behind(Run(t, ms), frs[0].packetId) == Younger(t, ms, frs)
    ensures forall k | 0 <= k < |ms| && ms[k] in frs :: Output(t, ms, k) == None
  {
    if ms == [] {
      assert Seen(frs, ms) == {};
    } else {
      var before := ms[..|ms| - 1];
      var m := ms[|ms| - 1];
      assert ms == before + [m];
      Tracking(t, frs, before);
      TrackingStep(t, frs, before, m);
      EarlierOutputs(t, before, m);
    }
  }

  lemma {:induction false} TrackingStep(t: Table, frs: seq<UdpMessage>, before: seq<UdpMessage>, m: UdpMessage)
    requires Arriving(t, frs, before + [m])
    requires exists i: nat :: i < |frs| && frs[i] !in before + [m]
    requires |Younger(t, before + [m], frs)| < MAX_IN_FLIGHT_PACKETS
    requires Tracks(Run(t, before), frs, Seen(frs, before))
    requires Seen(frs, before) != {} ==> Behind(Run(t, before), frs[0].packetId) == Younger(t, before, frs)
    ensures
      var ms := before + [m];
      && Tracks(Run(t, ms), frs, Seen(frs, ms))
      && (Seen(frs, ms) != {} ==> Behind(Run(t, ms), frs[0].packetId) == Younger(t, ms, frs))
      && (m in frs ==> Feed(Run(t, before), m).1 == None)
  {
    var ms := before + [m];
    var seen := Seen(frs, before);
    assert ms[..|ms| - 1] == before;
    SeenSnoc(frs, before, m);
    if m in frs {
      var j: nat :| j < |frs| && frs[j] == m;
      assert m.packetId == frs[0].packetId;
      if seen == {} {
        FirstStep(Run(t, before), frs, j);
      } else {
        var i: nat :| i < |frs| && frs[i] !in ms;
        assert i !in seen && i != j;
        NextStep(Run(t, before), frs, seen, j, i);
      }
    } else {
      assert Unrelated(m, frs[0].packetId) by {
        assert m in ms;
      }
      UnrelatedStep(Run(t, before), frs, seen, m);
    }
  }

  /** The messages of a run that ends with the first copy of the last missing fragment. */
  ghost predicate Completes(t: Table, frs: seq<UdpMessage>, ms: seq<UdpMessage>) {
    && Arriving(t, frs, ms) && ms != []
    && (forall i | 0 <= i < |frs| :: frs[i] in ms)
    && exists i: nat :: i < |frs| && frs[i] !in ms[..|ms| - 1]
  }

  /**
   * Delivery: whatever the order, the duplicates and the unrelated traffic, the packet is delivered
   * exactly when its last missing fragment arrives and not before, as long as there are never 64 other
   * packets that were started after it and are incomplete.
   */
  lemma {:induction false} Delivery(t: Table, frs: seq<UdpMessage>, ms: seq<UdpMessage>)
    requires Completes(t, frs, ms) && Uncrowded(t, ms[..|ms| - 1], frs)
    ensures Output(t, ms, |ms| - 1) == Some(Whole(frs))
    ensures forall k | 0 <= k < |ms| - 1 && ms[k] in frs :: Output(t, ms, k) == None
  {
    var before := ms[..|ms| - 1];
    var m := ms[|ms| - 1];
    assert ms == before + [m];
    DeliveryAtLast(t, frs, before, m);
    EarlierOutputs(t, before, m);
  }

  lemma {:induction false} DeliveryAtLast(t: Table, frs: seq<UdpMessage>, before: seq<UdpMessage>, m: UdpMessage)
    requires Completes(t, frs, before + [m]) && Uncrowded(t, before, frs)
    ensures Feed(Run(t, before), m).1 == Some(Whole(frs))
    ensures forall k | 0 <= k < |before| && before[k] in frs :: Output(t, before, k) == None
  {
    var j := LastMissing(t, frs, before, m);
    Tracking(t, frs, before);
    LastStep(Run(t, before), frs, Seen(frs, before), j);
  }

  lemma {:induction false} LastMissing(t: Table, frs: seq<UdpMessage>, before: seq<UdpMessage>, m: UdpMessage)
    returns (j: nat)
    requires Completes(t, frs, before + [m])
    ensures j < |frs| && frs[j] == m && frs[j] !in before && Seen(frs, before) != {}
    ensures forall i: nat | i < |frs| :: i in Seen(frs, before) || i == j
    ensures Arriving(t, frs, before)
  {
    var ms := before + [m];
    assert ms[..|ms| - 1] == before;
    assert forall x | x in before :: x in ms;
    j :| j < |frs| && frs[j] !in before;
    assert frs[j] in ms;
    forall i: nat | i < |frs|
      ensures i in Seen(frs, before) || i == j
    {
      assert frs[i] in ms;
    }
    var other: nat := if j == 0 then 1 else 0;
    assert other in Seen(frs, before);
  }

  /** In particular if fewer than 64 other packets are started meanwhile, restarts included. */
  lemma {:induction false} DeliveryIfFewStarted(t: Table, frs: seq<UdpMessage>, ms: seq<UdpMessage>)
    requires Completes(t, frs, ms) && OthersStarted(t, ms[..|ms| - 1], frs) < MAX_IN_FLIGHT_PACKETS
    ensures Output(t, ms, |ms| - 1) == Some(Whole(frs))
  {
    FewStarted(t, ms[..|ms| - 1], frs);
    Delivery(t, frs, ms);
  }

  /** How many other packets were started since the first fragment of this one arrived. */
  ghost function OthersStarted(t: Table, ms: seq<UdpMessage>, frs: seq<UdpMessage>): nat
    requires frs != []
  {
    if ms == [] then 0
    else
      var before := ms[..|ms| - 1];
      var m := ms[|ms| - 1];
      OthersStarted(t, before, frs)
      + if Seen(frs, before) != {} && m.packetId != frs[0].packetId && Starts(Run(t, before), m)
        then 1 else 0
  }

  lemma {:induction false} FewStarted(t: Table, ms: seq<UdpMessage>, frs: seq<UdpMessage>)
    requires frs != [] && OthersStarted(t, ms, frs) < MAX_IN_FLIGHT_PACKETS
    ensures Uncrowded(t, ms, frs) && |Younger(t, ms, frs)| <= OthersStarted(t, ms, frs)
  {
    if ms != [] {
      FewStarted(t, ms[..|ms| - 1], frs);
    }
  }

  // ---------------------------------------------------------------- without duplicates, exactly then

  /** Fragment `i` is not stored. */
  ghost predicate Missing(t: Table, frs: seq<UdpMessage>, i: nat)
    requires IsPacket(frs) && i < |frs|
  {
    Inv(t) && (InProgress(t, frs[0]) ==> t.packets[frs[0].packetId].fragments[i] == None)
  }

  /** A fragment that is not stored stays so until it comes again, and until then nothing is delivered. */
  lemma {:induction false} MissingStep(t: Table, frs: seq<UdpMessage>, i: nat, m: UdpMessage)
    requires IsPacket(frs) && i < |frs| && Missing(t, frs, i)
    requires m in frs || Unrelated(m, frs[0].packetId)
    requires m != frs[i]
    ensures Missing(Feed(t, m).0, frs, i)
    ensures m in frs ==> Feed(t, m).1 == None
  {
    FeedInv(t, m);
    if m in frs {
      if InProgress(t, frs[0]) {
        StaysIncomplete(t, frs, i, m);
      } else {
        StartsLast(t, m);
      }
    } else if frs[0].packetId in Feed(t, m).0.packets {
      OtherUnchanged(t, m, frs[0].packetId);
    }
  }

  lemma {:induction false} StaysIncomplete(t: Table, frs: seq<UdpMessage>, i: nat, m: UdpMessage)
    requires IsPacket(frs) && i < |frs| && Missing(t, frs, i) && InProgress(t, frs[0])
    requires m in frs && m != frs[i]
    ensures
      var s := Fill(t.packets[frs[0].packetId], m);
      && s.count < |s.fragments| && s.fragments[i] == None
      && Feed(t, m) == (t.(packets := t.packets[m.packetId := s]), None)
  {
    var j: nat :| j < |frs| && frs[j] == m;
    var s := t.packets[frs[0].packetId];
    FillValid(frs[0].packetId, s, m);
    FilledAll(Fill(s, m).fragments);
    assert Fill(s, m).fragments[i] == None;
  }

  /** No fragment comes twice. */
  ghost predicate Once(frs: seq<UdpMessage>, ms: seq<UdpMessage>) {
    forall k, l | 0 <= k < l < |ms| && ms[k] in frs :: ms[k] != ms[l]
  }

  /** Once crowded out, a packet lacks a fragment that has been used up. */
  lemma {:induction false} CrowdedOut(t: Table, frs: seq<UdpMessage>, ms: seq<UdpMessage>) returns (i: nat)
    requires Arriving(t, frs, ms) && Once(frs, ms) && !Uncrowded(t, ms, frs)
    requires exists i: nat :: i < |frs| && frs[i] !in ms
    ensures i < |frs| && frs[i] in ms && Missing(Run(t, ms), frs, i)
  {
    var before := ms[..|ms| - 1];
    var m := ms[|ms| - 1];
    assert ms == before + [m];
    if Uncrowded(t, before, frs) {
      Tracking(t, frs, before);
      CrowdingMessage(t, frs, before, m);
      EvictsIff(Run(t, before), m, frs[0].packetId);
      FeedInv(Run(t, before), m);
      i :| i in Seen(frs, before);
    } else {
      i := CrowdedOut(t, frs, before);
      var k :| 0 <= k < |before| && before[k] == frs[i];
      assert ms[k] == frs[i] && ms[k] != m;
      assert m in ms;
      MissingStep(Run(t, before), frs, i, m);
    }
  }

  /** The message that makes it 64 starts another packet, when 63 others are queued behind this one. */
  lemma {:induction false} CrowdingMessage(t: Table, frs: seq<UdpMessage>, before: seq<UdpMessage>, m: UdpMessage)
    requires IsPacket(frs) && Uncrowded(t, before, frs) && !Uncrowded(t, before + [m], frs)
    ensures Seen(frs, before) != {} && m.packetId != frs[0].packetId && Starts(Run(t, before), m)
    ensures |Younger(t, before, frs)| == MAX_IN_FLIGHT_PACKETS - 1 && m.packetId !in Younger(t, before, frs)
  {
    var ms := before + [m];
    assert ms[..|ms| - 1] == before;
    var younger := Younger(t, before, frs);
    assert |Younger(t, ms, frs)| >= MAX_IN_FLIGHT_PACKETS;
    assert m.packetId in younger ==> younger + {m.packetId} == younger;
  }

  /** If no fragment comes twice, the packet is delivered exactly when it was never crowded out. */
  lemma {:induction false} DeliveryIff(t: Table, frs: seq<UdpMessage>, ms: seq<UdpMessage>)
    requires Completes(t, frs, ms) && Once(frs, ms)
    ensures Output(t, ms, |ms| - 1) == Some(Whole(frs)) <==> Uncrowded(t, ms[..|ms| - 1], frs)
    ensures Output(t, ms, |ms| - 1) in {Some(Whole(frs)), None}
  {
    var before := ms[..|ms| - 1];
    var m := ms[|ms| - 1];
    if Uncrowded(t, before, frs) {
      Delivery(t, frs, ms);
    } else {
      assert ms == before + [m];
      var i := CrowdedOut(t, frs, before);
      var j := LastMissing(t, frs, before, m);
      MissingStep(Run(t, before), frs, i, m);
    }
  }

  lemma {:induction false} EarlierOutputs(t: Table, before: seq<UdpMessage>, m: UdpMessage)
    ensures forall k | 0 <= k < |before| :: Output(t, before + [m], k) == Output(t, before, k)
  {
    forall k | 0 <= k < |before|
      ensures Output(t, before + [m], k) == Output(t, before, k)
    {
      assert (before + [m])[..k] == before[..k];
    }
  }

  /**
   * For instance, 64 packets with new ids, started in a row, push out every older packet.
   */
  lemma {:induction false} SixtyFourEvict(t: Table, id: U16, ms: seq<UdpMessage>)
    requires Inv(t) && NewPackets(t, id, ms) && |ms| == MAX_IN_FLIGHT_PACKETS
    ensures id !in Run(t, ms).packets
  {
    Crowding(t, id, ms);
    RunInv(t, ms);
  }

  /** Fragments of pairwise different packets, none of them in the table. */
  ghost predicate NewPackets(t: Table, id: U16, ms: seq<UdpMessage>) {
    && id in t.packets
    && (forall k | 0 <= k < |ms| :: IsFragment(ms[k]) && ms[k].packetId !in t.packets)
    && forall j, k | 0 <= j < k < |ms| :: ms[j].packetId != ms[k].packetId
  }

  ghost function Ids(ms: seq<UdpMessage>): set<U16> {
    set m | m in ms :: m.packetId
  }

  lemma {:induction false} Crowding(t: Table, id: U16, ms: seq<UdpMessage>)
    requires Inv(t) && NewPackets(t, id, ms)
    ensures Run(t, ms).packets.Keys <= t.packets.Keys + Ids(ms)
    ensures id in Run(t, ms).packets ==> |After(Run(t, ms).order, id)| >= |ms|
  {
    if ms != [] {
      var before := ms[..|ms| - 1];
      var m := ms[|ms| - 1];
      Crowding(t, id, before);
      RunInv(t, before);
      assert m.packetId !in Ids(before);
      CrowdingStep(Run(t, before), id, m);
      assert m in ms && forall x | x in before :: x in ms;
    }
  }

  lemma {:induction false} CrowdingStep(t: Table, id: U16, m: UdpMessage)
    requires Inv(t) && IsFragment(m) && m.packetId !in t.packets && m.packetId != id
    ensures Feed(t, m).0.packets.Keys <= t.packets.Keys + {m.packetId}
    ensures id in Feed(t, m).0.packets ==>
              id in t.packets && |After(Feed(t, m).0.order, id)| == |After(t.order, id)| + 1
  {
    assert Without(t.order, m.packetId) == t.order;
    assert Remove(t, m.packetId) == t;
    EvictOnce(t);
    AfterAppend(Evict(t).order, id, m.packetId);
  }

  // ================================================================ soundness of every output

  predicate SamePacket(a: UdpMessage, b: UdpMessage) {
    a.packetId == b.packetId && a.sessionId == b.sessionId && a.addr == b.addr && a.fragCount == b.fragCount
  }

  /** The first message of `ms` that carries fragment `i` of the packet `key` belongs to. */
  ghost function First(ms: seq<UdpMessage>, key: UdpMessage, i: nat): Option<UdpMessage> {
    if ms == [] then None
    else
      var m := ms[|ms| - 1];
      var earlier := First(ms[..|ms| - 1], key, i);
      if earlier.Some? then earlier
      else if SamePacket(key, m) && m.fragId == i then Some(m)
      else None
  }

  /** The index of the message that last started packet `id`, or -1. */
  ghost function LastStart(ms: seq<UdpMessage>, id: U16): int {
    if ms == [] then -1
    else
      var before := ms[..|ms| - 1];
      var m := ms[|ms| - 1];
      if m.packetId == id && Starts(Run(EMPTY, before), m) then |before| else LastStart(before, id)
  }

  /** Slot `i` is the first arrival of fragment `i` since the packet was started. */
  ghost predicate Explained(ms: seq<UdpMessage>, id: U16, s: PacketState) {
    var start := LastStart(ms, id);
    && 0 <= start < |ms|
    && ms[start].packetId == id && SameKey(s, ms[start])
    && forall i: nat | i < |s.fragments| :: s.fragments[i] == First(ms[start..], ms[start], i)
  }

  /** In every reachable state, every slot of every packet is explained by the messages fed. */
  lemma {:induction false} StateExplained(ms: seq<UdpMessage>)
    ensures Inv(Run(EMPTY, ms))
    ensures forall id | id in Run(EMPTY, ms).packets :: Explained(ms, id, Run(EMPTY, ms).packets[id])
  {
    if ms != [] {
      var before := ms[..|ms| - 1];
      var m := ms[|ms| - 1];
      assert ms == before + [m];
      StateExplained(before);
      var t := Run(EMPTY, before);
      FeedInv(t, m);
      forall id | id in Run(EMPTY, ms).packets
        ensures Explained(ms, id, Run(EMPTY, ms).packets[id])
      {
        if id == m.packetId && IsFragment(m) {
          if InProgress(t, m) {
            FillExplained(before, m);
          } else {
            FreshExplained(before, m);
          }
        } else {
          assert Run(EMPTY, ms).packets[id] == t.packets[id] by {
            OtherUnchanged(t, m, id);
          }
          StillExplained(before, m, id);
        }
      }
    }
  }

  lemma {:induction false} OtherUnchanged(t: Table, m: UdpMessage, id: U16)
    requires Inv(t) && Unrelated(m, id) && id in Feed(t, m).0.packets
    ensures id in t.packets && Feed(t, m).0.packets[id] == t.packets[id]
  {
    if Starts(t, m) {
      RemoveInv(t, m.packetId);
      EvictOnce(Remove(t, m.packetId));
    }
  }

  lemma {:induction false} FirstSnoc(ms: seq<UdpMessage>, m: UdpMessage, start: nat, key: UdpMessage, i: nat)
    requires start <= |ms|
    ensures First((ms + [m])[start..], key, i) ==
            if First(ms[start..], key, i).Some? then First(ms[start..], key, i)
            else if SamePacket(key, m) && m.fragId == i then Some(m) else None
  {
    var tail := (ms + [m])[start..];
    assert tail == ms[start..] + [m];
    assert tail[..|tail| - 1] == ms[start..];
  }

  lemma {:induction false} FreshExplained(before: seq<UdpMessage>, m: UdpMessage)
    requires Starts(Run(EMPTY, before), m)
    ensures Explained(before + [m], m.packetId, Fresh(m))
  {
    var ms := before + [m];
    assert ms[..|ms| - 1] == before;
    forall i: nat | i < m.fragCount
      ensures Fresh(m).fragments[i] == First(ms[|before|..], m, i)
    {
      FirstSnoc(before, m, |before|, m, i);
      assert before[|before|..] == [];
    }
  }

  lemma {:induction false} FillExplained(before: seq<UdpMessage>, m: UdpMessage)
    requires
      var t := Run(EMPTY, before);
      IsFragment(m) && InProgress(t, m) && Explained(before, m.packetId, t.packets[m.packetId])
    ensures Explained(before + [m], m.packetId, Fill(Run(EMPTY, before).packets[m.packetId], m))
  {
    var ms := before + [m];
    assert ms[..|ms| - 1] == before;
    var s := Run(EMPTY, before).packets[m.packetId];
    var start := LastStart(before, m.packetId);
    assert LastStart(ms, m.packetId) == start && ms[start] == before[start];
    forall i: nat | i < |s.fragments|
      ensures Fill(s, m).fragments[i] == First(ms[start..], ms[start], i)
    {
      FirstSnoc(before, m, start, before[start], i);
    }
  }

  lemma {:induction false} StillExplained(before: seq<UdpMessage>, m: UdpMessage, id: U16)
    requires
      var t := Run(EMPTY, before);
      Unrelated(m, id) && id in t.packets && Explained(before, id, t.packets[id]) && ValidState(id, t.packets[id])
    ensures Explained(before + [m], id, Run(EMPTY, before).packets[id])
  {
    var ms := before + [m];
    assert ms[..|ms| - 1] == before;
    var s := Run(EMPTY, before).packets[id];
    var start := LastStart(before, id);
    assert LastStart(ms, id) == start && ms[start] == before[start];
    forall i: nat | i < |s.fragments|
      ensures s.fragments[i] == First(ms[start..], ms[start], i)
    {
      FirstSnoc(before, m, start, before[start], i);
    }
  }

  /** What the message reassembled by the last of `fed` must be made of. */
  ghost predicate Sound(fed: seq<UdpMessage>, out: UdpMessage)
    requires fed != []
  {
    var m := fed[|fed| - 1];
    var start := LastStart(fed, m.packetId);
    && 0 <= start < |fed| - 1
    && SamePacket(fed[start], m)
    && AllArrived(fed[start..], fed[start])
    && out == m.(fragId := 0, fragCount := 1, data := Concat(FirstPayloads(fed[start..], fed[start])))
  }

  ghost predicate AllArrived(ms: seq<UdpMessage>, key: UdpMessage) {
    forall i: nat | i < key.fragCount :: First(ms, key, i).Some?
  }

  ghost function FirstPayloads(ms: seq<UdpMessage>, key: UdpMessage): seq<seq<Byte>> {
    seq(key.fragCount, i requires 0 <= i < key.fragCount => Payload(First(ms, key, i)))
  }

  /**
   * Soundness: in every run from the empty table, whatever comes out was either passed through unsplit
   * or is the in-order concatenation of the first arrivals of all its fragments, all fed with the same
   * packet id, session id, address and count since the packet was last started.
   */
  lemma {:induction false} OutputSound(ms: seq<UdpMessage>, k: nat)
    requires k < |ms| && Output(EMPTY, ms, k).Some?
    ensures ms[k].fragCount <= 1 ==> Output(EMPTY, ms, k) == Some(ms[k])
    ensures ms[k].fragCount >= 2 ==> Sound(ms[..k + 1], Output(EMPTY, ms, k).value)
  {
    if ms[k].fragCount >= 2 {
      assert ms[..k + 1] == ms[..k] + [ms[k]];
      SoundStep(ms[..k], ms[k]);
    }
  }

  lemma {:induction false} SoundStep(before: seq<UdpMessage>, m: UdpMessage)
    requires m.fragCount >= 2 && Feed(Run(EMPTY, before), m).1.Some?
    ensures Sound(before + [m], Feed(Run(EMPTY, before), m).1.value)
  {
    StateExplained(before);
    var t := Run(EMPTY, before);
    assert InProgress(t, m);
    var s := t.packets[m.packetId];
    var f := Fill(s, m);
    FillExplained(before, m);
    FillValid(m.packetId, s, m);
    FilledAll(f.fragments);
    assert (before + [m])[..|before|] == before;
    FullSound(before + [m], f);
  }

  /** A state with all slots filled is assembled from first copies. */
  lemma {:induction false} FullSound(fed: seq<UdpMessage>, f: PacketState)
    requires fed != []
    requires
      var m := fed[|fed| - 1];
      Explained(fed, m.packetId, f) && SameKey(f, m) && LastStart(fed, m.packetId) < |fed| - 1
    requires forall i | 0 <= i < |f.fragments| :: f.fragments[i].Some?
    ensures Sound(fed, Assemble(f.fragments, fed[|fed| - 1]))
  {
    var start := LastStart(fed, fed[|fed| - 1].packetId);
    assert SlotPayloads(f.fragments) == FirstPayloads(fed[start..], fed[start]);
  }

  /**
   * Exactly then: in every run from the empty table, duplicates and reused ids included, a fragment makes a
   * message come out if and only if with it every fragment of its packet has arrived since the packet was
   * last started.
   */
  lemma {:induction false} OutputIff(ms: seq<UdpMessage>, k: nat)
    requires k < |ms| && IsFragment(ms[k])
    ensures 0 <= LastStart(ms[..k + 1], ms[k].packetId) <= k
    ensures Output(EMPTY, ms, k).Some? <==>
            var start := LastStart(ms[..k + 1], ms[k].packetId);
            AllArrived(ms[start..k + 1], ms[start])
  {
    var before, m := ms[..k], ms[k];
    var fed := ms[..k + 1];
    assert fed == before + [m] && fed[..|fed| - 1] == before;
    var t := Run(EMPTY, before);
    StateExplained(before);
    if InProgress(t, m) {
      FillExplained(before, m);
      CompleteIff(before, m);
      var start := LastStart(fed, m.packetId);
      assert fed[start..] == ms[start..k + 1];
    } else {
      var other: nat := if m.fragId == 0 then 1 else 0;
      assert fed[k..] == [m] == ms[k..k + 1];
      assert First([m], m, other) == None;
    }
  }

  lemma {:induction false} CompleteIff(before: seq<UdpMessage>, m: UdpMessage)
    requires
      var t := Run(EMPTY, before);
      && IsFragment(m) && Inv(t) && InProgress(t, m)
      && Explained(before + [m], m.packetId, Fill(t.packets[m.packetId], m))
    ensures
      var fed := before + [m];
      var start := LastStart(fed, m.packetId);
      && 0 <= start < |fed|
      && (Feed(Run(EMPTY, before), m).1.Some? <==> AllArrived(fed[start..], fed[start]))
  {
    var s := Run(EMPTY, before).packets[m.packetId];
    FillValid(m.packetId, s, m);
    FilledAll(Fill(s, m).fragments);
  }

  // ================================================================ fragmentation and reassembly together

  /** A message as both senders build it: not yet split. */
  predicate Unsplit(m: UdpMessage) {
    m.fragId == 0 && m.fragCount == 1
  }

  lemma {:induction false} FragmentsArePacket(m: UdpMessage, maxSize: nat)
    requires Sendable(m, maxSize) && Unsplit(m)
    requires m.Size() > maxSize && |Fragments(m, maxSize)| <= 255
    ensures IsPacket(Fragments(m, maxSize))
    ensures Whole(Fragments(m, maxSize)) == m
  {
    var frs := Fragments(m, maxSize);
    PiecesFit(m, maxSize);
    FragmentsConserve(m, maxSize);
    forall i | 0 <= i < |frs|
      ensures SamePart(frs[i], m, i, |frs|)
    {
      PartAt(m, maxSize, i);
    }
    assert Whole(frs) == m;
  }

  lemma {:induction false} PartAt(m: UdpMessage, maxSize: nat, i: nat)
    requires Sendable(m, maxSize) && m.Size() > maxSize && i < |Fragments(m, maxSize)| && i < 256
    ensures SamePart(Fragments(m, maxSize)[i], m, i, |Fragments(m, maxSize)| % 256)
  {
    assert Fragments(m, maxSize)[i] == Fragment(m, Pieces(m, maxSize), i);
  }

  /** Fragment `i` of `count`, whatever its payload. */
  predicate SamePart(f: UdpMessage, m: UdpMessage, i: nat, count: nat) {
    && f.fragId == i && f.fragCount == count
    && f.packetId == m.packetId && f.sessionId == m.sessionId && f.addr == m.addr
  }

  /** Everything that comes out of a run. */
  ghost function Outputs(t: Table, ms: seq<UdpMessage>): seq<UdpMessage> {
    if ms == [] then []
    else
      var out := Output(t, ms, |ms| - 1);
      Outputs(t, ms[..|ms| - 1]) + if out.Some? then [out.value] else []
  }

  lemma {:induction false} OutputsPrefix(t: Table, ms: seq<UdpMessage>, k: nat)
    requires k <= |ms|
    ensures Outputs(t, ms[..k]) <= Outputs(t, ms)
  {
    if k == |ms| {
      assert ms[..k] == ms;
    } else {
      OutputsPrefix(t, ms[..|ms| - 1], k);
      assert ms[..|ms| - 1][..k] == ms[..k];
    }
  }

  lemma {:induction false} OutputListed(t: Table, ms: seq<UdpMessage>, k: nat)
    requires k < |ms| && Output(t, ms, k).Some?
    ensures Output(t, ms, k).value in Outputs(t, ms)
  {
    if k < |ms| - 1 {
      var before := ms[..|ms| - 1];
      assert before[..k] == ms[..k];
      OutputListed(t, before, k);
    }
  }

  /**
   * A packet all of whose fragments have arrived has come out, if it was not crowded out or disturbed until
   * then; whatever comes later.
   */
  lemma {:induction false} DeliveredSomewhere(t: Table, frs: seq<UdpMessage>, ms: seq<UdpMessage>, k: nat)
    requires k < |ms| && Completes(t, frs, ms[..k + 1]) && Uncrowded(t, ms[..k], frs)
    ensures Output(t, ms, k) == Some(Whole(frs)) && Whole(frs) in Outputs(t, ms)
  {
    assert ms[..k + 1] == ms[..k] + [ms[k]];
    DeliveryAtLast(t, frs, ms[..k], ms[k]);
    OutputListed(t, ms, k);
  }

  /** An in-order packet produces nothing until its last fragment, and then exactly the whole message. */
  lemma {:induction false} InOrder(frs: seq<UdpMessage>)
    requires IsPacket(frs)
    ensures Outputs(EMPTY, frs) == [Whole(frs)]
  {
    assert frs[|frs| - 1] !in frs[..|frs| - 1];
    NothingStarted(frs, frs[..|frs| - 1]);
    FewStarted(EMPTY, frs[..|frs| - 1], frs);
    Delivery(EMPTY, frs, frs);
    SilentPrefix(frs, |frs| - 1);
  }

  lemma {:induction false} NothingStarted(frs: seq<UdpMessage>, ms: seq<UdpMessage>)
    requires IsPacket(frs) && forall m | m in ms :: m in frs
    ensures OthersStarted(EMPTY, ms, frs) == 0
  {
    if ms != [] {
      NothingStarted(frs, ms[..|ms| - 1]);
      assert ms[|ms| - 1] in ms;
    }
  }

  lemma {:induction false} SilentPrefix(frs: seq<UdpMessage>, k: nat)
    requires k <= |frs| && forall i | 0 <= i < k :: Output(EMPTY, frs, i) == None
    ensures Outputs(EMPTY, frs[..k]) == []
  {
    if k > 0 {
      SilentPrefix(frs, k - 1);
      var head := frs[..k];
      assert head[..k - 1] == frs[..k - 1] && head[k - 1] == frs[k - 1];
      assert Output(EMPTY, head, k - 1) == Output(EMPTY, frs, k - 1);
    }
  }

  /**
   * A split message survives fragmentation and in-order reassembly exactly when its payload fills at
   * most 255 fragments; beyond that the u8 count wraps and a truncated message comes out first.
   */
  lemma {:induction false} SurvivesIffCountFitsU8(m: UdpMessage, maxSize: nat)
    requires Sendable(m, maxSize) && Unsplit(m) && m.Size() > maxSize
    ensures Outputs(EMPTY, Fragments(m, maxSize)) == [m] <==> DivCeil(|m.data|, maxSize - m.HeaderSize()) <= 255
  {
    var frs := Fragments(m, maxSize);
    assert |frs| == DivCeil(|m.data|, maxSize - m.HeaderSize()) by {
      ChunkCount(m.data, maxSize - m.HeaderSize());
    }
    if |frs| <= 255 {
      FragmentsArePacket(m, maxSize);
      InOrder(frs);
    } else {
      Truncated(m, maxSize);
    }
  }

  lemma {:induction false} Truncated(m: UdpMessage, maxSize: nat)
    requires Sendable(m, maxSize) && Unsplit(m) && m.Size() > maxSize
    requires |Fragments(m, maxSize)| > 255
    ensures
      var outs := Outputs(EMPTY, Fragments(m, maxSize));
      outs != [] && |outs[0].data| < |m.data|
  {
    var frs := Fragments(m, maxSize);
    PiecesFit(m, maxSize);
    FragmentsConserve(m, maxSize);
    assert Payloads(frs) == Pieces(m, maxSize);
    if |frs| % 256 <= 1 {
      PassedThrough(frs);
    } else {
      HeadIsPacket(m, maxSize);
      CompletedEarly(frs);
    }
  }

  /** The fragments before the count wraps look like a packet of their own. */
  lemma {:induction false} HeadIsPacket(m: UdpMessage, maxSize: nat)
    requires Sendable(m, maxSize) && m.Size() > maxSize
    requires
      var n := |Fragments(m, maxSize)|;
      n > 255 && n % 256 >= 2
    ensures IsPacket(Fragments(m, maxSize)[..|Fragments(m, maxSize)| % 256])
  {
    var frs := Fragments(m, maxSize);
    var count := |frs| % 256;
    forall i | 0 <= i < count
      ensures SamePart(frs[i], m, i, count)
    {
      PartAt(m, maxSize, i);
    }
  }

  /** The announced count is at most 1: the first fragment is taken for a whole message. */
  lemma {:induction false} PassedThrough(frs: seq<UdpMessage>)
    requires |frs| >= 2 && frs[0].fragCount <= 1 && forall p | p in Payloads(frs) :: p != []
    ensures
      var outs := Outputs(EMPTY, frs);
      outs != [] && |outs[0].data| < |Concat(Payloads(frs))|
  {
    var head := frs[..1];
    assert head[..0] == [];
    assert Outputs(EMPTY, head) == [frs[0]];
    OutputsPrefix(EMPTY, frs, 1);
    ShorterPrefix(Payloads(frs), 1);
    assert Payloads(frs)[..1] == [frs[0].data];
    ConcatSnoc([], frs[0].data);
    assert [] + [frs[0].data] == [frs[0].data];
  }

  /** The announced count is too small: the packet completes after that many fragments. */
  lemma {:induction false} CompletedEarly(frs: seq<UdpMessage>)
    requires |frs| > 255 && forall p | p in Payloads(frs) :: p != []
    requires |frs| % 256 >= 2 && IsPacket(frs[..|frs| % 256])
    ensures
      var outs := Outputs(EMPTY, frs);
      outs != [] && |outs[0].data| < |Concat(Payloads(frs))|
  {
    var count := |frs| % 256;
    var head := frs[..count];
    InOrder(head);
    OutputsPrefix(EMPTY, frs, count);
    PayloadsTake(frs, count);
    ShorterPrefix(Payloads(frs), count);
  }

  lemma {:induction false} PayloadsTake(frs: seq<UdpMessage>, k: nat)
    requires k <= |frs|
    ensures Payloads(frs)[..k] == Payloads(frs[..k])
  {
  }

  lemma {:induction false} ShorterPrefix(parts: seq<seq<Byte>>, k: nat)
    requires k < |parts| && forall p | p in parts :: p != []
    ensures |Concat(parts[..k])| < |Concat(parts)|
  {
    assert parts == parts[..k] + parts[k..];
    ConcatAppend(parts[..k], parts[k..]);
    assert parts[k] in parts;
  }
}
