/** Client UDP sessions over datagrams: sending, routing and receiving in core/src/udp.rs. */
module UdpSession {
  import opened Base
  import opened Proxy
  import opened Frag
  import opened Defrag
  import opened Reassembly
  import opened Limiter

  type Datagram = seq<Byte>

  datatype UdpError = HeaderTooLarge

  // ================================================================ sending

  /** The message that is split: the same one under a random non-zero packet id. */
  function Renumbered(m: UdpMessage, random: U16): UdpMessage {
    m.(packetId := Max(random, 1))
  }

  function EncodeAll(ms: seq<UdpMessage>): (ds: seq<Datagram>)
    requires forall m | m in ms :: Encodable(m.addr)
    ensures |ds| == |ms|
  {
    seq(|ms|, i requires 0 <= i < |ms| => ms[i].Encode())
  }

  /** The message whose parts travel: renumbered if it has to be split. */
  function Travelling(m: UdpMessage, limit: nat, random: U16): UdpMessage
    requires Encodable(m.addr)
  {
    if m.Size() <= limit then m else Renumbered(m, random)
  }

  /** It is the same message for the same session, under an id that is not zero if it has to be split. */
  lemma {:induction false} TravellingIs(m: UdpMessage, limit: nat, random: U16)
    requires Encodable(m.addr)
    ensures
      var t := Travelling(m, limit, random);
      && t.sessionId == m.sessionId && t.addr == m.addr && t.data == m.data
      && t.fragId == m.fragId && t.fragCount == m.fragCount
      && (m.Size() <= limit ==> t.packetId == m.packetId)
      && (m.Size() > limit ==> t.packetId != 0 && (random != 0 ==> t.packetId == random))
  {
  }

  /** What goes over a connection that takes datagrams of at most `limit` bytes. */
  function Parts(m: UdpMessage, limit: nat, random: U16): Result<seq<UdpMessage>, UdpError>
    requires Encodable(m.addr)
  {
    if m.Size() <= limit then Ok([m])
    else if limit <= m.HeaderSize() then Err(HeaderTooLarge)
    else Ok(Fragments(Renumbered(m, random), limit))
  }

  lemma {:induction false} PartsEncodable(m: UdpMessage, limit: nat, random: U16)
    requires Encodable(m.addr) && Parts(m, limit, random).Ok?
    ensures forall f | f in Parts(m, limit, random).value :: Encodable(f.addr) && f.Size() <= limit
  {
    if m.Size() > limit {
      FragmentsFit(Renumbered(m, random), limit);
    }
  }

  function Datagrams(m: UdpMessage, limit: nat, random: U16): Result<seq<Datagram>, UdpError>
    requires Encodable(m.addr)
  {
    match Parts(m, limit, random)
    case Err(e) => Err(e)
    case Ok(parts) =>
      PartsEncodable(m, limit, random);
      Ok(EncodeAll(parts))
  }

  /** How a send ends, or that it is still waiting for the limiter. */
  datatype Sending<T> = Finished(value: T) | Waiting

  /** A limiter lets this many bytes pass, if there is a limiter. */
  predicate Passable(limiter: BandwidthLimiter?, size: nat) {
    limiter != null ==> size <= limiter.limits.burst
  }

  /** Nobody else uses the limiter, if there is one. */
  predicate Alone(limiter: BandwidthLimiter?)
    reads limiter
  {
    limiter != null ==> limiter.others == []
  }

  ghost predicate Usable(limiter: BandwidthLimiter?, clock: Clock)
    reads limiter, clock
  {
    clock.Valid() && (limiter != null ==> limiter.Valid(clock))
  }

  /**
   * `send_udp_message`, followed for `patience` rounds of every wait. What it sends is what has to go over
   * the connection. It never finishes with a message larger than the limiter's burst, even if its fragments
   * would be smaller; alone at the limiter it finishes with all others.
   */
  method SendUdpMessage(m: UdpMessage, limit: nat, random: U16, limiter: BandwidthLimiter?, clock: Clock, patience: nat)
    returns (r: Sending<Result<seq<Datagram>, UdpError>>)
    requires Encodable(m.addr) && Usable(limiter, clock)
    modifies limiter, clock
    ensures Usable(limiter, clock)
    ensures r.Finished? ==> r.value == Datagrams(m, limit, random) && Passable(limiter, m.Size())
    ensures old(Alone(limiter)) && patience >= 2 ==> (r.Finished? <==> Passable(limiter, m.Size()))
  {
    var first := SendSingle(m, limit, limiter, clock, patience);
    if first.Waiting? {
      return Waiting;
    }
    if first.value.Some? {
      assert EncodeAll([m]) == [m.Encode()];
      return Finished(Ok([first.value.value]));
    }
    if limit <= m.HeaderSize() {
      return Finished(Err(HeaderTooLarge));
    }
    var fragmented := Renumbered(m, random);
    var fragments := FragUdpMessage(fragmented, limit);
    PartsEncodable(m, limit, random);
    var sent := SendEach(fragments, limit, limiter, clock, patience);
    return if sent.Some? then Finished(Ok(sent.value)) else Waiting;
  }

  method SendEach(fragments: seq<UdpMessage>, limit: nat, limiter: BandwidthLimiter?, clock: Clock, patience: nat)
    returns (sent: Option<seq<Datagram>>)
    requires forall f | f in fragments :: Encodable(f.addr) && f.Size() <= limit
    requires Usable(limiter, clock)
    modifies limiter, clock
    ensures Usable(limiter, clock)
    ensures sent.Some? ==> sent.value == EncodeAll(fragments)
    ensures old(Alone(limiter)) && patience >= 2 && Passable(limiter, limit) ==> sent.Some?
  {
    var datagrams: seq<Datagram> := [];
    for i := 0 to |fragments|
      invariant Usable(limiter, clock) && (old(Alone(limiter)) ==> Alone(limiter))
      invariant datagrams == EncodeAll(fragments)[..i]
    {
      var datagram := SendSingle(fragments[i], limit, limiter, clock, patience);
      if datagram.Waiting? {
        return None;
      }
      datagrams := datagrams + [datagram.value.value];
    }
    return Some(datagrams);
  }

  /** `send_single_udp_message`: serialize, wait for the limiter, and only then be refused for size. */
  method SendSingle(m: UdpMessage, limit: nat, limiter: BandwidthLimiter?, clock: Clock, patience: nat)
    returns (r: Sending<Option<Datagram>>)
    requires Encodable(m.addr) && Usable(limiter, clock)
    modifies limiter, clock
    ensures Usable(limiter, clock) && (old(Alone(limiter)) ==> Alone(limiter))
    ensures r.Finished? ==>
              && r.value == (if m.Size() <= limit then Some(m.Encode()) else None)
              && Passable(limiter, m.Size())
    ensures old(Alone(limiter)) && patience >= 2 ==> (r.Finished? <==> Passable(limiter, m.Size()))
  {
    var buffer := new Byte[m.Size()](_ => 0);
    var size := m.Serialize(buffer);
    if limiter != null {
      var served := limiter.WaitFor(clock, size.value, patience);
      if !served {
        return Waiting;
      }
    }
    if size.value > limit {
      return Finished(None);
    }
    return Finished(Some(buffer[..size.value]));
  }

  // ================================================================ routing

  /** The parsed datagrams that carry a session id, in arrival order. */
  ghost function Inbox(arrived: seq<Datagram>, sessionId: U32): seq<UdpMessage> {
    if arrived == [] then []
    else
      var parsed := ParseUdp(arrived[|arrived| - 1]);
      Inbox(arrived[..|arrived| - 1], sessionId)
      + if parsed.Ok? && parsed.value.sessionId == sessionId then [parsed.value] else []
  }

  lemma {:induction false} InboxSnoc(arrived: seq<Datagram>, start: nat, d: Datagram, sessionId: U32)
    requires start <= |arrived|
    ensures Inbox((arrived + [d])[start..], sessionId) == Inbox(arrived[start..], sessionId)
            + if ParseUdp(d).Ok? && ParseUdp(d).value.sessionId == sessionId then [ParseUdp(d).value] else []
  {
    var tail := (arrived + [d])[start..];
    assert tail[..|tail| - 1] == arrived[start..];
  }

  const SESSION_IDS: nat := 0x1_0000_0000

  /** The number of sessions created before the one that was given this id (ids start at 1 and wrap). */
  function Ordinal(id: U32): nat {
    if id == 0 then SESSION_IDS - 1 else id - 1
  }

  /** The id of the session created after `n` others. */
  function NthId(n: nat): U32 {
    (1 + n) % SESSION_IDS
  }

  /** Session ids stay pairwise different for exactly 2^32 sessions. */
  lemma {:induction false} IdsDistinct(sessions: nat)
    ensures (forall i: nat, j: nat | i < j < sessions :: NthId(i) != NthId(j)) <==> sessions <= 0x1_0000_0000
  {
    if sessions <= SESSION_IDS {
      forall i: nat, j: nat | i < j < sessions
        ensures NthId(i) != NthId(j)
      {
        assert Ordinal(NthId(i)) == i && Ordinal(NthId(j)) == j;
      }
    } else {
      assert NthId(0) == NthId(SESSION_IDS);
    }
  }

  /** One session: its channel, its reassembler, and what passed through both. */
  datatype Session = Session(
    queue: seq<UdpMessage>,      // what the receiver can take now
    capacity: nat,
    open: bool,                  // the manager's table still holds the sender
    born: nat,                   // how many datagrams had arrived when the session was created
    taken: seq<UdpMessage>,      // what `receive` has taken from the channel so far
    table: Table,                // its reassembler
    out: seq<UdpMessage>)        // what `receive` has returned so far

  /**
   * The manager, all sessions it ever created, and its reader loop. A send to a full channel suspends
   * the reader: `pending` is the message it holds, together with its own clone of the sender.
   */
  datatype Client = Client(
    sessions: map<U32, Session>,
    nextId: U32,
    closed: bool,
    pending: Option<UdpMessage>,
    arrived: seq<Datagram>)      // everything the connection delivered

  const NEW_CLIENT := Client(map[], 1, false, None, [])

  datatype Event =
    | NewUdp(channelSize: nat)
    | Close(id: U32)             // `close`, or dropping any handle of the session
    | CloseAll
    | Arrive(datagram: Datagram)
    | FinishSend
    | AbandonSend
    | Receive(receiver: U32)

  /** When an event can happen: the reader takes a datagram only between sends, and so on. */
  predicate Enabled(c: Client, e: Event) {
    match e
    case Arrive(_) => c.pending.None?
    case FinishSend =>
      && c.pending.Some? && c.pending.value.sessionId in c.sessions
      && var s := c.sessions[c.pending.value.sessionId];
         |s.queue| < s.capacity
    case AbandonSend =>
      // only a session whose handles are gone has no receiver
      && c.pending.Some? && c.pending.value.sessionId in c.sessions
      && !c.sessions[c.pending.value.sessionId].open
    case Receive(id) => id in c.sessions && c.sessions[id].queue != []
    case _ => true
  }

  /** The table without the senders of `ids`. */
  function Closing(sessions: map<U32, Session>, ids: set<U32>): map<U32, Session> {
    map id | id in sessions :: if id in ids then sessions[id].(open := false) else sessions[id]
  }

  /** One turn of the loop of `receive`: take a message and feed it to the reassembler. */
  function Taking(s: Session): Session
    requires s.queue != []
  {
    var m := s.queue[0];
    var (table, out) := Feed(s.table, m);
    s.(queue := s.queue[1..], taken := s.taken + [m], table := table,
       out := s.out + if out.Some? then [out.value] else [])
  }

  /** The effect of an event; one that cannot happen changes nothing. */
  function Step(c: Client, e: Event): Client {
    if !Enabled(c, e) then c else
    match e
    case NewUdp(channelSize) =>
      if c.closed || channelSize == 0 then c
      else c.(sessions := c.sessions[c.nextId := Session([], channelSize, true, |c.arrived|, [], EMPTY, [])],
              nextId := (c.nextId + 1) % SESSION_IDS)
    case Close(id) => c.(sessions := Closing(c.sessions, {id}))
    case CloseAll => c.(closed := true, sessions := Closing(c.sessions, c.sessions.Keys))
    case Arrive(d) =>
      var parsed := ParseUdp(d);
      c.(arrived := c.arrived + [d],
         pending := if parsed.Ok? && parsed.value.sessionId in c.sessions
                       && c.sessions[parsed.value.sessionId].open
                    then Some(parsed.value) else None)
    case FinishSend =>
      var m := c.pending.value;
      var s := c.sessions[m.sessionId];
      c.(pending := None, sessions := c.sessions[m.sessionId := s.(queue := s.queue + [m])])
    case AbandonSend => c.(pending := None)
    case Receive(id) =>
      c.(sessions := c.sessions[id := Taking(c.sessions[id])])
  }

  /** How many sessions an event sequence creates at most. */
  function Creations(es: seq<Event>): nat {
    if es == [] then 0 else Creations(es[..|es| - 1]) + if es[|es| - 1].NewUdp? then 1 else 0
  }

  ghost function StateAfter(es: seq<Event>): Client {
    if es == [] then NEW_CLIENT else Step(StateAfter(es[..|es| - 1]), es[|es| - 1])
  }

  /** Everything ever put into a session's channel, including a send in progress. */
  ghost function Routed(id: U32, s: Session, pending: Option<UdpMessage>): seq<UdpMessage> {
    s.taken + s.queue + if pending.Some? && pending.value.sessionId == id then [pending.value] else []
  }

  /**
   * The channel of an open session has received exactly the parsed datagrams that carry its id, in
   * arrival order; that of a closed one received the first of them.
   */
  ghost predicate WellRouted(id: U32, s: Session, pending: Option<UdpMessage>, arrived: seq<Datagram>) {
    && s.born <= |arrived| && |s.queue| <= s.capacity
    && Routed(id, s, pending) <= Inbox(arrived[s.born..], id)
    && (s.open ==> Routed(id, s, pending) == Inbox(arrived[s.born..], id))
  }

  ghost predicate RoutingInv(c: Client, issued: nat) {
    && c.nextId == NthId(issued)
    && (forall id: U32 :: id in c.sessions <==> Ordinal(id) < issued)
    && (c.pending.Some? ==> c.pending.value.sessionId in c.sessions)
    && forall id | id in c.sessions :: WellRouted(id, c.sessions[id], c.pending, c.arrived)
  }

  /** Every event keeps the routing invariant, while ids last; a new session's id was never used. */
  lemma {:induction false} StepRouting(c: Client, issued: nat, e: Event) returns (next: nat)
    requires RoutingInv(c, issued)
    requires e.NewUdp? ==> issued < SESSION_IDS
    ensures RoutingInv(Step(c, e), next)
    ensures next == issued + if e.NewUdp? && !c.closed && e.channelSize > 0 then 1 else 0
    ensures next > issued ==> c.nextId !in c.sessions
  {
    next := issued;
    if Enabled(c, e) {
      match e {
        case NewUdp(channelSize) =>
          if !c.closed && channelSize > 0 {
            next := issued + 1;
            NewRouting(c, issued, channelSize);
          }
        case Arrive(d) => ArriveRouting(c, issued, d);
        case FinishSend => FinishRouting(c, issued);
        case Receive(id) => ReceiveRouting(c, issued, id);
        case AbandonSend => AbandonRouting(c, issued);
        case Close(id) => CloseRouting(c, issued, {id});
        case CloseAll => CloseRouting(c, issued, c.sessions.Keys);
      }
    }
  }

  lemma {:induction false} CloseRouting(c: Client, issued: nat, ids: set<U32>)
    requires RoutingInv(c, issued)
    ensures RoutingInv(c.(sessions := Closing(c.sessions, ids)), issued)
    ensures RoutingInv(c.(closed := true, sessions := Closing(c.sessions, ids)), issued)
  {
    forall id | id in c.sessions
      ensures WellRouted(id, Closing(c.sessions, ids)[id], c.pending, c.arrived)
    {
      assert WellRouted(id, c.sessions[id], c.pending, c.arrived);
    }
  }

  lemma {:induction false} NewRouting(c: Client, issued: nat, channelSize: nat)
    requires RoutingInv(c, issued) && issued < SESSION_IDS && !c.closed && channelSize > 0
    ensures c.nextId !in c.sessions
    ensures RoutingInv(Step(c, NewUdp(channelSize)), issued + 1)
  {
    var c' := Step(c, NewUdp(channelSize));
    NthIdNext(issued);
    NthIdOrdinal(issued);
    forall id: U32
      ensures id in c'.sessions <==> Ordinal(id) < issued + 1
    {
      assert Ordinal(id) == Ordinal(c.nextId) ==> id == c.nextId;
    }
    forall id | id in c'.sessions
      ensures WellRouted(id, c'.sessions[id], c'.pending, c'.arrived)
    {
      if id == c.nextId {
        assert c.arrived[|c.arrived|..] == [];
      } else {
        assert WellRouted(id, c.sessions[id], c.pending, c.arrived);
      }
    }
  }

  lemma {:induction false} NthIdNext(n: nat)
    ensures (NthId(n) + 1) % SESSION_IDS == NthId(n + 1)
  {
  }

  lemma {:induction false} NthIdOrdinal(n: nat)
    requires n < SESSION_IDS
    ensures Ordinal(NthId(n)) == n
  {
  }

  lemma {:induction false} ArriveRouting(c: Client, issued: nat, d: Datagram)
    requires RoutingInv(c, issued) && c.pending == None
    ensures RoutingInv(Step(c, Arrive(d)), issued)
  {
    var c' := Step(c, Arrive(d));
    forall id | id in c'.sessions
      ensures WellRouted(id, c'.sessions[id], c'.pending, c'.arrived)
    {
      assert WellRouted(id, c.sessions[id], c.pending, c.arrived);
      InboxSnoc(c.arrived, c.sessions[id].born, d, id);
    }
  }

  lemma {:induction false} FinishRouting(c: Client, issued: nat)
    requires RoutingInv(c, issued) && Enabled(c, FinishSend)
    ensures RoutingInv(Step(c, FinishSend), issued)
  {
    var c' := Step(c, FinishSend);
    forall id | id in c'.sessions
      ensures WellRouted(id, c'.sessions[id], c'.pending, c'.arrived)
    {
      var s := c.sessions[id];
      assert WellRouted(id, s, c.pending, c.arrived);
      if id == c.pending.value.sessionId {
        var s' := s.(queue := s.queue + [c.pending.value]);
        assert Routed(id, s', None) == Routed(id, s, c.pending);
        assert c'.sessions[id] == s';
      } else {
        assert c'.sessions[id] == s;
        assert Routed(id, s, None) == Routed(id, s, c.pending);
      }
    }
  }

  lemma {:induction false} AbandonRouting(c: Client, issued: nat)
    requires RoutingInv(c, issued) && Enabled(c, AbandonSend)
    ensures RoutingInv(Step(c, AbandonSend), issued)
  {
    forall id | id in c.sessions
      ensures WellRouted(id, c.sessions[id], None, c.arrived)
    {
      assert WellRouted(id, c.sessions[id], c.pending, c.arrived);
    }
  }

  lemma {:induction false} TakingRouted(id: U32, s: Session, pending: Option<UdpMessage>, arrived: seq<Datagram>)
    requires s.queue != [] && WellRouted(id, s, pending, arrived)
    ensures WellRouted(id, Taking(s), pending, arrived)
  {
    var s' := Taking(s);
    assert s'.taken + s'.queue == s.taken + s.queue;
    assert Routed(id, s', pending) == Routed(id, s, pending);
  }

  lemma {:induction false} ReceiveRouting(c: Client, issued: nat, receiver: U32)
    requires RoutingInv(c, issued) && Enabled(c, Receive(receiver))
    ensures RoutingInv(Step(c, Receive(receiver)), issued)
  {
    var c' := Step(c, Receive(receiver));
    forall id | id in c'.sessions
      ensures WellRouted(id, c'.sessions[id], c'.pending, c'.arrived)
    {
      var s := c.sessions[id];
      assert WellRouted(id, s, c.pending, c.arrived);
      if id == receiver {
        TakingRouted(id, s, c.pending, c.arrived);
        assert c'.sessions[id] == Taking(s);
      } else {
        assert c'.sessions[id] == s;
      }
    }
  }

  /** Routing over every run that creates at most 2^32 sessions. */
  lemma {:induction false} RunRouting(es: seq<Event>) returns (issued: nat)
    requires Creations(es) <= SESSION_IDS
    ensures issued <= Creations(es) && RoutingInv(StateAfter(es), issued)
  {
    if es == [] {
      issued := 0;
    } else {
      var before := es[..|es| - 1];
      issued := RunRouting(before);
      issued := StepRouting(StateAfter(before), issued, es[|es| - 1]);
    }
  }

  // ---------------------------------------------------------------- the life of a session

  /** The event ends the session: by itself, with one of its handles, or with the connection. */
  predicate Closes(e: Event, id: U32) {
    e == Close(id) || e == CloseAll
  }

  /** How an event changes which sessions are open. */
  function OpenNext(open: set<U32>, e: Event, closed: bool, nextId: U32): set<U32> {
    match e
    case NewUdp(channelSize) => if closed || channelSize == 0 then open else open + {nextId}
    case Close(id) => open - {id}
    case CloseAll => {}
    case _ => open
  }

  /** The sessions created and not closed since, as the events tell. */
  ghost function Open(es: seq<Event>): set<U32> {
    if es == [] then {}
    else
      var before := es[..|es| - 1];
      OpenNext(Open(before), es[|es| - 1], CloseAll in before, StateAfter(before).nextId)
  }

  /** Everything the reader took off the connection, as the events tell. */
  ghost function Delivered(es: seq<Event>): seq<Datagram> {
    if es == [] then []
    else
      var before, e := es[..|es| - 1], es[|es| - 1];
      Delivered(before) + if e.Arrive? && StateAfter(before).pending.None? then [e.datagram] else []
  }

  ghost predicate OpenAre(c: Client, open: set<U32>) {
    forall id: U32 :: id in c.sessions && c.sessions[id].open <==> id in open
  }

  /** In every run exactly those sessions are open that were created and not closed since. */
  lemma {:induction false} RunOpen(es: seq<Event>)
    ensures OpenAre(StateAfter(es), Open(es))
    ensures StateAfter(es).closed <==> CloseAll in es
    ensures StateAfter(es).arrived == Delivered(es)
  {
    if es != [] {
      var before, e := es[..|es| - 1], es[|es| - 1];
      RunOpen(before);
      assert es == before + [e];
      StepOpen(StateAfter(before), e, Open(before));
    }
  }

  lemma {:induction false} StepOpen(c: Client, e: Event, open: set<U32>)
    requires OpenAre(c, open)
    ensures OpenAre(Step(c, e), OpenNext(open, e, c.closed, c.nextId))
    ensures Step(c, e).closed == (c.closed || e.CloseAll?)
    ensures Step(c, e).arrived == c.arrived + if e.Arrive? && c.pending.None? then [e.datagram] else []
  {
  }

  /** The session is closed, and its channel has received no more than `bound`. */
  ghost predicate Sealed(c: Client, id: U32, bound: seq<UdpMessage>) {
    id in c.sessions && !c.sessions[id].open && Routed(id, c.sessions[id], c.pending) <= bound
  }

  /** No event lets a closed session receive any more, unless its id is issued again. */
  lemma {:induction false} SealedStep(c: Client, id: U32, bound: seq<UdpMessage>, e: Event)
    requires Sealed(c, id, bound) && (e.NewUdp? ==> c.nextId != id)
    ensures Sealed(Step(c, e), id, bound)
  {
    var s := c.sessions[id];
    if Enabled(c, e) {
      match e {
        case FinishSend =>
          if c.pending.value.sessionId == id {
            assert Routed(id, s.(queue := s.queue + [c.pending.value]), None) == Routed(id, s, c.pending);
          }
        case Receive(receiver) =>
          if receiver == id {
            assert Taking(s).taken + Taking(s).queue == s.taken + s.queue;
          }
        case _ =>
      }
    }
  }

  /** The id is issued in the course of `later`, after `earlier`. */
  ghost predicate Issues(earlier: seq<Event>, later: seq<Event>, id: U32) {
    exists i | 0 <= i < |later| :: later[i].NewUdp? && StateAfter(earlier + later[..i]).nextId == id
  }

  lemma {:induction false} StaysSealed(earlier: seq<Event>, later: seq<Event>, id: U32, bound: seq<UdpMessage>)
    requires Sealed(StateAfter(earlier), id, bound) && !Issues(earlier, later, id)
    ensures Sealed(StateAfter(earlier + later), id, bound)
  {
    if later == [] {
      assert earlier + later == earlier;
    } else {
      var init, e := later[..|later| - 1], later[|later| - 1];
      assert forall i | 0 <= i < |init| :: later[..i] == init[..i];
      StaysSealed(earlier, init, id, bound);
      var run := earlier + later;
      assert run[..|run| - 1] == earlier + init && run[|run| - 1] == e;
      SealedStep(StateAfter(earlier + init), id, bound, e);
    }
  }

  /**
   * Once a session is closed its channel receives nothing that arrives later: as long as its id is not issued
   * again, all it ever holds is the first part of what had arrived for it by then.
   */
  lemma {:induction false} ClosedRouting(es: seq<Event>, e: Event, later: seq<Event>, id: U32)
    requires Creations(es) <= SESSION_IDS && id in StateAfter(es).sessions
    requires Closes(e, id) && !Issues(es + [e], later, id)
    ensures
      var c := StateAfter(es);
      c.sessions[id].born <= |c.arrived|
      && Sealed(StateAfter(es + [e] + later), id, Inbox(c.arrived[c.sessions[id].born..], id))
  {
    RunRouted(es, id);
    assert (es + [e])[..|es|] == es;
    var c := StateAfter(es);
    StaysSealed(es + [e], later, id, Inbox(c.arrived[c.sessions[id].born..], id));
  }

  lemma {:induction false} CreationsGrow(es: seq<Event>, later: seq<Event>)
    ensures Creations(es) <= Creations(es + later)
  {
    if later == [] {
      assert es + later == es;
    } else {
      var run := es + later;
      assert run[..|run| - 1] == es + later[..|later| - 1];
      CreationsGrow(es, later[..|later| - 1]);
    }
  }

  ghost predicate OpenSince(c: Client, id: U32, born: nat) {
    id in c.sessions && c.sessions[id].open && c.sessions[id].born == born
  }

  lemma {:induction false} AfterOne(es: seq<Event>, e: Event)
    ensures StateAfter(es + [e]) == Step(StateAfter(es), e)
    ensures Creations(es + [e]) == Creations(es) + if e.NewUdp? then 1 else 0
  {
    assert (es + [e])[..|es|] == es;
  }

  lemma {:induction false} OpenStep(c: Client, issued: nat, e: Event, id: U32, born: nat)
    requires OpenSince(c, id, born) && !Closes(e, id)
    requires RoutingInv(c, issued) && (e.NewUdp? ==> issued < SESSION_IDS)
    ensures OpenSince(Step(c, e), id, born)
  {
    if e.NewUdp? && !c.closed && e.channelSize > 0 {
      NewRouting(c, issued, e.channelSize);
    }
  }

  lemma {:induction false} StaysOpen(earlier: seq<Event>, later: seq<Event>, id: U32, born: nat)
    requires Creations(earlier + later) <= SESSION_IDS && OpenSince(StateAfter(earlier), id, born)
    requires forall e | e in later :: !Closes(e, id)
    ensures OpenSince(StateAfter(earlier + later), id, born)
    decreases later
  {
    if later == [] {
      assert earlier + later == earlier;
    } else {
      var e, rest := later[0], later[1..];
      assert e in later && earlier + later == earlier + [e] + rest;
      CreationsGrow(earlier + [e], rest);
      OpenOneMore(earlier, e, id, born);
      StaysOpen(earlier + [e], rest, id, born);
    }
  }

  lemma {:induction false} OpenOneMore(es: seq<Event>, e: Event, id: U32, born: nat)
    requires Creations(es + [e]) <= SESSION_IDS && OpenSince(StateAfter(es), id, born) && !Closes(e, id)
    ensures OpenSince(StateAfter(es + [e]), id, born)
  {
    AfterOne(es, e);
    var issued := RunRouting(es);
    OpenStep(StateAfter(es), issued, e, id, born);
  }

  /** Until it is closed, a session receives everything that arrives for it, whatever happens to the others. */
  lemma {:induction false} OpenRouting(es: seq<Event>, channelSize: nat, later: seq<Event>)
    requires Creations(es + [NewUdp(channelSize)] + later) <= SESSION_IDS && channelSize > 0 && CloseAll !in es
    requires forall e | e in later :: !Closes(e, StateAfter(es).nextId)
    ensures
      var id, start := StateAfter(es).nextId, |Delivered(es)|;
      var run := es + [NewUdp(channelSize)] + later;
      var c := StateAfter(run);
      && id in c.sessions && start <= |Delivered(run)|
      && Routed(id, c.sessions[id], c.pending) == Inbox(Delivered(run)[start..], id)
  {
    var created := es + [NewUdp(channelSize)];
    var id := StateAfter(es).nextId;
    assert created[..|es|] == es;
    RunOpen(es);
    CreationsGrow(created, later);
    StaysOpen(created, later, id, |Delivered(es)|);
    RunOpen(created + later);
    RunRouted(created + later, id);
  }

  /** The manager is closed, with none of these sessions open. */
  ghost predicate Shut(c: Client, ids: set<U32>) {
    c.closed && c.sessions.Keys == ids && forall id | id in c.sessions :: !c.sessions[id].open
  }

  lemma {:induction false} ShutStep(c: Client, e: Event)
    requires Shut(c, c.sessions.Keys)
    ensures Shut(Step(c, e), c.sessions.Keys)
  {
  }

  lemma {:induction false} StaysShut(earlier: seq<Event>, later: seq<Event>)
    requires Shut(StateAfter(earlier), StateAfter(earlier).sessions.Keys)
    ensures Shut(StateAfter(earlier + later), StateAfter(earlier).sessions.Keys)
    decreases later
  {
    if later == [] {
      assert earlier + later == earlier;
    } else {
      var e := later[0];
      assert earlier + later == earlier + [e] + later[1..];
      AfterOne(earlier, e);
      ShutStep(StateAfter(earlier), e);
      StaysShut(earlier + [e], later[1..]);
    }
  }

  /** After the connection is gone no session is added, and none is open. */
  lemma {:induction false} NoneAfterCloseAll(es: seq<Event>, later: seq<Event>)
    ensures Shut(StateAfter(es + [CloseAll] + later), StateAfter(es).sessions.Keys)
  {
    AfterOne(es, CloseAll);
    assert Shut(Step(StateAfter(es), CloseAll), StateAfter(es).sessions.Keys);
    StaysShut(es + [CloseAll], later);
  }

  // ---------------------------------------------------------------- the reader

  /** What a send in progress comes to: the message is in its channel, or dropped with the channel's session. */
  lemma {:induction false} SendEnds(c: Client, e: Event)
    requires (e.FinishSend? || e.AbandonSend?) && Enabled(c, e)
    ensures
      var id, c' := c.pending.value.sessionId, Step(c, e);
      && c'.pending.None? && c'.sessions.Keys == c.sessions.Keys
      && Routed(id, c'.sessions[id], None) + (if e.AbandonSend? then [c.pending.value] else [])
      == Routed(id, c.sessions[id], c.pending)
      && forall other | other in c.sessions && other != id :: c'.sessions[other] == c.sessions[other]
  {
    var id := c.pending.value.sessionId;
    var s := c.sessions[id];
    assert s.taken + (s.queue + [c.pending.value]) == s.taken + s.queue + [c.pending.value];
  }

  /** The reader is never stuck: its send can go on, or can as soon as the session takes one message. */
  lemma {:induction false} ReaderNotStuck(es: seq<Event>)
    requires Creations(es) <= SESSION_IDS && StateAfter(es).pending.Some?
    ensures
      var c := StateAfter(es);
      var receive := Receive(c.pending.value.sessionId);
      Enabled(c, FinishSend) || (Enabled(c, receive) && Enabled(Step(c, receive), FinishSend))
  {
    var issued := RunRouting(es);
    RunCapacity(es);
    var c := StateAfter(es);
    assert WellRouted(c.pending.value.sessionId, c.sessions[c.pending.value.sessionId], c.pending, c.arrived);
  }

  lemma {:induction false} RunCapacity(es: seq<Event>)
    ensures forall id | id in StateAfter(es).sessions :: StateAfter(es).sessions[id].capacity > 0
  {
    if es != [] {
      RunCapacity(es[..|es| - 1]);
    }
  }

  /**
   * The 2^32 + 1st session takes over the entry of the first: what arrives for their common id from then on
   * goes to the new one.
   */
  lemma {:induction false} WrappedId(c: Client, channelSize: nat, d: Datagram)
    requires RoutingInv(c, SESSION_IDS) && !c.closed && c.pending == None && channelSize > 0
    requires ParseUdp(d).Ok? && ParseUdp(d).value.sessionId == 1
    ensures
      var created := Step(c, NewUdp(channelSize));
      var routed := Step(Step(created, Arrive(d)), FinishSend);
      && 1 in c.sessions && 1 in created.sessions && 1 in routed.sessions
      && created.sessions[1] == Session([], channelSize, true, |c.arrived|, [], EMPTY, [])
      && routed.sessions[1] == created.sessions[1].(queue := [ParseUdp(d).value])
  {
    assert c.nextId == 1 && Ordinal(1) == 0;
    var created := Step(c, NewUdp(channelSize));
    var arrived := Step(created, Arrive(d));
    assert arrived.pending == Some(ParseUdp(d).value);
  }

  // ================================================================ what a session hands out

  /** A session's reassembler has been fed what the session took, and has returned all that came out. */
  ghost predicate Fed(s: Session) {
    s.table == Run(EMPTY, s.taken) && s.out == Outputs(EMPTY, s.taken)
  }

  lemma {:induction false} TakingFed(s: Session)
    requires s.queue != [] && Fed(s)
    ensures Fed(Taking(s))
  {
    var m := s.queue[0];
    var taken := s.taken + [m];
    assert taken[..|taken| - 1] == s.taken;
    assert Output(EMPTY, taken, |taken| - 1) == Feed(s.table, m).1;
  }

  /** In every run, every session. */
  lemma {:induction false} RunFed(es: seq<Event>)
    ensures forall id | id in StateAfter(es).sessions :: Fed(StateAfter(es).sessions[id])
  {
    if es != [] {
      var before, e := StateAfter(es[..|es| - 1]), es[|es| - 1];
      RunFed(es[..|es| - 1]);
      forall id | id in Step(before, e).sessions
        ensures Fed(Step(before, e).sessions[id])
      {
        if e == Receive(id) && Enabled(before, e) {
          TakingFed(before.sessions[id]);
        }
      }
    }
  }

  // ================================================================ from sender to receiver

  /** A datagram that is not one of this packet's: unparsable, of another session, or unrelated to it. */
  ghost predicate Irrelevant(d: Datagram, m: UdpMessage) {
    var parsed := ParseUdp(d);
    parsed.Ok? && parsed.value.sessionId == m.sessionId ==> Unrelated(parsed.value, m.packetId)
  }

  lemma {:induction false} InboxMembers(arrived: seq<Datagram>, sessionId: U32, x: UdpMessage)
    ensures x in Inbox(arrived, sessionId) <==>
            exists d :: d in arrived && ParseUdp(d) == Ok(x) && x.sessionId == sessionId
  {
    if arrived != [] {
      var before := arrived[..|arrived| - 1];
      var last := arrived[|arrived| - 1];
      assert arrived == before + [last];
      InboxMembers(before, sessionId, x);
    }
  }

  /** A message as `send` builds it, on a connection where it needs no more fragments than fit a u8. */
  ghost predicate Travels(m: UdpMessage, limit: nat, random: U16) {
    && Unsplit(m) && 1 <= |m.addr| <= MAX_MESSAGE_LENGTH && Parts(m, limit, random).Ok?
    && (m.Size() > limit ==> DivCeil(|m.data|, limit - m.HeaderSize()) <= 255)
  }

  /** Every part parses back to itself, fits the connection and carries the session's id. */
  lemma {:induction false} WireParts(m: UdpMessage, limit: nat, random: U16)
    requires Travels(m, limit, random)
    ensures forall f | f in Parts(m, limit, random).value ::
              Encodable(f.addr) && ParseUdp(f.Encode()) == Ok(f) && |f.Encode()| <= limit && f.sessionId == m.sessionId
  {
    PartsEncodable(m, limit, random);
    var parts := Parts(m, limit, random).value;
    forall f | f in parts
      ensures ParseUdp(f.Encode()) == Ok(f) && f.sessionId == m.sessionId
    {
      if m.Size() > limit {
        FragmentsFit(Renumbered(m, random), limit);
      }
      ParseEncode(f);
    }
  }

  /** A split message's parts are a packet that makes up the message. */
  lemma {:induction false} PartsArePacket(m: UdpMessage, limit: nat, random: U16)
    requires Travels(m, limit, random) && m.Size() > limit
    ensures IsPacket(Parts(m, limit, random).value) && Whole(Parts(m, limit, random).value) == Renumbered(m, random)
    ensures Parts(m, limit, random).value[0].packetId == Renumbered(m, random).packetId
  {
    var n := Renumbered(m, random);
    ChunkCount(n.data, limit - n.HeaderSize());
    FragmentsArePacket(n, limit);
  }

  /** Of these datagrams each is one of the message's or irrelevant to it. */
  ghost predicate Heard(m: UdpMessage, limit: nat, random: U16, heard: seq<Datagram>)
    requires Encodable(m.addr) && Parts(m, limit, random).Ok?
  {
    forall d | d in heard ::
      d in Datagrams(m, limit, random).value || Irrelevant(d, Travelling(m, limit, random))
  }

  /** All that reaches the session is of the packet or unrelated to it. */
  lemma {:induction false} InboxOrigin(m: UdpMessage, limit: nat, random: U16, heard: seq<Datagram>, x: UdpMessage)
    requires Travels(m, limit, random) && Heard(m, limit, random, heard) && x in Inbox(heard, m.sessionId)
    ensures x in Parts(m, limit, random).value || Unrelated(x, Travelling(m, limit, random).packetId)
  {
    InboxMembers(heard, m.sessionId, x);
    var d :| d in heard && ParseUdp(d) == Ok(x) && x.sessionId == m.sessionId;
    if d in Datagrams(m, limit, random).value {
      PartOf(m, limit, random, d);
    }
  }

  lemma {:induction false} PartOf(m: UdpMessage, limit: nat, random: U16, d: Datagram)
    requires Travels(m, limit, random) && d in Datagrams(m, limit, random).value
    ensures ParseUdp(d).Ok? && ParseUdp(d).value in Parts(m, limit, random).value
    ensures ParseUdp(d).value.sessionId == m.sessionId
    ensures Encodable(ParseUdp(d).value.addr) && ParseUdp(d).value.Encode() == d
  {
    var parts := Parts(m, limit, random).value;
    WireParts(m, limit, random);
    var i :| 0 <= i < |parts| && d == parts[i].Encode();
    assert parts[i] in parts;
  }

  /** Every part whose datagram has arrived has reached the session. */
  lemma {:induction false} PartsReach(m: UdpMessage, limit: nat, random: U16, heard: seq<Datagram>, i: nat)
    requires Travels(m, limit, random) && i < |Parts(m, limit, random).value|
    requires forall d | d in Datagrams(m, limit, random).value :: d in heard
    ensures Parts(m, limit, random).value[i] in Inbox(heard, m.sessionId)
  {
    var parts := Parts(m, limit, random).value;
    WireParts(m, limit, random);
    var d := parts[i].Encode();
    assert parts[i] in parts;
    assert d == Datagrams(m, limit, random).value[i];
    InboxMembers(heard, m.sessionId, parts[i]);
  }

  /** A part of a split message whose datagram has not arrived has not reached the session. */
  lemma {:induction false} NotReached(m: UdpMessage, limit: nat, random: U16, heard: seq<Datagram>, d: Datagram)
    requires Travels(m, limit, random) && m.Size() > limit && Heard(m, limit, random, heard)
    requires d in Datagrams(m, limit, random).value && d !in heard
    ensures ParseUdp(d).Ok? && ParseUdp(d).value !in Inbox(heard, m.sessionId)
  {
    PartOf(m, limit, random, d);
    PartsArePacket(m, limit, random);
    var f := ParseUdp(d).value;
    assert IsFragment(f) && f.packetId == Travelling(m, limit, random).packetId;
    if f in Inbox(heard, m.sessionId) {
      InboxMembers(heard, m.sessionId, f);
      var e :| e in heard && ParseUdp(e) == Ok(f) && f.sessionId == m.sessionId;
      assert !Irrelevant(e, Travelling(m, limit, random));
      PartOf(m, limit, random, e);
    }
  }

  /** The parts are all there with the message taken next, which is the last one missing. */
  ghost predicate LastMissingPart(parts: seq<UdpMessage>, taken: seq<UdpMessage>, next: UdpMessage) {
    next in parts && next !in taken && forall f | f in parts :: f in taken || f == next
  }

  /**
   * When `t` takes up these messages, nothing gets in the way of a split message: no packet is in progress
   * under the same id and key, no fragment of another message under that id comes, and there are never 64
   * younger incomplete packets.
   */
  ghost predicate Undisturbed(t: Table, parts: seq<UdpMessage>, ms: seq<UdpMessage>) {
    && parts != [] && !InProgress(t, parts[0])
    && (forall x | x in ms :: x in parts || Unrelated(x, parts[0].packetId))
    && Uncrowded(t, ms, parts)
  }

  /** Fed `earlier` and then `since`, the reassembler answers none of these parts in `since`. */
  ghost predicate Silent(parts: seq<UdpMessage>, earlier: seq<UdpMessage>, since: seq<UdpMessage>) {
    forall k | 0 <= k < |since| && since[k] in parts :: Output(EMPTY, earlier + since, |earlier| + k) == None
  }

  /**
   * In every run of creations, closes, arrivals, sends and receives, at every session: the `receive` that
   * takes the last missing part of a message returns that message, and those before it that took parts of
   * it returned nothing, if since some point, before which no part counts, the message was undisturbed.
   */
  lemma {:induction false} ReceiveReturns(es: seq<Event>, id: U32, m: UdpMessage, limit: nat, random: U16, from: nat)
    requires Enabled(StateAfter(es), Receive(id)) && Travels(m, limit, random)
    requires
      var s := StateAfter(es).sessions[id];
      var parts := Parts(m, limit, random).value;
      && from <= |s.taken| && LastMissingPart(parts, s.taken[from..], s.queue[0])
      && (m.Size() > limit ==> Undisturbed(Run(EMPTY, s.taken[..from]), parts, s.taken[from..]))
    ensures
      var s := StateAfter(es).sessions[id];
      var parts := Parts(m, limit, random).value;
      && StateAfter(es + [Receive(id)]).sessions[id].out == s.out + [Travelling(m, limit, random)]
      && (m.Size() > limit ==> Silent(parts, s.taken[..from], s.taken[from..]))
  {
    var s := StateAfter(es).sessions[id];
    RunFed(es);
    AfterReceive(es, id);
    assert s.taken == s.taken[..from] + s.taken[from..];
    TakingReturns(s, m, limit, random, s.taken[..from], s.taken[from..]);
  }

  lemma {:induction false} TakingReturns(s: Session, m: UdpMessage, limit: nat, random: U16,
                                         earlier: seq<UdpMessage>, since: seq<UdpMessage>)
    requires Fed(s) && s.queue != [] && s.taken == earlier + since && Travels(m, limit, random)
    requires LastMissingPart(Parts(m, limit, random).value, since, s.queue[0])
    requires m.Size() > limit ==> Undisturbed(Run(EMPTY, earlier), Parts(m, limit, random).value, since)
    ensures Taking(s).out == s.out + [Travelling(m, limit, random)]
    ensures m.Size() > limit ==> Silent(Parts(m, limit, random).value, earlier, since)
  {
    LastPartReturns(m, limit, random, earlier, since, s.queue[0]);
  }

  lemma {:induction false} AfterReceive(es: seq<Event>, id: U32)
    requires Enabled(StateAfter(es), Receive(id))
    ensures
      var s' := StateAfter(es + [Receive(id)]);
      id in s'.sessions && s'.sessions[id] == Taking(StateAfter(es).sessions[id])
  {
    var run := es + [Receive(id)];
    assert run[..|run| - 1] == es;
  }

  /** The reassembler's answer to the last missing part. */
  lemma {:induction false} LastPartReturns(m: UdpMessage, limit: nat, random: U16, earlier: seq<UdpMessage>,
                                           since: seq<UdpMessage>, next: UdpMessage)
    requires Travels(m, limit, random) && LastMissingPart(Parts(m, limit, random).value, since, next)
    requires m.Size() > limit ==> Undisturbed(Run(EMPTY, earlier), Parts(m, limit, random).value, since)
    ensures Feed(Run(EMPTY, earlier + since), next).1 == Some(Travelling(m, limit, random))
    ensures m.Size() > limit ==> Silent(Parts(m, limit, random).value, earlier, since)
  {
    if m.Size() > limit {
      var parts := Parts(m, limit, random).value;
      PartsArePacket(m, limit, random);
      RunInv(EMPTY, earlier);
      Completed(Run(EMPTY, earlier), parts, since, next);
      DeliveryAtLast(Run(EMPTY, earlier), parts, since, next);
      RunAppend(EMPTY, earlier, since);
      SilentSince(earlier, since, parts);
    }
  }

  lemma {:induction false} SilentSince(earlier: seq<UdpMessage>, since: seq<UdpMessage>, parts: seq<UdpMessage>)
    requires forall k | 0 <= k < |since| && since[k] in parts :: Output(Run(EMPTY, earlier), since, k) == None
    ensures Silent(parts, earlier, since)
  {
    forall k | 0 <= k < |since| && since[k] in parts
      ensures Output(EMPTY, earlier + since, |earlier| + k) == None
    {
      OutputAppend(EMPTY, earlier, since, k);
    }
  }

  lemma {:induction false} Completed(t: Table, parts: seq<UdpMessage>, since: seq<UdpMessage>, next: UdpMessage)
    requires IsPacket(parts) && Inv(t) && Undisturbed(t, parts, since) && LastMissingPart(parts, since, next)
    ensures Completes(t, parts, since + [next])
  {
    var ms := since + [next];
    assert ms[..|ms| - 1] == since;
    var i: nat :| i < |parts| && parts[i] == next;
    assert parts[i] !in since;
    forall i | 0 <= i < |parts|
      ensures parts[i] in ms
    {
      assert parts[i] in parts;
    }
  }

  // ---------------------------------------------------------------- from the wire

  lemma {:induction false} InboxAppend(a: seq<Datagram>, b: seq<Datagram>, sessionId: U32)
    ensures Inbox(a + b, sessionId) == Inbox(a, sessionId) + Inbox(b, sessionId)
  {
    if b == [] {
      assert a + b == a;
    } else {
      var init := b[..|b| - 1];
      assert (a + b)[..|a + b| - 1] == a + init;
      InboxAppend(a, init, sessionId);
    }
  }

  /** The last of these datagrams is the one that makes the message's complete. */
  ghost predicate Arrives(wire: seq<Datagram>, span: seq<Datagram>) {
    && span != [] && (forall d | d in wire :: d in span)
    && exists d :: d in wire && d !in span[..|span| - 1]
  }

  /** What `Undisturbed` asks of a span of datagrams, given what the session received before it. */
  ghost predicate UndisturbedSpan(m: UdpMessage, limit: nat, random: U16, before: seq<Datagram>, span: seq<Datagram>)
    requires Encodable(m.addr) && Parts(m, limit, random).Ok? && span != []
  {
    var parts := Parts(m, limit, random).value;
    var t := Run(EMPTY, Inbox(before, m.sessionId));
    && Heard(m, limit, random, span) && parts != [] && !InProgress(t, parts[0])
    && Uncrowded(t, Inbox(span[..|span| - 1], m.sessionId), parts)
  }

  /**
   * From wire to application: in every run, if between two points of a session's life the datagrams of a
   * message arrive - in any order, duplicated and mixed with irrelevant ones - and are undisturbed there,
   * then, once the session has taken what had arrived by then, `receive` has returned the message; whatever
   * came before and whatever comes later.
   */
  lemma {:induction false} EndToEnd(es: seq<Event>, id: U32, m: UdpMessage, limit: nat, random: U16, lo: nat, hi: nat)
    requires Creations(es) <= SESSION_IDS && id in StateAfter(es).sessions
    requires Travels(m, limit, random) && m.sessionId == id
    requires
      var c := StateAfter(es);
      var s := c.sessions[id];
      && s.born <= lo <= hi <= |c.arrived|
      && |s.taken| >= |Inbox(c.arrived[s.born..hi], id)|
      && Arrives(Datagrams(m, limit, random).value, c.arrived[lo..hi])
      && (m.Size() > limit ==> UndisturbedSpan(m, limit, random, c.arrived[s.born..lo], c.arrived[lo..hi]))
    ensures
      var c := StateAfter(es);
      var s := c.sessions[id];
      && Returns(s.taken, |Inbox(c.arrived[s.born..hi], id)|, Travelling(m, limit, random))
      && Travelling(m, limit, random) in s.out
  {
    var c := StateAfter(es);
    TakenPrefix(es, id, hi);
    TookReturns(c.sessions[id], c.arrived, m, limit, random, lo, hi);
  }

  lemma {:induction false} TookReturns(s: Session, arrived: seq<Datagram>, m: UdpMessage, limit: nat, random: U16,
                                       lo: nat, hi: nat)
    requires Travels(m, limit, random) && s.born <= lo <= hi <= |arrived|
    requires Fed(s) && Inbox(arrived[s.born..hi], m.sessionId) <= s.taken
    requires Arrives(Datagrams(m, limit, random).value, arrived[lo..hi])
    requires m.Size() > limit ==> UndisturbedSpan(m, limit, random, arrived[s.born..lo], arrived[lo..hi])
    ensures Returns(s.taken, |Inbox(arrived[s.born..hi], m.sessionId)|, Travelling(m, limit, random))
    ensures Travelling(m, limit, random) in s.out
  {
    Rejoin(arrived, s.born, lo, hi);
    BothReturn(s.taken, m, limit, random, arrived[s.born..lo], arrived[lo..hi], arrived[s.born..hi]);
  }

  /** The `n`-th message taken made `receive` return `m`. */
  ghost predicate Returns(taken: seq<UdpMessage>, n: nat, m: UdpMessage) {
    0 < n <= |taken| && Output(EMPTY, taken, n - 1) == Some(m)
  }

  lemma {:induction false} Rejoin(s: seq<Datagram>, a: nat, b: nat, c: nat)
    requires a <= b <= c <= |s|
    ensures s[a..b] + s[b..c] == s[a..c]
  {
  }

  lemma {:induction false} BothReturn(taken: seq<UdpMessage>, m: UdpMessage, limit: nat, random: U16,
                                      before: seq<Datagram>, span: seq<Datagram>, whole: seq<Datagram>)
    requires Travels(m, limit, random) && Arrives(Datagrams(m, limit, random).value, span)
    requires whole == before + span && Inbox(whole, m.sessionId) <= taken
    requires m.Size() > limit ==> UndisturbedSpan(m, limit, random, before, span)
    ensures Returns(taken, |Inbox(whole, m.sessionId)|, Travelling(m, limit, random))
    ensures Travelling(m, limit, random) in Outputs(EMPTY, taken)
  {
    SpanReturns(m, limit, random, before, span);
    PrefixOutput(Inbox(whole, m.sessionId), taken);
  }

  lemma {:induction false} PrefixOutput(inbox: seq<UdpMessage>, taken: seq<UdpMessage>)
    requires inbox != [] && inbox <= taken && Output(EMPTY, inbox, |inbox| - 1).Some?
    ensures Output(EMPTY, taken, |inbox| - 1) == Output(EMPTY, inbox, |inbox| - 1)
    ensures Output(EMPTY, inbox, |inbox| - 1).value in Outputs(EMPTY, taken)
  {
    assert inbox[..|inbox| - 1] == taken[..|inbox| - 1];
    OutputListed(EMPTY, taken, |inbox| - 1);
  }

  /** In every run, what a session has taken begins with what had arrived for it by any earlier time. */
  lemma {:induction false} TakenPrefix(es: seq<Event>, id: U32, hi: nat)
    requires Creations(es) <= SESSION_IDS && id in StateAfter(es).sessions
    requires
      var c := StateAfter(es);
      c.sessions[id].born <= hi <= |c.arrived|
      && |c.sessions[id].taken| >= |Inbox(c.arrived[c.sessions[id].born..hi], id)|
    ensures
      var c := StateAfter(es);
      var s := c.sessions[id];
      Fed(s) && Inbox(c.arrived[s.born..hi], id) <= s.taken
  {
    var c := StateAfter(es);
    var s := c.sessions[id];
    RunRouted(es, id);
    PrefixOfTaken(id, s, c.pending, c.arrived, hi);
  }

  lemma {:induction false} PrefixOfTaken(id: U32, s: Session, pending: Option<UdpMessage>,
                                         arrived: seq<Datagram>, hi: nat)
    requires WellRouted(id, s, pending, arrived) && s.born <= hi <= |arrived|
    requires |s.taken| >= |Inbox(arrived[s.born..hi], id)|
    ensures Inbox(arrived[s.born..hi], id) <= s.taken
  {
    assert arrived[s.born..] == arrived[s.born..hi] + arrived[hi..];
    InboxAppend(arrived[s.born..hi], arrived[hi..], id);
    assert s.taken <= Routed(id, s, pending);
  }

  lemma {:induction false} RunRouted(es: seq<Event>, id: U32)
    requires Creations(es) <= SESSION_IDS && id in StateAfter(es).sessions
    ensures
      var c := StateAfter(es);
      WellRouted(id, c.sessions[id], c.pending, c.arrived) && Fed(c.sessions[id])
  {
    var issued := RunRouting(es);
    RunFed(es);
  }

  /** An open session whose channel is empty, and for which nothing is on its way, has taken all that arrived. */
  lemma {:induction false} DrainedTook(es: seq<Event>, id: U32)
    requires Creations(es) <= SESSION_IDS && id in StateAfter(es).sessions
    requires
      var c := StateAfter(es);
      && c.sessions[id].open && c.sessions[id].queue == []
      && (c.pending.Some? ==> c.pending.value.sessionId != id)
    ensures
      var c := StateAfter(es);
      c.sessions[id].born <= |c.arrived| && c.sessions[id].taken == Inbox(c.arrived[c.sessions[id].born..], id)
  {
    RunRouted(es, id);
  }

  /** The reassembler's answer to the datagram that completes a message's. */
  lemma {:induction false} SpanReturns(m: UdpMessage, limit: nat, random: U16,
                                       before: seq<Datagram>, span: seq<Datagram>)
    requires Travels(m, limit, random) && Arrives(Datagrams(m, limit, random).value, span)
    requires m.Size() > limit ==> UndisturbedSpan(m, limit, random, before, span)
    ensures
      var inbox := Inbox(before + span, m.sessionId);
      inbox != [] && Output(EMPTY, inbox, |inbox| - 1) == Some(Travelling(m, limit, random))
  {
    var init, last := span[..|span| - 1], span[|span| - 1];
    SpanAnswer(m, limit, random, before, span);
    InboxLast(before, span, m.sessionId);
    LastOutput(Inbox(before, m.sessionId) + Inbox(init, m.sessionId), ParseUdp(last).value);
  }

  lemma {:induction false} SpanAnswer(m: UdpMessage, limit: nat, random: U16,
                                      before: seq<Datagram>, span: seq<Datagram>)
    requires Travels(m, limit, random) && Arrives(Datagrams(m, limit, random).value, span)
    requires m.Size() > limit ==> UndisturbedSpan(m, limit, random, before, span)
    ensures
      var next := ParseUdp(span[|span| - 1]);
      && next.Ok? && next.value.sessionId == m.sessionId
      && Feed(Run(EMPTY, Inbox(before, m.sessionId) + Inbox(span[..|span| - 1], m.sessionId)), next.value).1
      == Some(Travelling(m, limit, random))
  {
    var last := span[|span| - 1];
    var earlier, since := Inbox(before, m.sessionId), Inbox(span[..|span| - 1], m.sessionId);
    ArrivesLast(Datagrams(m, limit, random).value, span);
    PartOf(m, limit, random, last);
    if m.Size() > limit {
      SpanUndisturbed(m, limit, random, before, span);
      LastPartReturns(m, limit, random, earlier, since, ParseUdp(last).value);
    } else {
      UnsplitReturns(m, limit, random, earlier + since, ParseUdp(last).value);
    }
  }

  lemma {:induction false} UnsplitReturns(m: UdpMessage, limit: nat, random: U16,
                                          taken: seq<UdpMessage>, next: UdpMessage)
    requires Travels(m, limit, random) && m.Size() <= limit && next in Parts(m, limit, random).value
    ensures Feed(Run(EMPTY, taken), next).1 == Some(Travelling(m, limit, random))
  {
  }

  lemma {:induction false} LastOutput(taken: seq<UdpMessage>, next: UdpMessage)
    ensures Output(EMPTY, taken + [next], |taken|) == Feed(Run(EMPTY, taken), next).1
  {
    assert (taken + [next])[..|taken|] == taken;
  }

  lemma {:induction false} ArrivesLast(wire: seq<Datagram>, span: seq<Datagram>)
    requires Arrives(wire, span)
    ensures span[|span| - 1] in wire && span[|span| - 1] !in span[..|span| - 1]
  {
    var init, last := span[..|span| - 1], span[|span| - 1];
    var d :| d in wire && d !in init;
    assert d in span;
    assert span == init + [last];
  }

  lemma {:induction false} InboxLast(before: seq<Datagram>, span: seq<Datagram>, sessionId: U32)
    requires span != []
    requires
      var last := ParseUdp(span[|span| - 1]);
      last.Ok? && last.value.sessionId == sessionId
    ensures Inbox(before + span, sessionId)
         == Inbox(before, sessionId) + Inbox(span[..|span| - 1], sessionId) + [ParseUdp(span[|span| - 1]).value]
  {
    InboxAppend(before, span, sessionId);
  }

  lemma {:induction false} SpanUndisturbed(m: UdpMessage, limit: nat, random: U16,
                                           before: seq<Datagram>, span: seq<Datagram>)
    requires Travels(m, limit, random) && m.Size() > limit && Arrives(Datagrams(m, limit, random).value, span)
    requires UndisturbedSpan(m, limit, random, before, span)
    requires span[|span| - 1] in Datagrams(m, limit, random).value && span[|span| - 1] !in span[..|span| - 1]
    requires ParseUdp(span[|span| - 1]).Ok?
    ensures
      var parts := Parts(m, limit, random).value;
      var since := Inbox(span[..|span| - 1], m.sessionId);
      && Undisturbed(Run(EMPTY, Inbox(before, m.sessionId)), parts, since)
      && LastMissingPart(parts, since, ParseUdp(span[|span| - 1]).value)
  {
    var parts := Parts(m, limit, random).value;
    var init, last := span[..|span| - 1], span[|span| - 1];
    var since := Inbox(init, m.sessionId);
    assert span == init + [last];
    PartsArePacket(m, limit, random);
    forall x | x in since
      ensures x in parts || Unrelated(x, parts[0].packetId)
    {
      InboxOrigin(m, limit, random, init, x);
    }
    NotReached(m, limit, random, init, last);
    PartOf(m, limit, random, last);
    forall f | f in parts
      ensures f in since || f == ParseUdp(last).value
    {
      var i: nat :| i < |parts| && parts[i] == f;
      PartsReach(m, limit, random, span, i);
      assert Inbox(span, m.sessionId) == since + [ParseUdp(last).value];
    }
  }
}
