/**
 * The command loop of the mobile runtime (`controller_thread` in mobile/src/main.rs): a connection, five
 * tasks that serve it, a generation counter that outdates late messages, and delayed retries.
 */
module Controller {
  import opened Base

  datatype Form = Form(server: string, localUdpEnabled: bool)

  /** A `Reconnect` message on its way: sleeping out its delay or waiting in the queue. */
  datatype Retry = Retry(generation: nat, attempt: nat)

  /** The variables of the loop, and the retries it has scheduled for itself. */
  datatype State = State(
    client: bool,            // current_client.is_some(), and so on
    socks: bool,
    closeWatch: bool,
    transportWatch: bool,
    healthProbe: bool,
    tun2socks: bool,
    generation: nat,
    form: Option<Form>,
    vpnDesired: bool,
    retries: seq<Retry>)

  const INITIAL := State(false, false, false, false, false, false, 0, None, false, [])

  /** The commands; `Retrying(k)` delivers the outstanding `Reconnect` number `k`. */
  datatype Command =
    | Connect(form: Form)
    | StartManagedVpn(form: Form)
    | ManagedConnect(form: Form)
    | Disconnect
    | Speedtest
    | RequestVpnPermission
    | StopVpnShell
    | ServiceStopped
    | ConnectionClosed(generation: nat)
    | Retrying(index: nat)
    | TransportPulse(generation: nat)

  /** A command and what the world answers while it is handled. */
  datatype Event = Event(command: Command, connects: bool, vpnStarts: bool)

  // ================================================================ small pure pieces of the source

  predicate ShouldRunHealthProbe(phase: string) {
    phase == "Connected"
  }

  predicate ShouldPreserveTun2socks(vpnDesired: bool) {
    vpnDesired
  }

  predicate ShouldRestartTun2socks(vpnDesired: bool, running: bool) {
    vpnDesired && !running
  }

  /** The phase of the status that `connect_client` returns. */
  const CONNECTED_PHASE := "Connected"

  const MAX_RECONNECT_BACKOFF: nat := 15

  /** `reconnect_delay`, in seconds. */
  function ReconnectDelay(attempt: nat): (seconds: nat) {
    Min(Pow2(Min(attempt, 4)), MAX_RECONNECT_BACKOFF)
  }

  // ================================================================ the transition function

  function Stopped(s: State, stopTun2socks: bool): State {
    s.(client := false, socks := false, closeWatch := false, transportWatch := false, healthProbe := false,
       tun2socks := s.tun2socks && !stopTun2socks)
  }

  function Activated(s: State, form: Form): State {
    s.(client := true, socks := true, closeWatch := true, transportWatch := true, healthProbe := true,
       form := Some(form))
  }

  function WithoutIndex(retries: seq<Retry>, k: nat): seq<Retry>
    requires k < |retries|
  {
    retries[..k] + retries[k + 1..]
  }

  /** A new generation, with everything of the old one stopped. */
  function NewGeneration(s: State, form: Option<Form>, vpnDesired: bool): State {
    Stopped(s.(generation := s.generation + 1, form := form, vpnDesired := vpnDesired), true)
  }

  function HandleReconnect(s: State, retry: Retry, connects: bool, vpnStarts: bool): State {
    if retry.generation != s.generation || s.form.None? then s
    else if connects then
      Activated(s, s.form.value).(tun2socks := s.tun2socks || (s.vpnDesired && vpnStarts))
    else s.(retries := s.retries + [Retry(retry.generation, retry.attempt + 1)])
  }

  /** What one turn of the loop does. */
  function Step(s: State, e: Event): State {
    match e.command
    case Connect(form) =>
      var renewed := NewGeneration(s, None, false);
      if e.connects then Activated(renewed, form) else renewed
    case StartManagedVpn(form) =>
      if e.vpnStarts then NewGeneration(s, Some(form), true) else NewGeneration(s, None, false)
    case ManagedConnect(form) =>
      var renewed := NewGeneration(s, Some(form), true);
      if e.connects then Activated(renewed, form).(tun2socks := e.vpnStarts) else renewed
    case Disconnect => NewGeneration(s, None, false)
    case ServiceStopped => NewGeneration(s, None, false)
    case StopVpnShell => s.(vpnDesired := false, tun2socks := false)
    case ConnectionClosed(generation) =>
      if generation != s.generation || !s.client then s
      else Stopped(s, !ShouldPreserveTun2socks(s.vpnDesired)).(retries := s.retries + [Retry(generation, 0)])
    case Retrying(k) =>
      if k >= |s.retries| then s
      else HandleReconnect(s.(retries := WithoutIndex(s.retries, k)), s.retries[k], e.connects, e.vpnStarts)
    case _ => s
  }

  ghost function StateAfter(es: seq<Event>): State {
    if es == [] then INITIAL else Step(StateAfter(es[..|es| - 1]), es[|es| - 1])
  }

  // ================================================================ the invariant

  /** The outstanding retries of a generation. */
  function Pending(retries: seq<Retry>, generation: nat): (n: nat) {
    if retries == [] then 0
    else Pending(retries[..|retries| - 1], generation)
         + if retries[|retries| - 1].generation == generation then 1 else 0
  }

  /** Ways in which the current session is kept alive: the client itself, or a retry under way. */
  function Lifelines(s: State): nat {
    (if s.client then 1 else 0) + Pending(s.retries, s.generation)
  }

  ghost predicate Inv(s: State) {
    && Together(s)
    && Kept(s, Lifelines(s))
    && forall r | r in s.retries :: r.generation <= s.generation
  }

  /** The tasks of a client come and go with it. */
  predicate Together(s: State) {
    s.socks == s.client && s.closeWatch == s.client && s.transportWatch == s.client && s.healthProbe == s.client
  }

  /** A session has one lifeline, and there is a form, and possibly a tunnel, only for a session. */
  predicate Kept(s: State, lifelines: nat) {
    && lifelines <= 1
    && (lifelines == 1 ==> s.form.Some?)
    && (s.tun2socks ==> s.vpnDesired && lifelines == 1)
  }

  lemma {:induction false} PendingNone(retries: seq<Retry>, generation: nat)
    requires forall r | r in retries :: r.generation < generation
    ensures Pending(retries, generation) == 0
  {
    if retries != [] {
      PendingNone(retries[..|retries| - 1], generation);
      assert retries[|retries| - 1] in retries;
    }
  }

  lemma {:induction false} PendingSnoc(retries: seq<Retry>, r: Retry, generation: nat)
    ensures Pending(retries + [r], generation)
         == Pending(retries, generation) + if r.generation == generation then 1 else 0
  {
    assert (retries + [r])[..|retries|] == retries;
  }

  lemma {:induction false} PendingWithout(retries: seq<Retry>, k: nat, generation: nat)
    requires k < |retries|
    ensures Pending(WithoutIndex(retries, k), generation)
         == Pending(retries, generation) - if retries[k].generation == generation then 1 else 0
  {
    var last := retries[|retries| - 1];
    var init := retries[..|retries| - 1];
    if k == |retries| - 1 {
      assert WithoutIndex(retries, k) == init;
    } else {
      PendingWithout(init, k, generation);
      assert WithoutIndex(retries, k) == WithoutIndex(init, k) + [last];
      PendingSnoc(WithoutIndex(init, k), last, generation);
    }
  }

  /** A new generation outdates every retry that is still on its way. */
  lemma {:induction false} BumpInv(s: State, form: Option<Form>, vpnDesired: bool)
    requires Inv(s)
    ensures Inv(NewGeneration(s, form, vpnDesired))
    ensures Lifelines(NewGeneration(s, form, vpnDesired)) == 0
  {
    PendingNone(s.retries, s.generation + 1);
  }

  /** The command starts a new generation. */
  predicate Bumps(c: Command) {
    c.Connect? || c.StartManagedVpn? || c.ManagedConnect? || c.Disconnect? || c.ServiceStopped?
  }

  /** The command ends with a new client in place. */
  predicate Activates(s: State, e: Event) {
    && e.connects
    && match e.command
       case Connect(_) => true
       case ManagedConnect(_) => true
       case Retrying(k) => k < |s.retries| && s.retries[k].generation == s.generation && s.form.Some?
       case _ => false
  }

  lemma {:induction false} BumpStep(s: State, e: Event)
    requires Inv(s) && Bumps(e.command)
    ensures Inv(Step(s, e))
    ensures Lifelines(Step(s, e)) == if Activates(s, e) then 1 else 0
  {
    match e.command {
      case Connect(form) => BumpInv(s, None, false);
      case StartManagedVpn(form) =>
        BumpInv(s, None, false);
        BumpInv(s, Some(form), true);
      case ManagedConnect(form) => BumpInv(s, Some(form), true);
      case Disconnect => BumpInv(s, None, false);
      case ServiceStopped => BumpInv(s, None, false);
    }
  }

  lemma {:induction false} ClosedStep(s: State, generation: nat, connects: bool, vpnStarts: bool)
    requires Inv(s)
    ensures
      var s' := Step(s, Event(ConnectionClosed(generation), connects, vpnStarts));
      Inv(s') && Lifelines(s') == Lifelines(s)
  {
    PendingSnoc(s.retries, Retry(generation, 0), s.generation);
  }

  /**
   * One turn keeps the invariant. It changes the number of lifelines only by starting a generation:
   * to one if it activates a client, to none otherwise. And it never activates a client over a live one.
   */
  lemma {:induction false} StepInv(s: State, e: Event)
    requires Inv(s)
    ensures Inv(Step(s, e))
    ensures Bumps(e.command) ==> Lifelines(Step(s, e)) == if Activates(s, e) then 1 else 0
    ensures !Bumps(e.command) ==> Lifelines(Step(s, e)) == Lifelines(s)
    ensures !Bumps(e.command) && Activates(s, e) ==> !s.client && Lifelines(s) == 1
  {
    if Bumps(e.command) {
      BumpStep(s, e);
    } else if e.command.ConnectionClosed? {
      ClosedStep(s, e.command.generation, e.connects, e.vpnStarts);
    } else if e.command.Retrying? && e.command.index < |s.retries| {
      RetryInv(s, e.command.index, e.connects, e.vpnStarts);
    }
  }

  lemma {:induction false} RetryInv(s: State, k: nat, connects: bool, vpnStarts: bool)
    requires Inv(s) && k < |s.retries|
    ensures
      var e := Event(Retrying(k), connects, vpnStarts);
      && Inv(Step(s, e)) && Lifelines(Step(s, e)) == Lifelines(s)
      && (s.retries[k].generation == s.generation ==> !s.client && Lifelines(s) == 1)
  {
    var retry := s.retries[k];
    var rest := WithoutIndex(s.retries, k);
    PendingWithout(s.retries, k, s.generation);
    assert retry in s.retries;
    forall r | r in rest
      ensures r.generation <= s.generation
    {
      assert r in s.retries;
    }
    ReconnectInv(s.(retries := rest), retry, connects, vpnStarts);
  }

  /** The same for the state that the delivered retry was taken out of. */
  lemma {:induction false} ReconnectInv(s: State, retry: Retry, connects: bool, vpnStarts: bool)
    requires Together(s) && Kept(s, Lifelines(s) + if retry.generation == s.generation then 1 else 0)
    requires retry.generation <= s.generation && forall r | r in s.retries :: r.generation <= s.generation
    ensures
      var s' := HandleReconnect(s, retry, connects, vpnStarts);
      Inv(s') && Lifelines(s') == Lifelines(s) + if retry.generation == s.generation then 1 else 0
  {
    PendingSnoc(s.retries, Retry(retry.generation, retry.attempt + 1), s.generation);
  }

  // ================================================================ whole runs

  /** A client was activated since the generation was last bumped. */
  ghost predicate InSession(es: seq<Event>) {
    && es != []
    && var before := es[..|es| - 1];
       var e := es[|es| - 1];
       if Bumps(e.command) then Activates(StateAfter(before), e)
       else InSession(before)
  }

  /**
   * Every run: the resources agree, and from an activation until the next generation the session has
   * exactly one lifeline - a live client or one pending retry, never both and never neither.
   */
  lemma {:induction false} RunInv(es: seq<Event>)
    ensures Inv(StateAfter(es))
    ensures Lifelines(StateAfter(es)) == if InSession(es) then 1 else 0
  {
    if es != [] {
      RunInv(es[..|es| - 1]);
      StepInv(StateAfter(es[..|es| - 1]), es[|es| - 1]);
    }
  }

  /** No step of any run puts a client in the place of a live one, except by first closing that one. */
  lemma {:induction false} NeverOverwritten(es: seq<Event>)
    requires es != [] && !Bumps(es[|es| - 1].command)
    requires Activates(StateAfter(es[..|es| - 1]), es[|es| - 1])
    ensures !StateAfter(es[..|es| - 1]).client && InSession(es[..|es| - 1])
  {
    RunInv(es[..|es| - 1]);
    StepInv(StateAfter(es[..|es| - 1]), es[|es| - 1]);
  }

  /** Nothing of a session is left, nor on its way. */
  ghost predicate Quiet(s: State) {
    Inv(s) && !s.client && !s.tun2socks && Pending(s.retries, s.generation) == 0
  }

  /**
   * No revival: after a disconnect or a service stop, no sequence of commands other than a new `Connect`
   * or `ManagedConnect`, however late, brings back a client or the tunnel.
   */
  lemma {:induction false} NoRevival(es: seq<Event>, stop: Event, later: seq<Event>)
    requires stop.command.Disconnect? || stop.command.ServiceStopped?
    requires forall e | e in later :: !e.command.Connect? && !e.command.ManagedConnect?
    ensures Quiet(StateAfter(es + [stop] + later))
  {
    if later == [] {
      var run := es + [stop];
      assert run + later == run && run[..|run| - 1] == es;
      RunInv(es);
      StepInv(StateAfter(es), stop);
    } else {
      var before := later[..|later| - 1];
      var run := es + [stop] + later;
      NoRevival(es, stop, before);
      assert run[..|run| - 1] == es + [stop] + before;
      var e := later[|later| - 1];
      assert e in later && run[|run| - 1] == e;
      StepInv(StateAfter(es + [stop] + before), e);
    }
  }

  // ---------------------------------------------------------------- what the events of a run amount to

  /** The form that the generation begun by this event is for. */
  function FormOf(e: Event): Option<Form> {
    match e.command
    case Connect(form) => if e.connects then Some(form) else None
    case StartManagedVpn(form) => if e.vpnStarts then Some(form) else None
    case ManagedConnect(form) => Some(form)
    case _ => None
  }

  /** The event begins a generation that is to run the tunnel. */
  predicate Manages(e: Event) {
    e.command.ManagedConnect? || (e.command.StartManagedVpn? && e.vpnStarts)
  }

  /**
   * What the events tell: how many generations were begun and for which form the last one is; whether the tunnel
   * was asked for and not stopped since, and whether it was brought up; and whether a client was activated whose
   * loss was not reported.
   */
  datatype Account = Account(generations: nat, form: Option<Form>, wanted: bool, broughtUp: bool, alive: bool)

  function Booked(a: Account, e: Event, activates: bool): Account {
    if Bumps(e.command) then
      Account(a.generations + 1, FormOf(e), Manages(e), activates && e.vpnStarts, activates)
    else
      Account(a.generations, a.form,
              a.wanted && !e.command.StopVpnShell?,
              a.broughtUp || (activates && e.vpnStarts),
              activates || (a.alive && e.command != ConnectionClosed(a.generations)))
  }

  ghost function AccountOf(es: seq<Event>): Account {
    if es == [] then Account(0, None, false, false, false)
    else
      var before, e := es[..|es| - 1], es[|es| - 1];
      Booked(AccountOf(before), e, Activates(StateAfter(before), e))
  }

  predicate Agrees(s: State, a: Account) {
    && s.generation == a.generations
    && s.form == a.form
    && s.vpnDesired == a.wanted
    && s.tun2socks == (a.wanted && a.broughtUp)
    && s.client == a.alive
  }

  /**
   * Every run: the form kept is the one the generation began with, the tunnel runs exactly when it is wanted and
   * was brought up, and there is a client exactly from an activation to its loss.
   */
  lemma {:induction false} RunAgrees(es: seq<Event>)
    ensures Agrees(StateAfter(es), AccountOf(es))
  {
    if es != [] {
      RunAgrees(es[..|es| - 1]);
      StepAgrees(StateAfter(es[..|es| - 1]), AccountOf(es[..|es| - 1]), es[|es| - 1]);
    }
  }

  lemma {:induction false} StepAgrees(s: State, a: Account, e: Event)
    requires Agrees(s, a)
    ensures Agrees(Step(s, e), Booked(a, e, Activates(s, e)))
  {
    if Bumps(e.command) {
      BumpAgrees(s, a, e);
    } else if e.command.Retrying? && e.command.index < |s.retries| {
      RetryAgrees(s, a, e.command.index, e.connects, e.vpnStarts);
    } else {
      LossAgrees(s, a, e);
    }
  }

  lemma {:induction false} BumpAgrees(s: State, a: Account, e: Event)
    requires Agrees(s, a) && Bumps(e.command)
    ensures Agrees(Step(s, e), Booked(a, e, Activates(s, e)))
  {
    match e.command {
      case Connect(form) => ConnectAgrees(s, a, e);
      case ManagedConnect(form) => ConnectAgrees(s, a, e);
      case _ =>
    }
  }

  lemma {:induction false} ConnectAgrees(s: State, a: Account, e: Event)
    requires Agrees(s, a) && (e.command.Connect? || e.command.ManagedConnect?)
    ensures Agrees(Step(s, e), Booked(a, e, Activates(s, e)))
  {
  }

  lemma {:induction false} LossAgrees(s: State, a: Account, e: Event)
    requires Agrees(s, a) && !Bumps(e.command) && (e.command.Retrying? ==> e.command.index >= |s.retries|)
    ensures Agrees(Step(s, e), Booked(a, e, Activates(s, e)))
  {
  }

  lemma {:induction false} RetryAgrees(s: State, a: Account, k: nat, connects: bool, vpnStarts: bool)
    requires Agrees(s, a) && k < |s.retries|
    ensures
      var e := Event(Retrying(k), connects, vpnStarts);
      Agrees(Step(s, e), Booked(a, e, Activates(s, e)))
  {
    var e := Event(Retrying(k), connects, vpnStarts);
    var retry, taken := s.retries[k], s.(retries := WithoutIndex(s.retries, k));
    assert Step(s, e) == HandleReconnect(taken, retry, connects, vpnStarts);
    assert Activates(s, e) == (connects && retry.generation == taken.generation && taken.form.Some?);
    ReconnectAgrees(taken, a, retry, e);
  }

  lemma {:induction false} ReconnectAgrees(s: State, a: Account, retry: Retry, e: Event)
    requires Agrees(s, a) && e.command.Retrying?
    ensures
      var activates := e.connects && retry.generation == s.generation && s.form.Some?;
      Agrees(HandleReconnect(s, retry, e.connects, e.vpnStarts), Booked(a, e, activates))
  {
  }

  lemma {:induction false} AccountSnoc(es: seq<Event>, e: Event)
    ensures AccountOf(es + [e]) == Booked(AccountOf(es), e, Activates(StateAfter(es), e))
  {
    assert (es + [e])[..|es|] == es;
  }

  lemma {:induction false} FormStays(earlier: seq<Event>, later: seq<Event>)
    requires forall e | e in later :: !Bumps(e.command)
    ensures AccountOf(earlier + later).form == AccountOf(earlier).form
    decreases later
  {
    if later == [] {
      assert earlier + later == earlier;
    } else {
      assert later[0] in later && earlier + later == earlier + [later[0]] + later[1..];
      AccountSnoc(earlier, later[0]);
      FormStays(earlier + [later[0]], later[1..]);
    }
  }

  lemma {:induction false} WantedStays(earlier: seq<Event>, later: seq<Event>)
    requires AccountOf(earlier).wanted && AccountOf(earlier).broughtUp
    requires forall e | e in later :: !Bumps(e.command) && !e.command.StopVpnShell?
    ensures AccountOf(earlier + later).wanted && AccountOf(earlier + later).broughtUp
    decreases later
  {
    if later == [] {
      assert earlier + later == earlier;
    } else {
      assert later[0] in later && earlier + later == earlier + [later[0]] + later[1..];
      AccountSnoc(earlier, later[0]);
      WantedStays(earlier + [later[0]], later[1..]);
    }
  }

  lemma {:induction false} UnwantedStays(earlier: seq<Event>, later: seq<Event>)
    requires !AccountOf(earlier).wanted && forall e | e in later :: !Manages(e)
    ensures !AccountOf(earlier + later).wanted
    decreases later
  {
    if later == [] {
      assert earlier + later == earlier;
    } else {
      assert later[0] in later && earlier + later == earlier + [later[0]] + later[1..];
      AccountSnoc(earlier, later[0]);
      UnwantedStays(earlier + [later[0]], later[1..]);
    }
  }

  /** A session is for the form of the command that began its generation, through every loss and retry. */
  lemma {:induction false} FormKept(earlier: seq<Event>, first: Event, later: seq<Event>)
    requires Bumps(first.command) && forall e | e in later :: !Bumps(e.command)
    ensures StateAfter(earlier + [first] + later).form == FormOf(first)
  {
    RunAgrees(earlier + [first] + later);
    FormStays(earlier + [first], later);
    assert (earlier + [first])[..|earlier|] == earlier;
  }

  /** A running tunnel stays through every loss and retry, until it is stopped or a new generation begins. */
  lemma {:induction false} TunnelStays(earlier: seq<Event>, later: seq<Event>)
    requires forall e | e in later :: !Bumps(e.command) && !e.command.StopVpnShell?
    ensures StateAfter(earlier).tun2socks ==>
              StateAfter(earlier + later).tun2socks && StateAfter(earlier + later).vpnDesired
  {
    RunAgrees(earlier);
    RunAgrees(earlier + later);
    if StateAfter(earlier).tun2socks {
      WantedStays(earlier, later);
    }
  }

  /** A stopped tunnel stays down, and unwanted, until the next managed command. */
  lemma {:induction false} TunnelStopped(earlier: seq<Event>, stop: Event, later: seq<Event>)
    requires stop.command.StopVpnShell?
    requires forall e | e in later :: !Manages(e)
    ensures
      var s := StateAfter(earlier + [stop] + later);
      !s.tun2socks && !s.vpnDesired
  {
    RunAgrees(earlier + [stop] + later);
    assert (earlier + [stop])[..|earlier|] == earlier;
    UnwantedStays(earlier + [stop], later);
  }

  /**
   * A connect, managed connect or retry that succeeds ends with a client; and a managed connect, or a retry of a
   * generation that still wants the tunnel, ends with the tunnel up if it can be started.
   */
  lemma {:induction false} Activation(es: seq<Event>, e: Event)
    requires Activates(StateAfter(es), e)
    ensures
      var s := StateAfter(es + [e]);
      && s.client
      && (e.command.ManagedConnect? ==> s.vpnDesired && s.tun2socks == e.vpnStarts)
      && (e.command.Retrying? && StateAfter(es).vpnDesired && e.vpnStarts ==> s.vpnDesired && s.tun2socks)
  {
    assert (es + [e])[..|es|] == es;
    RunAgrees(es);
    RunAgrees(es + [e]);
  }

  /** The retry that this event delivers, if it does. */
  function Delivered(s: State, e: Event): Option<Retry> {
    if e.command.Retrying? && e.command.index < |s.retries| then Some(s.retries[e.command.index]) else None
  }

  /** The retry that this event has to send: the first after a loss, the next one after a failed attempt. */
  function Sent(s: State, e: Event, alive: bool): Option<Retry> {
    if e.command == ConnectionClosed(s.generation) && alive then Some(Retry(s.generation, 0))
    else
      match Delivered(s, e)
      case Some(r) =>
        if r.generation == s.generation && !e.connects then Some(Retry(r.generation, r.attempt + 1)) else None
      case None => None
  }

  function ToSeq(r: Option<Retry>): seq<Retry> {
    if r.Some? then [r.value] else []
  }

  /** No retry is lost, doubled or sent without need. */
  lemma {:induction false} RetriesConserved(es: seq<Event>, e: Event)
    ensures
      var s := StateAfter(es);
      var sent := Sent(s, e, AccountOf(es).alive);
      multiset(StateAfter(es + [e]).retries + ToSeq(Delivered(s, e))) == multiset(s.retries + ToSeq(sent))
  {
    assert (es + [e])[..|es|] == es;
    RunAgrees(es);
    RunInv(es);
    var s := StateAfter(es);
    RetriesStep(s, e);
    if Delivered(s, e).Some? {
      WithoutMultiset(s.retries, e.command.index);
    }
  }

  lemma {:induction false} RetriesStep(s: State, e: Event)
    requires Inv(s)
    ensures
      var left := if Delivered(s, e).Some? then WithoutIndex(s.retries, e.command.index) else s.retries;
      Step(s, e).retries == left + ToSeq(Sent(s, e, s.client))
  {
    if e.command.Retrying? && e.command.index < |s.retries| {
      var k := e.command.index;
      PendingMember(s.retries, s.retries[k]);
      ReconnectSends(s.(retries := WithoutIndex(s.retries, k)), s.retries[k], e.connects, e.vpnStarts);
    } else {
      LossSends(s, e);
    }
  }

  lemma {:induction false} ReconnectSends(s: State, retry: Retry, connects: bool, vpnStarts: bool)
    requires retry.generation == s.generation ==> s.form.Some?
    ensures HandleReconnect(s, retry, connects, vpnStarts).retries
         == if retry.generation == s.generation && !connects then
              s.retries + [Retry(retry.generation, retry.attempt + 1)]
            else s.retries
  {
  }

  lemma {:induction false} LossSends(s: State, e: Event)
    requires Delivered(s, e).None?
    ensures Step(s, e).retries == s.retries + ToSeq(Sent(s, e, s.client))
  {
    if Bumps(e.command) {
      assert Step(s, e).retries == s.retries;
    }
  }

  lemma {:induction false} WithoutMultiset(retries: seq<Retry>, k: nat)
    requires k < |retries|
    ensures multiset(WithoutIndex(retries, k)) + multiset{retries[k]} == multiset(retries)
  {
    assert retries == retries[..k] + [retries[k]] + retries[k + 1..];
  }

  // ---------------------------------------------------------------- backoff

  /** How a turn changes the number of failed attempts since the connection was lost. */
  function FailuresAfter(s: State, e: Event, failures: nat): nat {
    match e.command
    case ConnectionClosed(g) => if g == s.generation && s.client then 0 else failures
    case Retrying(k) =>
      if k < |s.retries| && s.retries[k].generation == s.generation && !e.connects then failures + 1 else failures
    case _ => failures
  }

  ghost function Failures(es: seq<Event>): nat {
    if es == [] then 0
    else FailuresAfter(StateAfter(es[..|es| - 1]), es[|es| - 1], Failures(es[..|es| - 1]))
  }

  /** The retries of the current generation carry this attempt number. */
  ghost predicate Counted(s: State, failures: nat) {
    forall r | r in s.retries && r.generation == s.generation :: r.attempt == failures
  }

  lemma {:induction false} PendingMember(retries: seq<Retry>, r: Retry)
    requires r in retries
    ensures Pending(retries, r.generation) >= 1
  {
    if r in retries[..|retries| - 1] {
      PendingMember(retries[..|retries| - 1], r);
    }
  }

  /** The pending retry of a lost session carries the number of failures so far, which sets its delay. */
  lemma {:induction false} BackoffCounts(es: seq<Event>)
    ensures Counted(StateAfter(es), Failures(es))
  {
    if es != [] {
      var before := es[..|es| - 1];
      BackoffCounts(before);
      RunInv(before);
      CountedStep(StateAfter(before), es[|es| - 1], Failures(before));
    }
  }

  lemma {:induction false} CountedStep(s: State, e: Event, failures: nat)
    requires Inv(s) && Counted(s, failures)
    ensures Counted(Step(s, e), FailuresAfter(s, e, failures))
  {
    if Bumps(e.command) {
      assert Step(s, e).retries == s.retries && Step(s, e).generation == s.generation + 1;
    } else if e.command.ConnectionClosed? {
      ClosedCounted(s, e, failures);
    } else if e.command.Retrying? && e.command.index < |s.retries| {
      RetryCounted(s, e, failures);
    }
  }

  lemma {:induction false} ClosedCounted(s: State, e: Event, failures: nat)
    requires Inv(s) && Counted(s, failures) && e.command.ConnectionClosed?
    ensures Counted(Step(s, e), FailuresAfter(s, e, failures))
  {
    forall r | r in s.retries && r.generation == s.generation
      ensures !s.client
    {
      PendingMember(s.retries, r);
    }
  }

  lemma {:induction false} RetryCounted(s: State, e: Event, failures: nat)
    requires Inv(s) && Counted(s, failures) && e.command.Retrying? && e.command.index < |s.retries|
    ensures Counted(Step(s, e), FailuresAfter(s, e, failures))
  {
    var k := e.command.index;
    var s' := Step(s, e);
    var retry := s.retries[k];
    forall r | r in s'.retries && r.generation == s.generation
      ensures r.attempt == FailuresAfter(s, e, failures)
    {
      OnlyRetry(s, k, r);
      assert r in WithoutIndex(s.retries, k) || r == Retry(retry.generation, retry.attempt + 1);
    }
  }

  /** When a retry of the current generation is delivered, no other one of that generation is left. */
  lemma {:induction false} OnlyRetry(s: State, k: nat, r: Retry)
    requires Inv(s) && k < |s.retries|
    ensures s.retries[k] in s.retries
    ensures r in WithoutIndex(s.retries, k) ==> r in s.retries
    ensures r in WithoutIndex(s.retries, k) && r.generation == s.generation ==>
              s.retries[k].generation != s.generation
  {
    var rest := WithoutIndex(s.retries, k);
    PendingWithout(s.retries, k, s.generation);
    if r in rest {
      PendingMember(rest, r);
    }
  }

  /** The delays: 1, 2, 4 and 8 seconds, then 15 for ever; they never shrink. */
  lemma {:induction false} DelayGrows(attempt: nat)
    ensures 1 <= ReconnectDelay(attempt) <= ReconnectDelay(attempt + 1) <= 15
    ensures attempt < 4 ==> ReconnectDelay(attempt) == Pow2(attempt)
    ensures attempt >= 4 ==> ReconnectDelay(attempt) == 15
  {
    assert Pow2(4) == 2 * Pow2(3) && Pow2(3) == 2 * Pow2(2) && Pow2(2) == 2 * Pow2(1) && Pow2(1) == 2 * Pow2(0);
  }

  // ================================================================ the imperative code

  class RuntimeController {
    var currentClient: bool
    var localSocksTask: bool
    var tun2socksTask: bool
    var closeWatchTask: bool
    var transportWatchTask: bool
    var healthProbeTask: bool
    var currentGeneration: nat
    var reconnectForm: Option<Form>
    var desiredVpnActive: bool
    var scheduled: seq<Retry>

    ghost function View(): State
      reads this
    {
      State(currentClient, localSocksTask, closeWatchTask, transportWatchTask, healthProbeTask, tun2socksTask,
            currentGeneration, reconnectForm, desiredVpnActive, scheduled)
    }

    constructor ()
      ensures View() == INITIAL
    {
      currentClient, localSocksTask, tun2socksTask := false, false, false;
      closeWatchTask, transportWatchTask, healthProbeTask := false, false, false;
      currentGeneration, reconnectForm, desiredVpnActive, scheduled := 0, None, false, [];
    }

    method StopVpnRuntime()
      modifies this`tun2socksTask
      ensures !tun2socksTask
    {
      tun2socksTask := false;
    }

    method StopActiveSession(stopLocalSocks: bool, stopTun2socks: bool)
      modifies this`closeWatchTask, this`transportWatchTask, this`healthProbeTask, this`tun2socksTask,
               this`localSocksTask, this`currentClient
      ensures stopLocalSocks ==> View() == Stopped(old(View()), stopTun2socks)
      ensures !stopLocalSocks ==> View() == Stopped(old(View()), stopTun2socks).(socks := old(localSocksTask))
    {
      closeWatchTask := false;
      transportWatchTask := false;
      healthProbeTask := false;
      if stopTun2socks {
        StopVpnRuntime();
      }
      if stopLocalSocks {
        localSocksTask := false;
      }
      currentClient := false;
    }

    method ActivateConnection(form: Form, phase: string)
      modifies this
      ensures phase == CONNECTED_PHASE ==> View() == Activated(old(View()), form)
      ensures phase != CONNECTED_PHASE ==> View() == Activated(old(View()), form).(healthProbe := false)
    {
      localSocksTask := true;
      closeWatchTask := true;
      transportWatchTask := true;
      healthProbeTask := ShouldRunHealthProbe(phase);
      reconnectForm := Some(form);
      currentClient := true;
    }

    method ScheduleReconnect(generation: nat, attempt: nat)
      modifies this`scheduled
      ensures scheduled == old(scheduled) + [Retry(generation, attempt)]
    {
      scheduled := scheduled + [Retry(generation, attempt)];
    }

    /** One turn of the command loop. */
    method Handle(e: Event)
      modifies this
      ensures View() == Step(old(View()), e)
    {
      match e.command {
        case Connect(form) => HandleConnect(form, e.connects);
        case StartManagedVpn(form) => HandleStartManagedVpn(form, e.vpnStarts);
        case ManagedConnect(form) => HandleManagedConnect(form, e.connects, e.vpnStarts);
        case Disconnect => BeginGeneration(None, false);
        case ServiceStopped => BeginGeneration(None, false);
        case StopVpnShell =>
          desiredVpnActive := false;
          StopVpnRuntime();
        case ConnectionClosed(generation) => HandleConnectionClosed(generation);
        case Retrying(k) =>
          if k < |scheduled| {
            var retry := scheduled[k];
            scheduled := scheduled[..k] + scheduled[k + 1..];
            HandleRetry(retry, e.connects, e.vpnStarts);
          }
        case Speedtest =>
        case RequestVpnPermission =>
        case TransportPulse(_) =>
      }
    }

    /** What the five session commands begin with. */
    method BeginGeneration(form: Option<Form>, vpnDesired: bool)
      modifies this
      ensures View() == NewGeneration(old(View()), form, vpnDesired)
    {
      currentGeneration := currentGeneration + 1;
      desiredVpnActive := vpnDesired;
      reconnectForm := form;
      StopActiveSession(true, true);
    }

    method HandleConnect(form: Form, connects: bool)
      modifies this
      ensures View() == Step(old(View()), Event(Connect(form), connects, false))
    {
      BeginGeneration(None, false);
      if connects {
        ActivateConnection(form, CONNECTED_PHASE);
      }
    }

    method HandleStartManagedVpn(form: Form, vpnStarts: bool)
      modifies this
      ensures View() == Step(old(View()), Event(StartManagedVpn(form), false, vpnStarts))
    {
      BeginGeneration(Some(form), true);
      if !vpnStarts {
        desiredVpnActive := false;
        reconnectForm := None;
      }
    }

    method HandleManagedConnect(form: Form, connects: bool, vpnStarts: bool)
      modifies this
      ensures View() == Step(old(View()), Event(ManagedConnect(form), connects, vpnStarts))
    {
      BeginGeneration(Some(form), true);
      if connects {
        ActivateConnection(form, CONNECTED_PHASE);
        StopVpnRuntime();
        if vpnStarts {
          tun2socksTask := true;
        }
      }
    }

    method HandleConnectionClosed(generation: nat)
      modifies this
      ensures View() == Step(old(View()), Event(ConnectionClosed(generation), false, false))
    {
      if generation != currentGeneration || !currentClient {
        return;
      }
      StopActiveSession(true, !ShouldPreserveTun2socks(desiredVpnActive));
      ScheduleReconnect(generation, 0);
    }

    /** The `Reconnect` arm. */
    method HandleRetry(retry: Retry, connects: bool, vpnStarts: bool)
      modifies this
      ensures View() == HandleReconnect(old(View()), retry, connects, vpnStarts)
    {
      if retry.generation != currentGeneration {
        return;
      }
      if reconnectForm.None? {
        return;
      }
      if connects {
        ActivateConnection(reconnectForm.value, CONNECTED_PHASE);
        if ShouldRestartTun2socks(desiredVpnActive, tun2socksTask) {
          if vpnStarts {
            tun2socksTask := true;
          }
        }
      } else {
        ScheduleReconnect(retry.generation, retry.attempt + 1);
      }
    }
  }
}
