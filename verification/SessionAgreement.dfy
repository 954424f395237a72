/** The joint step system and the two sessions are the same thing: a half that is done in a joint run
    ended as its own session does on the wire that delivers what it heard. */
module SessionAgreement {
  import opened SealedTypes
  import opened Wrappers
  import opened Sockets
  import opened SessionProgress
  import H = HostSession
  import C = ClientSession

  // The wire a run induces

  /** Events that are there from the start, and as many prompt writes as a session makes. */
  function WireOf(events: seq<Event>): Wire {
    Wire(0, seq(|events|, k requires 0 <= k < |events| => Arrival(0, events[k])), seq(4, _ => Write(0, true)), [])
  }

  /** What is still to be heard is there, and at least `sends` more writes will be prompt. */
  predicate Ready(w: Wire, events: seq<Event>, sends: nat) {
    && |w.inbound| == |events|
    && (forall k :: 0 <= k < |events| ==> w.inbound[k].event == events[k] && w.inbound[k].at <= w.now)
    && |w.writes| >= sends
    && (forall k :: 0 <= k < |w.writes| ==> w.writes[k] == Write(0, true))
  }

  /** The event a step takes off the host's queue, if it takes one. */
  function HeardByHost(s: State, a: Action): seq<Event> {
    if a.HostStep? && (s.host.AwaitRequest? || s.host.AwaitMatch?) && s.toHost != [] then [s.toHost[0]] else []
  }

  function HeardByClient(s: State, a: Action): seq<Event> {
    if a.ClientStep? && (s.client.AwaitAssignment? || s.client.AwaitResult?) && s.toClient != [] then [s.toClient[0]]
    else []
  }

  /** What the host hears from step `k` of a run on. */
  function HostHearsFrom(run: seq<State>, actions: seq<Action>, k: nat): seq<Event>
    requires k <= |actions| < |run|
    decreases |actions| - k
  {
    if k == |actions| then [] else HeardByHost(run[k], actions[k]) + HostHearsFrom(run, actions, k + 1)
  }

  /** What the client hears from step `k` of a run on. */
  function ClientHearsFrom(run: seq<State>, actions: seq<Action>, k: nat): seq<Event>
    requires k <= |actions| < |run|
    decreases |actions| - k
  {
    if k == |actions| then [] else HeardByClient(run[k], actions[k]) + ClientHearsFrom(run, actions, k + 1)
  }

  // The host

  /** Writes the host still makes before its teardown. */
  function HostSends(p: HostPhase): nat {
    match p
    case AwaitRequest | Attesting | Assigning(_) => 2
    case AwaitMatch | Matching(_) | Answering(_) => 1
    case _ => 0
  }

  /** How the session ends from a phase on, given the rest of its wire. */
  function HostEnds(p: HostPhase, w: Wire, e: H.Enclave, idle: nat): Option<ApiError> {
    match p
    case AwaitRequest => H.Serve(w, e, idle).1
    case Attesting => H.Assign(w, e, idle).1
    case Assigning(a) => H.Deliver(w, e, idle, a).1
    case AwaitMatch => H.AwaitMatch(w, e, idle).1
    case Matching(body) => H.Relay(w, e, idle, body).1
    case Answering(_) => None
    case Failing(error) => Some(error)
    case HostClosing(failure) => failure
    case HostDone(failure) => failure
  }

  /** What one step of the host does to its wire. */
  function HostWire(p: HostPhase, w: Wire, e: H.Enclave, idle: nat): Wire {
    match p
    case AwaitRequest | AwaitMatch => Receive(w, w.now + idle).0
    case Attesting => w.(now := w.now + H.Call(e.attestation, H.CONTROL_REQUEST_TIMEOUT).0)
    case Assigning(a) => Send(w, TextFrame(AssignmentText(a)), w.now + idle).0
    case Matching(body) => w.(now := w.now + H.RunMatch(e, body).0, log := w.log + [Called(body)])
    case Answering(c) => Send(w, Binary(c), w.now + idle).0
    case _ => w
  }

  lemma HostHearingAgrees(s: State, i: Inputs, w: Wire, events: seq<Event>, idle: nat)
    requires (s.host.AwaitRequest? || s.host.AwaitMatch?) && s.toHost != []
    requires Ready(w, events, HostSends(s.host)) && events != [] && events[0] == s.toHost[0]
    ensures var s', w' := HostHears(s), HostWire(s.host, w, i.e, idle);
      Ready(w', events[1..], HostSends(s'.host)) && HostEnds(s'.host, w', i.e, idle) == HostEnds(s.host, w, i.e, idle)
  {}

  lemma HostActingAgrees(s: State, i: Inputs, w: Wire, events: seq<Event>, idle: nat)
    requires !s.host.AwaitRequest? && !s.host.AwaitMatch? && Ready(w, events, HostSends(s.host))
    ensures var s', w' := HostActs(s, i), HostWire(s.host, w, i.e, idle);
      Ready(w', events, HostSends(s'.host)) && HostEnds(s'.host, w', i.e, idle) == HostEnds(s.host, w, i.e, idle)
  {}

  // The client

  function ClientSends(p: ClientPhase): nat {
    match p
    case Requesting => 2
    case AwaitAssignment | Sealing(_) | Sending(_, _) => 1
    case _ => 0
  }

  /** How the session ends from a phase on, given the rest of its wire. */
  function ClientEnds(p: ClientPhase, w: Wire, i: Inputs, timeout: nat): ClientResult {
    match p
    case Requesting => C.Run(w, i.verify, i.r, timeout).1
    case AwaitAssignment =>
      var (w', heard) := Listen(w, w.now + timeout, C.ForAssignment(i.verify));
      if heard.None? then Err(C.TimedOut)
      else if heard.value.Err? then Err(heard.value.error)
      else C.Matched(w', heard.value.value, i.r, timeout).1
    case Sealing(v) => C.Matched(w, v, i.r, timeout).1
    case Sending(v, body) => C.Exchange(w, Binary(body), timeout, C.ForResult(i.r, v.key)).1
    case AwaitResult(v) =>
      var heard := Listen(w, w.now + timeout, C.ForResult(i.r, v.key)).1;
      if heard.None? then Err(C.TimedOut) else heard.value
    case ClientClosing(result) => result
    case ClientDone(result) => result
  }

  /** What one step of the client does to its wire. */
  function ClientWire(p: ClientPhase, w: Wire, timeout: nat): Wire {
    match p
    case Requesting => Send(w, TextFrame(REQUEST_TEXT), w.now + timeout).0
    case Sending(_, body) => Send(w, Binary(body), w.now + timeout).0
    case AwaitAssignment | AwaitResult(_) => Receive(w, w.now + timeout).0
    case _ => w
  }

  lemma ClientHearingAgrees(s: State, i: Inputs, w: Wire, events: seq<Event>, timeout: nat)
    requires (s.client.AwaitAssignment? || s.client.AwaitResult?) && s.toClient != []
    requires Ready(w, events, ClientSends(s.client)) && events != [] && events[0] == s.toClient[0]
    ensures var s', w' := ClientHears(s, i), ClientWire(s.client, w, timeout);
      && Ready(w', events[1..], ClientSends(s'.client))
      && ClientEnds(s'.client, w', i, timeout) == ClientEnds(s.client, w, i, timeout)
  {}

  lemma ClientActingAgrees(s: State, i: Inputs, w: Wire, events: seq<Event>, timeout: nat)
    requires !s.client.AwaitAssignment? && !s.client.AwaitResult? && Ready(w, events, ClientSends(s.client))
    ensures var s', w' := ClientActs(s, i), ClientWire(s.client, w, timeout);
      && Ready(w', events, ClientSends(s'.client))
      && ClientEnds(s'.client, w', i, timeout) == ClientEnds(s.client, w, i, timeout)
  {}

  // One step of a joint run

  /** How the host's session ends from `s` on, once it hears `rest`: as the whole session does. */
  predicate HostOnTrack(s: State, w: Wire, rest: seq<Event>, i: Inputs, idle: nat, ends: Option<ApiError>) {
    Ready(w, rest, HostSends(s.host)) && HostEnds(s.host, w, i.e, idle) == ends
  }

  predicate ClientOnTrack(s: State, w: Wire, rest: seq<Event>, i: Inputs, timeout: nat, ends: ClientResult) {
    Ready(w, rest, ClientSends(s.client)) && ClientEnds(s.client, w, i, timeout) == ends
  }

  lemma HostStaysOnTrack(s: State, a: Action, i: Inputs, w: Wire, rest: seq<Event>, idle: nat, ends: Option<ApiError>)
    requires Enabled(s, a) && HostOnTrack(s, w, HeardByHost(s, a) + rest, i, idle, ends)
    ensures HostOnTrack(Apply(s, a, i), if a.HostStep? then HostWire(s.host, w, i.e, idle) else w, rest, i, idle, ends)
  {
    if HeardByHost(s, a) != [] {
      assert (HeardByHost(s, a) + rest)[1..] == rest;
      HostHearingAgrees(s, i, w, HeardByHost(s, a) + rest, idle);
    } else {
      assert [] + rest == rest;
      if a.HostStep? { HostActingAgrees(s, i, w, rest, idle); }
    }
  }

  lemma ClientStaysOnTrack(s: State, a: Action, i: Inputs, w: Wire, rest: seq<Event>, timeout: nat, ends: ClientResult)
    requires Enabled(s, a) && ClientOnTrack(s, w, HeardByClient(s, a) + rest, i, timeout, ends)
    ensures ClientOnTrack(Apply(s, a, i), if a.ClientStep? then ClientWire(s.client, w, timeout) else w,
                          rest, i, timeout, ends)
  {
    if HeardByClient(s, a) != [] {
      assert (HeardByClient(s, a) + rest)[1..] == rest;
      ClientHearingAgrees(s, i, w, HeardByClient(s, a) + rest, timeout);
    } else {
      assert [] + rest == rest;
      if a.ClientStep? { ClientActingAgrees(s, i, w, rest, timeout); }
    }
  }

  // Whole runs

  lemma {:induction false} RunStaysOnTrack(run: seq<State>, actions: seq<Action>, i: Inputs, idle: nat, timeout: nat, k: nat)
    requires IsRun(run, actions, i) && k <= |actions|
    ensures exists w :: HostOnTrack(run[k], w, HostHearsFrom(run, actions, k), i, idle,
                                    H.Run(WireOf(HostHearsFrom(run, actions, 0)), i.e, idle).1)
    ensures exists w :: ClientOnTrack(run[k], w, ClientHearsFrom(run, actions, k), i, timeout,
                                      C.Run(WireOf(ClientHearsFrom(run, actions, 0)), i.verify, i.r, timeout).1)
  {
    var hostEnds := H.Run(WireOf(HostHearsFrom(run, actions, 0)), i.e, idle).1;
    var clientEnds := C.Run(WireOf(ClientHearsFrom(run, actions, 0)), i.verify, i.r, timeout).1;
    if k == 0 {
      StartsOnTrack(i, HostHearsFrom(run, actions, 0), ClientHearsFrom(run, actions, 0), idle, timeout);
    } else {
      var n := k - 1;
      RunStaysOnTrack(run, actions, i, idle, timeout, n);
      var h :| HostOnTrack(run[n], h, HostHearsFrom(run, actions, n), i, idle, hostEnds);
      var c :| ClientOnTrack(run[n], c, ClientHearsFrom(run, actions, n), i, timeout, clientEnds);
      assert Enabled(run[n], actions[n]) && run[n + 1] == Apply(run[n], actions[n], i);
      HostStaysOnTrack(run[n], actions[n], i, h, HostHearsFrom(run, actions, k), idle, hostEnds);
      ClientStaysOnTrack(run[n], actions[n], i, c, ClientHearsFrom(run, actions, k), timeout, clientEnds);
    }
  }

  lemma StartsOnTrack(i: Inputs, h: seq<Event>, c: seq<Event>, idle: nat, timeout: nat)
    ensures HostOnTrack(INITIAL, WireOf(h), h, i, idle, H.Run(WireOf(h), i.e, idle).1)
    ensures ClientOnTrack(INITIAL, WireOf(c), c, i, timeout, C.Run(WireOf(c), i.verify, i.r, timeout).1)
  {}

  /** Each half that is done in a joint run ended exactly as its own session ends on the wire that
      delivers what it heard in that run, whatever its idle time or timeout. */
  lemma JointRunIsTwoSessions(run: seq<State>, actions: seq<Action>, i: Inputs, idle: nat, timeout: nat)
    requires IsRun(run, actions, i)
    ensures var s := run[|actions|];
      && (s.host.HostDone? ==> s.host.failure == H.Run(WireOf(HostHearsFrom(run, actions, 0)), i.e, idle).1)
      && (s.client.ClientDone? ==>
            s.client.result == C.Run(WireOf(ClientHearsFrom(run, actions, 0)), i.verify, i.r, timeout).1)
  {
    RunStaysOnTrack(run, actions, i, idle, timeout, |actions|);
  }
}
