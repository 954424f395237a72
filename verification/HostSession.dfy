/** The host's half of a `/v1/matches` session: ordered phases, each under its own absolute deadline. */
module HostSession {
  import opened Bytes
  import opened SealedTypes
  import opened Wrappers
  import opened ResponseSlots
  import opened Sockets

  const CONTROL_REQUEST_TIMEOUT: nat := 2_000_000_000
  const MATCH_GRACE: nat := 5_000_000_000

  // The enclave connection

  /** An answer that is there `after` some time, or a failure of the call. */
  datatype Answer<+T> = Answer(after: nat, result: Result<T, CallError>)

  datatype KeyAttestation = KeyAttestation(assignment: Assignment, maxResponseSlotMillis: Option<nat>)

  /** What this session's three enclave calls come to. */
  datatype Enclave = Enclave(
    attestation: Answer<KeyAttestation>, metadata: Answer<KeyAttestation>, matching: seq<byte> -> Answer<seq<byte>>)

  /** `timeout(limit, call)`: the time it takes and what it gives. */
  function Call<T>(a: Answer<T>, limit: nat): (nat, Result<T, CallError>) {
    if a.after <= limit then (a.after, a.result) else (limit, Err(CallTimeout))
  }

  /** `run_match`: reads the latest response slot first, and waits that long and a grace period. */
  function RunMatch(e: Enclave, body: seq<byte>): (nat, Result<seq<byte>, CallError>) {
    var (asked, metadata) := Call(e.metadata, CONTROL_REQUEST_TIMEOUT);
    match metadata
    case Err(error) => (asked, Err(error))
    case Ok(m) =>
      match m.maxResponseSlotMillis
      case None => (asked, Err(Refused(NotReady)))
      case Some(slot) =>
        var (ran, response) := Call(e.matching(body), slot * NANOS_PER_MILLI + MATCH_GRACE);
        (asked + ran, response)
  }

  // Reactions to one event; None is to keep waiting

  type Heard<+T> = Result<Option<T>, ApiError>

  function OnFirst(e: Event): Option<Heard<()>> {
    match e
    case TooLong => Some(Err(OversizedRequest))
    case Broken | Ended | Frame(Close) => Some(Ok(None))
    case Frame(Ping) | Frame(Pong) => None
    case Frame(TextFrame(text)) => Some(if text.isRequest then Ok(Some(())) else Err(InvalidMessage))
    case Frame(Binary(_)) => Some(Err(UnexpectedFrame))
  }

  function OnMatch(e: Event): Option<Heard<seq<byte>>> {
    match e
    case TooLong => Some(Err(OversizedRequest))
    case Broken | Ended | Frame(Close) => Some(Ok(None))
    case Frame(Ping) | Frame(Pong) => None
    case Frame(TextFrame(_)) => Some(Err(UnexpectedFrame))
    case Frame(Binary(data)) =>
      Some(if data == [] then Err(EmptyRequest)
           else if |data| > MAX_MATCH_BODY_BYTES then Err(OversizedRequest)
           else Ok(Some(data)))
  }

  /** What a wait for one frame comes to. */
  function Await<T>(w: Wire, idle: nat, react: Event -> Option<Heard<T>>): (Wire, Heard<T>) {
    var (w', heard) := Listen(w, w.now + idle, react);
    (w', if heard.None? then Err(IdleTimeout) else heard.value)
  }

  // The session on values: what it leaves on the wire, and the failure it ends with

  function Serve(w: Wire, e: Enclave, idle: nat): (Wire, Option<ApiError>) {
    var (w1, first) := Await(w, idle, OnFirst);
    match first
    case Err(error) => (w1, Some(error))
    case Ok(None) => (w1, None)
    case Ok(Some(_)) => Assign(w1, e, idle)
  }

  function Assign(w: Wire, e: Enclave, idle: nat): (Wire, Option<ApiError>) {
    var (asked, attested) := Call(e.attestation, CONTROL_REQUEST_TIMEOUT);
    var w1 := w.(now := w.now + asked);
    match attested
    case Err(error) => (w1, Some(AssignmentFailed(error)))
    case Ok(key) => Deliver(w1, e, idle, key.assignment)
  }

  function Deliver(w: Wire, e: Enclave, idle: nat, a: Assignment): (Wire, Option<ApiError>) {
    var (w1, sent) := Send(w, TextFrame(AssignmentText(a)), w.now + idle);
    if sent == Sent then AwaitMatch(w1, e, idle) else (w1, Some(ClientDisconnected))
  }

  function AwaitMatch(w: Wire, e: Enclave, idle: nat): (Wire, Option<ApiError>) {
    var (w1, frame) := Await(w, idle, OnMatch);
    match frame
    case Err(error) => (w1, Some(error))
    case Ok(None) => (w1, None)
    case Ok(Some(body)) => Relay(w1, e, idle, body)
  }

  function Relay(w: Wire, e: Enclave, idle: nat, body: seq<byte>): (Wire, Option<ApiError>) {
    var (ran, response) := RunMatch(e, body);
    var w1 := w.(now := w.now + ran, log := w.log + [Called(body)]);
    match response
    case Err(error) => (w1, Some(MatchFailed(error)))
    case Ok(ciphertext) =>
      if |ciphertext| > MAX_MATCH_RESPONSE_BYTES then (w1, Some(InternalError))
      else
        var (w2, sent) := Send(w1, Binary(ciphertext), w1.now + idle);
        (w2, if sent == Sent then None else Some(ClientDisconnected))
  }

  /** One deadline for the whole teardown. */
  function Teardown(w: Wire, failure: Option<ApiError>, deadline: Instant): Wire {
    var w1 := if failure.Some? then Send(w, TextFrame(EnvelopeText(failure.value)), deadline).0 else w;
    Send(w1, Close, deadline).0
  }

  /** What follows once serving came to `served`. */
  function End(served: (Wire, Option<ApiError>), idle: nat): (Wire, Option<ApiError>) {
    (Teardown(served.0, served.1, served.0.now + idle), served.1)
  }

  function Run(w: Wire, e: Enclave, idle: nat): (Wire, Option<ApiError>) {
    End(Serve(w, e, idle), idle)
  }

  // The session on a socket

  method NextClientMessage(socket: Socket, idle: nat) returns (r: Heard<()>)
    modifies socket
    ensures (socket.State(), r) == Await(old(socket.State()), idle, OnFirst)
  {
    var deadline := socket.now + idle;
    while true
      invariant Listen(socket.State(), deadline, OnFirst) == Listen(old(socket.State()), deadline, OnFirst)
      decreases |socket.inbound|
    {
      var event := socket.ReceiveBy(deadline);
      match event {
        case None => return Err(IdleTimeout);
        case Some(TooLong) => return Err(OversizedRequest);
        case Some(Broken) | Some(Ended) | Some(Frame(Close)) => return Ok(None);
        case Some(Frame(Ping)) | Some(Frame(Pong)) =>
        case Some(Frame(TextFrame(text))) =>
          if !text.isRequest { return Err(InvalidMessage); }
          return Ok(Some(()));
        case Some(Frame(Binary(_))) => return Err(UnexpectedFrame);
      }
    }
  }

  method NextMatchFrame(socket: Socket, idle: nat) returns (r: Heard<seq<byte>>)
    modifies socket
    ensures (socket.State(), r) == Await(old(socket.State()), idle, OnMatch)
  {
    var deadline := socket.now + idle;
    while true
      invariant Listen(socket.State(), deadline, OnMatch) == Listen(old(socket.State()), deadline, OnMatch)
      decreases |socket.inbound|
    {
      var event := socket.ReceiveBy(deadline);
      match event {
        case None => return Err(IdleTimeout);
        case Some(TooLong) => return Err(OversizedRequest);
        case Some(Broken) | Some(Ended) | Some(Frame(Close)) => return Ok(None);
        case Some(Frame(Ping)) | Some(Frame(Pong)) =>
        case Some(Frame(TextFrame(_))) => return Err(UnexpectedFrame);
        case Some(Frame(Binary(data))) =>
          if data == [] { return Err(EmptyRequest); }
          if |data| > MAX_MATCH_BODY_BYTES { return Err(OversizedRequest); }
          return Ok(Some(data));
      }
    }
  }

  method ServeSocket(socket: Socket, e: Enclave, idle: nat) returns (failure: Option<ApiError>)
    modifies socket
    ensures (socket.State(), failure) == Serve(old(socket.State()), e, idle)
  {
    var first := NextClientMessage(socket, idle);
    if first.Err? { return Some(first.error); }
    if first.value.None? { return None; }

    var (asked, attested) := Call(e.attestation, CONTROL_REQUEST_TIMEOUT);
    socket.Pass(asked);
    if attested.Err? { return Some(AssignmentFailed(attested.error)); }
    var assignment := AssignmentText(attested.value.assignment);
    var sent := socket.SendBy(TextFrame(assignment), socket.now + idle);
    if sent != Sent { return Some(ClientDisconnected); }

    var frame := NextMatchFrame(socket, idle);
    if frame.Err? { return Some(frame.error); }
    if frame.value.None? { return None; }
    failure := RelaySocket(socket, e, idle, frame.value.value);
  }

  method RelaySocket(socket: Socket, e: Enclave, idle: nat, body: seq<byte>) returns (failure: Option<ApiError>)
    modifies socket
    ensures (socket.State(), failure) == Relay(old(socket.State()), e, idle, body)
  {
    var (ran, response) := RunMatch(e, body);
    socket.Pass(ran);
    socket.RecordCall(body);
    if response.Err? { return Some(MatchFailed(response.error)); }
    if |response.value| > MAX_MATCH_RESPONSE_BYTES { return Some(InternalError); }
    var sent := socket.SendBy(Binary(response.value), socket.now + idle);
    failure := if sent == Sent then None else Some(ClientDisconnected);
  }

  method Session(socket: Socket, e: Enclave, idle: nat) returns (failure: Option<ApiError>)
    modifies socket
    ensures (socket.State(), failure) == Run(old(socket.State()), e, idle)
  {
    failure := ServeSocket(socket, e, idle);
    var deadline := socket.now + idle;
    if failure.Some? {
      var _ := socket.SendBy(TextFrame(EnvelopeText(failure.value)), deadline);
    }
    var _ := socket.SendBy(Close, deadline);
  }

  // What a session may put on the wire

  /** The called body is one of the frames that arrived. */
  ghost predicate Arrived(inbound: seq<Arrival>, body: seq<byte>) {
    exists a :: a in inbound && a.event == Frame(Binary(body))
  }

  /** A prefix of assignment, match call, result, in which each step needs the one before to have succeeded. */
  ghost predicate Phases(t: seq<Entry>, e: Enclave, inbound: seq<Arrival>) {
    && |t| <= 3
    && (|t| > 0 ==> e.attestation.result.Ok? && t[0].Handed?
                    && t[0].message == TextFrame(AssignmentText(e.attestation.result.value.assignment)))
    && (|t| > 1 ==> t[0].done && t[1].Called? && Relayable(t[1].body) && Arrived(inbound, t[1].body))
    && (|t| > 2 ==> var answer := e.matching(t[1].body).result;
          answer.Ok? && t[2].Handed? && t[2].message == Binary(answer.value)
          && |answer.value| <= MAX_MATCH_RESPONSE_BYTES)
  }

  predicate Relayable(body: seq<byte>) { 0 < |body| <= MAX_MATCH_BODY_BYTES }

  /** The phases, then at most one error envelope, then a close. */
  ghost predicate SessionLog(t: seq<Entry>, e: Enclave, inbound: seq<Arrival>, failure: Option<ApiError>) {
    var tail := if failure.Some? then 2 else 1;
    && |t| >= tail && t[|t| - 1].Handed? && t[|t| - 1].message == Close
    && (failure.Some? ==> t[|t| - 2].Handed? && t[|t| - 2].message == TextFrame(EnvelopeText(failure.value)))
    && Phases(t[..|t| - tail], e, inbound)
    && (failure.None? && |t| > 1 ==> t[|t| - 2].Handed? && t[|t| - 2].done)
  }

  /** What happened between two states of the wire. */
  function Added(before: Wire, after: Wire): seq<Entry> {
    if |before.log| <= |after.log| then after.log[|before.log|..] else []
  }

  /** How long the latest response slot lets the match call wait. */
  function LatestSlotTime(e: Enclave): nat {
    match e.metadata.result
    case Ok(m) => if m.maxResponseSlotMillis.Some? then m.maxResponseSlotMillis.value * NANOS_PER_MILLI else 0
    case Err(_) => 0
  }

  lemma AwaitFacts<T>(w: Wire, idle: nat, react: Event -> Option<Heard<T>>)
    ensures var (w', _) := Await(w, idle, react);
            w.now <= w'.now <= w.now + idle && w'.log == w.log && w'.writes == w.writes
  {
    ListenEndsByDeadline(w, w.now + idle, react);
  }

  lemma {:induction false} ListenConsumes<R>(w: Wire, deadline: Instant, react: Event -> Option<R>)
    ensures forall a :: a in Listen(w, deadline, react).0.inbound ==> a in w.inbound
    decreases |w.inbound|
  {
    var (w1, event) := Receive(w, deadline);
    if event.Some? && react(event.value).None? { ListenConsumes(w1, deadline, react); }
  }

  lemma {:induction false} BodyArrived(w: Wire, deadline: Instant)
    ensures var heard := Listen(w, deadline, OnMatch).1;
            heard.Some? && heard.value.Ok? && heard.value.value.Some? ==>
              Arrived(w.inbound, heard.value.value.value) && Relayable(heard.value.value.value)
    decreases |w.inbound|
  {
    var (w1, event) := Receive(w, deadline);
    if event.Some? {
      assert w.inbound[0] in w.inbound;
      if OnMatch(event.value).None? { BodyArrived(w1, deadline); }
    }
  }

  lemma RunMatchFacts(e: Enclave, body: seq<byte>)
    ensures RunMatch(e, body).0 <= CONTROL_REQUEST_TIMEOUT + LatestSlotTime(e) + MATCH_GRACE
    ensures RunMatch(e, body).1.Ok? ==> e.matching(body).result == RunMatch(e, body).1
  {}

  /** The match call waits for the enclave's answer until five seconds after the latest slot, no shorter
      and no longer, and gives that answer; without slots it is refused, and without metadata in two
      seconds it is never made. */
  lemma RunMatchWaits(e: Enclave, body: seq<byte>)
    ensures var (took, response), metadata, answer := RunMatch(e, body), e.metadata, e.matching(body);
      if metadata.after > 2_000 * NANOS_PER_MILLI then took == 2_000 * NANOS_PER_MILLI && response == Err(CallTimeout)
      else if metadata.result.Err? then took == metadata.after && response == Err(metadata.result.error)
      else if metadata.result.value.maxResponseSlotMillis.None? then
        took == metadata.after && response == Err(Refused(NotReady))
      else
        var wait := (metadata.result.value.maxResponseSlotMillis.value + 5_000) * NANOS_PER_MILLI;
        if answer.after <= wait then took == metadata.after + answer.after && response == answer.result
        else took == metadata.after + wait && response == Err(CallTimeout)
  {}

  /** One match call, and its result handed over unless the call failed. */
  predicate Relayed(before: Wire, after: Wire, e: Enclave, body: seq<byte>, failure: Option<ApiError>) {
    var answer := e.matching(body).result;
    if after.log == before.log + [Called(body)] then failure.Some?
    else answer.Ok? && |answer.value| <= MAX_MATCH_RESPONSE_BYTES
         && after.log == before.log + [Called(body), Handed(Binary(answer.value), failure.None?)]
  }

  lemma RelayFacts(w: Wire, e: Enclave, idle: nat, body: seq<byte>)
    ensures var (w', failure) := Relay(w, e, idle, body);
      && w.now <= w'.now <= w.now + CONTROL_REQUEST_TIMEOUT + LatestSlotTime(e) + MATCH_GRACE + idle
      && Relayed(w, w', e, body, failure)
  {}

  lemma AwaitMatchFacts(w: Wire, e: Enclave, idle: nat)
    ensures var (w', failure) := AwaitMatch(w, e, idle);
      && w.now <= w'.now <= w.now + CONTROL_REQUEST_TIMEOUT + LatestSlotTime(e) + MATCH_GRACE + 2 * idle
      && (w'.log == w.log
          || exists body :: Relayable(body) && Arrived(w.inbound, body) && Relayed(w, w', e, body, failure))
  {
    var (w1, frame) := Await(w, idle, OnMatch);
    AwaitFacts(w, idle, OnMatch);
    BodyArrived(w, w.now + idle);
    if frame.Ok? && frame.value.Some? {
      RelayFacts(w1, e, idle, frame.value.value);
      assert Relayed(w, AwaitMatch(w, e, idle).0, e, frame.value.value, AwaitMatch(w, e, idle).1);
    }
  }

  /** What a served session adds to the log, and how it ended. */
  ghost predicate Served(before: Wire, after: Wire, e: Enclave, failure: Option<ApiError>) {
    && before.log <= after.log
    && Phases(Added(before, after), e, before.inbound)
    && (failure.None? && Added(before, after) != [] ==>
          var last := Added(before, after)[|Added(before, after)| - 1]; last.Handed? && last.done)
  }

  lemma AssignFacts(w: Wire, e: Enclave, idle: nat)
    ensures var (w', failure) := Assign(w, e, idle);
      && w.now <= w'.now <= w.now + 2 * CONTROL_REQUEST_TIMEOUT + LatestSlotTime(e) + MATCH_GRACE + 3 * idle
      && Served(w, w', e, failure)
  {
    var (asked, attested) := Call(e.attestation, CONTROL_REQUEST_TIMEOUT);
    if attested.Ok? {
      var w1 := w.(now := w.now + asked);
      var m := TextFrame(AssignmentText(attested.value.assignment));
      SendEndsByDeadline(w1, m, w1.now + idle);
      AwaitMatchFacts(Send(w1, m, w1.now + idle).0, e, idle);
    }
  }

  lemma ServeFacts(w: Wire, e: Enclave, idle: nat)
    ensures var (w', failure) := Serve(w, e, idle);
      && w.now <= w'.now <= w.now + 2 * CONTROL_REQUEST_TIMEOUT + LatestSlotTime(e) + MATCH_GRACE + 4 * idle
      && Served(w, w', e, failure)
  {
    var (w1, first) := Await(w, idle, OnFirst);
    AwaitFacts(w, idle, OnFirst);
    if first.Ok? && first.value.Some? {
      AssignFacts(w1, e, idle);
      ListenConsumes(w, w.now + idle, OnFirst);
      var w2 := Assign(w1, e, idle).0;
      assert Added(w, w2) == Added(w1, w2);
    }
  }

  /** For every input and every timing the host sends a prefix of assignment and sealed result, then
      at most one error envelope, then a close; it makes at most one match call, after a sent
      assignment, with a nonempty frame within the limit that arrived on this socket. */
  lemma HostLanguage(w: Wire, e: Enclave, idle: nat)
    ensures var (w', failure) := Run(w, e, idle); w.log <= w'.log && SessionLog(Added(w, w'), e, w.inbound, failure)
  {
    ServeFacts(w, e, idle);
    EndLanguage(w, Serve(w, e, idle), e, idle);
  }

  lemma EndLanguage(w: Wire, served: (Wire, Option<ApiError>), e: Enclave, idle: nat)
    requires Served(w, served.0, e, served.1)
    ensures var (w', failure) := End(served, idle); w.log <= w'.log && SessionLog(Added(w, w'), e, w.inbound, failure)
  {
    var sent, closed := TeardownLog(served.0, served.1, served.0.now + idle);
    FarewellLanguage(w, served.0, End(served, idle).0, e, served.1, Farewell(served.1, sent, closed));
  }

  /** The error envelope, if there is a failure, and the close. */
  function Farewell(failure: Option<ApiError>, sent: bool, closed: bool): seq<Entry> {
    (if failure.Some? then [Handed(TextFrame(EnvelopeText(failure.value)), sent)] else []) + [Handed(Close, closed)]
  }

  lemma TeardownLog(w: Wire, failure: Option<ApiError>, deadline: Instant) returns (sent: bool, closed: bool)
    ensures Teardown(w, failure, deadline).log == w.log + Farewell(failure, sent, closed)
  {
    var log := Teardown(w, failure, deadline).log;
    sent := log[|w.log|].Handed? && log[|w.log|].done;
    closed := log[|log| - 1].Handed? && log[|log| - 1].done;
  }

  lemma FarewellLanguage(w: Wire, served: Wire, ended: Wire, e: Enclave, failure: Option<ApiError>, farewell: seq<Entry>)
    requires Served(w, served, e, failure) && ended.log == served.log + farewell
    requires exists sent, closed :: farewell == Farewell(failure, sent, closed)
    ensures w.log <= ended.log && SessionLog(Added(w, ended), e, w.inbound, failure)
  {
    var t := Added(w, served);
    assert Added(w, ended) == t + farewell;
    assert (t + farewell)[..|t|] == t;
  }

  lemma EndTime(served: (Wire, Option<ApiError>), idle: nat)
    ensures served.0.now <= End(served, idle).0.now <= served.0.now + idle
  {}

  /** The connection permit is held for at most five idle timeouts, nine seconds and the latest slot. */
  lemma PermitIsBounded(w: Wire, e: Enclave, idle: nat)
    ensures w.now <= Run(w, e, idle).0.now <= w.now + 5 * idle + 9_000_000_000 + LatestSlotTime(e)
  {
    ServeFacts(w, e, idle);
    EndTime(Serve(w, e, idle), idle);
  }

  // Pings change nothing

  lemma AwaitQuiet<T>(w: Wire, idle: nat, react: Event -> Option<Heard<T>>)
    requires InOrder(w.inbound) && IgnoresPings(react)
    ensures var (w', heard) := Await(w, idle, react);
            Await(Quiet(w), idle, react) == (Quiet(w'), heard) && InOrder(w'.inbound)
  {
    ListenQuiet(w, w.now + idle, react);
  }

  lemma SendQuiet(w: Wire, m: Message, deadline: Instant)
    ensures Send(Quiet(w), m, deadline) == (Quiet(Send(w, m, deadline).0), Send(w, m, deadline).1)
  {}

  lemma RelayQuiet(w: Wire, e: Enclave, idle: nat, body: seq<byte>)
    ensures Relay(Quiet(w), e, idle, body) == (Quiet(Relay(w, e, idle, body).0), Relay(w, e, idle, body).1)
  {}

  lemma AwaitMatchQuiet(w: Wire, e: Enclave, idle: nat)
    requires InOrder(w.inbound)
    ensures AwaitMatch(Quiet(w), e, idle) == (Quiet(AwaitMatch(w, e, idle).0), AwaitMatch(w, e, idle).1)
  {
    AwaitQuiet(w, idle, OnMatch);
    var (w1, frame) := Await(w, idle, OnMatch);
    if frame.Ok? && frame.value.Some? { RelayQuiet(w1, e, idle, frame.value.value); }
  }

  lemma DeliverQuiet(w: Wire, e: Enclave, idle: nat, a: Assignment)
    requires InOrder(w.inbound)
    ensures Deliver(Quiet(w), e, idle, a) == (Quiet(Deliver(w, e, idle, a).0), Deliver(w, e, idle, a).1)
  {
    var m := TextFrame(AssignmentText(a));
    SendQuiet(w, m, w.now + idle);
    SendEndsByDeadline(w, m, w.now + idle);
    AwaitMatchQuiet(Send(w, m, w.now + idle).0, e, idle);
  }

  lemma AssignQuiet(w: Wire, e: Enclave, idle: nat)
    requires InOrder(w.inbound)
    ensures Assign(Quiet(w), e, idle) == (Quiet(Assign(w, e, idle).0), Assign(w, e, idle).1)
  {
    var (asked, attested) := Call(e.attestation, CONTROL_REQUEST_TIMEOUT);
    if attested.Ok? {
      var w1 := w.(now := w.now + asked);
      assert Quiet(w).(now := w.now + asked) == Quiet(w1);
      DeliverQuiet(w1, e, idle, attested.value.assignment);
    }
  }

  lemma ServeQuiet(w: Wire, e: Enclave, idle: nat)
    requires InOrder(w.inbound)
    ensures Serve(Quiet(w), e, idle) == (Quiet(Serve(w, e, idle).0), Serve(w, e, idle).1)
  {
    AwaitQuiet(w, idle, OnFirst);
    var (w1, first) := Await(w, idle, OnFirst);
    if first.Ok? && first.value.Some? { AssignQuiet(w1, e, idle); }
  }

  lemma TeardownQuiet(w: Wire, failure: Option<ApiError>, deadline: Instant)
    ensures Teardown(Quiet(w), failure, deadline) == Quiet(Teardown(w, failure, deadline))
  {
    if failure.Some? {
      var m := TextFrame(EnvelopeText(failure.value));
      SendQuiet(w, m, deadline);
      SendQuiet(Send(w, m, deadline).0, Close, deadline);
    } else {
      SendQuiet(w, Close, deadline);
    }
  }

  lemma EndQuiet(served: (Wire, Option<ApiError>), quiet: (Wire, Option<ApiError>), idle: nat)
    requires quiet == (Quiet(served.0), served.1)
    ensures End(quiet, idle) == (Quiet(End(served, idle).0), End(served, idle).1)
  {
    var (w, failure) := served;
    assert quiet.0.now == w.now;
    TeardownQuiet(w, failure, w.now + idle);
  }

  /** Pings and pongs change nothing about a whole session: neither what it sends or calls, nor when
      it ends, nor how. */
  lemma SessionIgnoresPings(w: Wire, e: Enclave, idle: nat)
    requires InOrder(w.inbound)
    ensures Run(Quiet(w), e, idle) == (Quiet(Run(w, e, idle).0), Run(w, e, idle).1)
  {
    ServeQuiet(w, e, idle);
    EndQuiet(Serve(w, e, idle), Serve(Quiet(w), e, idle), idle);
  }

  // Exactly what a session comes to, its pings taken out

  /** The next event comes within the idle time. */
  predicate Comes(w: Wire, idle: nat) { w.inbound != [] && w.inbound[0].at <= w.now + idle }

  /** The wire after a wait of up to `idle`. */
  function Awaited(w: Wire, idle: nat): Wire {
    if Comes(w, idle) then w.(now := Max(w.now, w.inbound[0].at), inbound := w.inbound[1..]) else w.(now := w.now + idle)
  }

  /** The first frame decides: what it must be for each outcome of the wait. */
  lemma FirstFrameDecides(w: Wire, idle: nat)
    requires w.inbound != [] ==> !IsPing(w.inbound[0].event)
    ensures var (w', heard) := Await(w, idle, OnFirst);
      && w' == Awaited(w, idle)
      && (heard == Err(IdleTimeout) <==> !Comes(w, idle))
      && (heard == Err(OversizedRequest) <==> Comes(w, idle) && w.inbound[0].event == TooLong)
      && (heard == Err(UnexpectedFrame) <==>
            Comes(w, idle) && w.inbound[0].event.Frame? && w.inbound[0].event.message.Binary?)
      && (heard == Ok(None) <==> Comes(w, idle) && w.inbound[0].event in {Broken, Ended, Frame(Close)})
      && (heard == Ok(Some(())) <==>
            Comes(w, idle) && w.inbound[0].event.Frame? && w.inbound[0].event.message.TextFrame?
            && w.inbound[0].event.message.text.isRequest)
      && (heard == Err(InvalidMessage) <==>
            Comes(w, idle) && w.inbound[0].event.Frame? && w.inbound[0].event.message.TextFrame?
            && !w.inbound[0].event.message.text.isRequest)
  {
    if w.inbound != [] { assert OnFirst(w.inbound[0].event).Some?; }
  }

  lemma MatchFrameDecides(w: Wire, idle: nat, body: seq<byte>)
    requires w.inbound != [] ==> !IsPing(w.inbound[0].event)
    ensures var (w', heard) := Await(w, idle, OnMatch);
      && w' == Awaited(w, idle)
      && (heard == Err(IdleTimeout) <==> !Comes(w, idle))
      && (heard == Err(EmptyRequest) <==> Comes(w, idle) && w.inbound[0].event == Frame(Binary([])))
      && (heard == Err(OversizedRequest) <==>
            Comes(w, idle) && (w.inbound[0].event == TooLong
              || (w.inbound[0].event.Frame? && w.inbound[0].event.message.Binary?
                  && |w.inbound[0].event.message.data| > MAX_MATCH_BODY_BYTES)))
      && (heard == Err(UnexpectedFrame) <==>
            Comes(w, idle) && w.inbound[0].event.Frame? && w.inbound[0].event.message.TextFrame?)
      && (heard == Ok(None) <==> Comes(w, idle) && w.inbound[0].event in {Broken, Ended, Frame(Close)})
      && (heard == Ok(Some(body)) <==>
            Comes(w, idle) && w.inbound[0].event == Frame(Binary(body)) && 0 < |body| <= MAX_MATCH_BODY_BYTES)
  {
    if w.inbound != [] { assert OnMatch(w.inbound[0].event).Some?; }
  }

  /** A write completes within `idle`. */
  predicate Writes(w: Wire, idle: nat) { w.writes != [] && w.writes[0].ok && w.writes[0].takes <= idle }

  /** The wire after such a write. */
  function Written(w: Wire, m: Message): Wire
    requires w.writes != []
  {
    w.(now := w.now + w.writes[0].takes, writes := w.writes[1..], log := w.log + [Handed(m, true)])
  }

  /** The first frame is a request that comes in time, and the enclave's attestation answers it in time. */
  predicate Attests(w: Wire, e: Enclave, idle: nat) {
    && Comes(w, idle) && w.inbound[0].event.Frame? && w.inbound[0].event.message.TextFrame?
    && w.inbound[0].event.message.text.isRequest
    && e.attestation.after <= 2_000 * NANOS_PER_MILLI && e.attestation.result.Ok?
  }

  function AfterAttesting(w: Wire, e: Enclave): Wire
    requires w.inbound != []
  {
    w.(now := Max(w.now, w.inbound[0].at) + e.attestation.after, inbound := w.inbound[1..])
  }

  /** `body` comes in time and within the limit, and the enclave answers it with `c` by the latest slot
      and a grace period. */
  predicate Matches(w: Wire, e: Enclave, idle: nat, body: seq<byte>, c: seq<byte>) {
    && Comes(w, idle) && w.inbound[0].event == Frame(Binary(body)) && 0 < |body| <= MAX_MATCH_BODY_BYTES
    && e.metadata.after <= 2_000 * NANOS_PER_MILLI && e.metadata.result.Ok?
    && e.metadata.result.value.maxResponseSlotMillis.Some?
    && e.matching(body).after <= (e.metadata.result.value.maxResponseSlotMillis.value + 5_000) * NANOS_PER_MILLI
    && e.matching(body).result == Ok(c) && |c| <= MAX_MATCH_RESPONSE_BYTES
  }

  /** The result `c` of the call with `body` was handed over. */
  predicate Result(before: Wire, after: Wire, body: seq<byte>, c: seq<byte>) {
    after.log == before.log + [Called(body), Handed(Binary(c), true)]
  }

  lemma RelayIff(w: Wire, e: Enclave, idle: nat, body: seq<byte>, c: seq<byte>)
    ensures Result(w, Relay(w, e, idle, body).0, body, c) <==>
      && e.metadata.after <= 2_000 * NANOS_PER_MILLI && e.metadata.result.Ok?
      && e.metadata.result.value.maxResponseSlotMillis.Some?
      && e.matching(body).after <= (e.metadata.result.value.maxResponseSlotMillis.value + 5_000) * NANOS_PER_MILLI
      && e.matching(body).result == Ok(c) && |c| <= MAX_MATCH_RESPONSE_BYTES
      && Writes(w, idle)
  {
    RelayFacts(w, e, idle, body);
    RunMatchWaits(e, body);
    var response := RunMatch(e, body).1;
    var tail := [Called(body)] + (if response.Ok? && |response.value| <= MAX_MATCH_RESPONSE_BYTES
                                  then [Handed(Binary(response.value), Writes(w, idle))] else []);
    assert Relay(w, e, idle, body).0.log == w.log + tail;
    assert (w.log + tail)[|w.log|..] == tail;
    if Result(w, Relay(w, e, idle, body).0, body, c) {
      assert (w.log + [Called(body), Handed(Binary(c), true)])[|w.log|..] == [Called(body), Handed(Binary(c), true)];
    }
  }

  lemma AwaitMatchIff(w: Wire, e: Enclave, idle: nat, body: seq<byte>, c: seq<byte>)
    requires w.inbound != [] ==> !IsPing(w.inbound[0].event)
    ensures Result(w, AwaitMatch(w, e, idle).0, body, c) <==> Matches(w, e, idle, body, c) && Writes(w, idle)
  {
    MatchFrameDecides(w, idle, body);
    var (w1, frame) := Await(w, idle, OnMatch);
    if frame.Ok? && frame.value.Some? {
      RelayIff(w1, e, idle, body, c);
      if frame.value.value != body { RelayCalls(w1, e, idle, frame.value.value, body, c); }
    }
  }

  lemma RelayCalls(w: Wire, e: Enclave, idle: nat, called: seq<byte>, body: seq<byte>, c: seq<byte>)
    requires called != body
    ensures !Result(w, Relay(w, e, idle, called).0, body, c)
  {
    RelayFacts(w, e, idle, called);
    assert Relay(w, e, idle, called).0.log[|w.log|] == Called(called);
  }

  /** The assignment and the result `c` of the call with `body` were handed over. */
  predicate Delivered(before: Wire, after: Wire, e: Enclave, body: seq<byte>, c: seq<byte>) {
    && e.attestation.result.Ok?
    && after.log == before.log + [Handed(TextFrame(AssignmentText(e.attestation.result.value.assignment)), true),
                                  Called(body), Handed(Binary(c), true)]
  }

  /** When the result of a match call that began to be awaited at `w` was handed over. */
  function HandedAt(w: Wire, e: Enclave, body: seq<byte>): Instant
    requires w.inbound != [] && w.writes != []
  {
    Max(w.now, w.inbound[0].at) + e.metadata.after + e.matching(body).after + w.writes[0].takes
  }

  lemma AwaitMatchEnds(w: Wire, e: Enclave, idle: nat, body: seq<byte>, c: seq<byte>)
    requires Matches(w, e, idle, body, c) && Writes(w, idle)
    ensures AwaitMatch(w, e, idle).1.None? && AwaitMatch(w, e, idle).0.now == HandedAt(w, e, body)
  {
    RunMatchWaits(e, body);
  }

  lemma DeliverIff(w: Wire, e: Enclave, idle: nat, a: Assignment, body: seq<byte>, c: seq<byte>)
    requires forall x :: x in w.inbound ==> !IsPing(x.event)
    ensures var m := TextFrame(AssignmentText(a));
      Deliver(w, e, idle, a).0.log == w.log + [Handed(m, true), Called(body), Handed(Binary(c), true)]
      <==> Writes(w, idle) && Matches(Written(w, m), e, idle, body, c) && Writes(Written(w, m), idle)
  {
    var m := TextFrame(AssignmentText(a));
    var end := [Called(body), Handed(Binary(c), true)];
    assert w.log + ([Handed(m, true)] + end) == (w.log + [Handed(m, true)]) + end;
    if Writes(w, idle) {
      AwaitMatchIff(Written(w, m), e, idle, body, c);
      assert Deliver(w, e, idle, a).0 == AwaitMatch(Written(w, m), e, idle).0;
    } else {
      DeliveryFails(w, e, idle, a);
    }
  }

  lemma DeliveryFails(w: Wire, e: Enclave, idle: nat, a: Assignment)
    requires !Writes(w, idle)
    ensures |Deliver(w, e, idle, a).0.log| == |w.log| + 1
  {}

  lemma ServeIff(w: Wire, e: Enclave, idle: nat, body: seq<byte>, c: seq<byte>)
    requires forall x :: x in w.inbound ==> !IsPing(x.event)
    ensures Delivered(w, Serve(w, e, idle).0, e, body, c) <==> Succeeds(w, e, idle, body, c)
  {
    FirstFrameDecides(w, idle);
    if Attests(w, e, idle) {
      var w1 := AfterAttesting(w, e);
      DeliverIff(w1, e, idle, e.attestation.result.value.assignment, body, c);
      assert Serve(w, e, idle) == Deliver(w1, e, idle, e.attestation.result.value.assignment);
    } else {
      assert Serve(w, e, idle).0.log == w.log;
    }
  }

  /** Everything comes in time and within its limits: the request, its attestation, the assignment's
      write, the body, the enclave's answer `c` to it, and the answer's write. */
  predicate Succeeds(w: Wire, e: Enclave, idle: nat, body: seq<byte>, c: seq<byte>) {
    && Attests(w, e, idle)
    && Writes(AfterAttesting(w, e), idle)
    && var w1 := Written(AfterAttesting(w, e), TextFrame(AssignmentText(e.attestation.result.value.assignment)));
    Matches(w1, e, idle, body, c) && Writes(w1, idle)
  }

  /** A session hands over the assignment and the enclave's answer `c` to `body` exactly when, its pings
      taken out, everything comes in time and within its limits; it then ends without a failure. */
  lemma HostDeliversIff(w: Wire, e: Enclave, idle: nat, body: seq<byte>, c: seq<byte>)
    requires InOrder(w.inbound)
    ensures Delivered(w, Serve(w, e, idle).0, e, body, c) <==> Succeeds(Quiet(w), e, idle, body, c)
    ensures Succeeds(Quiet(w), e, idle, body, c) ==> Run(w, e, idle).1.None?
  {
    var q := Quiet(w);
    NoPingsLeft(w.inbound);
    ServeQuiet(w, e, idle);
    ServeIff(q, e, idle, body, c);
    if Succeeds(q, e, idle, body, c) { SucceedsEnds(q, e, idle, body, c); }
  }

  lemma SucceedsEnds(w: Wire, e: Enclave, idle: nat, body: seq<byte>, c: seq<byte>)
    requires (forall x :: x in w.inbound ==> !IsPing(x.event)) && Succeeds(w, e, idle, body, c)
    ensures Serve(w, e, idle).1.None?
  {
    var m := TextFrame(AssignmentText(e.attestation.result.value.assignment));
    var w1 := Written(AfterAttesting(w, e), m);
    FirstFrameDecides(w, idle);
    AwaitMatchEnds(w1, e, idle, body, c);
    assert Serve(w, e, idle) == Deliver(AfterAttesting(w, e), e, idle, e.attestation.result.value.assignment);
    assert Deliver(AfterAttesting(w, e), e, idle, e.attestation.result.value.assignment) == AwaitMatch(w1, e, idle);
  }

  /** One idle time for the whole teardown: the envelope and the close are handed over in turn, and the
      close is done exactly when both fit in it. */
  lemma TeardownIff(w: Wire, error: ApiError, idle: nat)
    requires |w.writes| >= 2 && w.writes[0].takes <= idle
    ensures Teardown(w, Some(error), w.now + idle).log
         == w.log + [Handed(TextFrame(EnvelopeText(error)), w.writes[0].ok)]
            + [Handed(Close, w.writes[1].ok && w.writes[0].takes + w.writes[1].takes <= idle)]
    ensures Teardown(w, None, w.now + idle).log == w.log + [Handed(Close, w.writes[0].ok)]
  {}

  /** What a failure means: whose call failed and how, or which frame could not be handed over. */
  ghost predicate Explained(f: ApiError, e: Enclave, added: seq<Entry>) {
    match f
    case AssignmentFailed(cause) =>
      added == [] && if e.attestation.after > 2_000 * NANOS_PER_MILLI then cause == CallTimeout
                     else e.attestation.result == Err(cause)
    case MatchFailed(cause) => |added| == 2 && added[1].Called? && RunMatch(e, added[1].body).1 == Err(cause)
    case InternalError =>
      |added| == 2 && added[1].Called? && e.matching(added[1].body).result.Ok?
      && |e.matching(added[1].body).result.value| > MAX_MATCH_RESPONSE_BYTES
    case ClientDisconnected => added != [] && added[|added| - 1].Handed? && !added[|added| - 1].done
    case _ => |added| <= 1 && (added != [] ==> added[0].Handed? && added[0].done)
  }

  lemma AwaitMatchExplains(w: Wire, e: Enclave, idle: nat, sent: Entry)
    requires sent.Handed? && sent.done
    ensures var (w', failure) := AwaitMatch(w, e, idle);
      w.log <= w'.log && (failure.Some? ==> Explained(failure.value, e, [sent] + w'.log[|w.log|..]))
  {
    var (w1, frame) := Await(w, idle, OnMatch);
    AwaitFacts(w, idle, OnMatch);
    HeardIsNoCallFailure(w, w.now + idle);
    if frame.Ok? && frame.value.Some? { RelayExplains(w1, e, idle, frame.value.value, sent); }
  }

  lemma RelayExplains(w: Wire, e: Enclave, idle: nat, body: seq<byte>, sent: Entry)
    requires sent.Handed? && sent.done
    ensures var (w', failure) := Relay(w, e, idle, body);
      w.log <= w'.log && (failure.Some? ==> Explained(failure.value, e, [sent] + w'.log[|w.log|..]))
  {
    RunMatchFacts(e, body);
    var w' := Relay(w, e, idle, body).0;
    assert w'.log[|w.log|..][0] == Called(body);
  }

  predicate FrameFailure(f: ApiError) {
    !f.AssignmentFailed? && !f.MatchFailed? && f != InternalError && f != ClientDisconnected
  }

  lemma {:induction false} HeardIsNoCallFailure(w: Wire, deadline: Instant)
    ensures var heard := Listen(w, deadline, OnMatch).1;
            heard.Some? && heard.value.Err? ==> FrameFailure(heard.value.error)
    ensures var heard := Listen(w, deadline, OnFirst).1;
            heard.Some? && heard.value.Err? ==> FrameFailure(heard.value.error)
    decreases |w.inbound|
  {
    var (w1, event) := Receive(w, deadline);
    if event.Some? { HeardIsNoCallFailure(w1, deadline); }
  }

  /** Every failure a session ends with is what its error says, over every input and timing. */
  lemma FailureIsExplained(w: Wire, e: Enclave, idle: nat)
    ensures var (w', failure) := Serve(w, e, idle);
            w.log <= w'.log && (failure.Some? ==> Explained(failure.value, e, w'.log[|w.log|..]))
    ensures Run(w, e, idle).1 == Serve(w, e, idle).1
  {
    AwaitFacts(w, idle, OnFirst);
    HeardIsNoCallFailure(w, w.now + idle);
    var (w1, first) := Await(w, idle, OnFirst);
    if first.Ok? && first.value.Some? { AssignExplains(w1, e, idle); }
  }

  lemma AssignExplains(w: Wire, e: Enclave, idle: nat)
    ensures var (w', failure) := Assign(w, e, idle);
            w.log <= w'.log && (failure.Some? ==> Explained(failure.value, e, w'.log[|w.log|..]))
  {
    if Call(e.attestation, CONTROL_REQUEST_TIMEOUT).1.Ok? {
      var w1 := w.(now := w.now + e.attestation.after);
      var m := TextFrame(AssignmentText(e.attestation.result.value.assignment));
      var w2 := Send(w1, m, w1.now + idle).0;
      if Send(w1, m, w1.now + idle).1 == Sent {
        AwaitMatchExplains(w2, e, idle, Handed(m, true));
        var w3 := AwaitMatch(w2, e, idle).0;
        assert w3.log[|w.log|..] == [Handed(m, true)] + w3.log[|w2.log|..];
        assert Assign(w, e, idle) == AwaitMatch(w2, e, idle);
      }
    }
  }
}
