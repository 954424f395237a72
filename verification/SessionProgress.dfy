/** Client and host as one transition system without timeouts: no joint state is stuck, and every run
    ends in the one result the inputs determine. */
module SessionProgress {
  import opened Bytes
  import opened SealedTypes
  import opened Wrappers
  import opened Sockets
  import H = HostSession
  import C = ClientSession

  type ClientResult = Result<seq<byte>, C.ClientError>

  datatype HostPhase =
    | AwaitRequest | Attesting | Assigning(assignment: Assignment) | AwaitMatch
    | Matching(body: seq<byte>) | Answering(ciphertext: seq<byte>)
    | Failing(error: ApiError) | HostClosing(failure: Option<ApiError>) | HostDone(failure: Option<ApiError>)

  datatype ClientPhase =
    | Requesting | AwaitAssignment | Sealing(v: C.Verified) | Sending(v: C.Verified, sealed: seq<byte>)
    | AwaitResult(v: C.Verified) | ClientClosing(result: ClientResult) | ClientDone(result: ClientResult)

  /** `toHost` and `toClient` hold what is on its way, pings included. */
  datatype State = State(host: HostPhase, client: ClientPhase, toHost: seq<Event>, toClient: seq<Event>)

  /** What the enclave, the verifier and the request answer throughout one session. */
  datatype Inputs = Inputs(e: H.Enclave, verify: C.Verifier, r: C.MatchRequest)

  datatype Action = HostStep | ClientStep | PingHost(pong: bool) | PingClient(pong: bool)

  const INITIAL: State := State(AwaitRequest, Requesting, [], [])

  predicate Enabled(s: State, a: Action) {
    match a
    case HostStep =>
      if s.host.AwaitRequest? || s.host.AwaitMatch? then s.toHost != [] else !s.host.HostDone?
    case ClientStep =>
      if s.client.AwaitAssignment? || s.client.AwaitResult? then s.toClient != [] else !s.client.ClientDone?
    case PingHost(_) => !s.client.ClientDone?
    case PingClient(_) => !s.host.HostDone?
  }

  // The host's steps

  function AfterFirst(heard: H.Heard<()>): HostPhase {
    match heard
    case Err(error) => Failing(error)
    case Ok(None) => HostClosing(None)
    case Ok(Some(_)) => Attesting
  }

  function AfterMatch(heard: H.Heard<seq<byte>>): HostPhase {
    match heard
    case Err(error) => Failing(error)
    case Ok(None) => HostClosing(None)
    case Ok(Some(body)) => Matching(body)
  }

  function AfterCall(r: Result<seq<byte>, CallError>): HostPhase {
    match r
    case Err(error) => Failing(MatchFailed(error))
    case Ok(c) => if |c| > MAX_MATCH_RESPONSE_BYTES then Failing(InternalError) else Answering(c)
  }

  function HostHears(s: State): State
    requires s.toHost != []
  {
    var s1 := s.(toHost := s.toHost[1..]);
    if s.host.AwaitRequest? then
      var heard := H.OnFirst(s.toHost[0]);
      if heard.None? then s1 else s1.(host := AfterFirst(heard.value))
    else
      var heard := H.OnMatch(s.toHost[0]);
      if heard.None? then s1 else s1.(host := AfterMatch(heard.value))
  }

  function HostActs(s: State, i: Inputs): State {
    match s.host
    case Attesting =>
      s.(host := match H.Call(i.e.attestation, H.CONTROL_REQUEST_TIMEOUT).1
                 case Err(error) => Failing(AssignmentFailed(error))
                 case Ok(key) => Assigning(key.assignment))
    case Assigning(a) => s.(host := AwaitMatch, toClient := s.toClient + [Frame(TextFrame(AssignmentText(a)))])
    case Matching(body) => s.(host := AfterCall(H.RunMatch(i.e, body).1))
    case Answering(c) => s.(host := HostClosing(None), toClient := s.toClient + [Frame(Binary(c))])
    case Failing(error) =>
      s.(host := HostClosing(Some(error)), toClient := s.toClient + [Frame(TextFrame(EnvelopeText(error)))])
    case HostClosing(failure) => s.(host := HostDone(failure), toClient := s.toClient + [Frame(Close)])
    case _ => s
  }

  // The client's steps

  function ClientHears(s: State, i: Inputs): State
    requires s.toClient != []
  {
    var s1 := s.(toClient := s.toClient[1..]);
    if s.client.AwaitAssignment? then
      match C.OnAssignment(s.toClient[0], i.verify)
      case None => s1
      case Some(Ok(v)) => s1.(client := Sealing(v))
      case Some(Err(error)) => s1.(client := ClientDone(Err(error)), toHost := s.toHost + [Ended]) // socket dropped
    else if s.client.AwaitResult? then
      match C.OnResult(s.toClient[0], i.r, s.client.v.key)
      case None => s1
      case Some(result) => s1.(client := ClientClosing(result))
    else s1
  }

  function ClientActs(s: State, i: Inputs): State {
    match s.client
    case Requesting => s.(client := AwaitAssignment, toHost := s.toHost + [Frame(TextFrame(REQUEST_TEXT))])
    case Sealing(v) =>
      s.(client := match C.Sealed(v, i.r)
                   case Err(error) => ClientClosing(Err(error))
                   case Ok(body) => Sending(v, body))
    case Sending(v, body) => s.(client := AwaitResult(v), toHost := s.toHost + [Frame(Binary(body))])
    case ClientClosing(result) => s.(client := ClientDone(result), toHost := s.toHost + [Frame(Close)])
    case _ => s
  }

  function Apply(s: State, a: Action, i: Inputs): State
    requires Enabled(s, a)
  {
    match a
    case HostStep => if s.host.AwaitRequest? || s.host.AwaitMatch? then HostHears(s) else HostActs(s, i)
    case ClientStep => if s.client.AwaitAssignment? || s.client.AwaitResult? then ClientHears(s, i) else ClientActs(s, i)
    case PingHost(pong) => s.(toHost := s.toHost + [Frame(if pong then Pong else Ping)])
    case PingClient(pong) => s.(toClient := s.toClient + [Frame(if pong then Pong else Ping)])
  }

  // The one result the inputs determine

  function ResultOf(i: Inputs): ClientResult {
    match H.Call(i.e.attestation, H.CONTROL_REQUEST_TIMEOUT).1
    case Err(error) => Err(C.HostReported(AssignmentFailed(error)))
    case Ok(key) =>
      match i.verify(key.assignment)
      case None => Err(C.AssignmentNotVerified)
      case Some(k) => ResultUnder(i, C.Verified(k, key.assignment.releaseHashes))
  }

  function ResultUnder(i: Inputs, v: C.Verified): ClientResult {
    match C.Sealed(v, i.r)
    case Err(error) => Err(error)
    case Ok(body) => ResultOfCall(i, v, H.RunMatch(i.e, body).1)
  }

  function ResultOfCall(i: Inputs, v: C.Verified, response: Result<seq<byte>, CallError>): ClientResult {
    match AfterCall(response)
    case Failing(error) => Err(C.HostReported(error))
    case Answering(c) => ResultOfAnswer(i, v, c)
    case _ => Err(C.TimedOut)
  }

  function ResultOfAnswer(i: Inputs, v: C.Verified, c: seq<byte>): ClientResult {
    var answer := i.r.open(v.key, c);
    if answer.Some? then Ok(answer.value) else Err(C.ResultNotVerified)
  }

  // What is on its way, pings aside

  function Stripped(q: seq<Event>): seq<Event> {
    if q == [] then [] else (if IsPing(q[0]) then [] else [q[0]]) + Stripped(q[1..])
  }

  lemma {:induction false} StrippedAppend(q: seq<Event>, e: Event)
    ensures Stripped(q + [e]) == Stripped(q) + (if IsPing(e) then [] else [e])
  {
    if q == [] {
      assert [e][1..] == [];
    } else {
      StrippedAppend(q[1..], e);
      assert (q + [e])[1..] == q[1..] + [e];
    }
  }

  function Attested(i: Inputs): Result<H.KeyAttestation, CallError> {
    H.Call(i.e.attestation, H.CONTROL_REQUEST_TIMEOUT).1
  }

  /** The host has decided on its last frame, and `said` is what of its ending is still to be heard. */
  predicate SaysLast(host: HostPhase, said: seq<Event>, last: Message) {
    match host
    case Answering(c) => said == [] && last == Binary(c)
    case Failing(error) => said == [] && last == TextFrame(EnvelopeText(error))
    case HostClosing(_) => said == [Frame(last)]
    case HostDone(_) => said == [Frame(last), Frame(Close)]
    case _ => false
  }

  /** The host's last frame for a call that came to `response`. */
  function LastFrame(response: Result<seq<byte>, CallError>): Message {
    match AfterCall(response)
    case Failing(error) => TextFrame(EnvelopeText(error))
    case Answering(c) => Binary(c)
    case _ => Close
  }

  /** The host has nothing more to say, or only its close. */
  predicate Closes(host: HostPhase, said: seq<Event>) {
    (host.HostClosing? && said == []) || (host.HostDone? && said == [Frame(Close)])
  }

  predicate VerifiedAs(i: Inputs, v: C.Verified) {
    var att := Attested(i);
    att.Ok? && i.verify(att.value.assignment) == Some(v.key) && v.releaseHashes == att.value.assignment.releaseHashes
  }

  predicate AwaitingAssignment(host: HostPhase, h: seq<Event>, c: seq<Event>, i: Inputs) {
    var att := Attested(i);
    if host.AwaitRequest? then h == [Frame(TextFrame(REQUEST_TEXT))] && c == []
    else if host.Attesting? then h == [] && c == []
    else if host.Assigning? then h == [] && c == [] && att.Ok? && att.value.assignment == host.assignment
    else if host.AwaitMatch? then h == [] && att.Ok? && c == [Frame(TextFrame(AssignmentText(att.value.assignment)))]
    else h == [] && att.Err? && !host.Answering? && SaysLast(host, c, TextFrame(EnvelopeText(AssignmentFailed(att.error))))
  }

  predicate AwaitingResult(host: HostPhase, h: seq<Event>, c: seq<Event>, i: Inputs, body: seq<byte>) {
    if host.AwaitMatch? then h == [Frame(Binary(body))] && c == []
    else if host.Matching? then h == [] && c == [] && host.body == body
    else h == [] && SaysLast(host, c, LastFrame(H.RunMatch(i.e, body).1))
  }

  /** How the two phases and what is on its way fit together. */
  predicate Fits(host: HostPhase, client: ClientPhase, h: seq<Event>, c: seq<Event>, i: Inputs) {
    match client
    case Requesting => host.AwaitRequest? && h == [] && c == []
    case AwaitAssignment => AwaitingAssignment(host, h, c, i)
    case Sealing(v) => VerifiedAs(i, v) && host.AwaitMatch? && h == [] && c == []
    case Sending(v, body) => VerifiedAs(i, v) && C.Sealed(v, i.r) == Ok(body) && host.AwaitMatch? && h == [] && c == []
    case AwaitResult(v) =>
      VerifiedAs(i, v) && C.Sealed(v, i.r).Ok? && AwaitingResult(host, h, c, i, C.Sealed(v, i.r).value)
    case ClientClosing(result) =>
      result == ResultOf(i) && h == [] && ((host.AwaitMatch? && c == []) || Closes(host, c))
    case ClientDone(result) =>
      result == ResultOf(i)
      && ((host.AwaitMatch? && (h == [Frame(Close)] || h == [Ended])) || host.HostClosing? || host.HostDone?)
  }

  predicate Invariant(s: State, i: Inputs) {
    Fits(s.host, s.client, Stripped(s.toHost), Stripped(s.toClient), i)
  }

  /** Taking a frame off the queue takes it off what is heard, unless it is a ping. */
  lemma Popped(q: seq<Event>)
    requires q != []
    ensures if IsPing(q[0]) then Stripped(q[1..]) == Stripped(q)
            else Stripped(q) != [] && Stripped(q)[0] == q[0] && Stripped(q)[1..] == Stripped(q[1..])
  {}

  lemma MatchHeard(host: HostPhase, client: ClientPhase, h: seq<Event>, c: seq<Event>, i: Inputs)
    requires Fits(host, client, h, c, i) && C.SealsSomething(i.r) && host.AwaitMatch? && h != []
    ensures H.OnMatch(h[0]).Some? && Fits(AfterMatch(H.OnMatch(h[0]).value), client, h[1..], c, i)
  {}

  lemma RequestHeard(client: ClientPhase, h: seq<Event>, c: seq<Event>, i: Inputs)
    requires Fits(AwaitRequest, client, h, c, i) && h != []
    ensures H.OnFirst(h[0]).Some? && Fits(AfterFirst(H.OnFirst(h[0]).value), client, h[1..], c, i)
  {}

  lemma HostHearsRequestKeeps(s: State, i: Inputs)
    requires Invariant(s, i) && s.toHost != [] && s.host.AwaitRequest?
    ensures Invariant(HostHears(s), i)
  {
    Popped(s.toHost);
    if !IsPing(s.toHost[0]) { RequestHeard(s.client, Stripped(s.toHost), Stripped(s.toClient), i); }
  }

  lemma HostHearsMatchKeeps(s: State, i: Inputs)
    requires Invariant(s, i) && C.SealsSomething(i.r) && s.toHost != [] && s.host.AwaitMatch?
    ensures Invariant(HostHears(s), i)
  {
    Popped(s.toHost);
    if !IsPing(s.toHost[0]) { MatchHeard(s.host, s.client, Stripped(s.toHost), Stripped(s.toClient), i); }
  }

  lemma HostSays(s: State, m: Message, host: HostPhase, i: Inputs)
    requires !m.Ping? && !m.Pong? && Fits(host, s.client, Stripped(s.toHost), Stripped(s.toClient) + [Frame(m)], i)
    ensures Invariant(s.(host := host, toClient := s.toClient + [Frame(m)]), i)
  {
    StrippedAppend(s.toClient, Frame(m));
  }

  lemma HostActsKeeps(s: State, i: Inputs)
    requires Invariant(s, i) && !s.host.AwaitRequest? && !s.host.AwaitMatch?
    ensures Invariant(HostActs(s, i), i)
  {
    match s.host
    case Assigning(a) => HostSays(s, TextFrame(AssignmentText(a)), AwaitMatch, i);
    case Answering(c) => HostSays(s, Binary(c), HostClosing(None), i);
    case Failing(error) => HostSays(s, TextFrame(EnvelopeText(error)), HostClosing(Some(error)), i);
    case HostClosing(failure) => HostSays(s, Close, HostDone(failure), i);
    case Matching(body) => CallEnds(i, body);
    case _ =>
  }

  lemma CallEnds(i: Inputs, body: seq<byte>)
    ensures SaysLast(AfterCall(H.RunMatch(i.e, body).1), [], LastFrame(H.RunMatch(i.e, body).1))
  {}

  lemma AssignmentHeard(host: HostPhase, h: seq<Event>, c: seq<Event>, i: Inputs)
    requires AwaitingAssignment(host, h, c, i) && c != []
    ensures match C.OnAssignment(c[0], i.verify)
            case None => false
            case Some(Ok(v)) => Fits(host, Sealing(v), h, c[1..], i)
            case Some(Err(error)) => Fits(host, ClientDone(Err(error)), h + [Ended], c[1..], i)
  {}

  lemma ResultHeard(host: HostPhase, v: C.Verified, h: seq<Event>, c: seq<Event>, i: Inputs)
    requires Fits(host, AwaitResult(v), h, c, i) && c != []
    ensures C.OnResult(c[0], i.r, v.key).Some?
    ensures Fits(host, ClientClosing(C.OnResult(c[0], i.r, v.key).value), h, c[1..], i)
  {}

  lemma VerifiedResult(i: Inputs, v: C.Verified)
    requires VerifiedAs(i, v)
    ensures ResultOf(i) == ResultUnder(i, v)
  {}

  lemma ClientHearsKeeps(s: State, i: Inputs)
    requires Invariant(s, i) && s.toClient != [] && (s.client.AwaitAssignment? || s.client.AwaitResult?)
    ensures Invariant(ClientHears(s, i), i)
  {
    Popped(s.toClient);
    StrippedAppend(s.toHost, Ended);
    if !IsPing(s.toClient[0]) {
      if s.client.AwaitAssignment? {
        AssignmentHeard(s.host, Stripped(s.toHost), Stripped(s.toClient), i);
      } else {
        ResultHeard(s.host, s.client.v, Stripped(s.toHost), Stripped(s.toClient), i);
      }
    }
  }

  lemma ClientSays(s: State, m: Message, client: ClientPhase, i: Inputs)
    requires !m.Ping? && !m.Pong? && Fits(s.host, client, Stripped(s.toHost) + [Frame(m)], Stripped(s.toClient), i)
    ensures Invariant(s.(client := client, toHost := s.toHost + [Frame(m)]), i)
  {
    StrippedAppend(s.toHost, Frame(m));
  }

  lemma ClientActsKeeps(s: State, i: Inputs)
    requires Invariant(s, i) && !s.client.AwaitAssignment? && !s.client.AwaitResult?
    ensures Invariant(ClientActs(s, i), i)
  {
    match s.client
    case Requesting => ClientSays(s, TextFrame(REQUEST_TEXT), AwaitAssignment, i);
    case Sealing(v) => VerifiedResult(i, v);
    case Sending(v, body) => ClientSays(s, Binary(body), AwaitResult(v), i);
    case ClientClosing(result) => ClientSays(s, Close, ClientDone(result), i);
    case _ =>
  }

  lemma StepKeeps(s: State, a: Action, i: Inputs)
    requires Invariant(s, i) && C.SealsSomething(i.r) && Enabled(s, a)
    ensures Invariant(Apply(s, a, i), i)
  {
    match a
    case HostStep =>
      if s.host.AwaitRequest? { HostHearsRequestKeeps(s, i); }
      else if s.host.AwaitMatch? { HostHearsMatchKeeps(s, i); }
      else { HostActsKeeps(s, i); }
    case ClientStep =>
      if s.client.AwaitAssignment? || s.client.AwaitResult? { ClientHearsKeeps(s, i); } else { ClientActsKeeps(s, i); }
    case PingHost(pong) => StrippedAppend(s.toHost, Frame(if pong then Pong else Ping));
    case PingClient(pong) => StrippedAppend(s.toClient, Frame(if pong then Pong else Ping));
  }

  // Whole runs

  ghost predicate IsRun(run: seq<State>, actions: seq<Action>, i: Inputs) {
    && |run| == |actions| + 1 && run[0] == INITIAL
    && forall k :: 0 <= k < |actions| ==> Enabled(run[k], actions[k]) && run[k + 1] == Apply(run[k], actions[k], i)
  }

  lemma {:induction false} RunKeeps(run: seq<State>, actions: seq<Action>, i: Inputs, k: nat)
    requires IsRun(run, actions, i) && C.SealsSomething(i.r) && k < |run|
    ensures Invariant(run[k], i)
  {
    if k > 0 {
      RunKeeps(run, actions, i, k - 1);
      StepKeeps(run[k - 1], actions[k - 1], i);
    }
  }

  /** No joint state is stuck: until both halves are done, one of them has a step of its own. */
  lemma NeverStuck(run: seq<State>, actions: seq<Action>, i: Inputs, k: nat)
    requires IsRun(run, actions, i) && C.SealsSomething(i.r) && k < |run|
    ensures (run[k].host.HostDone? && run[k].client.ClientDone?) || Enabled(run[k], HostStep) || Enabled(run[k], ClientStep)
  {
    RunKeeps(run, actions, i, k);
  }

  function HostRank(p: HostPhase): nat {
    match p
    case AwaitRequest => 7 case Attesting => 6 case Assigning(_) => 5 case AwaitMatch => 4
    case Matching(_) => 3 case Answering(_) => 2 case Failing(_) => 2 case HostClosing(_) => 1 case HostDone(_) => 0
  }

  function ClientRank(p: ClientPhase): nat {
    match p
    case Requesting => 6 case AwaitAssignment => 5 case Sealing(_) => 4 case Sending(_, _) => 3
    case AwaitResult(_) => 2 case ClientClosing(_) => 1 case ClientDone(_) => 0
  }

  function Measure(s: State): nat {
    2 * HostRank(s.host) + 2 * ClientRank(s.client) + |s.toHost| + |s.toClient|
  }

  /** Every step of either half uses up the measure; only a ping adds to it, and only one. */
  lemma StepsRunOut(s: State, a: Action, i: Inputs)
    requires Enabled(s, a)
    ensures if a.HostStep? || a.ClientStep? then Measure(Apply(s, a, i)) < Measure(s)
            else Measure(Apply(s, a, i)) == Measure(s) + 1
  {}

  function Pings(actions: seq<Action>): nat {
    if actions == [] then 0
    else
      var last := actions[|actions| - 1];
      Pings(actions[..|actions| - 1]) + (if last.HostStep? || last.ClientStep? then 0 else 1)
  }

  /** A run with `p` pings has at most 26 + 2 p steps, so a run that is not cut short finishes. */
  lemma {:induction false} RunsAreShort(run: seq<State>, actions: seq<Action>, i: Inputs)
    requires IsRun(run, actions, i)
    ensures |actions| + Measure(run[|actions|]) <= 26 + 2 * Pings(actions)
  {
    if actions != [] {
      var n := |actions| - 1;
      var before, sofar := run[..n + 1], actions[..n];
      RunsAreShort(before, sofar, i);
      StepsRunOut(run[n], actions[n], i);
    }
  }

  /** Every interleaving and every ping: the client ends with the one result the inputs determine, and
      neither half ever finds a message out of order, malformed, empty or oversized. */
  lemma OneResult(run: seq<State>, actions: seq<Action>, i: Inputs, k: nat)
    requires IsRun(run, actions, i) && C.SealsSomething(i.r) && k < |run|
    ensures run[k].client.ClientDone? ==> run[k].client.result == ResultOf(i)
    ensures run[k].host.Failing? ==>
              var error := run[k].host.error; error.AssignmentFailed? || error.MatchFailed? || error == InternalError
    ensures ResultOf(i) != Err(C.MalformedMessage)
    ensures ResultOf(i) == Err(C.MalformedResult) ==>
              exists v :: VerifiedAs(i, v) && C.Sealed(v, i.r) == Err(C.MalformedResult)
  {
    RunKeeps(run, actions, i, k);
  }
}
