/** Client and host together: whatever the timing, neither half takes the other for misbehaving, and
    without timeouts every joint run ends in the one result its inputs determine. */
module SessionProduct {
  import opened Bytes
  import opened SealedTypes
  import opened Wrappers
  import opened Sockets
  import H = HostSession
  import C = ClientSession

  // Any two runs of the two halves over a transport that delivers frames in order

  /** The frames a log handed over, in order. */
  function Frames(log: seq<Entry>): seq<Message> {
    if log == [] then [] else FrameOf(log[0]) + Frames(log[1..])
  }

  function FrameOf(entry: Entry): seq<Message> {
    match entry case Handed(m, _) => [m] case Called(_) => []
  }

  lemma FramesOfFew(a: Entry, b: Entry, c: Entry)
    ensures Frames([a]) == FrameOf(a)
    ensures Frames([a, b]) == FrameOf(a) + FrameOf(b)
    ensures Frames([a, b, c]) == FrameOf(a) + (FrameOf(b) + FrameOf(c))
  {
    assert [a, b][1..] == [b] && [b, c][1..] == [c] && [a, b, c][1..] == [b, c];
    assert Frames([c]) == FrameOf(c) && Frames([b, c]) == FrameOf(b) + Frames([c]);
  }

  /** `inbound` delivers the frames `sent`, in order, mixed with pings, and no more of them
      once the transport ended or failed. */
  predicate Carries(inbound: seq<Arrival>, sent: seq<Message>) {
    if inbound == [] then true
    else
      match inbound[0].event
      case Frame(Ping) | Frame(Pong) => Carries(inbound[1..], sent)
      case Frame(m) => sent != [] && m == sent[0] && Carries(inbound[1..], sent[1..])
      case TooLong => false
      case Broken | Ended => Carries(inbound[1..], [])
  }

  lemma {:induction false} ListenCarried<R>(w: Wire, deadline: nat, react: Event -> Option<R>, sent: seq<Message>)
    requires Carries(w.inbound, sent) && IgnoresPings(react) && Ping !in sent && Pong !in sent
    ensures var (w', heard) := Listen(w, deadline, react);
      if heard.None? then true
      else (sent != [] && heard == react(Frame(sent[0])) && Carries(w'.inbound, sent[1..]))
           || heard == react(Broken) || heard == react(Ended)
    decreases |w.inbound|
  {
    var (w1, event) := Receive(w, deadline);
    if event.Some? && react(event.value).None? { ListenCarried(w1, deadline, react, sent); }
  }

  /** Frames of the host's phases: the assignment, and the result of the call with `body`. */
  predicate PhaseFrames(f: seq<Message>, e: H.Enclave, body: seq<byte>) {
    && |f| <= 2
    && (|f| > 0 ==> e.attestation.result.Ok? && f[0] == TextFrame(AssignmentText(e.attestation.result.value.assignment)))
    && (|f| > 1 ==> var m := e.matching(body).result;
                    m.Ok? && |m.value| <= MAX_MATCH_RESPONSE_BYTES && f[1] == Binary(m.value))
  }

  /** The frames a session of the host may have handed over. */
  ghost predicate HostFrames(f: seq<Message>, e: H.Enclave, body: seq<byte>) {
    exists n :: 0 <= n <= |f| && PhaseFrames(f[..n], e, body) && Ends(f[n..])
  }

  /** At most one error envelope, and a close. */
  predicate Ends(f: seq<Message>) {
    || f == [Close]
    || (|f| == 2 && f[0].TextFrame? && f[0].text.envelope.Some? && f[0].text.assignment.None? && f[1] == Close)
  }

  lemma PhaseFramesOf(t: seq<Entry>, e: H.Enclave, inbound: seq<Arrival>)
    requires H.Phases(t, e, inbound)
    ensures exists body :: PhaseFrames(Frames(t), e, body) && (|Frames(t)| > 1 ==> H.Arrived(inbound, body))
  {
    var body := if |t| > 1 then t[1].body else [];
    if t != [] {
      FramesOfFew(t[0], t[|t| / 2], t[|t| - 1]);
      assert t == if |t| == 1 then [t[0]] else if |t| == 2 then [t[0], t[1]] else [t[0], t[1], t[2]];
    }
    assert PhaseFrames(Frames(t), e, body);
  }

  lemma EndFramesOf(a: Entry, b: Entry)
    requires b.Handed? && b.message == Close
    ensures Ends(Frames([b]))
    ensures a.Handed? && (exists error :: a.message == TextFrame(EnvelopeText(error))) ==> Ends(Frames([a, b]))
  {}

  lemma HostFramesOf(t: seq<Entry>, e: H.Enclave, inbound: seq<Arrival>, failure: Option<ApiError>)
    requires H.SessionLog(t, e, inbound, failure)
    ensures exists body :: HostFrames(Frames(t), e, body) && (HasResult(Frames(t)) ==> H.Arrived(inbound, body))
  {
    var tail := if failure.Some? then 2 else 1;
    var core, end := t[..|t| - tail], t[|t| - tail..];
    assert t == core + end;
    FramesAppend(core, end);
    EndFramesOf(end[0], end[|end| - 1]);
    assert end == if failure.Some? then [end[0], end[1]] else [end[0]];
    PhaseFramesOf(core, e, inbound);
    var body :| PhaseFrames(Frames(core), e, body) && (|Frames(core)| > 1 ==> H.Arrived(inbound, body));
    var f, n := Frames(t), |Frames(core)|;
    assert f[..n] == Frames(core) && f[n..] == Frames(end);
    assert HostFrames(f, e, body);
  }

  predicate HasResult(f: seq<Message>) { |f| > 1 && f[1].Binary? }

  lemma {:induction false} FramesAppend(a: seq<Entry>, b: seq<Entry>)
    ensures Frames(a + b) == Frames(a) + Frames(b)
  {
    if a == [] {
      assert a + b == b;
    } else {
      FramesAppend(a[1..], b);
      assert (a + b)[1..] == a[1..] + b && (a + b)[0] == a[0];
      Associative(FrameOf(a[0]), Frames(a[1..]), Frames(b));
    }
  }

  type Verification = Result<C.Verified, C.ClientError>

  /** An exchange over such a transport ends in a timeout, in a failed send, or in the reaction to the
      next frame or to the end of the stream. */
  lemma ExchangeCarried<T>(w: Wire, m: Message, timeout: nat, react: Event -> Option<Result<T, C.ClientError>>,
                           sent: seq<Message>)
    requires Carries(w.inbound, sent) && IgnoresPings(react) && Ping !in sent && Pong !in sent
    ensures var (w', r) := C.Exchange(w, m, timeout, react);
      || r == Err(C.TimedOut) || r == Err(C.SocketFailed) || Some(r) == react(Broken) || Some(r) == react(Ended)
      || (sent != [] && Some(r) == react(Frame(sent[0])) && Carries(w'.inbound, sent[1..]))
  {
    SendEndsByDeadline(w, m, w.now + timeout);
    ListenCarried(Send(w, m, w.now + timeout).0, w.now + timeout, react, sent);
  }

  /** The frames a session of the client may have handed over. */
  predicate ClientFrames(f: seq<Message>, verified: Verification, r: C.MatchRequest) {
    || f == [TextFrame(REQUEST_TEXT)]
    || f == [TextFrame(REQUEST_TEXT), Close]
    || (verified.Ok? && C.Sealed(verified.value, r).Ok?
        && f == [TextFrame(REQUEST_TEXT), Binary(C.Sealed(verified.value, r).value), Close])
  }

  lemma ClientFramesOf(t: seq<Entry>, verified: Verification, r: C.MatchRequest)
    requires C.SessionLog(t, verified, r)
    ensures ClientFrames(Frames(t), verified, r)
  {
    FramesOfFew(t[0], t[|t| / 2], t[|t| - 1]);
    assert t == if |t| == 1 then [t[0]] else if |t| == 2 then [t[0], t[1]] else [t[0], t[1], t[2]];
  }

  /** The host blames its peer for what it sent. */
  predicate BlamesClient(failure: Option<ApiError>) {
    failure.Some? && (failure.value == InvalidMessage || failure.value == UnexpectedFrame
                      || failure.value == EmptyRequest || failure.value == OversizedRequest)
  }

  lemma HostHearsClient(w: Wire, e: H.Enclave, idle: nat, sent: seq<Message>, verified: Verification, r: C.MatchRequest)
    requires ClientFrames(sent, verified, r) && C.SealsSomething(r) && Carries(w.inbound, sent)
    ensures !BlamesClient(H.Serve(w, e, idle).1)
  {
    ListenCarried(w, w.now + idle, H.OnFirst, sent);
    var (w1, first) := H.Await(w, idle, H.OnFirst);
    if first.Ok? && first.value.Some? && e.attestation.after <= H.CONTROL_REQUEST_TIMEOUT && e.attestation.result.Ok? {
      HostHearsMatch(w1, e, idle, sent[1..]);
    }
  }

  predicate MatchFrames(rest: seq<Message>) {
    rest == [] || rest == [Close] || (rest[0].Binary? && H.Relayable(rest[0].data) && rest == [rest[0], Close])
  }

  lemma MatchIsHeard(w: Wire, e: H.Enclave, idle: nat, rest: seq<Message>)
    requires Carries(w.inbound, rest) && MatchFrames(rest)
    ensures !BlamesClient(H.AwaitMatch(w, e, idle).1)
  {
    ListenCarried(w, w.now + idle, H.OnMatch, rest);
  }

  lemma HostHearsMatch(w: Wire, e: H.Enclave, idle: nat, rest: seq<Message>)
    requires Carries(w.inbound, rest) && MatchFrames(rest)
    ensures !BlamesClient(H.Assign(w, e, idle).1)
  {
    var (asked, attested) := H.Call(e.attestation, H.CONTROL_REQUEST_TIMEOUT);
    if attested.Ok? {
      var w1 := w.(now := w.now + asked);
      var m := TextFrame(AssignmentText(attested.value.assignment));
      SendEndsByDeadline(w1, m, w1.now + idle);
      MatchIsHeard(Send(w1, m, w1.now + idle).0, e, idle, rest);
    }
  }

  /** A frame no client takes for a malformed message or mistakes for an oversized result. */
  predicate WellFormed(m: Message) {
    match m
    case TextFrame(text) => text.assignment.Some? || text.envelope.Some?
    case Binary(data) => |data| <= MAX_MATCH_RESPONSE_BYTES
    case Close => true
    case Ping | Pong => false
  }

  lemma HostFramesWellFormed(sent: seq<Message>, e: H.Enclave, body: seq<byte>)
    requires HostFrames(sent, e, body)
    ensures sent != [] && (forall m :: m in sent ==> WellFormed(m)) && !sent[0].Binary?
  {}

  lemma WellFormedAnswer(m: Message, verify: C.Verifier)
    requires WellFormed(m) && !m.Binary?
    ensures var answer := C.OnAssignment(Frame(m), verify);
      && answer.Some? && answer.value != Err(C.MalformedMessage) && answer.value != Err(C.MalformedResult)
      && (answer.value.Ok? ==> m.TextFrame? && m.text.assignment.Some?)
  {}

  lemma ClientHearsAssignment(w: Wire, verify: C.Verifier, timeout: nat, sent: seq<Message>,
                              e: H.Enclave, body: seq<byte>)
    requires HostFrames(sent, e, body) && Carries(w.inbound, sent)
    ensures var (w', verified) := C.Assigned(w, verify, timeout);
      && verified != Err(C.MalformedMessage) && verified != Err(C.MalformedResult)
      && (verified.Ok? ==> sent[0].TextFrame? && sent[0].text.assignment.Some? && Carries(w'.inbound, sent[1..]))
  {
    HostFramesWellFormed(sent, e, body);
    WellFormedAnswer(sent[0], verify);
    ExchangeCarried(w, TextFrame(REQUEST_TEXT), timeout, C.ForAssignment(verify), sent);
  }

  lemma ClientHearsResult(w: Wire, v: C.Verified, r: C.MatchRequest, timeout: nat, rest: seq<Message>)
    requires Carries(w.inbound, rest)
    requires || Ends(rest)
             || (|rest| > 1 && rest[0].Binary? && |rest[0].data| <= MAX_MATCH_RESPONSE_BYTES && Ends(rest[1..]))
    ensures var result := C.Exchanged(w, v, r, timeout).1;
      && result != Err(C.MalformedMessage)
      && (result == Err(C.MalformedResult) ==> C.Sealed(v, r) == Err(C.MalformedResult))
      && (result.Ok? ==> C.Sealed(v, r).Ok? && rest[0].Binary? && r.open(v.key, rest[0].data) == Some(result.value))
  {
    var sealed := C.Sealed(v, r);
    if sealed.Ok? { ExchangeCarried(w, Binary(sealed.value), timeout, C.ForResult(r, v.key), rest); }
  }

  /** The client does not blame the host, and a result it accepts is the enclave's answer to `body`. */
  predicate Faithful(result: Result<seq<byte>, C.ClientError>, verified: Verification, r: C.MatchRequest,
                     e: H.Enclave, body: seq<byte>) {
    && result != Err(C.MalformedMessage)
    && (result == Err(C.MalformedResult) ==> verified.Ok? && C.Sealed(verified.value, r) == Err(C.MalformedResult))
    && (result.Ok? ==> verified.Ok? && C.Sealed(verified.value, r).Ok? && e.matching(body).result.Ok?
                       && r.open(verified.value.key, e.matching(body).result.value) == Some(result.value))
  }

  lemma ClientHearsHost(w: Wire, verify: C.Verifier, r: C.MatchRequest, timeout: nat, sent: seq<Message>,
                        e: H.Enclave, body: seq<byte>)
    requires HostFrames(sent, e, body) && Carries(w.inbound, sent)
    ensures Faithful(C.Run(w, verify, r, timeout).1, C.Assigned(w, verify, timeout).1, r, e, body)
    ensures C.Run(w, verify, r, timeout).1.Ok? ==> HasResult(sent)
  {
    ClientHearsAssignment(w, verify, timeout, sent, e, body);
    var (w1, verified) := C.Assigned(w, verify, timeout);
    if verified.Ok? {
      ClientHearsResult(w1, verified.value, r, timeout, sent[1..]);
    }
  }

  lemma {:induction false} CarriedBody(inbound: seq<Arrival>, sent: seq<Message>, body: seq<byte>)
    requires Carries(inbound, sent) && H.Arrived(inbound, body)
    ensures Binary(body) in sent
  {
    assert inbound == [inbound[0]] + inbound[1..];
    match inbound[0].event
    case Frame(Ping) | Frame(Pong) => CarriedBody(inbound[1..], sent, body);
    case Frame(m) =>
      if m != Binary(body) { CarriedBody(inbound[1..], sent[1..], body); }
    case TooLong =>
    case Broken | Ended => CarriedBody(inbound[1..], [], body);
  }

  /** Any run of the client against any run of the host, whatever the timing, the pings, the timeouts
      and the failures: as long as frames are delivered in order, neither half finds a message out of
      order, malformed, empty or oversized, and a result the client accepts is the enclave's answer to
      the very body the client sealed under the assignment it verified. */
  lemma HalvesFit(wh: Wire, e: H.Enclave, idle: nat, wc: Wire, verify: C.Verifier, r: C.MatchRequest, timeout: nat)
    requires wh.log == [] && wc.log == [] && C.SealsSomething(r)
    requires Carries(wh.inbound, Frames(C.Run(wc, verify, r, timeout).0.log))
    requires Carries(wc.inbound, Frames(H.Run(wh, e, idle).0.log))
    ensures !BlamesClient(H.Run(wh, e, idle).1)
    ensures var result, verified := C.Run(wc, verify, r, timeout).1, C.Assigned(wc, verify, timeout).1;
      exists body :: Faithful(result, verified, r, e, body) && (result.Ok? ==> body == C.Sealed(verified.value, r).value)
  {
    C.ClientLanguage(wc, verify, r, timeout);
    var verified := C.Assigned(wc, verify, timeout).1;
    var clientLog := C.Run(wc, verify, r, timeout).0.log;
    assert clientLog[|wc.log|..] == clientLog;
    ClientFramesOf(clientLog, verified, r);
    HostHearsClient(wh, e, idle, Frames(clientLog), verified, r);

    H.HostLanguage(wh, e, idle);
    var (h, failure) := H.Run(wh, e, idle);
    assert H.Added(wh, h) == h.log;
    HostFramesOf(h.log, e, wh.inbound, failure);
    var body :| HostFrames(Frames(h.log), e, body) && (HasResult(Frames(h.log)) ==> H.Arrived(wh.inbound, body));
    ClientHearsHost(wc, verify, r, timeout, Frames(h.log), e, body);
    if C.Run(wc, verify, r, timeout).1.Ok? { CarriedBody(wh.inbound, Frames(clientLog), body); }
  }
}
