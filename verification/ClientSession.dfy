/** The client's half of a session: one verified assignment, then one sealed match on the same socket. */
module ClientSession {
  import opened Bytes
  import opened SealedTypes
  import opened Wrappers
  import opened ResponseSlots
  import opened Sockets

  datatype ClientError =
    | TimedOut | ConnectionClosed | SocketFailed
    | MalformedMessage | HostReported(error: ApiError)
    | AssignmentNotVerified
    | MalformedRequest | ReleaseUnavailable | NotSealed
    | MalformedResult | ResultNotVerified

  type Key = seq<byte>

  datatype Verified = Verified(key: Key, releaseHashes: seq<seq<byte>>)

  /** One request with its libraries' answers: `releaseHash` is None when its bounds or its AAT fail,
      `open` also verifies the statement and compares its claims. */
  datatype MatchRequest = MatchRequest(
    releaseHash: Option<seq<byte>>, seal: Key -> Option<seq<byte>>, open: (Key, seq<byte>) -> Option<seq<byte>>)

  /** Sealing always yields something: a sealed body carries the channel's own header. */
  ghost predicate SealsSomething(r: MatchRequest) {
    forall key: Key :: r.seal(key).Some? ==> r.seal(key).value != []
  }

  type Verifier = Assignment -> Option<Key>

  // Reactions to one event; None is to keep waiting

  function OnAssignment(e: Event, verify: Verifier): Option<Result<Verified, ClientError>> {
    match e
    case TooLong | Broken => Some(Err(SocketFailed))
    case Ended | Frame(Close) => Some(Err(ConnectionClosed))
    case Frame(Ping) | Frame(Pong) => None
    case Frame(Binary(_)) => Some(Err(MalformedMessage))
    case Frame(TextFrame(text)) =>
      if text.assignment.None? then Some(Err(ErrorFromText(text)))
      else
        var key := verify(text.assignment.value);
        Some(if key.Some? then Ok(Verified(key.value, text.assignment.value.releaseHashes))
             else Err(AssignmentNotVerified))
  }

  function ErrorFromText(text: Text): ClientError {
    match text.envelope
    case Some(error) => HostReported(error)
    case None => MalformedMessage
  }

  function OnResult(e: Event, r: MatchRequest, key: Key): Option<Result<seq<byte>, ClientError>> {
    match e
    case TooLong | Broken => Some(Err(SocketFailed))
    case Ended | Frame(Close) => Some(Err(ConnectionClosed))
    case Frame(Ping) | Frame(Pong) => None
    case Frame(TextFrame(text)) => Some(Err(ErrorFromText(text)))
    case Frame(Binary(ciphertext)) =>
      if |ciphertext| > MAX_MATCH_RESPONSE_BYTES then Some(Err(MalformedResult))
      else
        var result := r.open(key, ciphertext);
        Some(if result.Some? then Ok(result.value) else Err(ResultNotVerified))
  }

  function ForAssignment(verify: Verifier): Event -> Option<Result<Verified, ClientError>> {
    e => OnAssignment(e, verify)
  }

  function ForResult(r: MatchRequest, key: Key): Event -> Option<Result<seq<byte>, ClientError>> {
    e => OnResult(e, r, key)
  }

  // The session on values

  /** Sends one frame and waits for its answer, both under one absolute deadline. */
  function Exchange<T>(w: Wire, m: Message, timeout: nat, react: Event -> Option<Result<T, ClientError>>)
    : (Wire, Result<T, ClientError>)
  {
    var deadline := w.now + timeout;
    var (w1, sent) := Send(w, m, deadline);
    match sent
    case WriteTimedOut => (w1, Err(TimedOut))
    case WriteFailed => (w1, Err(SocketFailed))
    case Sent =>
      var (w2, heard) := Listen(w1, deadline, react);
      (w2, if heard.None? then Err(TimedOut) else heard.value)
  }

  function Assigned(w: Wire, verify: Verifier, timeout: nat): (Wire, Result<Verified, ClientError>) {
    Exchange(w, TextFrame(REQUEST_TEXT), timeout, ForAssignment(verify))
  }

  /** The checks before any biometric data leaves the device. */
  function Sealed(v: Verified, r: MatchRequest): Result<seq<byte>, ClientError> {
    if r.releaseHash.None? then Err(MalformedRequest)
    else if r.releaseHash.value !in v.releaseHashes then Err(ReleaseUnavailable)
    else
      match r.seal(v.key)
      case None => Err(NotSealed)
      case Some(body) => if |body| > MAX_MATCH_BODY_BYTES then Err(MalformedResult) else Ok(body)
  }

  function Exchanged(w: Wire, v: Verified, r: MatchRequest, timeout: nat): (Wire, Result<seq<byte>, ClientError>) {
    match Sealed(v, r)
    case Err(error) => (w, Err(error))
    case Ok(body) => Exchange(w, Binary(body), timeout, ForResult(r, v.key))
  }

  /** The exchange, then the close that ends the session either way. */
  function Matched(w: Wire, v: Verified, r: MatchRequest, timeout: nat): (Wire, Result<seq<byte>, ClientError>) {
    var (w1, result) := Exchanged(w, v, r, timeout);
    (Send(w1, Close, w1.now + timeout).0, result)
  }

  /** Connecting and one match. A socket whose assignment fails is dropped. */
  function Run(w: Wire, verify: Verifier, r: MatchRequest, timeout: nat): (Wire, Result<seq<byte>, ClientError>) {
    var (w1, verified) := Assigned(w, verify, timeout);
    match verified
    case Err(error) => (w1, Err(error))
    case Ok(v) => Matched(w1, v, r, timeout)
  }

  // The session on a socket

  method SendMessage(socket: Socket, m: Message, deadline: Instant) returns (failure: Option<ClientError>)
    modifies socket
    ensures var (w, sent) := Send(old(socket.State()), m, deadline);
            socket.State() == w && failure == (match sent
              case Sent => None
              case WriteFailed => Some(SocketFailed)
              case WriteTimedOut => Some(TimedOut))
  {
    var sent := socket.SendBy(m, deadline);
    failure := match sent case Sent => None case WriteFailed => Some(SocketFailed) case WriteTimedOut => Some(TimedOut);
  }

  method RequestAssignment(socket: Socket, verify: Verifier, timeout: nat) returns (r: Result<Verified, ClientError>)
    modifies socket
    ensures (socket.State(), r) == Assigned(old(socket.State()), verify, timeout)
  {
    var deadline := socket.now + timeout;
    var failure := SendMessage(socket, TextFrame(REQUEST_TEXT), deadline);
    if failure.Some? { return Err(failure.value); }
    ghost var react := ForAssignment(verify);
    ghost var start := socket.State();
    while true
      invariant Listen(socket.State(), deadline, react) == Listen(start, deadline, react)
      decreases |socket.inbound|
    {
      var event := socket.ReceiveBy(deadline);
      match event {
        case None => return Err(TimedOut);
        case Some(Ended) => return Err(ConnectionClosed);
        case Some(TooLong) | Some(Broken) => return Err(SocketFailed);
        case Some(Frame(TextFrame(text))) =>
          if text.assignment.None? { return Err(ErrorFromText(text)); }
          var key := verify(text.assignment.value);
          if key.None? { return Err(AssignmentNotVerified); }
          return Ok(Verified(key.value, text.assignment.value.releaseHashes));
        case Some(Frame(Binary(_))) => return Err(MalformedMessage);
        case Some(Frame(Close)) => return Err(ConnectionClosed);
        case Some(Frame(Ping)) | Some(Frame(Pong)) =>
      }
    }
  }

  method ExchangeMatch(socket: Socket, v: Verified, r: MatchRequest, timeout: nat)
    returns (result: Result<seq<byte>, ClientError>)
    modifies socket
    ensures (socket.State(), result) == Exchanged(old(socket.State()), v, r, timeout)
  {
    if r.releaseHash.None? { return Err(MalformedRequest); }
    if r.releaseHash.value !in v.releaseHashes { return Err(ReleaseUnavailable); }
    var body := r.seal(v.key);
    if body.None? { return Err(NotSealed); }
    if |body.value| > MAX_MATCH_BODY_BYTES { return Err(MalformedResult); }

    var deadline := socket.now + timeout;
    var failure := SendMessage(socket, Binary(body.value), deadline);
    if failure.Some? { return Err(failure.value); }
    ghost var react := ForResult(r, v.key);
    ghost var start := socket.State();
    while true
      invariant Listen(socket.State(), deadline, react) == Listen(start, deadline, react)
      decreases |socket.inbound|
    {
      var event := socket.ReceiveBy(deadline);
      match event {
        case None => return Err(TimedOut);
        case Some(Ended) => return Err(ConnectionClosed);
        case Some(TooLong) | Some(Broken) => return Err(SocketFailed);
        case Some(Frame(Binary(ciphertext))) =>
          if |ciphertext| > MAX_MATCH_RESPONSE_BYTES { return Err(MalformedResult); }
          var answer := r.open(v.key, ciphertext);
          return if answer.Some? then Ok(answer.value) else Err(ResultNotVerified);
        case Some(Frame(TextFrame(text))) => return Err(ErrorFromText(text));
        case Some(Frame(Close)) => return Err(ConnectionClosed);
        case Some(Frame(Ping)) | Some(Frame(Pong)) =>
      }
    }
  }

  /** Consumes the session: the socket is closed whatever the exchange came to. */
  method RequestMatch(socket: Socket, v: Verified, r: MatchRequest, timeout: nat)
    returns (result: Result<seq<byte>, ClientError>)
    modifies socket
    ensures (socket.State(), result) == Matched(old(socket.State()), v, r, timeout)
  {
    result := ExchangeMatch(socket, v, r, timeout);
    var _ := socket.SendBy(Close, socket.now + timeout);
  }

  // What the client may put on the wire

  /** The key came out of an assignment this socket delivered. */
  ghost predicate Delivered(inbound: seq<Arrival>, verify: Verifier, v: Verified) {
    exists a, text :: a in inbound && a.event == Frame(TextFrame(text)) && text.assignment.Some?
      && verify(text.assignment.value) == Some(v.key) && v.releaseHashes == text.assignment.value.releaseHashes
  }

  lemma {:induction false} AssignmentDelivered(w: Wire, deadline: Instant, verify: Verifier)
    ensures var heard := Listen(w, deadline, ForAssignment(verify)).1;
            heard.Some? && heard.value.Ok? ==> Delivered(w.inbound, verify, heard.value.value)
    decreases |w.inbound|
  {
    var (w1, event) := Receive(w, deadline);
    if event.Some? {
      var answer := ForAssignment(verify)(event.value);
      if answer.None? {
        AssignmentDelivered(w1, deadline, verify);
      } else if answer.value.Ok? {
        var a := w.inbound[0];
        assert a in w.inbound && a.event == Frame(TextFrame(a.event.message.text));
      }
    }
  }

  /** The assignment request; then, only under a verified assignment and for a request that passed
      every check, its sealed body; then a close once an assignment was verified. */
  predicate SessionLog(t: seq<Entry>, verified: Result<Verified, ClientError>, r: MatchRequest) {
    && 1 <= |t| <= 3 && t[0].Handed? && t[0].message == TextFrame(REQUEST_TEXT)
    && (|t| > 1 ==> t[0].done && verified.Ok? && t[|t| - 1].Handed? && t[|t| - 1].message == Close)
    && (|t| == 3 ==> Sealed(verified.value, r).Ok?
                     && t[1].Handed? && t[1].message == Binary(Sealed(verified.value, r).value))
  }

  lemma ExchangeFacts<T>(w: Wire, m: Message, timeout: nat, react: Event -> Option<Result<T, ClientError>>)
    ensures var (w', result) := Exchange(w, m, timeout, react);
      && w.now <= w'.now <= w.now + timeout
      && (exists done :: w'.log == w.log + [Handed(m, done)] && (result.Ok? ==> done))
  {
    var deadline := w.now + timeout;
    var (w1, sent) := Send(w, m, deadline);
    SendEndsByDeadline(w, m, deadline);
    if sent == Sent { ListenEndsByDeadline(w1, deadline, react); }
    assert Exchange(w, m, timeout, react).0.log == w.log + [Handed(m, sent == Sent)];
  }

  lemma AssignedFacts(w: Wire, verify: Verifier, timeout: nat)
    ensures var (w', result) := Assigned(w, verify, timeout);
      && w.now <= w'.now <= w.now + timeout
      && (exists done :: w'.log == w.log + [Handed(TextFrame(REQUEST_TEXT), done)] && (result.Ok? ==> done))
      && (result.Ok? ==> Delivered(w.inbound, verify, result.value))
  {
    ExchangeFacts(w, TextFrame(REQUEST_TEXT), timeout, ForAssignment(verify));
    var (w1, sent) := Send(w, TextFrame(REQUEST_TEXT), w.now + timeout);
    AssignmentDelivered(w1, w.now + timeout, verify);
  }

  /** The sealed body if there is one to send, then a close. */
  function MatchAndClose(v: Verified, r: MatchRequest, done: bool, closed: bool): seq<Entry> {
    (if Sealed(v, r).Ok? then [Handed(Binary(Sealed(v, r).value), done)] else []) + [Handed(Close, closed)]
  }

  lemma MatchedFacts(w: Wire, v: Verified, r: MatchRequest, timeout: nat)
    ensures var (w', result) := Matched(w, v, r, timeout);
      && w.now <= w'.now <= w.now + 2 * timeout
      && (result.Ok? ==> Sealed(v, r).Ok?)
      && exists done, closed :: w'.log == w.log + MatchAndClose(v, r, done, closed) && (result.Ok? ==> done)
  {
    var (w1, result) := Exchanged(w, v, r, timeout);
    var closed := Send(w1, Close, w1.now + timeout).1 == Sent;
    if Sealed(v, r).Ok? {
      ExchangeFacts(w, Binary(Sealed(v, r).value), timeout, ForResult(r, v.key));
      var done :| w1.log == w.log + [Handed(Binary(Sealed(v, r).value), done)] && (result.Ok? ==> done);
      assert Matched(w, v, r, timeout).0.log == w.log + MatchAndClose(v, r, done, closed);
    } else {
      assert Matched(w, v, r, timeout).0.log == w.log + MatchAndClose(v, r, false, closed);
    }
  }

  /** For every input and timing the client sends the assignment request, then at most one sealed
      match, for a key it verified from an assignment this same socket delivered, then a close; no
      ignored frame extends a phase. */
  lemma ClientLanguage(w: Wire, verify: Verifier, r: MatchRequest, timeout: nat)
    ensures var (w', result) := Run(w, verify, r, timeout);
      var verified := Assigned(w, verify, timeout).1;
      && w.log <= w'.log && SessionLog(w'.log[|w.log|..], verified, r)
      && (verified.Ok? ==> Delivered(w.inbound, verify, verified.value))
      && w.now <= w'.now <= w.now + 3 * timeout
      && (result.Ok? ==> |w'.log| == |w.log| + 3)
  {
    AssignedFacts(w, verify, timeout);
    var (w1, verified) := Assigned(w, verify, timeout);
    if verified.Ok? { MatchedFacts(w1, verified.value, r, timeout); }
  }

  // What leaves the device, and when it is refused

  /** An assignment this socket delivered was verified and lists the request's release, and `body` is the
      request sealed under that assignment's key, within the limit. */
  ghost predicate Permitted(inbound: seq<Arrival>, verify: Verifier, r: MatchRequest, body: seq<byte>) {
    exists a, text :: a in inbound && a.event == Frame(TextFrame(text)) && text.assignment.Some?
      && var assignment := text.assignment.value;
      && verify(assignment).Some?
      && r.releaseHash.Some? && r.releaseHash.value in assignment.releaseHashes
      && r.seal(verify(assignment).value) == Some(body) && |body| <= MAX_MATCH_BODY_BYTES
  }

  /** No biometric data leaves the device but what is permitted: every binary frame of every run. */
  lemma SendsOnlyPermitted(w: Wire, verify: Verifier, r: MatchRequest, timeout: nat, k: nat)
    requires var w' := Run(w, verify, r, timeout).0;
             |w.log| <= k < |w'.log| && w'.log[k].Handed? && w'.log[k].message.Binary?
    ensures Permitted(w.inbound, verify, r, Run(w, verify, r, timeout).0.log[k].message.data)
  {
    ClientLanguage(w, verify, r, timeout);
    var log := Run(w, verify, r, timeout).0.log;
    var t := log[|w.log|..];
    assert t[k - |w.log|] == log[k];
    SealedIsPermitted(w.inbound, verify, r, Assigned(w, verify, timeout).1.value);
  }

  lemma SealedIsPermitted(inbound: seq<Arrival>, verify: Verifier, r: MatchRequest, v: Verified)
    requires Delivered(inbound, verify, v) && Sealed(v, r).Ok?
    ensures Permitted(inbound, verify, r, Sealed(v, r).value)
  {
    var a, text :| a in inbound && a.event == Frame(TextFrame(text)) && text.assignment.Some?
      && verify(text.assignment.value) == Some(v.key) && v.releaseHashes == text.assignment.value.releaseHashes;
    assert a.event == Frame(TextFrame(text));
  }

  /** What is heard is the reaction to some event. */
  lemma {:induction false} HeardIsReaction<R>(w: Wire, deadline: Instant, react: Event -> Option<R>)
    ensures var heard := Listen(w, deadline, react).1;
            heard.Some? ==> exists a :: a in w.inbound && react(a.event) == heard
    decreases |w.inbound|
  {
    var (w1, event) := Receive(w, deadline);
    if event.Some? {
      assert w.inbound[0] in w.inbound;
      if react(event.value).None? { HeardIsReaction(w1, deadline, react); }
    }
  }

  /** What became of the exchange of a permitted body: a timeout, a failed send, or the reaction to an event. */
  lemma ExchangeAnswers(w: Wire, v: Verified, r: MatchRequest, timeout: nat)
    requires Sealed(v, r).Ok?
    ensures var result := Exchanged(w, v, r, timeout).1;
      result == Err(TimedOut) || result == Err(SocketFailed)
      || exists a :: a in w.inbound && OnResult(a.event, r, v.key) == Some(result)
  {
    var body := Sealed(v, r).value;
    HeardIsReaction(Send(w, Binary(body), w.now + timeout).0, w.now + timeout, ForResult(r, v.key));
  }

  /** Under a verified assignment each local refusal is the result exactly when its check fails, in this
      order, and then nothing but the close is handed over. */
  lemma RefusalsIff(w: Wire, v: Verified, r: MatchRequest, timeout: nat)
    ensures var (w', result) := Matched(w, v, r, timeout);
      && (result == Err(MalformedRequest) <==> r.releaseHash.None?)
      && (result == Err(ReleaseUnavailable) <==> r.releaseHash.Some? && r.releaseHash.value !in v.releaseHashes)
      && (result == Err(NotSealed) <==>
            r.releaseHash.Some? && r.releaseHash.value in v.releaseHashes && r.seal(v.key).None?)
      && (result in {Err(MalformedRequest), Err(ReleaseUnavailable), Err(NotSealed)} ==>
            |w'.log| == |w.log| + 1 && w'.log[|w.log|].Handed? && w'.log[|w.log|].message == Close)
  {
    if Sealed(v, r).Ok? { ExchangeAnswers(w, v, r, timeout); }
  }

  /** The close has a deadline of its own, `timeout` after whatever the exchange came to. */
  lemma CloseIff(w: Wire, v: Verified, r: MatchRequest, timeout: nat)
    ensures var w1, w' := Exchanged(w, v, r, timeout).0, Matched(w, v, r, timeout).0;
      w'.log == w1.log + [Handed(Close, w1.writes != [] && w1.writes[0].ok && w1.writes[0].takes <= timeout)]
  {}

  // Exactly when a session succeeds

  lemma ForAssignmentIgnoresPings(verify: Verifier)
    ensures IgnoresPings(ForAssignment(verify))
  {}

  lemma ForResultIgnoresPings(r: MatchRequest, key: Key)
    ensures IgnoresPings(ForResult(r, key))
  {}

  lemma ExchangeQuiet<T>(w: Wire, m: Message, timeout: nat, react: Event -> Option<Result<T, ClientError>>)
    requires InOrder(w.inbound) && IgnoresPings(react)
    ensures var (w', result) := Exchange(w, m, timeout, react);
            Exchange(Quiet(w), m, timeout, react) == (Quiet(w'), result) && InOrder(w'.inbound)
  {
    var (w1, sent) := Send(w, m, w.now + timeout);
    assert Send(Quiet(w), m, w.now + timeout) == (Quiet(w1), sent);
    ListenQuiet(w1, w.now + timeout, react);
  }

  /** Pings and pongs change nothing about a whole session of the client either. */
  lemma ClientIgnoresPings(w: Wire, verify: Verifier, r: MatchRequest, timeout: nat)
    requires InOrder(w.inbound)
    ensures Run(Quiet(w), verify, r, timeout) == (Quiet(Run(w, verify, r, timeout).0), Run(w, verify, r, timeout).1)
  {
    ForAssignmentIgnoresPings(verify);
    ExchangeQuiet(w, TextFrame(REQUEST_TEXT), timeout, ForAssignment(verify));
    var (w1, verified) := Assigned(w, verify, timeout);
    if verified.Ok? { MatchedQuiet(w1, verified.value, r, timeout); }
  }

  lemma MatchedQuiet(w: Wire, v: Verified, r: MatchRequest, timeout: nat)
    requires InOrder(w.inbound)
    ensures Matched(Quiet(w), v, r, timeout) == (Quiet(Matched(w, v, r, timeout).0), Matched(w, v, r, timeout).1)
  {
    if Sealed(v, r).Ok? {
      ForResultIgnoresPings(r, v.key);
      ExchangeQuiet(w, Binary(Sealed(v, r).value), timeout, ForResult(r, v.key));
    }
    var w1 := Exchanged(w, v, r, timeout).0;
    assert Exchanged(Quiet(w), v, r, timeout).0 == Quiet(w1);
    assert Send(Quiet(w1), Close, w1.now + timeout).0 == Quiet(Send(w1, Close, w1.now + timeout).0);
  }

  /** A write completes, and the next frame is there, within `timeout` from `now`. */
  predicate Prompt(now: Instant, inbound: seq<Arrival>, writes: seq<Write>, timeout: nat) {
    writes != [] && writes[0].ok && writes[0].takes <= timeout && inbound != [] && inbound[0].at <= now + timeout
  }

  /** The assignment `v` is verified from comes in time. */
  predicate AssignmentComes(w: Wire, verify: Verifier, timeout: nat, v: Verified) {
    && Prompt(w.now, w.inbound, w.writes, timeout)
    && w.inbound[0].event.Frame? && w.inbound[0].event.message.TextFrame?
    && var text := w.inbound[0].event.message.text;
    text.assignment.Some? && verify(text.assignment.value) == Some(v.key)
    && v.releaseHashes == text.assignment.value.releaseHashes
  }

  /** The request may be sent, and an answer that opens to `x` comes in time. */
  predicate ResultComes(w: Wire, v: Verified, r: MatchRequest, timeout: nat, x: seq<byte>) {
    && r.releaseHash.Some? && r.releaseHash.value in v.releaseHashes
    && r.seal(v.key).Some? && |r.seal(v.key).value| <= MAX_MATCH_BODY_BYTES
    && Prompt(w.now, w.inbound, w.writes, timeout)
    && w.inbound[0].event.Frame? && w.inbound[0].event.message.Binary?
    && |w.inbound[0].event.message.data| <= MAX_MATCH_RESPONSE_BYTES
    && r.open(v.key, w.inbound[0].event.message.data) == Some(x)
  }

  /** The wire once a prompt exchange is over: the write took its time, and the frame was awaited. */
  function AfterPrompt(w: Wire, m: Message): Wire
    requires w.inbound != [] && w.writes != []
  {
    Wire(Max(w.now + w.writes[0].takes, w.inbound[0].at), w.inbound[1..], w.writes[1..], w.log + [Handed(m, true)])
  }

  lemma ExchangeIff<T>(w: Wire, m: Message, timeout: nat, react: Event -> Option<Result<T, ClientError>>)
    requires IgnoresPings(react) && (w.inbound != [] ==> !IsPing(w.inbound[0].event))
    ensures var (w', result) := Exchange(w, m, timeout, react);
      if Prompt(w.now, w.inbound, w.writes, timeout) then
        w' == AfterPrompt(w, m) && Some(result) == react(w.inbound[0].event)
      else result == Err(TimedOut) || result == Err(SocketFailed)
  {
    if w.inbound != [] { assert react(w.inbound[0].event).Some?; }
  }

  lemma AssignedIff(w: Wire, verify: Verifier, timeout: nat, v: Verified)
    requires w.inbound != [] ==> !IsPing(w.inbound[0].event)
    ensures Assigned(w, verify, timeout).1 == Ok(v) <==> AssignmentComes(w, verify, timeout, v)
    ensures AssignmentComes(w, verify, timeout, v) ==>
              Assigned(w, verify, timeout).0 == AfterPrompt(w, TextFrame(REQUEST_TEXT))
  {
    ForAssignmentIgnoresPings(verify);
    ExchangeIff(w, TextFrame(REQUEST_TEXT), timeout, ForAssignment(verify));
  }

  lemma MatchedIff(w: Wire, v: Verified, r: MatchRequest, timeout: nat, x: seq<byte>)
    requires w.inbound != [] ==> !IsPing(w.inbound[0].event)
    ensures Matched(w, v, r, timeout).1 == Ok(x) <==> ResultComes(w, v, r, timeout, x)
  {
    if Sealed(v, r).Ok? {
      ForResultIgnoresPings(r, v.key);
      ExchangeIff(w, Binary(Sealed(v, r).value), timeout, ForResult(r, v.key));
    }
  }

  /** A session ends with the result `x` exactly when, its pings taken out, both writes complete and both
      frames come within the timeout of their phase, the first is an assignment that is verified and lists
      the request's release, the request can be sealed for it within the limit, and the second is a
      ciphertext within the limit that opens to `x`. */
  lemma ClientSucceedsIff(w: Wire, verify: Verifier, r: MatchRequest, timeout: nat, x: seq<byte>)
    requires InOrder(w.inbound)
    ensures Run(w, verify, r, timeout).1 == Ok(x) <==>
              exists v :: AssignmentComes(Quiet(w), verify, timeout, v)
                && ResultComes(AfterPrompt(Quiet(w), TextFrame(REQUEST_TEXT)), v, r, timeout, x)
  {
    ClientIgnoresPings(w, verify, r, timeout);
    var q := Quiet(w);
    NoPingsLeft(w.inbound);
    var (w1, verified) := Assigned(q, verify, timeout);
    if verified.Ok? {
      AssignedIff(q, verify, timeout, verified.value);
      MatchedIff(w1, verified.value, r, timeout, x);
    }
    forall v | AssignmentComes(q, verify, timeout, v) ensures verified == Ok(v) { AssignedIff(q, verify, timeout, v); }
  }

  /** The frame that came is a text frame. */
  predicate TextCame(w: Wire, timeout: nat) {
    Prompt(w.now, w.inbound, w.writes, timeout) && w.inbound[0].event.Frame? && w.inbound[0].event.message.TextFrame?
  }

  predicate BinaryCame(w: Wire, timeout: nat) {
    Prompt(w.now, w.inbound, w.writes, timeout) && w.inbound[0].event.Frame? && w.inbound[0].event.message.Binary?
  }

  /** What an exchange that fails on the wire says about the wire. */
  predicate WireFailure<T>(w: Wire, timeout: nat, r: Result<T, ClientError>) {
    var prompt := Prompt(w.now, w.inbound, w.writes, timeout);
    && (r == Err(TimedOut) <==> w.writes == [] || w.writes[0].takes > timeout || (w.writes[0].ok && !prompt))
    && (r == Err(SocketFailed) <==>
          (w.writes != [] && w.writes[0].takes <= timeout && !w.writes[0].ok)
          || (prompt && w.inbound[0].event in {TooLong, Broken}))
    && (r == Err(ConnectionClosed) <==> prompt && w.inbound[0].event in {Ended, Frame(Close)})
  }

  /** The first frame decides about the assignment: exactly when it fails, and how. */
  lemma AssignmentFailsIff(w: Wire, verify: Verifier, timeout: nat, error: ApiError)
    requires w.inbound != [] ==> !IsPing(w.inbound[0].event)
    ensures var r := Assigned(w, verify, timeout).1;
      && WireFailure(w, timeout, r)
      && (r == Err(HostReported(error)) <==>
            TextCame(w, timeout) && w.inbound[0].event.message.text.assignment.None?
            && w.inbound[0].event.message.text.envelope == Some(error))
      && (r == Err(MalformedMessage) <==>
            BinaryCame(w, timeout)
            || (TextCame(w, timeout) && w.inbound[0].event.message.text.assignment.None?
                && w.inbound[0].event.message.text.envelope.None?))
      && (r == Err(AssignmentNotVerified) <==>
            TextCame(w, timeout) && w.inbound[0].event.message.text.assignment.Some?
            && verify(w.inbound[0].event.message.text.assignment.value).None?)
  {
    if w.inbound != [] { assert ForAssignment(verify)(w.inbound[0].event).Some?; }
  }

  /** The next frame decides about the result of a request that was sent: exactly when it fails, and how. */
  lemma ResultFailsIff(w: Wire, v: Verified, r: MatchRequest, timeout: nat, error: ApiError)
    requires (w.inbound != [] ==> !IsPing(w.inbound[0].event)) && Sealed(v, r).Ok?
    ensures var result := Exchanged(w, v, r, timeout).1;
      && WireFailure(w, timeout, result)
      && (result == Err(HostReported(error)) <==>
            TextCame(w, timeout) && w.inbound[0].event.message.text.envelope == Some(error))
      && (result == Err(MalformedMessage) <==>
            TextCame(w, timeout) && w.inbound[0].event.message.text.envelope.None?)
      && (result == Err(MalformedResult) <==>
            BinaryCame(w, timeout) && |w.inbound[0].event.message.data| > MAX_MATCH_RESPONSE_BYTES)
      && (result == Err(ResultNotVerified) <==>
            BinaryCame(w, timeout) && |w.inbound[0].event.message.data| <= MAX_MATCH_RESPONSE_BYTES
            && r.open(v.key, w.inbound[0].event.message.data).None?)
  {
    if w.inbound != [] { assert ForResult(r, v.key)(w.inbound[0].event).Some?; }
  }
}
