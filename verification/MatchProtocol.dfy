/** The enclave's match protocol: concurrent handlers over the replay guard, one release and an engine
    of which only the `BiometricEngine` contract is known. */
module MatchProtocol {
  import opened SealedTypes
  import opened Wrappers
  import opened ResponseSlots
  import opened ReplayGuard
  import opened Pipeline
  import Envelope = ResponseEnvelope

  type Id = nat

  // What the libraries answer for one sealed body. The model starts from these answers.

  datatype RequestError = AatInvalid | RequestOutOfBounds | OtherwiseMalformed

  datatype Checked<+T> = Good(value: T) | Bad(error: RequestError)

  /** Public values of a verified authenticator assertion; `NoAat` when the request carries none. */
  datatype Aat = NoAat | AatValues(values: seq<nat>)

  datatype Request = Request(aud: FieldElement, nonce: FieldElement, payload: Checked<Payload>, aat: Checked<Aat>)

  /** `plaintext` is None when the channel cannot open the body; otherwise it holds what
      decoding under the loaded release's largest request size answers. */
  datatype Body = Body(length: nat, plaintext: Option<Checked<Request>>)

  function ReasonOf(e: RequestError): FailureReason {
    match e
    case AatInvalid => AatRejected
    case RequestOutOfBounds => FailureReason.RequestTooLarge
    case OtherwiseMalformed => MalformedInputs
  }

  // Claims

  /** Hashes as symbols: what was hashed. */
  datatype Digest = Zero | OfData(data: seq<int>) | OfConfig(releaseHash: seq<int>, pipeline: nat, strictness: nat)

  const MAX_COMPARED: nat := 4

  datatype Claims = Claims(
    comparedEntryHashes: seq<Digest>, aud: FieldElement, nonce: FieldElement, aat: Aat, engineConfigHash: Digest)

  function ComparedEntryHashes(p: Payload): (h: seq<Digest>)
    ensures |h| == MAX_COMPARED
  {
    seq(MAX_COMPARED, i requires 0 <= i < MAX_COMPARED =>
      if i < |p.compare| && p.compare[i] < |p.entries| then OfData(p.entries[p.compare[i]].data) else Zero)
  }

  function ExpectedClaims(r: Request, p: Payload): Checked<Claims> {
    match r.aat
    case Bad(e) => Bad(e)
    case Good(aat) =>
      Good(Claims(ComparedEntryHashes(p), r.aud, r.nonce, aat, OfConfig(p.releaseHash, p.pipeline, p.matchStrictness)))
  }

  // Before inference

  datatype Prepared = Prepared(claims: Claims, threshold: real, operation: Operation)

  function PairOf(c: Claims): Pair { Pair(c.aud, c.nonce) }

  /** Every check between a known pipeline and the reservation. */
  function Check(release: Release, spec: PipelineSpec, r: Request, p: Payload, sealedLen: nat)
    : Result<Prepared, FailureReason>
  {
    if sealedLen > spec.maxRequestBytes then Err(FailureReason.RequestTooLarge)
    else if p.matchStrictness !in release.strictnessLevels then Err(UnsupportedMatchStrictness) else
    match Threshold(p.matchStrictness)
    case Err(e) => Err(e)
    case Ok(threshold) =>
      match ExpectedClaims(r, p)
      case Bad(e) => Err(ReasonOf(e))
      case Good(claims) =>
        if Admissible(p) then Ok(Prepared(claims, threshold, OperationOf(p))) else Err(FailureReason.UnsupportedPipeline)
  }

  datatype Preparation = Preparation(slots: Slots, result: Result<Prepared, FailureReason>, guard: Guard, noRoom: bool)

  /** The checks in order, and the reservation last. `noRoom` records that a new pair was to be
      reserved while the set had no capacity. */
  function Prepare(release: Release, decoded: Checked<Request>, sealedLen: nat, guard: Guard): Preparation {
    var unresolved := [LatestFirstSlot(release.pipelines)];
    if decoded.Bad? then Preparation(unresolved, Err(ReasonOf(decoded.error)), guard, false) else
    var request := decoded.value;
    if request.payload.Bad? then Preparation(unresolved, Err(ReasonOf(request.payload.error)), guard, false) else
    var payload := request.payload.value;
    if payload.releaseHash != release.releaseHash then Preparation(unresolved, Err(UnsupportedRelease), guard, false) else
    var spec := FindPipeline(release.pipelines, payload.pipeline);
    if spec.None? then Preparation(unresolved, Err(FailureReason.UnsupportedPipeline), guard, false) else
    var slots := spec.value.responseSlots;
    var checked := Check(release, spec.value, request, payload, sealedLen);
    if checked.Err? then Preparation(slots, checked, guard, false) else
    var pair := Pair(request.aud, request.nonce);
    var (guard', answer) := ReserveIn(guard, pair);
    var noRoom := pair !in guard.processed && |guard.processed| >= guard.limit;
    Preparation(slots, if answer == Reserved then checked else Err(answer.reason), guard', noRoom)
  }

  // After inference

  datatype EnclaveError = NotReady | RequestNotOpened | TooLargeToOpen | EnclaveInternal

  datatype BiometricError =
    | Busy
    | EngineTimedOut
    | Rejected(reason: FailureReason)
    | AnalysisRejected(analysis: FailureReason, report: Option<Report>)
    | EngineFault

  datatype EngineAnswer =
    | DeepFaceScores(
        credentialLive: Score, credentialChallenge: Score, liveChallenge: Score, deepReport: Option<Report>)
    | GrayBadgeScores(liveScore: Score, grayReport: Option<Report>)
    | EngineError(error: BiometricError)

  /** A statement: the signed claims, and the attestation of the signing key. */
  datatype Statement = Statement(claims: Claims, attestation: seq<int>)

  type Outcome = MatchResult<Statement>

  datatype HandlerResult = Sealable(outcome: Outcome) | Unsealed(error: EnclaveError)

  function IntoResult(e: BiometricError): HandlerResult {
    match e
    case Busy => Unsealed(NotReady)
    case EngineTimedOut => Sealable(Failed(EngineTimeout, NotProduced))
    case EngineFault => Unsealed(EnclaveInternal)
    case Rejected(reason) =>
      if reason == FailureReason.Internal then Unsealed(EnclaveInternal) else Sealable(Failed(reason, NotProduced))
    case AnalysisRejected(reason, report) =>
      if reason == FailureReason.Internal then Unsealed(EnclaveInternal)
      else Sealable(Failed(reason, DebugReportFrom(report)))
  }

  function RoleScores(a: EngineAnswer): seq<(Score, ComparisonRole)> {
    match a
    case DeepFaceScores(cl, cc, lc, _) => [(cl, OrbSelfie), (cc, OrbChallenge), (lc, SelfieChallenge)]
    case GrayBadgeScores(lc, _) => [(lc, SelfieChallenge)]
    case EngineError(_) => []
  }

  function ReportOf(a: EngineAnswer): Option<Report> {
    match a
    case DeepFaceScores(_, _, _, report) => report
    case GrayBadgeScores(_, report) => report
    case EngineError(_) => None
  }

  datatype Verdict = ToSign | Finished(result: HandlerResult)

  /** What an engine answer means for the request, apart from its side effects. */
  function Judge(a: EngineAnswer, threshold: real): Verdict {
    if a.EngineError? then Finished(IntoResult(a.error))
    else
      match FirstFailure(RoleScores(a), threshold)
      case Some(reason) => Finished(IntoResult(AnalysisRejected(reason, ReportOf(a))))
      case None => ToSign
  }

  // The system

  datatype Reply = Sealed(outcome: Outcome) | Error(error: EnclaveError)

  datatype Phase =
    | Opening(alive: bool)               // the blocking open-and-prepare task runs; it outlives its caller
    | Ready(prepared: Prepared)          // prepared and reserved, engine not called yet
    | Engaged(prepared: Prepared, started: bool, calledAt: Instant)
    | Signing(prepared: Prepared, report: Option<Report>)
    | Sealing(result: Outcome)
    | Leaving(reply: Reply, readyAt: Instant)
    | Left(sent: Reply, wasReadyAt: Instant, at: Instant)
    | Abandoned

  /** One handler call. `prepared`, `answer`, `signed`, `noRoom` and `lost` record its history: what was
      prepared, what the engine answered, the attestation of its signing key, that the replay set had no
      room, and that the runtime dropped its opening or its sealing task unrun. */
  datatype Req = Req(
    arrival: Instant, body: Body, slots: Slots, phase: Phase,
    prepared: Option<Prepared>, answer: Option<EngineAnswer>, signed: Option<seq<int>>, noRoom: bool, lost: bool)

  datatype Dispatch = Dispatch(id: Id, pair: Pair)

  /** `holder` and `starts` record who reserved each processed pair and which inferences were dispatched. */
  datatype State = State(
    now: Instant, lag: nat, engineHash: seq<int>,
    release: Option<Release>, guard: Guard, overran: bool, terminations: nat,
    reqs: map<Id, Req>, holder: map<Pair, Id>, starts: seq<Dispatch>)

  datatype Action =
    | Tick(t: Instant)
    | LoadRelease(manifest: Option<Release>)
    | Arrive(id: Id, body: Body)
    | FinishOpening(id: Id)
    | CallEngine(id: Id)
    | StartInference(id: Id)
    | EngineAnswers(id: Id, answer: EngineAnswer)
    | Sign(id: Id, attestation: Option<seq<int>>)
    | Seal(id: Id, wire: Envelope.AttestedStatement, channelSeals: bool)
    | Leave(id: Id)
    | Cancel(id: Id)
    | LoseTask(id: Id)

  function Initial(now: Instant, lag: nat, engineHash: seq<int>): State {
    State(now, lag, engineHash, None, Fresh(MAX_PROCESSED_REQUESTS), false, 0, map[], map[], [])
  }

  function Deadline(r: Req): Instant { r.arrival + LastSlot(r.slots) * NANOS_PER_MILLI }

  /** When a response that was ready at `readyAt` leaves. */
  function LeaveTime(r: Req, readyAt: Instant): Instant
    requires r.arrival <= readyAt
  {
    r.arrival + LeavesAfter(r.slots, readyAt - r.arrival)
  }

  /** When an engine call has to be answered: by its deadline, or at once when called past it. */
  function AnswerBy(r: Req): Instant
    requires r.phase.Engaged?
  {
    Max(r.phase.calledAt, Deadline(r))
  }

  /** No engine call is still unanswered at `t` that had to be answered earlier, give or take how late
      the runtime polls. */
  predicate AnswersDue(s: State, t: Instant) {
    forall i :: i in s.reqs && s.reqs[i].phase.Engaged? ==> t <= AnswerBy(s.reqs[i]) + s.lag
  }

  /** The answer has the operation's shape. */
  predicate AnswerFits(op: Operation, a: EngineAnswer) {
    match a
    case DeepFaceScores(_, _, _, _) => op.DeepFace?
    case GrayBadgeScores(_, _) => op.GrayBadge?
    case EngineError(_) => true
  }

  /** The `BiometricEngine` contract: Busy only before inference started, every other answer only
      after, and a timeout only once the absolute deadline has passed. `AnswersDue` is its other half. */
  predicate ContractAllows(now: Instant, deadline: Instant, op: Operation, started: bool, a: EngineAnswer) {
    && AnswerFits(op, a)
    && (a == EngineError(Busy) <==> !started)
    && (a == EngineError(EngineTimedOut) ==> now >= deadline)
  }

  predicate At(s: State, i: Id) { i in s.reqs }

  /** What the handlers and the runtime can do, whatever the engine does. */
  predicate HandlerEnabled(s: State, a: Action) {
    match a
    case Tick(t) =>
      s.now <= t && forall i :: i in s.reqs && s.reqs[i].phase.Leaving? && s.reqs[i].arrival <= s.reqs[i].phase.readyAt ==>
        t <= LeaveTime(s.reqs[i], s.reqs[i].phase.readyAt) + s.lag
    case LoadRelease(manifest) => manifest.Some? ==> ValidRelease(manifest.value)
    case Arrive(i, _) => i !in s.reqs
    case FinishOpening(i) => At(s, i) && s.reqs[i].phase.Opening? && s.release.Some?
    case CallEngine(i) => At(s, i) && s.reqs[i].phase.Ready?
    case StartInference(i) => At(s, i) && s.reqs[i].phase.Engaged? && !s.reqs[i].phase.started
    case EngineAnswers(i, answer) => At(s, i) && s.reqs[i].phase.Engaged?
    case Sign(i, _) => At(s, i) && s.reqs[i].phase.Signing?
    case Seal(i, _, _) => At(s, i) && s.reqs[i].phase.Sealing?
    case Leave(i) =>
      At(s, i) && s.reqs[i].phase.Leaving? && s.reqs[i].arrival <= s.reqs[i].phase.readyAt
      && s.now >= LeaveTime(s.reqs[i], s.reqs[i].phase.readyAt)
    case Cancel(i) =>
      At(s, i) && !s.reqs[i].phase.Left? && !s.reqs[i].phase.Abandoned? && s.reqs[i].phase != Opening(false)
    case LoseTask(i) => At(s, i) && (s.reqs[i].phase.Opening? || s.reqs[i].phase.Sealing?)
  }

  /** What can happen when the engine keeps its contract. */
  predicate Enabled(s: State, a: Action) {
    && HandlerEnabled(s, a)
    && (a.Tick? ==> AnswersDue(s, a.t))
    && (a.EngineAnswers? ==>
          var r := s.reqs[a.id];
          ContractAllows(s.now, Deadline(r), r.phase.prepared.operation, r.phase.started, a.answer))
  }

  function Put(s: State, i: Id, r: Req): State { s.(reqs := s.reqs[i := r]) }

  /** `load_release`: the first accepted manifest stays. */
  function Loaded(release: Option<Release>, engineHash: seq<int>, manifest: Option<Release>): (Option<Release>, bool) {
    if manifest.None? || manifest.value.engineHash != engineHash then (release, false)
    else if release.None? then (manifest, true)
    else (release, release.value.releaseHash == manifest.value.releaseHash)
  }

  /** The error a request gets on arrival, before anything is opened. */
  function ArrivalError(s: State, body: Body): Option<EnclaveError> {
    if s.release.None? || s.overran then Some(NotReady)
    else if body.length > MAX_MATCH_BODY_BYTES || body.length > LargestRequest(s.release.value.pipelines)
    then Some(TooLargeToOpen)
    else None
  }

  function AfterOpening(s: State, i: Id): State
    requires HandlerEnabled(s, FinishOpening(i))
  {
    var r := s.reqs[i];
    var alive := r.phase.alive;
    if r.body.plaintext.None? then
      Put(s, i, r.(phase := if alive then Left(Error(RequestNotOpened), s.now, s.now) else Abandoned))
    else
      var p := Prepare(s.release.value, r.body.plaintext.value, r.body.length, s.guard);
      var s' := s.(guard := p.guard,
                   holder := if p.result.Ok? then s.holder[PairOf(p.result.value.claims) := i] else s.holder);
      var phase := if !alive then Abandoned
                   else if p.result.Ok? then Ready(p.result.value)
                   else Sealing(Failed(p.result.error, NotProduced));
      var prepared := if p.result.Ok? then Some(p.result.value) else None;
      Put(s', i, r.(slots := p.slots, phase := phase, prepared := prepared, noRoom := p.noRoom))
  }

  function AfterAnswer(s: State, i: Id, a: EngineAnswer): State
    requires HandlerEnabled(s, EngineAnswers(i, a))
  {
    var r := s.reqs[i];
    var p := r.phase.prepared;
    var pair := PairOf(p.claims);
    var s1 := if a == EngineError(Busy) then s.(guard := ReleaseFrom(s.guard, pair), holder := s.holder - {pair})
              else if a == EngineError(EngineTimedOut) && !s.overran then
                s.(overran := true, terminations := s.terminations + 1)
              else s;
    var phase := match Judge(a, p.threshold)
                 case ToSign => Signing(p, ReportOf(a))
                 case Finished(Sealable(outcome)) => Sealing(outcome)
                 case Finished(Unsealed(error)) => Leaving(Error(error), s.now);
    Put(s1, i, r.(phase := phase, answer := Some(a)))
  }

  function AfterStart(s: State, i: Id): State
    requires HandlerEnabled(s, StartInference(i))
  {
    var p := s.reqs[i].phase.prepared;
    Put(s, i, s.reqs[i].(phase := Engaged(p, true, s.reqs[i].phase.calledAt)))
      .(starts := s.starts + [Dispatch(i, PairOf(p.claims))])
  }

  function AfterSign(s: State, i: Id, attestation: Option<seq<int>>): State
    requires HandlerEnabled(s, Sign(i, attestation))
  {
    var p := s.reqs[i].phase;
    var phase := match attestation
                 case Some(doc) => Sealing(Success(Statement(p.prepared.claims, doc), DebugReportFrom(p.report)))
                 case None => Leaving(Error(EnclaveInternal), s.now);
    Put(s, i, s.reqs[i].(phase := phase, signed := attestation))
  }

  /** The wire form of an outcome whose statement is encoded as `wire`. */
  function WireForm(o: Outcome, wire: Envelope.AttestedStatement): Envelope.Response {
    match o
    case Success(_, report) => Success(wire, report)
    case Failed(reason, report) => Failed(reason, report)
  }

  function SealedReply(o: Outcome, wire: Envelope.AttestedStatement, channelSeals: bool): Reply {
    match Envelope.Delivered(WireForm(o, wire))
    case Err(_) => Error(EnclaveInternal)
    case Ok(delivered) =>
      if channelSeals then Sealed(o.(debugReport := delivered.debugReport)) else Error(EnclaveInternal)
  }

  function Apply(s: State, a: Action): State
    requires HandlerEnabled(s, a)
  {
    match a
    case Tick(t) => s.(now := t)
    case LoadRelease(manifest) => s.(release := Loaded(s.release, s.engineHash, manifest).0)
    case Arrive(i, body) =>
      var error := ArrivalError(s, body);
      var phase := if error.Some? then Left(Error(error.value), s.now, s.now) else Opening(true);
      Put(s, i, Req(s.now, body, [], phase, None, None, None, false, false))
    case FinishOpening(i) => AfterOpening(s, i)
    case CallEngine(i) => Put(s, i, s.reqs[i].(phase := Engaged(s.reqs[i].phase.prepared, false, s.now)))
    case StartInference(i) => AfterStart(s, i)
    case EngineAnswers(i, answer) => AfterAnswer(s, i, answer)
    case Sign(i, attestation) => AfterSign(s, i, attestation)
    case Seal(i, wire, channelSeals) =>
      Put(s, i, s.reqs[i].(phase := Leaving(SealedReply(s.reqs[i].phase.result, wire, channelSeals), s.now)))
    case Leave(i) => Put(s, i, s.reqs[i].(phase := Left(s.reqs[i].phase.reply, s.reqs[i].phase.readyAt, s.now)))
    case Cancel(i) =>
      Put(s, i, s.reqs[i].(phase := if s.reqs[i].phase.Opening? then Opening(false) else Abandoned))
    case LoseTask(i) =>
      // The join error of `blocking` is returned at once: nothing was reserved, and no slot is awaited.
      var phase := if s.reqs[i].phase == Opening(false) then Abandoned
                   else Left(Error(EnclaveInternal), s.now, s.now);
      Put(s, i, s.reqs[i].(phase := phase, lost := true))
  }
}
