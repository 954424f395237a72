/** What every step of the match protocol keeps, and what holds over every run. */
module MatchSafety {
  import opened SealedTypes
  import opened Wrappers
  import opened ResponseSlots
  import opened ReplayGuard
  import opened Pipeline
  import opened MatchProtocol
  import Envelope = ResponseEnvelope

  /** The request behind `body` names the loaded release, passed its pipeline's size and strictness
      checks, verified its assertion, and `p` is exactly what it asked for. */
  ghost predicate PreparedFor(release: Release, body: Body, slots: Slots, p: Prepared) {
    && body.plaintext.Some? && body.plaintext.value.Good? && body.plaintext.value.value.payload.Good?
    && var request := body.plaintext.value.value;
    var payload := request.payload.value;
    var spec := FindPipeline(release.pipelines, payload.pipeline);
    && payload.releaseHash == release.releaseHash
    && spec.Some? && slots == spec.value.responseSlots
    && body.length <= spec.value.maxRequestBytes
    && payload.matchStrictness in release.strictnessLevels
    && Threshold(payload.matchStrictness) == Ok(p.threshold)
    && ClaimsFor(request, payload, p.claims)
    && Admissible(payload) && p.operation == OperationOf(payload)
  }

  /** Field by field, what a token for this request signs: the hashes of the compared entries in order,
      the request's own pair, the values of its verified assertion, and the configuration it asked for. */
  predicate ClaimsFor(r: Request, p: Payload, c: Claims) {
    && c.aud == r.aud && c.nonce == r.nonce && r.aat == Good(c.aat)
    && c.engineConfigHash == OfConfig(p.releaseHash, p.pipeline, p.matchStrictness)
    && |c.comparedEntryHashes| == MAX_COMPARED
    && forall n :: 0 <= n < MAX_COMPARED ==>
         c.comparedEntryHashes[n] == if n < |p.compare| && p.compare[n] < |p.entries|
                                     then OfData(p.entries[p.compare[n]].data) else Zero
  }

  /** The expected claims are exactly these, and there are none exactly when the assertion fails. */
  lemma ExpectedClaimsIff(r: Request, p: Payload, c: Claims, e: RequestError)
    ensures ExpectedClaims(r, p) == Good(c) <==> ClaimsFor(r, p, c)
    ensures ExpectedClaims(r, p) == Bad(e) <==> r.aat == Bad(e)
  {
    if ClaimsFor(r, p, c) { assert c.comparedEntryHashes == ComparedEntryHashes(p); }
  }

  /** A preparation succeeds exactly for a request that passed every check, whose pair is new, while
      the replay set has room for it. */
  lemma PrepareSucceedsIff(release: Release, body: Body, guard: Guard, slots: Slots, p: Prepared)
    requires body.plaintext.Some?
    ensures var q := Prepare(release, body.plaintext.value, body.length, guard);
      q.result == Ok(p) && q.slots == slots <==>
        PreparedFor(release, body, slots, p) && PairOf(p.claims) !in guard.processed && |guard.processed| < guard.limit
  {
    if body.plaintext.value.Good? && body.plaintext.value.value.payload.Good? {
      ExpectedClaimsIff(body.plaintext.value.value, body.plaintext.value.value.payload.value, p.claims, AatInvalid);
    }
  }

  /** What a successful preparation leaves behind: its pair reserved, and nothing else changed. */
  lemma PrepareSucceeds(release: Release, body: Body, guard: Guard)
    requires body.plaintext.Some? && Consistent(guard)
    requires Prepare(release, body.plaintext.value, body.length, guard).result.Ok?
    ensures var p := Prepare(release, body.plaintext.value, body.length, guard);
            var pair := PairOf(p.result.value.claims);
            && PreparedFor(release, body, p.slots, p.result.value)
            && pair !in guard.processed && p.guard.processed == guard.processed + {pair}
            && p.guard.limit == guard.limit && Consistent(p.guard) && !p.noRoom
  {
    var p := Prepare(release, body.plaintext.value, body.length, guard);
    PrepareSucceedsIff(release, body, guard, p.slots, p.result.value);
  }

  /** A refused preparation reserves nothing, and its reason is Internal exactly when a new pair
      found the replay set without capacity. */
  lemma PrepareFails(release: Release, decoded: Checked<Request>, length: nat, guard: Guard)
    requires Consistent(guard) && Prepare(release, decoded, length, guard).result.Err?
    ensures var p := Prepare(release, decoded, length, guard);
            && p.guard.processed == guard.processed && p.guard.limit == guard.limit && Consistent(p.guard)
            && (p.result.error == FailureReason.Internal <==> p.noRoom)
            && RefusedFor(release, decoded, length, p.result.error)
  {}

  /** What a decoding error is called in the sealed response. */
  predicate Means(e: RequestError, reason: FailureReason) {
    && (e == AatInvalid <==> reason == AatRejected)
    && (e == RequestOutOfBounds <==> reason == FailureReason.RequestTooLarge)
    && (e == OtherwiseMalformed <==> reason == MalformedInputs)
  }

  /** `reason` names the first check the request fails, or the replay set refused one that fails none. */
  predicate RefusedFor(release: Release, decoded: Checked<Request>, length: nat, reason: FailureReason) {
    if decoded.Bad? then Means(decoded.error, reason) else
    if decoded.value.payload.Bad? then Means(decoded.value.payload.error, reason) else
    var payload := decoded.value.payload.value;
    if payload.releaseHash != release.releaseHash then reason == UnsupportedRelease else
    var spec := FindPipeline(release.pipelines, payload.pipeline);
    if spec.None? then reason == FailureReason.UnsupportedPipeline
    else if length > spec.value.maxRequestBytes then reason == FailureReason.RequestTooLarge
    else if payload.matchStrictness !in release.strictnessLevels || payload.matchStrictness !in {1, 2, 3} then
      reason == FailureReason.UnsupportedMatchStrictness
    else if decoded.value.aat.Bad? then Means(decoded.value.aat.error, reason)
    else if !Admissible(payload) then reason == FailureReason.UnsupportedPipeline
    else reason == Replayed || reason == FailureReason.Internal
  }

  /** The replay set is asked last, and refuses a request that fails no check as Replayed exactly when it
      already holds its pair. */
  lemma ReplayIsCheckedLast(release: Release, body: Body, slots: Slots, p: Prepared, guard: Guard)
    requires PreparedFor(release, body, slots, p)
    ensures var q, held := Prepare(release, body.plaintext.value, body.length, guard), PairOf(p.claims) in guard.processed;
      && (q.result == Err(Replayed) <==> held)
      && (q.result == Err(FailureReason.Internal) <==> !held && |guard.processed| >= guard.limit)
      && (q.result == Ok(p) <==> !held && |guard.processed| < guard.limit)
      && q.slots == slots
  {
    var request := body.plaintext.value.value;
    ExpectedClaimsIff(request, request.payload.value, p.claims, AatInvalid);
  }

  /** A manifest is accepted exactly when it is this bundle's and no other release is loaded; the first
      accepted one stays. */
  lemma LoadedIff(release: Option<Release>, engineHash: seq<int>, manifest: Option<Release>)
    ensures var (after, ok) := Loaded(release, engineHash, manifest);
      && (ok <==> manifest.Some? && manifest.value.engineHash == engineHash
                  && (release.Some? ==> release.value.releaseHash == manifest.value.releaseHash))
      && (release.Some? ==> after == release)
      && (release.None? ==> after == if ok then manifest else None)
  {}

  /** A request is let in exactly when a release is loaded, no request overran, and its body is within the
      fixed limit and some pipeline's; the two refusals never mix. */
  lemma ArrivalErrorIff(s: State, body: Body)
    ensures ArrivalError(s, body) == Some(NotReady) <==> s.release.None? || s.overran
    ensures ArrivalError(s, body).None? <==>
              && s.release.Some? && !s.overran && body.length <= 7 * 1024 * 1024 + 12 * 1024
              && (body.length == 0 || exists i :: 0 <= i < |s.release.value.pipelines|
                                        && body.length <= s.release.value.pipelines[i].maxRequestBytes)
    ensures ArrivalError(s, body) in {None, Some(NotReady), Some(TooLargeToOpen)}
  {
    if s.release.Some? { LargestRequestIff(s.release.value.pipelines, body.length); }
  }

  lemma PrepareSlots(release: Release, decoded: Checked<Request>, length: nat, guard: Guard)
    requires ValidRelease(release)
    ensures ValidSlots(Prepare(release, decoded, length, guard).slots)
    ensures SlotsOf(release, decoded, Prepare(release, decoded, length, guard).slots)
  {
    if decoded.Good? && decoded.value.payload.Good? {
      FoundPipeline(release.pipelines, decoded.value.payload.value.pipeline);
    }
  }

  /** The slots of the request's pipeline when it names the loaded release and one of its pipelines;
      otherwise the latest first slot of any pipeline. */
  predicate SlotsOf(release: Release, decoded: Checked<Request>, slots: Slots) {
    if decoded.Good? && decoded.value.payload.Good? && decoded.value.payload.value.releaseHash == release.releaseHash
       && FindPipeline(release.pipelines, decoded.value.payload.value.pipeline).Some?
    then slots == FindPipeline(release.pipelines, decoded.value.payload.value.pipeline).value.responseSlots
    else slots == [LatestFirstSlot(release.pipelines)]
  }

  // What every reachable state keeps

  /** The request owns the reservation of its pair. */
  predicate Holds(s: State, r: Req, i: Id) {
    r.prepared.Some? && PairOf(r.prepared.value.claims) in s.holder && s.holder[PairOf(r.prepared.value.claims)] == i
  }

  predicate Dispatched(s: State, r: Req, i: Id) {
    r.prepared.Some? && Dispatch(i, PairOf(r.prepared.value.claims)) in s.starts
  }

  /** Every score of the answer passes. */
  predicate AllPass(a: EngineAnswer, threshold: real) {
    match a
    case DeepFaceScores(cl, cc, lc, _) => Passes(cl, threshold) && Passes(cc, threshold) && Passes(lc, threshold)
    case GrayBadgeScores(lc, _) => Passes(lc, threshold)
    case EngineError(_) => false
  }

  /** The engine answered for the prepared operation, and every score passed. */
  predicate Passed(r: Req) {
    && r.prepared.Some? && r.answer.Some?
    && AnswerFits(r.prepared.value.operation, r.answer.value) && AllPass(r.answer.value, r.prepared.value.threshold)
  }

  predicate Below(score: Score, threshold: real) { InRange(score) && score.value < threshold }

  /** The sealed rejection this answer leads to: the engine's own, or the first comparison below the
      threshold, in the order credential-live, credential-challenge, live-challenge. */
  predicate Explains(a: EngineAnswer, threshold: real, reason: FailureReason, report: DebugReport) {
    match a
    case EngineError(EngineTimedOut) => reason == EngineTimeout && report == NotProduced
    case EngineError(Rejected(x)) => x != FailureReason.Internal && reason == x && report == NotProduced
    case EngineError(AnalysisRejected(x, r)) => x != FailureReason.Internal && reason == x && report == DebugReportFrom(r)
    case EngineError(_) => false
    case GrayBadgeScores(lc, r) =>
      Below(lc, threshold) && reason == MatchBelowThreshold(SelfieChallenge) && report == DebugReportFrom(r)
    case DeepFaceScores(cl, cc, lc, r) =>
      && report == DebugReportFrom(r)
      && (|| (Below(cl, threshold) && reason == MatchBelowThreshold(OrbSelfie))
          || (Passes(cl, threshold) && Below(cc, threshold) && reason == MatchBelowThreshold(OrbChallenge))
          || (Passes(cl, threshold) && Passes(cc, threshold) && Below(lc, threshold)
              && reason == MatchBelowThreshold(SelfieChallenge)))
  }

  /** The answer is a fault of the enclave: the first score that does not pass is no similarity at all, or
      the engine failed or says so. */
  predicate Faults(a: EngineAnswer, threshold: real) {
    match a
    case EngineError(e) =>
      e == EngineFault || e == Rejected(FailureReason.Internal)
      || (e.AnalysisRejected? && e.analysis == FailureReason.Internal)
    case GrayBadgeScores(lc, _) => !InRange(lc)
    case DeepFaceScores(cl, cc, lc, _) =>
      !InRange(cl) || (Passes(cl, threshold) && (!InRange(cc) || (Passes(cc, threshold) && !InRange(lc))))
  }

  /** What backs an outcome. */
  predicate Backed(s: State, i: Id, o: Outcome)
    requires i in s.reqs
  {
    var r := s.reqs[i];
    match o
    case Success(statement, _) =>
      Passed(r) && statement.claims == r.prepared.value.claims && Holds(s, r, i) && Dispatched(s, r, i)
    case Failed(reason, report) =>
      (reason == FailureReason.Internal <==> r.noRoom)
      && Envelope.Valid(MatchResult<Envelope.AttestedStatement>.Failed(reason, report))
  }

  predicate ReplyBacked(s: State, i: Id, reply: Reply)
    requires i in s.reqs
  {
    reply.Sealed? ==> Backed(s, i, reply.outcome)
  }

  /** The phase agrees with the request's history. */
  predicate PhaseAgrees(s: State, i: Id)
    requires i in s.reqs
  {
    var r := s.reqs[i];
    match r.phase
    case Opening(_) => r.prepared.None? && !r.noRoom
    case Ready(p) => r.prepared == Some(p) && Holds(s, r, i) && !Dispatched(s, r, i) && !r.noRoom
    case Engaged(p, started, _) => r.prepared == Some(p) && Holds(s, r, i) && (started <==> Dispatched(s, r, i)) && !r.noRoom
    case Signing(p, _) => r.prepared == Some(p) && Holds(s, r, i) && Dispatched(s, r, i) && Passed(r) && !r.noRoom
    case Sealing(result) => Backed(s, i, result)
    case Leaving(reply, _) => ReplyBacked(s, i, reply)
    case Left(reply, _, _) => ReplyBacked(s, i, reply)
    case Abandoned => true
  }

  /** What a lost task leads to: an error that leaves at once. */
  predicate LostAgrees(r: Req) {
    && (r.lost ==> r.phase.Left? || r.phase.Abandoned?)
    && (r.lost && r.phase.Left? ==>
          r.phase.sent == Error(EnclaveInternal) && r.arrival <= r.phase.wasReadyAt == r.phase.at)
  }

  /** Slots and times: only a request that was never opened, or whose task was lost, leaves without a slot. */
  predicate Timely(s: State, i: Id)
    requires i in s.reqs
  {
    var r := s.reqs[i];
    && r.arrival <= s.now
    && LostAgrees(r)
    && (r.phase.Engaged? ==> r.arrival <= r.phase.calledAt <= s.now <= AnswerBy(r) + s.lag)
    && (r.phase.Ready? || r.phase.Engaged? || r.phase.Signing? || r.phase.Sealing? || r.phase.Leaving? ==> r.slots != [])
    && (r.phase.Leaving? ==>
          r.arrival <= r.phase.readyAt <= s.now && s.now <= LeaveTime(r, r.phase.readyAt) + s.lag)
    && (r.phase.Left? && r.slots != [] && !r.lost ==>
          r.arrival <= r.phase.wasReadyAt
          && LeaveTime(r, r.phase.wasReadyAt) <= r.phase.at <= LeaveTime(r, r.phase.wasReadyAt) + s.lag)
    && (r.phase.Left? && r.slots == [] ==>
          r.phase.sent.Error? && (r.phase.sent.error == EnclaveInternal ==> r.lost))
    && (r.slots != [] ==>
          s.release.Some? && r.body.plaintext.Some?
          && ValidSlots(r.slots) && SlotsOf(s.release.value, r.body.plaintext.value, r.slots))
  }

  ghost predicate ReqInvariant(s: State, i: Id)
    requires i in s.reqs
  {
    var r := s.reqs[i];
    && (r.phase.Opening? ==> s.release.Some?)
    && (r.prepared.Some? ==> s.release.Some? && PreparedFor(s.release.value, r.body, r.slots, r.prepared.value))
    && PhaseAgrees(s, i)
    && Timely(s, i)
  }

  /** Reservations: the set is exactly what has an owner, and each owner asked for that pair. */
  predicate HoldersMatch(s: State) {
    && Consistent(s.guard) && s.guard.limit > 0
    && s.guard.processed == s.holder.Keys
    && forall p :: p in s.holder ==> s.holder[p] in s.reqs && Owner(s, s.holder[p], p)
  }

  predicate Owner(s: State, i: Id, p: Pair)
    requires i in s.reqs
  {
    s.reqs[i].prepared.Some? && PairOf(s.reqs[i].prepared.value.claims) == p
  }

  /** Every dispatched inference keeps its reservation, and no request is dispatched twice. */
  predicate StartsHeld(s: State) {
    && (forall k :: 0 <= k < |s.starts| ==>
          s.starts[k].pair in s.holder && s.holder[s.starts[k].pair] == s.starts[k].id)
    && (forall k, l :: 0 <= k < l < |s.starts| ==> s.starts[k].id != s.starts[l].id)
  }

  predicate Engine(s: State) {
    && s.terminations == (if s.overran then 1 else 0)
    && (s.release.Some? ==> ValidRelease(s.release.value) && s.release.value.engineHash == s.engineHash)
  }

  ghost predicate Invariant(s: State) {
    && HoldersMatch(s)
    && StartsHeld(s)
    && Engine(s)
    && forall i :: i in s.reqs ==> ReqInvariant(s, i)
  }

  lemma InitialInvariant(now: Instant, lag: nat, engineHash: seq<int>)
    ensures Invariant(Initial(now, lag, engineHash))
  {}

  /** A step that only moves one request along, leaving reservations and dispatches alone. */
  predicate OnlyMoves(s: State, s': State, i: Id) {
    && i in s'.reqs
    && s' == s.(reqs := s'.reqs, overran := s'.overran, terminations := s'.terminations)
    && s'.reqs == s.reqs[i := s'.reqs[i]]
    && (i in s.reqs ==> s'.reqs[i].prepared == s.reqs[i].prepared)
  }

  lemma OthersUntouched(s: State, s': State, i: Id, j: Id)
    requires OnlyMoves(s, s', i) && j in s.reqs && j != i && ReqInvariant(s, j)
    ensures ReqInvariant(s', j)
  {}

  lemma MoveKeepsHolders(s: State, s': State, i: Id)
    requires HoldersMatch(s) && OnlyMoves(s, s', i)
    ensures HoldersMatch(s')
  {}

  lemma MoveKeeps(s: State, s': State, i: Id)
    requires Invariant(s) && OnlyMoves(s, s', i) && Engine(s') && ReqInvariant(s', i)
    ensures Invariant(s')
  {
    MoveKeepsHolders(s, s', i);
    forall j | j in s'.reqs && j != i ensures ReqInvariant(s', j) {
      OthersUntouched(s, s', i, j);
    }
  }

  lemma TickKeeps(s: State, t: Instant)
    requires Invariant(s) && Enabled(s, Tick(t))
    ensures Invariant(Apply(s, Tick(t)))
  {
    MoveOn(s, t);
    forall i | i in s.reqs ensures ReqInvariant(s.(now := t), i) {
      assert ReqInvariant(s, i);
      TickKeepsRequest(s, t, i);
    }
  }

  lemma TickKeepsRequest(s: State, t: Instant, i: Id)
    requires i in s.reqs && ReqInvariant(s, i) && s.now <= t
    requires s.reqs[i].phase.Leaving? ==> t <= LeaveTime(s.reqs[i], s.reqs[i].phase.readyAt) + s.lag
    requires s.reqs[i].phase.Engaged? ==> t <= AnswerBy(s.reqs[i]) + s.lag
    ensures ReqInvariant(s.(now := t), i)
  {
    var s' := s.(now := t);
    TickKeepsTimes(s, t, i);
    assert Holds(s', s.reqs[i], i) == Holds(s, s.reqs[i], i);
    assert PhaseAgrees(s', i);
  }

  lemma TickKeepsTimes(s: State, t: Instant, i: Id)
    requires i in s.reqs && Timely(s, i) && s.now <= t
    requires s.reqs[i].phase.Leaving? ==> t <= LeaveTime(s.reqs[i], s.reqs[i].phase.readyAt) + s.lag
    requires s.reqs[i].phase.Engaged? ==> t <= AnswerBy(s.reqs[i]) + s.lag
    ensures Timely(s.(now := t), i)
  {}

  lemma MoveOn(s: State, t: Instant)
    requires HoldersMatch(s)
    ensures HoldersMatch(s.(now := t))
  {}

  lemma LoadKeeps(s: State, manifest: Option<Release>)
    requires Invariant(s) && Enabled(s, LoadRelease(manifest))
    ensures Invariant(Apply(s, LoadRelease(manifest)))
  {}

  lemma ArriveKeeps(s: State, i: Id, body: Body)
    requires Invariant(s) && Enabled(s, Arrive(i, body))
    ensures Invariant(Apply(s, Arrive(i, body)))
  {
    MoveKeeps(s, Apply(s, Arrive(i, body)), i);
  }

  lemma CallKeeps(s: State, i: Id)
    requires Invariant(s) && Enabled(s, CallEngine(i))
    ensures Invariant(Apply(s, CallEngine(i)))
  {
    assert ReqInvariant(s, i);
    CalledRequest(s, i);
    MoveKeeps(s, Apply(s, CallEngine(i)), i);
  }

  lemma CalledRequest(s: State, i: Id)
    requires HandlerEnabled(s, CallEngine(i)) && ReqInvariant(s, i)
    ensures ReqInvariant(Apply(s, CallEngine(i)), i)
  {}

  lemma SignedRequest(s: State, i: Id, attestation: Option<seq<int>>)
    requires HandlerEnabled(s, Sign(i, attestation)) && ReqInvariant(s, i)
    ensures ReqInvariant(AfterSign(s, i, attestation), i)
  {}

  lemma SignKeeps(s: State, i: Id, attestation: Option<seq<int>>)
    requires Invariant(s) && Enabled(s, Sign(i, attestation))
    ensures Invariant(AfterSign(s, i, attestation))
  {
    assert ReqInvariant(s, i);
    SignedRequest(s, i, attestation);
    MoveKeeps(s, AfterSign(s, i, attestation), i);
  }

  /** A response that becomes ready now is not late. */
  lemma ReadyNow(s: State, i: Id)
    requires i in s.reqs && s.reqs[i].arrival <= s.now
    ensures s.now <= LeaveTime(s.reqs[i], s.now)
  {}

  lemma SealKeeps(s: State, i: Id, wire: Envelope.AttestedStatement, channelSeals: bool)
    requires Invariant(s) && Enabled(s, Seal(i, wire, channelSeals))
    ensures Invariant(Apply(s, Seal(i, wire, channelSeals)))
  {
    assert ReqInvariant(s, i);
    SealingRequest(s, i, wire, channelSeals);
    MoveKeeps(s, Apply(s, Seal(i, wire, channelSeals)), i);
  }

  lemma SealingRequest(s: State, i: Id, wire: Envelope.AttestedStatement, channelSeals: bool)
    requires HandlerEnabled(s, Seal(i, wire, channelSeals)) && ReqInvariant(s, i)
    ensures ReqInvariant(Apply(s, Seal(i, wire, channelSeals)), i)
  {
    var s' := Apply(s, Seal(i, wire, channelSeals));
    var o := s.reqs[i].phase.result;
    ReadyNow(s, i);
    SealingKeepsOutcome(o, wire, channelSeals);
    assert Backed(s, i, o);
    assert ReplyBacked(s', i, SealedReply(o, wire, channelSeals));
    assert Timely(s', i);
  }

  /** Sealing at most leaves the debug report out, and never out of a rejection. */
  lemma SealingKeepsOutcome(o: Outcome, wire: Envelope.AttestedStatement, channelSeals: bool)
    requires o.Failed? ==> Envelope.Valid(MatchResult<Envelope.AttestedStatement>.Failed(o.failure, o.debugReport))
    ensures var reply := SealedReply(o, wire, channelSeals);
      reply.Sealed? ==> if o.Failed? then reply.outcome == o
                        else reply.outcome.Success? && reply.outcome.statement == o.statement
  {
    if o.Failed? { Envelope.RejectionAlwaysFits(o.failure, o.debugReport); }
  }

  lemma LeaveKeeps(s: State, i: Id)
    requires Invariant(s) && Enabled(s, Leave(i))
    ensures Invariant(Apply(s, Leave(i)))
  {
    assert ReqInvariant(s, i);
    LeavingRequest(s, i);
    MoveKeeps(s, Apply(s, Leave(i)), i);
  }

  lemma LeavingRequest(s: State, i: Id)
    requires HandlerEnabled(s, Leave(i)) && ReqInvariant(s, i)
    ensures ReqInvariant(Apply(s, Leave(i)), i)
  {
    var s' := Apply(s, Leave(i));
    assert ReplyBacked(s', i, s.reqs[i].phase.reply);
    assert Timely(s', i);
  }

  lemma LoseKeeps(s: State, i: Id)
    requires Invariant(s) && Enabled(s, LoseTask(i))
    ensures Invariant(Apply(s, LoseTask(i)))
  {
    assert ReqInvariant(s, i);
    LostRequest(s, i);
    MoveKeeps(s, Apply(s, LoseTask(i)), i);
  }

  lemma LostRequest(s: State, i: Id)
    requires HandlerEnabled(s, LoseTask(i)) && ReqInvariant(s, i)
    ensures ReqInvariant(Apply(s, LoseTask(i)), i)
  {}

  lemma CancelKeeps(s: State, i: Id)
    requires Invariant(s) && Enabled(s, Cancel(i))
    ensures Invariant(Apply(s, Cancel(i)))
  {
    assert ReqInvariant(s, i);
    MoveKeeps(s, Apply(s, Cancel(i)), i);
  }

  lemma StartLeavesOthers(s: State, i: Id, j: Id)
    requires HandlerEnabled(s, StartInference(i)) && j in s.reqs && j != i && ReqInvariant(s, j)
    ensures ReqInvariant(AfterStart(s, i), j)
  {}

  lemma StartKeepsHolders(s: State, i: Id)
    requires HandlerEnabled(s, StartInference(i)) && HoldersMatch(s) && StartsHeld(s) && PhaseAgrees(s, i)
    ensures HoldersMatch(AfterStart(s, i)) && StartsHeld(AfterStart(s, i))
  {}

  lemma StartKeeps(s: State, i: Id)
    requires Invariant(s) && Enabled(s, StartInference(i))
    ensures Invariant(AfterStart(s, i))
  {
    var s' := AfterStart(s, i);
    assert ReqInvariant(s, i);
    StartKeepsHolders(s, i);
    StartedRequest(s, i);
    forall j | j in s'.reqs && j != i ensures ReqInvariant(s', j) {
      StartLeavesOthers(s, i, j);
    }
  }

  lemma StartedRequest(s: State, i: Id)
    requires HandlerEnabled(s, StartInference(i)) && ReqInvariant(s, i)
    ensures ReqInvariant(AfterStart(s, i), i)
  {}

  /** What finishing an opening does to the reservations. */
  lemma OpeningReserves(s: State, i: Id)
    requires HandlerEnabled(s, FinishOpening(i)) && Consistent(s.guard)
    ensures var s', r := AfterOpening(s, i), s.reqs[i];
            && s'.starts == s.starts && s'.reqs.Keys == s.reqs.Keys && s'.now == s.now && s'.lag == s.lag
            && s'.release == s.release && s'.overran == s.overran && s'.terminations == s.terminations
            && s'.engineHash == s.engineHash
            && Consistent(s'.guard) && s'.guard.limit == s.guard.limit
            && (forall j :: j in s.reqs && j != i ==> s'.reqs[j] == s.reqs[j])
            && if s'.reqs[i].prepared.Some? && r.body.plaintext.Some? then
                 var pair := PairOf(s'.reqs[i].prepared.value.claims);
                 pair !in s.guard.processed
                 && s'.guard.processed == s.guard.processed + {pair} && s'.holder == s.holder[pair := i]
               else s'.guard.processed == s.guard.processed && s'.holder == s.holder
  {
    var r := s.reqs[i];
    if r.body.plaintext.Some? {
      var p := Prepare(s.release.value, r.body.plaintext.value, r.body.length, s.guard);
      if p.result.Ok? { PrepareSucceeds(s.release.value, r.body, s.guard); }
      else { PrepareFails(s.release.value, r.body.plaintext.value, r.body.length, s.guard); }
    }
  }

  /** Reservations only grew, and by at most one new pair of `i`. */
  predicate Reserves(s: State, s': State, i: Id) {
    && i in s.reqs && s.reqs[i].prepared.None?
    && s'.starts == s.starts && s'.reqs.Keys == s.reqs.Keys && s'.now == s.now && s'.lag == s.lag
    && s'.release == s.release
    && (forall j :: j in s.reqs && j != i ==> s'.reqs[j] == s.reqs[j])
    && (forall q :: q in s.holder ==> q in s'.holder && s'.holder[q] == s.holder[q])
    && (forall q :: q in s'.holder && q !in s.holder ==> s'.holder[q] == i && Owner(s', i, q))
  }

  lemma ReservesLeavesOthers(s: State, s': State, i: Id, j: Id)
    requires Reserves(s, s', i) && j in s.reqs && j != i && ReqInvariant(s, j)
    ensures ReqInvariant(s', j)
  {}

  lemma ReservesKeepsHolders(s: State, s': State, i: Id)
    requires Reserves(s, s', i) && HoldersMatch(s) && StartsHeld(s)
    requires Consistent(s'.guard) && s'.guard.limit > 0 && s'.guard.processed == s'.holder.Keys
    ensures HoldersMatch(s') && StartsHeld(s')
  {}

  lemma OpenedRequest(s: State, i: Id)
    requires HandlerEnabled(s, FinishOpening(i)) && s.reqs[i].body.plaintext.Some?
    requires ReqInvariant(s, i) && HoldersMatch(s) && StartsHeld(s) && Engine(s)
    ensures ReqInvariant(AfterOpening(s, i), i)
  {
    var s' := AfterOpening(s, i);
    var r := s.reqs[i];
    var decoded, release := r.body.plaintext.value, s.release.value;
    var p := Prepare(release, decoded, r.body.length, s.guard);
    PrepareSlots(release, decoded, r.body.length, s.guard);
    if p.result.Ok? {
      PrepareSucceeds(release, r.body, s.guard);
      FreshPairNotDispatched(s, i, PairOf(p.result.value.claims));
    } else {
      PrepareFails(release, decoded, r.body.length, s.guard);
    }
  }

  lemma FreshPairNotDispatched(s: State, i: Id, pair: Pair)
    requires HoldersMatch(s) && StartsHeld(s) && pair !in s.guard.processed
    ensures Dispatch(i, pair) !in s.starts
  {}

  lemma ReservesKeeps(s: State, s': State, i: Id)
    requires Invariant(s) && Reserves(s, s', i) && Engine(s') && ReqInvariant(s', i)
    requires Consistent(s'.guard) && s'.guard.limit > 0 && s'.guard.processed == s'.holder.Keys
    ensures Invariant(s')
  {
    ReservesKeepsHolders(s, s', i);
    forall j | j in s'.reqs && j != i ensures ReqInvariant(s', j) {
      ReservesLeavesOthers(s, s', i, j);
    }
  }

  lemma UnopenedRequest(s: State, i: Id)
    requires HandlerEnabled(s, FinishOpening(i)) && s.reqs[i].body.plaintext.None? && ReqInvariant(s, i)
    ensures ReqInvariant(AfterOpening(s, i), i)
  {}

  lemma OpeningIsReserving(s: State, i: Id)
    requires HandlerEnabled(s, FinishOpening(i)) && PhaseAgrees(s, i) && Engine(s)
    requires Consistent(s.guard) && s.guard.limit > 0 && s.guard.processed == s.holder.Keys
    ensures var s' := AfterOpening(s, i);
            Reserves(s, s', i) && Engine(s')
            && Consistent(s'.guard) && s'.guard.limit > 0 && s'.guard.processed == s'.holder.Keys
  {
    OpeningReserves(s, i);
  }

  lemma OpeningKeeps(s: State, i: Id)
    requires Invariant(s) && Enabled(s, FinishOpening(i))
    ensures Invariant(AfterOpening(s, i))
  {
    assert ReqInvariant(s, i);
    OpeningIsReserving(s, i);
    if s.reqs[i].body.plaintext.Some? { OpenedRequest(s, i); } else { UnopenedRequest(s, i); }
    ReservesKeeps(s, AfterOpening(s, i), i);
  }

  // Engine answers

  lemma JudgeSignsIff(a: EngineAnswer, threshold: real)
    ensures Judge(a, threshold) == ToSign <==> AllPass(a, threshold)
  {
    NoFailureIff(RoleScores(a), threshold);
    if a.DeepFaceScores? {
      var s := RoleScores(a);
      assert s[0].0 == a.credentialLive && s[1].0 == a.credentialChallenge && s[2].0 == a.liveChallenge;
    }
  }

  lemma JudgeRejects(a: EngineAnswer, threshold: real)
    ensures match Judge(a, threshold)
      case ToSign => AllPass(a, threshold)
      case Finished(Sealable(o)) => o.Failed? && Explains(a, threshold, o.failure, o.debugReport)
      case Finished(Unsealed(e)) =>
        (e == NotReady && a == EngineError(Busy)) || (e == EnclaveInternal && Faults(a, threshold))
  {
    JudgeSignsIff(a, threshold);
    FirstFailureIsFirst(RoleScores(a), threshold);
  }

  /** What an answer leads to, on its own fields: a token exactly when every score passes, a rejection
      exactly when the answer explains it, NotReady exactly for Busy and an internal error for a fault. */
  lemma JudgeIff(a: EngineAnswer, threshold: real, reason: FailureReason, report: DebugReport)
    ensures Judge(a, threshold) == ToSign <==> AllPass(a, threshold)
    ensures Judge(a, threshold) == Finished(Sealable(Failed(reason, report))) <==> Explains(a, threshold, reason, report)
    ensures Judge(a, threshold) == Finished(Unsealed(NotReady)) <==> a == EngineError(Busy)
    ensures Judge(a, threshold) == Finished(Unsealed(EnclaveInternal)) <==> Faults(a, threshold)
  {
    JudgeRejects(a, threshold);
  }

  /** Every sealed judgement is a rejection, never with the reason Internal and always with an admissible report. */
  lemma JudgeIsSound(a: EngineAnswer, threshold: real)
    ensures var v := Judge(a, threshold);
      v.Finished? && v.result.Sealable? ==>
        var o := v.result.outcome;
        && o.Failed? && o.failure != FailureReason.Internal
        && Envelope.Valid(MatchResult<Envelope.AttestedStatement>.Failed(o.failure, o.debugReport))
  {
    JudgeRejects(a, threshold);
  }

  lemma AnsweredRequest(s: State, i: Id, a: EngineAnswer)
    requires Enabled(s, EngineAnswers(i, a)) && ReqInvariant(s, i)
    ensures ReqInvariant(AfterAnswer(s, i, a), i)
  {
    var s' := AfterAnswer(s, i, a);
    var r := s.reqs[i];
    JudgeSignsIff(a, r.phase.prepared.threshold);
    JudgeIsSound(a, r.phase.prepared.threshold);
    ReadyNow(s, i);
    assert Timely(s', i);
    if a != EngineError(Busy) {
      assert s'.holder == s.holder && s'.starts == s.starts;
      assert Holds(s', s'.reqs[i], i) && Dispatched(s', s'.reqs[i], i);
    }
    assert PhaseAgrees(s', i);
  }

  lemma AnswerKeepsEngine(s: State, i: Id, a: EngineAnswer)
    requires HandlerEnabled(s, EngineAnswers(i, a)) && Engine(s)
    ensures Engine(AfterAnswer(s, i, a))
  {}

  lemma AnswerOnlyMoves(s: State, i: Id, a: EngineAnswer)
    requires HandlerEnabled(s, EngineAnswers(i, a)) && a != EngineError(Busy)
    ensures OnlyMoves(s, AfterAnswer(s, i, a), i)
  {}

  /** A reservation of `i` was released; nothing else changed but `i` itself. */
  predicate Releases(s: State, s': State, i: Id, pair: Pair) {
    && i in s.reqs && pair in s.holder && s.holder[pair] == i && Dispatch(i, pair) !in s.starts
    && s' == s.(reqs := s'.reqs, guard := ReleaseFrom(s.guard, pair), holder := s.holder - {pair})
    && i in s'.reqs && s'.reqs == s.reqs[i := s'.reqs[i]] && s'.reqs[i].prepared == s.reqs[i].prepared
  }

  lemma ReleaseLeavesOthers(s: State, s': State, i: Id, pair: Pair, j: Id)
    requires Releases(s, s', i, pair) && j in s.reqs && j != i && ReqInvariant(s, j)
    ensures ReqInvariant(s', j)
  {}

  lemma ReleaseKeepsHolders(s: State, s': State, i: Id, pair: Pair)
    requires Releases(s, s', i, pair) && HoldersMatch(s) && StartsHeld(s)
    ensures HoldersMatch(s') && StartsHeld(s')
  {}

  lemma ReleaseKeeps(s: State, s': State, i: Id, pair: Pair)
    requires Invariant(s) && Releases(s, s', i, pair) && ReqInvariant(s', i)
    ensures Invariant(s')
  {
    ReleaseKeepsHolders(s, s', i, pair);
    forall j | j in s'.reqs && j != i ensures ReqInvariant(s', j) {
      ReleaseLeavesOthers(s, s', i, pair, j);
    }
  }

  lemma BusyReleases(s: State, i: Id)
    requires Enabled(s, EngineAnswers(i, EngineError(Busy))) && PhaseAgrees(s, i)
    ensures Releases(s, AfterAnswer(s, i, EngineError(Busy)), i, PairOf(s.reqs[i].phase.prepared.claims))
  {}

  lemma AnswerKeeps(s: State, i: Id, a: EngineAnswer)
    requires Invariant(s) && Enabled(s, EngineAnswers(i, a))
    ensures Invariant(AfterAnswer(s, i, a))
  {
    assert ReqInvariant(s, i);
    AnsweredRequest(s, i, a);
    if a == EngineError(Busy) {
      BusyReleases(s, i);
      ReleaseKeeps(s, AfterAnswer(s, i, a), i, PairOf(s.reqs[i].phase.prepared.claims));
    } else {
      AnswerOnlyMoves(s, i, a);
      AnswerKeepsEngine(s, i, a);
      MoveKeeps(s, AfterAnswer(s, i, a), i);
    }
  }

  lemma StepKeeps(s: State, a: Action)
    requires Invariant(s) && Enabled(s, a)
    ensures Invariant(Apply(s, a))
  {
    match a
    case Tick(t) => TickKeeps(s, t);
    case LoadRelease(manifest) => LoadKeeps(s, manifest);
    case Arrive(i, body) => ArriveKeeps(s, i, body);
    case FinishOpening(i) => OpeningKeeps(s, i);
    case CallEngine(i) => CallKeeps(s, i);
    case StartInference(i) => StartKeeps(s, i);
    case EngineAnswers(i, answer) => AnswerKeeps(s, i, answer);
    case Sign(i, attestation) => SignKeeps(s, i, attestation);
    case Seal(i, wire, channelSeals) => SealKeeps(s, i, wire, channelSeals);
    case Leave(i) => LeaveKeeps(s, i);
    case Cancel(i) => CancelKeeps(s, i);
    case LoseTask(i) => LoseKeeps(s, i);
  }
}
