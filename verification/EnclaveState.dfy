/** The state the handlers share, updated in place, proved against the step system of the match protocol. */
module EnclaveState {
  import opened SealedTypes
  import opened Wrappers
  import opened ResponseSlots
  import opened ReplayGuard
  import opened Pipeline
  import P = MatchProtocol

  /** The part of a protocol state that all handlers share. */
  datatype Shared = Shared(
    engineHash: seq<int>, release: Option<Release>, guard: Guard, overran: bool, terminations: nat)

  function SharedOf(s: P.State): Shared {
    Shared(s.engineHash, s.release, s.guard, s.overran, s.terminations)
  }

  class EnclaveState {
    const engineHash: seq<int>
    var release: Option<Release>
    const replay: ReplayGuard
    var engineOverran: bool
    var terminations: nat                 // calls of the engine's `terminate`

    /** The engine is terminated once, when it first overran. */
    predicate Valid() reads this {
      terminations == if engineOverran then 1 else 0
    }

    /** This object holds the shared part of a protocol state. */
    predicate Holds(s: P.State) reads this, replay {
      Shared(engineHash, release, replay.State(), engineOverran, terminations) == SharedOf(s)
    }

    constructor (engineHash: seq<int>)
      ensures Valid() && fresh(replay) && this.engineHash == engineHash
      ensures forall now, lag :: Holds(P.Initial(now, lag, engineHash))
    {
      this.engineHash := engineHash;
      release, engineOverran, terminations := None, false, 0;
      replay := new ReplayGuard(MAX_PROCESSED_REQUESTS);
    }

    /** The release stays the first accepted one: `get_or_init`, then a comparison. */
    method LoadRelease(manifest: Option<Release>, ghost s: P.State) returns (ok: bool)
      requires Holds(s) && P.HandlerEnabled(s, P.LoadRelease(manifest))
      modifies this`release
      ensures Holds(P.Apply(s, P.LoadRelease(manifest)))
      ensures (release, ok) == P.Loaded(old(release), engineHash, manifest)
      ensures old(release).Some? ==> release == old(release)
      ensures ok <==> release.Some? && manifest.Some? && manifest.value.engineHash == engineHash
                      && release.value.releaseHash == manifest.value.releaseHash
    {
      if manifest.None? { return false; }
      if manifest.value.engineHash != engineHash { return false; }
      if release.None? { release := manifest; }
      ok := release.value.releaseHash == manifest.value.releaseHash;
    }

    method ResetOverrunningEngine()
      modifies this`engineOverran, this`terminations
      ensures old(Valid()) ==> Valid() && terminations == 1
      ensures engineOverran
      ensures terminations == if old(engineOverran) then old(terminations) else old(terminations) + 1
    {
      var before := engineOverran;
      engineOverran := true;
      if !before { terminations := terminations + 1; }
    }

    /** A request arrives: it is turned away at once, or its opening begins. */
    method Admit(body: P.Body, ghost s: P.State, ghost i: P.Id) returns (error: Option<P.EnclaveError>)
      requires Holds(s) && P.HandlerEnabled(s, P.Arrive(i, body))
      ensures Holds(P.Apply(s, P.Arrive(i, body))) && error == P.ArrivalError(s, body)
      ensures P.Apply(s, P.Arrive(i, body)).reqs[i].phase
           == if error.Some? then P.Left(P.Error(error.value), s.now, s.now) else P.Opening(true)
    {
      if release.None? { return Some(P.NotReady); }
      if engineOverran { return Some(P.NotReady); }
      if body.length > MAX_MATCH_BODY_BYTES || body.length > LargestRequest(release.value.pipelines) {
        return Some(P.TooLargeToOpen);
      }
      return None;
    }

    /** The blocking task of one request: open the body, check it and record its pair. `alive` says
        whether its caller still waits for it. */
    method Open(body: P.Body, alive: bool, now: Instant, ghost s: P.State, ghost i: P.Id)
      returns (slots: Slots, phase: P.Phase)
      requires Holds(s) && P.HandlerEnabled(s, P.FinishOpening(i))
      requires s.reqs[i].body == body && s.reqs[i].phase == P.Opening(alive) && s.now == now
      modifies replay
      ensures Holds(P.AfterOpening(s, i))
      ensures P.AfterOpening(s, i).reqs[i].phase == if alive then phase else P.Abandoned
      ensures body.plaintext.Some? ==> P.AfterOpening(s, i).reqs[i].slots == slots
    {
      if body.plaintext.None? { return [], P.Left(P.Error(P.RequestNotOpened), now, now); }
      ghost var noRoom;
      var result;
      slots, result, noRoom := Prepare(body.plaintext.value, body.length);
      phase := match result
               case Ok(prepared) => P.Ready(prepared)
               case Err(reason) => P.Sealing(Failed(reason, NotProduced));
    }

    /** Checks one opened request and records its pair; the reservation is the last step, so a
        refused check leaves the guard alone. */
    method Prepare(decoded: P.Checked<P.Request>, sealedLen: nat)
      returns (slots: Slots, result: Result<P.Prepared, FailureReason>, ghost noRoom: bool)
      requires release.Some?
      modifies replay
      ensures P.Preparation(slots, result, replay.State(), noRoom)
           == P.Prepare(release.value, decoded, sealedLen, old(replay.State()))
    {
      var loaded := release.value;
      noRoom := false;
      slots := [LatestFirstSlot(loaded.pipelines)];
      if decoded.Bad? { return slots, Err(P.ReasonOf(decoded.error)), noRoom; }
      var request := decoded.value;
      if request.payload.Bad? { return slots, Err(P.ReasonOf(request.payload.error)), noRoom; }
      var payload := request.payload.value;
      if payload.releaseHash != loaded.releaseHash { return slots, Err(UnsupportedRelease), noRoom; }
      var pipeline := FindPipeline(loaded.pipelines, payload.pipeline);
      if pipeline.None? { return slots, Err(FailureReason.UnsupportedPipeline), noRoom; }
      slots := pipeline.value.responseSlots;
      result := CheckRequest(loaded, pipeline.value, request, payload, sealedLen);
      if result.Err? { return; }
      noRoom := var g := replay.State(); Pair(request.aud, request.nonce) !in g.processed && |g.processed| >= g.limit;
      var answer := replay.Reserve(Pair(request.aud, request.nonce));
      if answer != Reserved { result := Err(answer.reason); }
    }

    /** `run` from the engine's answer on: what becomes of the request and of the shared state. */
    method Settle(prepared: P.Prepared, answer: P.EngineAnswer, ghost s: P.State, ghost i: P.Id)
      returns (v: P.Verdict)
      requires Holds(s)
      requires P.HandlerEnabled(s, P.EngineAnswers(i, answer)) && s.reqs[i].phase.prepared == prepared
      modifies this, replay
      ensures Holds(P.Apply(s, P.EngineAnswers(i, answer)))
      ensures P.Apply(s, P.EngineAnswers(i, answer)).reqs[i].phase == match v
              case ToSign => P.Signing(prepared, P.ReportOf(answer))
              case Finished(Sealable(outcome)) => P.Sealing(outcome)
              case Finished(Unsealed(error)) => P.Leaving(P.Error(error), s.now)
      ensures v == P.Judge(answer, prepared.threshold)
      ensures old(Valid()) ==> Valid() && terminations <= 1
    {
      if answer.EngineError? {
        match answer.error {
          case Busy => replay.Release(P.PairOf(prepared.claims));
          case EngineTimedOut => ResetOverrunningEngine();
          case _ =>
        }
        return P.Finished(P.IntoResult(answer.error));
      }
      var failure := CheckScores(P.RoleScores(answer), prepared.threshold);
      if failure.Some? { return P.Finished(P.IntoResult(P.AnalysisRejected(failure.value, P.ReportOf(answer)))); }
      return P.ToSign;
    }

    /** Any step of the protocol, performed on this object: a sequence of calls follows a run. */
    method Perform(s: P.State, a: P.Action)
      requires Holds(s) && P.HandlerEnabled(s, a)
      modifies this, replay
      ensures Holds(P.Apply(s, a))
      ensures old(Valid()) ==> Valid() && terminations <= 1
    {
      match a {
        case LoadRelease(manifest) => var _ := LoadRelease(manifest, s);
        case Arrive(i, body) => var _ := Admit(body, s, i);
        case FinishOpening(i) => var _, _ := Open(s.reqs[i].body, s.reqs[i].phase.alive, s.now, s, i);
        case EngineAnswers(i, answer) => var _ := Settle(s.reqs[i].phase.prepared, answer, s, i);
        case _ => LocalStep(s, a);
      }
    }
  }

  /** Every other step concerns one request and leaves what is shared alone. */
  lemma LocalStep(s: P.State, a: P.Action)
    requires P.HandlerEnabled(s, a)
    requires !a.LoadRelease? && !a.FinishOpening? && !a.EngineAnswers?
    ensures SharedOf(P.Apply(s, a)) == SharedOf(s)
  {}

  /** Checks every score in role order and stops at the first that fails. */
  method CheckScores(scores: seq<(Score, ComparisonRole)>, threshold: real) returns (failure: Option<FailureReason>)
    ensures failure == FirstFailure(scores, threshold)
    ensures failure.None? <==> forall i :: 0 <= i < |scores| ==> Passes(scores[i].0, threshold)
  {
    NoFailureIff(scores, threshold);
    for i := 0 to |scores|
      invariant FirstFailure(scores, threshold) == FirstFailure(scores[i..], threshold)
    {
      failure := CheckScore(scores[i].0, threshold, scores[i].1);
      if failure.Some? { return; }
    }
    return None;
  }

  method CheckRequest(release: Release, spec: PipelineSpec, r: P.Request, p: Payload, sealedLen: nat)
    returns (result: Result<P.Prepared, FailureReason>)
    ensures result == P.Check(release, spec, r, p, sealedLen)
  {
    if sealedLen > spec.maxRequestBytes { return Err(FailureReason.RequestTooLarge); }
    if p.matchStrictness !in release.strictnessLevels { return Err(UnsupportedMatchStrictness); }
    var threshold := Threshold(p.matchStrictness);
    if threshold.Err? { return Err(threshold.error); }
    var claims := P.ExpectedClaims(r, p);
    if claims.Bad? { return Err(P.ReasonOf(claims.error)); }
    var operation := OperationFor(p);
    if operation.Err? { return Err(operation.error); }
    return Ok(P.Prepared(claims.value, threshold.value, operation.value));
  }
}
