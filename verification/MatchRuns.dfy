/** Theorems over every run of the match protocol and every interleaving of its handlers. */
module MatchRuns {
  import opened SealedTypes
  import opened Wrappers
  import opened ResponseSlots
  import opened ReplayGuard
  import opened Pipeline
  import opened MatchProtocol
  import opened MatchSafety

  ghost predicate Next(s: State, s': State) {
    s' == s || exists a: Action :: Enabled(s, a) && s' == Apply(s, a)
  }

  ghost predicate IsRun(run: seq<State>) {
    && run != []
    && (exists now, lag, hash :: run[0] == Initial(now, lag, hash))
    && forall k :: 0 <= k < |run| - 1 ==> Next(run[k], run[k + 1])
  }

  lemma StartsIdle(run: seq<State>)
    requires IsRun(run)
    ensures run[0].reqs == map[]
  {}

  lemma {:induction false} RunKeeps(run: seq<State>, k: nat)
    requires IsRun(run) && k < |run|
    ensures Invariant(run[k])
  {
    if k == 0 {
      var now, lag, hash :| run[0] == Initial(now, lag, hash);
      InitialInvariant(now, lag, hash);
    } else {
      RunKeeps(run, k - 1);
      assert Next(run[k - 1], run[k]);
      if run[k] != run[k - 1] {
        var a: Action :| Enabled(run[k - 1], a) && run[k] == Apply(run[k - 1], a);
        StepKeeps(run[k - 1], a);
      }
    }
  }

  // Inference at most once

  /** No pair is ever dispatched twice in a boot, and every dispatched pair is in the processed set. */
  lemma AtMostOncePerPair(run: seq<State>, k: nat)
    requires IsRun(run) && k < |run|
    ensures forall m, n :: 0 <= m < n < |run[k].starts| ==> run[k].starts[m].pair != run[k].starts[n].pair
    ensures forall m :: 0 <= m < |run[k].starts| ==> run[k].starts[m].pair in run[k].guard.processed
  {
    RunKeeps(run, k);
  }

  lemma StepGrows(s: State, a: Action)
    requires Enabled(s, a)
    ensures var s' := Apply(s, a);
            && s.starts <= s'.starts && s.reqs.Keys <= s'.reqs.Keys
            && (s.overran ==> s'.overran) && (s.release.Some? ==> s'.release == s.release)
  {}

  /** Nothing dispatched is ever forgotten, the loaded release never changes, and an overrun is final. */
  lemma {:induction false} HistoryGrows(run: seq<State>, k: nat, m: nat)
    requires IsRun(run) && k <= m < |run|
    ensures run[k].starts <= run[m].starts && run[k].reqs.Keys <= run[m].reqs.Keys
    ensures run[k].overran ==> run[m].overran
    ensures run[k].release.Some? ==> run[m].release == run[k].release
  {
    if k < m {
      HistoryGrows(run, k, m - 1);
      assert Next(run[m - 1], run[m]);
      if run[m] != run[m - 1] {
        var a: Action :| Enabled(run[m - 1], a) && run[m] == Apply(run[m - 1], a);
        StepGrows(run[m - 1], a);
      }
    }
  }

  /** A pair whose inference was dispatched stays in the processed set for the rest of the boot. */
  lemma DispatchedPairStays(run: seq<State>, k: nat, m: nat, d: nat)
    requires IsRun(run) && k <= m < |run| && d < |run[k].starts|
    ensures run[k].starts[d].pair in run[m].guard.processed
  {
    HistoryGrows(run, k, m);
    AtMostOncePerPair(run, m);
    assert run[m].starts[d] == run[k].starts[d];
  }

  /** A pair leaves the set only when the engine answers Busy to the request that reserved it and
      whose inference was never dispatched; the same pair can then be reserved again. */
  lemma OnlyUndispatchedOwnerReleases(s: State, a: Action, p: Pair)
    requires Invariant(s) && Enabled(s, a)
    requires p in s.guard.processed && p !in Apply(s, a).guard.processed
    ensures a.EngineAnswers? && a.answer == EngineError(Busy)
    ensures s.holder[p] == a.id && Owner(s, a.id, p) && !s.reqs[a.id].phase.started
    ensures forall d :: 0 <= d < |s.starts| ==> s.starts[d].pair != p
    ensures Apply(s, a).reqs[a.id].phase == Leaving(Error(NotReady), s.now)
    ensures ReserveIn(Apply(s, a).guard, p).1 == Reserved
  {
    OnlyBusyRemoves(s, a, p);
    assert ReqInvariant(s, a.id);
    BusyRelease(s, a.id, p);
  }

  /** And Busy always releases it: a pair leaves the set exactly when the engine answers Busy to a request
      that was prepared for it. */
  lemma ReleasedIff(s: State, a: Action, p: Pair)
    requires Invariant(s) && Enabled(s, a)
    ensures p in s.guard.processed && p !in Apply(s, a).guard.processed <==>
              a.EngineAnswers? && a.answer == EngineError(Busy) && PreparedPair(s, a.id) == Some(p)
  {
    if p in s.guard.processed && p !in Apply(s, a).guard.processed { OnlyBusyRemoves(s, a, p); }
    if a.EngineAnswers? && a.answer == EngineError(Busy) {
      assert ReqInvariant(s, a.id);
      BusyFreesIff(s, a.id, p);
    }
  }

  /** The pair the request of `i` was prepared for. */
  function PreparedPair(s: State, i: Id): Option<Pair> {
    if i in s.reqs && s.reqs[i].prepared.Some?
    then Some(Pair(s.reqs[i].prepared.value.claims.aud, s.reqs[i].prepared.value.claims.nonce))
    else None
  }

  lemma BusyFreesIff(s: State, i: Id, p: Pair)
    requires Enabled(s, EngineAnswers(i, EngineError(Busy))) && HoldersMatch(s) && PhaseAgrees(s, i)
    ensures p in s.guard.processed && p !in AfterAnswer(s, i, EngineError(Busy)).guard.processed
            <==> PreparedPair(s, i) == Some(p)
  {}

  lemma OnlyBusyRemoves(s: State, a: Action, p: Pair)
    requires Consistent(s.guard) && Enabled(s, a)
    requires p in s.guard.processed && p !in Apply(s, a).guard.processed
    ensures a.EngineAnswers? && a.answer == EngineError(Busy)
  {}

  lemma BusyRelease(s: State, i: Id, p: Pair)
    requires Enabled(s, EngineAnswers(i, EngineError(Busy))) && HoldersMatch(s) && StartsHeld(s) && PhaseAgrees(s, i)
    requires p in s.guard.processed && p !in AfterAnswer(s, i, EngineError(Busy)).guard.processed
    ensures s.holder[p] == i && Owner(s, i, p) && !s.reqs[i].phase.started
    ensures forall d :: 0 <= d < |s.starts| ==> s.starts[d].pair != p
    ensures AfterAnswer(s, i, EngineError(Busy)).reqs[i].phase == Leaving(Error(NotReady), s.now)
    ensures ReserveIn(AfterAnswer(s, i, EngineError(Busy)).guard, p).1 == Reserved
  {}

  // Tokens

  /** A score that reaches the threshold of its strictness level. */
  predicate Reaches(score: Score, level: nat) {
    score.Finite? && 0.8 + 0.05 * (level as real) <= score.value <= 1.0
  }

  /** Every score of the answer reaches its level, and there is one for every comparison of the pipeline. */
  predicate AllReach(a: EngineAnswer, pipeline: nat, level: nat) {
    match a
    case DeepFaceScores(cl, cc, lc, _) => pipeline == 1 && Reaches(cl, level) && Reaches(cc, level) && Reaches(lc, level)
    case GrayBadgeScores(lc, _) => pipeline == 2 && Reaches(lc, level)
    case EngineError(_) => false
  }

  predicate SentSuccess(s: State, i: Id) {
    i in s.reqs && s.reqs[i].phase.Left? && s.reqs[i].phase.sent.Sealed? && s.reqs[i].phase.sent.outcome.Success?
  }

  /** A sealed success was earned: its request named the loaded release and one of its strictness levels,
      passed every check, and was dispatched under its own pair; the engine was asked about its entries in
      their places, and every score of its answer reaches the level. The token signs this request's
      claims. */
  lemma SuccessIsEarned(run: seq<State>, k: nat, i: Id)
    requires IsRun(run) && k < |run| && SentSuccess(run[k], i)
    ensures var r, o := run[k].reqs[i], run[k].reqs[i].phase.sent.outcome;
      && run[k].release.Some? && r.prepared.Some? && r.answer.Some?
      && PreparedFor(run[k].release.value, r.body, r.slots, r.prepared.value)
      && var request := r.body.plaintext.value.value;
      var payload := request.payload.value;
      && Selects(payload) && Places(payload, r.prepared.value.operation)
      && AllReach(r.answer.value, payload.pipeline, payload.matchStrictness)
      && ClaimsFor(request, payload, o.statement.claims)
      && Dispatch(i, Pair(request.aud, request.nonce)) in run[k].starts
  {
    RunKeeps(run, k);
    assert ReqInvariant(run[k], i);
    var payload := run[k].reqs[i].body.plaintext.value.value.payload.value;
    ThresholdLevels(payload.matchStrictness);
    OperationPlacesEntries(payload, OperationOf(payload));
  }

  /** The token signs the hashes of exactly the images the engine compared, in role order. */
  lemma TokenSignsComparedImages(release: Release, body: Body, slots: Slots, p: Prepared, n: nat)
    requires PreparedFor(release, body, slots, p) && n < MAX_COMPARED
    ensures p.claims.comparedEntryHashes[n]
            == if n < |ComparedImages(p.operation)| then OfData(ComparedImages(p.operation)[n]) else Zero
  {}

  /** No two sealed successes of a boot share an (`aud`, `nonce`). */
  lemma SuccessesAreDistinct(run: seq<State>, k: nat, i: Id, j: Id)
    requires IsRun(run) && k < |run| && i != j && SentSuccess(run[k], i) && SentSuccess(run[k], j)
    ensures PairOf(run[k].reqs[i].phase.sent.outcome.statement.claims)
         != PairOf(run[k].reqs[j].phase.sent.outcome.statement.claims)
  {
    SuccessIsEarned(run, k, i);
    SuccessIsEarned(run, k, j);
    RunKeeps(run, k);
    assert ReqInvariant(run[k], i) && ReqInvariant(run[k], j);
  }

  // Slots

  /** The instant a reply's slot lets it leave. */
  function SlotTime(r: Req): Instant
    requires r.phase.Left? && r.arrival <= r.phase.wasReadyAt
  {
    LeaveTime(r, r.phase.wasReadyAt)
  }

  /** A reply to an opened request leaves when its slot lets it, at most `lag` late; the error of a lost
      task leaves as soon as it is there. What leaves without slots was refused on arrival, did not
      open, or is the error of a lost opening, and is never a sealed result. */
  lemma RepliesLeaveAtSlots(run: seq<State>, k: nat, i: Id)
    requires IsRun(run) && k < |run| && i in run[k].reqs && run[k].reqs[i].phase.Left?
    ensures var r := run[k].reqs[i];
      if r.slots == [] then
        && r.phase.sent in {Error(NotReady), Error(TooLargeToOpen), Error(RequestNotOpened), Error(EnclaveInternal)}
        && (r.phase.sent == Error(EnclaveInternal) <==> r.lost)
      else
        && run[k].release.Some? && r.body.plaintext.Some?
        && ValidSlots(r.slots) && SlotsOf(run[k].release.value, r.body.plaintext.value, r.slots)
        && r.arrival <= r.phase.wasReadyAt
        && DueAt(r.slots, r.arrival, r.phase.wasReadyAt, SlotTime(r))
        && if r.lost then r.phase.sent == Error(EnclaveInternal) && r.phase.at == r.phase.wasReadyAt
           else 0 <= r.phase.at - SlotTime(r) <= run[k].lag
  {
    RunKeeps(run, k);
    assert ReqInvariant(run[k], i);
    var r := run[k].reqs[i];
    if r.slots != [] { LeavesWhenDue(r.slots, r.arrival, r.phase.wasReadyAt); }
  }

  /** A reply to an opened request leaves before its slot exactly when its sealing task was lost before
      that slot: losing that task is the only way around the slots. */
  lemma LeavesEarlyIff(run: seq<State>, k: nat, i: Id)
    requires IsRun(run) && k < |run| && i in run[k].reqs && run[k].reqs[i].phase.Left? && run[k].reqs[i].slots != []
    ensures var r := run[k].reqs[i];
      && r.arrival <= r.phase.wasReadyAt
      && (r.phase.at < SlotTime(r) <==> TaskWasLost(run, k, i) && r.phase.wasReadyAt < SlotTime(r))
  {
    RepliesLeaveAtSlots(run, k, i);
    LostHistory(run, k, i);
  }

  /** Up to step `k` the response of `i` has waited for a slot. */
  ghost predicate HasWaited(run: seq<State>, k: nat, i: Id)
    requires k < |run|
  {
    exists m :: 0 <= m <= k && i in run[m].reqs && run[m].reqs[i].phase.Leaving?
  }

  /** A reply to an opened request leaves without waiting for a slot exactly when its blocking task was lost. */
  lemma LeavesWithoutSlotIff(run: seq<State>, k: nat, i: Id)
    requires IsRun(run) && k < |run| && i in run[k].reqs && run[k].reqs[i].phase.Left? && run[k].reqs[i].slots != []
    ensures !HasWaited(run, k, i) <==> TaskWasLost(run, k, i)
  {
    WaitedHistory(run, k, i);
    LostHistory(run, k, i);
  }

  /** Whether a request in this phase has waited for a slot; an abandoned one may or may not. */
  predicate WaitedAgrees(r: Req, waited: bool) {
    match r.phase
    case Leaving(_, _) => waited
    case Left(_, _, _) => waited <==> r.slots != [] && !r.lost
    case Abandoned => true
    case _ => !waited
  }

  /** What the invariant says about the slots of a request that opens or leaves. */
  predicate SlotsKnown(r: Req) {
    && (r.phase.Leaving? ==> r.slots != [] && !r.lost)
    && (r.phase.Opening? && r.body.plaintext.None? ==> r.slots == [])
  }

  lemma OpeningWaits(s: State, i: Id)
    requires HandlerEnabled(s, FinishOpening(i)) && SlotsKnown(s.reqs[i])
    ensures WaitedAgrees(AfterOpening(s, i).reqs[i], false) && !AfterOpening(s, i).reqs[i].phase.Leaving?
  {}

  lemma WaitedStep(s: State, a: Action, i: Id, waited: bool)
    requires Enabled(s, a) && i in Apply(s, a).reqs
    requires if i in s.reqs then SlotsKnown(s.reqs[i]) && WaitedAgrees(s.reqs[i], waited) else !waited
    ensures var r := Apply(s, a).reqs[i]; WaitedAgrees(r, waited || r.phase.Leaving?)
  {
    if a == FinishOpening(i) { OpeningWaits(s, i); }
  }

  lemma HasWaitedStep(run: seq<State>, k: nat, i: Id)
    requires k + 1 < |run|
    ensures HasWaited(run, k + 1, i) <==>
              HasWaited(run, k, i) || (i in run[k + 1].reqs && run[k + 1].reqs[i].phase.Leaving?)
  {}

  lemma NeverWaitedBefore(run: seq<State>, k: nat, i: Id)
    requires IsRun(run) && k < |run| && i !in run[k].reqs
    ensures !HasWaited(run, k, i)
  {
    forall m | 0 <= m <= k ensures i !in run[m].reqs { HistoryGrows(run, m, k); }
  }

  lemma WaitedRunStep(run: seq<State>, k: nat, i: Id, waited: bool)
    requires IsRun(run) && k + 1 < |run| && i in run[k + 1].reqs
    requires if i in run[k].reqs then WaitedAgrees(run[k].reqs[i], waited) else !waited
    ensures WaitedAgrees(run[k + 1].reqs[i], waited || run[k + 1].reqs[i].phase.Leaving?)
  {
    RunKeeps(run, k);
    assert Next(run[k], run[k + 1]);
    if run[k + 1] != run[k] {
      var a: Action :| Enabled(run[k], a) && run[k + 1] == Apply(run[k], a);
      if i in run[k].reqs { assert ReqInvariant(run[k], i); }
      WaitedStep(run[k], a, i, waited);
    }
  }

  lemma {:induction false} WaitedHistory(run: seq<State>, k: nat, i: Id)
    requires IsRun(run) && k < |run| && i in run[k].reqs
    ensures WaitedAgrees(run[k].reqs[i], HasWaited(run, k, i))
  {
    if k == 0 {
      StartsIdle(run);
    } else {
      if i in run[k - 1].reqs { WaitedHistory(run, k - 1, i); } else { NeverWaitedBefore(run, k - 1, i); }
      WaitedRunStep(run, k - 1, i, HasWaited(run, k - 1, i));
      HasWaitedStep(run, k - 1, i);
    }
  }

  /** Step `m` of the run dropped the opening or sealing task of `i` unrun. */
  ghost predicate LosesTask(run: seq<State>, m: nat, i: Id)
    requires m + 1 < |run|
  {
    HandlerEnabled(run[m], LoseTask(i)) && run[m + 1] == Apply(run[m], LoseTask(i))
  }

  ghost predicate TaskWasLost(run: seq<State>, k: nat, i: Id)
    requires k < |run|
  {
    exists m :: 0 <= m < k && LosesTask(run, m, i)
  }

  lemma OnlyLosingLoses(s: State, a: Action, i: Id)
    requires Enabled(s, a) && i in Apply(s, a).reqs
    ensures Apply(s, a).reqs[i].lost <==> (i in s.reqs && s.reqs[i].lost) || a == LoseTask(i)
  {}

  lemma LostRunStep(run: seq<State>, k: nat, i: Id)
    requires IsRun(run) && k + 1 < |run| && i in run[k + 1].reqs
    ensures run[k + 1].reqs[i].lost <==> (i in run[k].reqs && run[k].reqs[i].lost) || LosesTask(run, k, i)
  {
    assert Next(run[k], run[k + 1]);
    if run[k + 1] != run[k] {
      var a: Action :| Enabled(run[k], a) && run[k + 1] == Apply(run[k], a);
      OnlyLosingLoses(run[k], a, i);
      if LosesTask(run, k, i) { assert run[k + 1].reqs[i].lost; }
    }
  }

  lemma TaskWasLostStep(run: seq<State>, k: nat, i: Id)
    requires k + 1 < |run|
    ensures TaskWasLost(run, k + 1, i) <==> TaskWasLost(run, k, i) || LosesTask(run, k, i)
  {}

  /** The recorded loss is the run's: a task is marked lost exactly when some step lost it. */
  lemma {:induction false} LostHistory(run: seq<State>, k: nat, i: Id)
    requires IsRun(run) && k < |run| && i in run[k].reqs
    ensures run[k].reqs[i].lost <==> TaskWasLost(run, k, i)
  {
    if k == 0 {
      StartsIdle(run);
    } else {
      LostRunStep(run, k - 1, i);
      TaskWasLostStep(run, k - 1, i);
      if i in run[k - 1].reqs { LostHistory(run, k - 1, i); } else { NothingLostBefore(run, k - 1, i); }
    }
  }

  lemma NothingLostBefore(run: seq<State>, k: nat, i: Id)
    requires IsRun(run) && k < |run| && i !in run[k].reqs
    ensures !TaskWasLost(run, k, i)
  {
    forall m | 0 <= m < k ensures !LosesTask(run, m, i) { HistoryGrows(run, m, k); }
  }

  // A run that loses a task

  const WITNESS_RELEASE: Release := Release([], [], [PipelineSpec(1, [100, 200], 10)], {})
  const WITNESS_BODY: Body := Body(1, Some(Bad(OtherwiseMalformed)))

  function WitnessState(phase: Phase, slots: Slots, lost: bool): State {
    var idle := Initial(0, 0, []).(release := Some(WITNESS_RELEASE));
    idle.(reqs := map[0 := Req(0, WITNESS_BODY, slots, phase, None, None, None, false, lost)])
  }

  /** Boot, release, a malformed request, its opening, and the loss of its sealing task. */
  function WitnessRun(): seq<State> {
    [Initial(0, 0, []),
     Initial(0, 0, []).(release := Some(WITNESS_RELEASE)),
     WitnessState(Opening(true), [], false),
     WitnessState(Sealing(Failed(MalformedInputs, NotProduced)), [100], false),
     WitnessState(Left(Error(EnclaveInternal), 0, 0), [100], true)]
  }

  lemma WitnessArrives()
    ensures Next(WitnessRun()[0], WitnessRun()[1]) && Next(WitnessRun()[1], WitnessRun()[2])
  {
    var run := WitnessRun();
    assert run[1] == Apply(run[0], LoadRelease(Some(WITNESS_RELEASE)));
    assert run[2] == Apply(run[1], Arrive(0, WITNESS_BODY));
  }

  lemma WitnessOpens()
    ensures Next(WitnessRun()[2], WitnessRun()[3])
  {
    assert LatestFirstSlot(WITNESS_RELEASE.pipelines) == 100;
    assert WitnessRun()[3] == Apply(WitnessRun()[2], FinishOpening(0));
  }

  lemma WitnessLoses()
    ensures LosesTask(WitnessRun(), 3, 0) && Next(WitnessRun()[3], WitnessRun()[4])
  {
    assert Enabled(WitnessRun()[3], LoseTask(0));
    assert WitnessRun()[4] == Apply(WitnessRun()[3], LoseTask(0));
  }

  /** Some run does lose a sealing task, and its reply leaves at once, 100 milliseconds before its slot. */
  lemma EarlyReplyExists()
    ensures var run := WitnessRun(); var r := run[4].reqs[0];
      IsRun(run) && TaskWasLost(run, 4, 0) && r.phase.at == 0 && SlotTime(r) == 100 * NANOS_PER_MILLI
  {
    WitnessArrives();
    WitnessOpens();
    WitnessLoses();
    assert WitnessRun()[0] == Initial(0, 0, []);
  }

  // The engine

  /** The engine is terminated at most once, and exactly when a request overran; every request that
      arrives afterwards is refused. */
  lemma OverrunIsFinal(run: seq<State>, k: nat, m: nat)
    requires IsRun(run) && k <= m < |run| && run[k].overran
    ensures run[m].overran && run[m].terminations == 1
    ensures forall body :: ArrivalError(run[m], body) == Some(NotReady)
  {
    HistoryGrows(run, k, m);
    RunKeeps(run, m);
  }

  lemma NoOverrunNoTermination(run: seq<State>, k: nat)
    requires IsRun(run) && k < |run|
    ensures run[k].terminations == if run[k].overran then 1 else 0
  {
    RunKeeps(run, k);
  }

  // Time

  /** No engine call is left unanswered: while one is open, it is not past its deadline, or past its own
      start if that came later, by more than `lag`. */
  lemma EngineAnswersInTime(run: seq<State>, k: nat, i: Id)
    requires IsRun(run) && k < |run| && i in run[k].reqs && run[k].reqs[i].phase.Engaged?
    ensures run[k].now <= AnswerBy(run[k].reqs[i]) + run[k].lag
    ensures DueBySlot(run[k].reqs[i], run[k].now, run[k].lag)
  {
    RunKeeps(run, k);
    assert ReqInvariant(run[k], i);
    DueAtSlot(run[k].reqs[i], run[k].now, run[k].lag);
  }

  /** It is not past one of its slots, or past the call if that came later, by more than `lag`. */
  predicate DueBySlot(r: Req, now: Instant, lag: nat)
    requires r.phase.Engaged?
  {
    exists slot :: slot in r.slots && now <= Max(r.phase.calledAt, r.arrival + slot * NANOS_PER_MILLI) + lag
  }

  lemma DueAtSlot(r: Req, now: Instant, lag: nat)
    requires r.phase.Engaged? && r.slots != [] && now <= AnswerBy(r) + lag
    ensures DueBySlot(r, now, lag)
  {
    assert LastSlot(r.slots) in r.slots;
  }

  /** The answer the contract still allows when an engine call is due. */
  function LateAnswer(r: Req): EngineAnswer
    requires r.phase.Engaged?
  {
    EngineError(if r.phase.started then EngineTimedOut else Busy)
  }

  /** Time never locks: in every reachable state it can move on, or a reply that is due can leave, or an
      engine call that is due can be answered. */
  lemma TimeNeverLocks(run: seq<State>, k: nat)
    requires IsRun(run) && k < |run|
    ensures var s := run[k];
      || Enabled(s, Tick(s.now + 1))
      || (exists i :: Enabled(s, Leave(i)))
      || (exists i :: i in s.reqs && s.reqs[i].phase.Engaged? && Enabled(s, EngineAnswers(i, LateAnswer(s.reqs[i]))))
  {
    RunKeeps(run, k);
    var s := run[k];
    if !HandlerEnabled(s, Tick(s.now + 1)) {
      var i :| i in s.reqs && s.reqs[i].phase.Leaving? && s.reqs[i].arrival <= s.reqs[i].phase.readyAt
               && s.now + 1 > LeaveTime(s.reqs[i], s.reqs[i].phase.readyAt) + s.lag;
      DueReplyLeaves(s, i);
    } else if !AnswersDue(s, s.now + 1) {
      var i :| i in s.reqs && s.reqs[i].phase.Engaged? && s.now + 1 > AnswerBy(s.reqs[i]) + s.lag;
      DueCallIsAnswered(s, i);
    }
  }

  lemma DueReplyLeaves(s: State, i: Id)
    requires i in s.reqs && s.reqs[i].phase.Leaving? && s.reqs[i].arrival <= s.reqs[i].phase.readyAt
    requires s.now + 1 > LeaveTime(s.reqs[i], s.reqs[i].phase.readyAt) + s.lag
    ensures Enabled(s, Leave(i))
  {}

  lemma DueCallIsAnswered(s: State, i: Id)
    requires i in s.reqs && s.reqs[i].phase.Engaged? && s.now + 1 > AnswerBy(s.reqs[i]) + s.lag
    ensures Enabled(s, EngineAnswers(i, LateAnswer(s.reqs[i])))
  {}

  // The sealed reason Internal

  /** The request of `i` passed every check and asks for a new pair, and the set has no capacity. */
  predicate FullFor(s: State, i: Id) {
    && i in s.reqs && s.release.Some? && s.reqs[i].body.plaintext.Some?
    && s.reqs[i].body.plaintext.value.Good? && s.reqs[i].body.plaintext.value.value.payload.Good?
    && var request := s.reqs[i].body.plaintext.value.value;
    var payload := request.payload.value;
    var spec := FindPipeline(s.release.value.pipelines, payload.pipeline);
    && payload.releaseHash == s.release.value.releaseHash && spec.Some?
    && Check(s.release.value, spec.value, request, payload, s.reqs[i].body.length).Ok?
    && Pair(request.aud, request.nonce) !in s.guard.processed
    && |s.guard.processed| >= s.guard.limit
  }

  /** `i` finished opening at step `m` of the run, its task not lost, and found no room. */
  ghost predicate FoundNoRoom(run: seq<State>, m: nat, i: Id)
    requires m + 1 < |run|
  {
    i in run[m].reqs && i in run[m + 1].reqs
    && run[m].reqs[i].phase.Opening? && !run[m + 1].reqs[i].phase.Opening? && !run[m + 1].reqs[i].lost
    && FullFor(run[m], i)
  }

  /** Only finishing the opening of `i` touches what its history says about room. */
  lemma OthersKeepNoRoom(s: State, a: Action, i: Id)
    requires Enabled(s, a) && a != FinishOpening(i) && i in Apply(s, a).reqs
    ensures Apply(s, a).reqs[i].noRoom <==> i in s.reqs && s.reqs[i].noRoom
    ensures i in s.reqs && s.reqs[i].phase.Opening? ==> Apply(s, a).reqs[i].phase.Opening? || Apply(s, a).reqs[i].lost
  {}

  lemma NoRoomStep(s: State, a: Action, i: Id)
    requires Invariant(s) && Enabled(s, a) && i in Apply(s, a).reqs
    ensures var s' := Apply(s, a);
      var found := i in s.reqs && s.reqs[i].phase.Opening? && !s'.reqs[i].phase.Opening? && !s'.reqs[i].lost
                   && FullFor(s, i);
      s'.reqs[i].noRoom <==> (i in s.reqs && s.reqs[i].noRoom) || found
  {
    if a == FinishOpening(i) {
      assert ReqInvariant(s, i);
      OpeningFindsNoRoom(s, i);
      OpeningEnds(s, i);
    } else {
      OthersKeepNoRoom(s, a, i);
    }
  }

  lemma OpeningEnds(s: State, i: Id)
    requires HandlerEnabled(s, FinishOpening(i))
    ensures !AfterOpening(s, i).reqs[i].phase.Opening?
  {}

  lemma OpeningFindsNoRoom(s: State, i: Id)
    requires HandlerEnabled(s, FinishOpening(i)) && Consistent(s.guard)
    ensures AfterOpening(s, i).reqs[i].noRoom <==> (s.reqs[i].noRoom && s.reqs[i].body.plaintext.None?) || FullFor(s, i)
  {}

  ghost predicate EverNoRoom(run: seq<State>, k: nat, i: Id)
    requires k < |run|
  {
    exists m :: 0 <= m < k && FoundNoRoom(run, m, i)
  }

  lemma NoRoomRunStep(run: seq<State>, k: nat, i: Id)
    requires IsRun(run) && k + 1 < |run| && i in run[k + 1].reqs
    ensures run[k + 1].reqs[i].noRoom <==> (i in run[k].reqs && run[k].reqs[i].noRoom) || FoundNoRoom(run, k, i)
  {
    RunKeeps(run, k);
    assert Next(run[k], run[k + 1]);
    if run[k + 1] != run[k] {
      var a: Action :| Enabled(run[k], a) && run[k + 1] == Apply(run[k], a);
      NoRoomStep(run[k], a, i);
    }
  }

  lemma EverNoRoomStep(run: seq<State>, k: nat, i: Id)
    requires k + 1 < |run|
    ensures EverNoRoom(run, k + 1, i) <==> EverNoRoom(run, k, i) || FoundNoRoom(run, k, i)
  {}

  lemma NotThereBefore(run: seq<State>, k: nat, i: Id)
    requires IsRun(run) && k < |run| && i !in run[k].reqs
    ensures !EverNoRoom(run, k, i)
  {
    forall m | 0 <= m < k ensures !FoundNoRoom(run, m, i) { HistoryGrows(run, m, k); }
  }

  lemma {:induction false} NoRoomHistory(run: seq<State>, k: nat, i: Id)
    requires IsRun(run) && k < |run| && i in run[k].reqs
    ensures run[k].reqs[i].noRoom <==> EverNoRoom(run, k, i)
  {
    if k == 0 {
      StartsIdle(run);
    } else {
      NoRoomRunStep(run, k - 1, i);
      EverNoRoomStep(run, k - 1, i);
      if i in run[k - 1].reqs { NoRoomHistory(run, k - 1, i); } else { NotThereBefore(run, k - 1, i); }
    }
  }

  /** A request's sealed reason is Internal exactly when, as it finished opening, it had passed every
      check and found the replay set without room for its new pair: no engine fault is ever sealed. */
  lemma SealedInternalIff(run: seq<State>, k: nat, i: Id)
    requires IsRun(run) && k < |run| && i in run[k].reqs
    requires run[k].reqs[i].phase.Left? && run[k].reqs[i].phase.sent.Sealed? && run[k].reqs[i].phase.sent.outcome.Failed?
    ensures run[k].reqs[i].phase.sent.outcome.failure == FailureReason.Internal
            <==> EverNoRoom(run, k, i)
  {
    RunKeeps(run, k);
    assert ReqInvariant(run[k], i);
    NoRoomHistory(run, k, i);
  }
}
