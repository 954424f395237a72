/** What each reply says about the request it answers, over every run of the match protocol. */
module MatchReplies {
  import opened SealedTypes
  import opened Wrappers
  import opened ResponseSlots
  import opened ReplayGuard
  import opened Pipeline
  import opened MatchProtocol
  import opened MatchSafety
  import opened MatchRuns
  import Envelope = ResponseEnvelope

  // What a reply may say

  /** The answer carries this report. */
  predicate Reports(a: EngineAnswer, report: Option<Report>) {
    match a
    case DeepFaceScores(_, _, _, r) => report == r
    case GrayBadgeScores(_, r) => report == r
    case EngineError(_) => false
  }

  /** The report a success carries: the answer's, or its size where it was too long or did not fit. */
  predicate KeepsReport(a: EngineAnswer, report: DebugReport) {
    match a
    case DeepFaceScores(_, _, _, r) => ReportKept(r, report)
    case GrayBadgeScores(_, r) => ReportKept(r, report)
    case EngineError(_) => false
  }

  predicate ReportKept(produced: Option<Report>, report: DebugReport) {
    match produced
    case None => report == NotProduced
    case Some(json) => report == Available(json) || (json != [] && report == OmittedTooLarge(|json|))
  }

  /** A rejection is what the engine's answer means, or, before any, the first check the request failed. */
  predicate RejectionExplained(release: Option<Release>, r: Req, reason: FailureReason, report: DebugReport) {
    if r.answer.Some? then r.prepared.Some? && Explains(r.answer.value, r.prepared.value.threshold, reason, report)
    else
      && r.prepared.None? && report == NotProduced && release.Some? && r.body.plaintext.Some?
      && RefusedFor(release.value, r.body.plaintext.value, r.body.length, reason)
  }

  predicate OutcomeAgrees(release: Option<Release>, r: Req, o: Outcome) {
    match o
    case Success(statement, report) =>
      r.signed == Some(statement.attestation) && r.answer.Some? && KeepsReport(r.answer.value, report)
    case Failed(reason, report) => RejectionExplained(release, r, reason, report)
  }

  /** After opening only two errors are left, and NotReady is the engine's Busy. */
  predicate ErrorAgrees(r: Req, e: EnclaveError) {
    r.slots != [] ==> (e == NotReady || e == EnclaveInternal) && (e == NotReady <==> r.answer == Some(EngineError(Busy)))
  }

  predicate ReplyAgrees(release: Option<Release>, r: Req, reply: Reply) {
    match reply
    case Sealed(outcome) => OutcomeAgrees(release, r, outcome)
    case Error(e) => ErrorAgrees(r, e)
  }

  /** The phase agrees with what the engine answered. */
  predicate AnswerAgrees(release: Option<Release>, r: Req) {
    match r.phase
    case Opening(_) | Ready(_) | Engaged(_, _, _) => r.answer.None?
    case Signing(_, report) => r.answer.Some? && Reports(r.answer.value, report)
    case Sealing(result) => OutcomeAgrees(release, r, result)
    case Leaving(reply, _) => ReplyAgrees(release, r, reply)
    case Left(reply, _, _) => ReplyAgrees(release, r, reply)
    case Abandoned => true
  }

  predicate TimedOut(r: Req) { r.answer == Some(EngineError(EngineTimedOut)) }

  ghost predicate Explained(s: State) {
    forall i :: i in s.reqs ==>
      AnswerAgrees(s.release, s.reqs[i]) && (TimedOut(s.reqs[i]) ==> s.overran && s.now >= Deadline(s.reqs[i]))
  }

  // Every step keeps it

  predicate Concerns(a: Action, i: Id) { !a.Tick? && !a.LoadRelease? && a.id == i }

  lemma Unmoved(s: State, a: Action, i: Id)
    requires HandlerEnabled(s, a) && i in s.reqs && !Concerns(a, i)
    ensures i in Apply(s, a).reqs && Apply(s, a).reqs[i] == s.reqs[i]
  {}

  lemma ReleaseStays(s: State, a: Action)
    requires HandlerEnabled(s, a)
    ensures s.release.Some? ==> Apply(s, a).release == s.release
  {}

  lemma OtherReleaseAgrees(r: Req, before: Option<Release>, after: Option<Release>)
    requires AnswerAgrees(before, r) && (before.Some? ==> after == before)
    ensures AnswerAgrees(after, r)
  {}

  lemma OpeningExplains(s: State, i: Id)
    requires HandlerEnabled(s, FinishOpening(i)) && Consistent(s.guard) && ReqInvariant(s, i)
    requires AnswerAgrees(s.release, s.reqs[i])
    ensures AnswerAgrees(s.release, AfterOpening(s, i).reqs[i]) && AfterOpening(s, i).reqs[i].answer.None?
  {
    var r := s.reqs[i];
    if r.body.plaintext.Some? {
      var p := Prepare(s.release.value, r.body.plaintext.value, r.body.length, s.guard);
      if p.result.Err? { PrepareFails(s.release.value, r.body.plaintext.value, r.body.length, s.guard); }
    }
  }

  lemma AnswerExplains(s: State, i: Id, a: EngineAnswer)
    requires HandlerEnabled(s, EngineAnswers(i, a)) && PhaseAgrees(s, i)
    ensures AnswerAgrees(s.release, AfterAnswer(s, i, a).reqs[i])
  {
    JudgeRejects(a, s.reqs[i].phase.prepared.threshold);
  }

  lemma SignExplains(s: State, i: Id, attestation: Option<seq<int>>)
    requires HandlerEnabled(s, Sign(i, attestation)) && PhaseAgrees(s, i) && AnswerAgrees(s.release, s.reqs[i])
    ensures AnswerAgrees(s.release, AfterSign(s, i, attestation).reqs[i])
  {}

  lemma SealExplains(release: Option<Release>, r: Req, o: Outcome, wire: Envelope.AttestedStatement, channelSeals: bool)
    requires OutcomeAgrees(release, r, o) && (o.Success? ==> Passed(r))
    requires o.Failed? ==> Envelope.Valid(MatchResult<Envelope.AttestedStatement>.Failed(o.failure, o.debugReport))
    ensures ReplyAgrees(release, r, SealedReply(o, wire, channelSeals))
  {
    SealingKeepsOutcome(o, wire, channelSeals);
    SealingKeepsReport(o, wire);
  }

  lemma SealStepExplains(s: State, i: Id, wire: Envelope.AttestedStatement, channelSeals: bool)
    requires HandlerEnabled(s, Seal(i, wire, channelSeals)) && PhaseAgrees(s, i) && AnswerAgrees(s.release, s.reqs[i])
    ensures AnswerAgrees(s.release, Apply(s, Seal(i, wire, channelSeals)).reqs[i])
  {
    SealExplains(s.release, s.reqs[i], s.reqs[i].phase.result, wire, channelSeals);
  }

  /** Sealing keeps the report of a success, or its size when the whole does not fit. */
  lemma SealingKeepsReport(o: Outcome, wire: Envelope.AttestedStatement)
    ensures var w := WireForm(o, wire); var d := Envelope.Delivered(w);
      d.Ok? ==> d.value.debugReport == o.debugReport
                || (o.debugReport.Available? && o.debugReport.json != []
                    && d.value.debugReport == OmittedTooLarge(|o.debugReport.json|))
  {
    var w := WireForm(o, wire);
    if w.debugReport.Available? { Envelope.FallbackIsShorterIff(w); }
  }

  lemma RequestExplains(s: State, a: Action, i: Id)
    requires Enabled(s, a) && Concerns(a, i) && i in s.reqs && AnswerAgrees(s.release, s.reqs[i])
    requires Consistent(s.guard) && ReqInvariant(s, i)
    ensures AnswerAgrees(s.release, Apply(s, a).reqs[i])
  {
    match a
    case FinishOpening(_) => OpeningExplains(s, i);
    case EngineAnswers(_, answer) => AnswerExplains(s, i, answer);
    case Sign(_, attestation) => SignExplains(s, i, attestation);
    case Seal(_, wire, channelSeals) => SealStepExplains(s, i, wire, channelSeals);
    case _ => QuietExplains(s, a, i);
  }

  /** The steps that only move a request along. */
  lemma QuietExplains(s: State, a: Action, i: Id)
    requires Enabled(s, a) && Concerns(a, i) && i in s.reqs && AnswerAgrees(s.release, s.reqs[i]) && ReqInvariant(s, i)
    requires a.CallEngine? || a.StartInference? || a.Leave? || a.Cancel? || a.LoseTask?
    ensures AnswerAgrees(s.release, Apply(s, a).reqs[i])
  {}

  lemma TimedOutStep(s: State, a: Action, i: Id)
    requires Enabled(s, a) && i in Apply(s, a).reqs
    requires i in s.reqs ==> AnswerAgrees(s.release, s.reqs[i])
    requires i in s.reqs && TimedOut(s.reqs[i]) ==> s.overran && s.now >= Deadline(s.reqs[i])
    ensures var s' := Apply(s, a); TimedOut(s'.reqs[i]) ==> s'.overran && s'.now >= Deadline(s'.reqs[i])
  {}

  lemma StepExplains(s: State, a: Action)
    requires Invariant(s) && Explained(s) && Enabled(s, a)
    ensures Explained(Apply(s, a))
  {
    var s' := Apply(s, a);
    ReleaseStays(s, a);
    forall i | i in s'.reqs ensures AnswerAgrees(s'.release, s'.reqs[i]) {
      if i in s.reqs && Concerns(a, i) {
        assert ReqInvariant(s, i);
        RequestExplains(s, a, i);
        OtherReleaseAgrees(s'.reqs[i], s.release, s'.release);
      } else if i in s.reqs {
        Unmoved(s, a, i);
        OtherReleaseAgrees(s.reqs[i], s.release, s'.release);
      } else {
        Arrives(s, a, i);
      }
    }
    forall i | i in s'.reqs ensures TimedOut(s'.reqs[i]) ==> s'.overran && s'.now >= Deadline(s'.reqs[i]) {
      TimedOutStep(s, a, i);
    }
  }

  /** A request appears only by arriving, as its step says. */
  lemma Arrives(s: State, a: Action, i: Id)
    requires HandlerEnabled(s, a) && i !in s.reqs && i in Apply(s, a).reqs
    ensures a.Arrive? && a.id == i
    ensures var r := Apply(s, a).reqs[i];
      r.arrival == s.now && r.body == a.body && r.slots == [] && r.answer.None? && AnswerAgrees(Apply(s, a).release, r)
  {}

  lemma NextExplains(s: State, s': State)
    requires Invariant(s) && Explained(s) && Next(s, s')
    ensures Explained(s')
  {
    if s' != s {
      var a: Action :| Enabled(s, a) && s' == Apply(s, a);
      StepExplains(s, a);
    }
  }

  lemma {:induction false} RunExplained(run: seq<State>, k: nat)
    requires IsRun(run) && k < |run|
    ensures Explained(run[k])
  {
    if k == 0 {
      StartsIdle(run);
    } else {
      RunExplained(run, k - 1);
      RunStepExplains(run, k - 1);
    }
  }

  lemma RunStepExplains(run: seq<State>, k: nat)
    requires IsRun(run) && k + 1 < |run| && Explained(run[k])
    ensures Explained(run[k + 1])
  {
    RunKeeps(run, k);
    assert Next(run[k], run[k + 1]);
    NextExplains(run[k], run[k + 1]);
  }

  // What every reply says

  predicate SentRejection(s: State, i: Id) {
    i in s.reqs && s.reqs[i].phase.Left? && s.reqs[i].phase.sent.Sealed? && s.reqs[i].phase.sent.outcome.Failed?
  }

  /** A sealed rejection says what happened: what the engine's answer means under the request's threshold,
      or, when the engine was never asked, the first check the request fails or the replay set's refusal. */
  lemma RejectionIsExplained(run: seq<State>, k: nat, i: Id)
    requires IsRun(run) && k < |run| && SentRejection(run[k], i)
    ensures var r, o := run[k].reqs[i], run[k].reqs[i].phase.sent.outcome;
      if r.answer.Some? then
        r.prepared.Some? && Explains(r.answer.value, r.prepared.value.threshold, o.failure, o.debugReport)
      else
        && run[k].release.Some? && r.body.plaintext.Some? && o.debugReport == NotProduced
        && RefusedFor(run[k].release.value, r.body.plaintext.value, r.body.length, o.failure)
  {
    RunExplained(run, k);
  }

  /** A sealed success carries the attestation that came with its signature, and the report of the answer
      it was judged by. */
  lemma SuccessIsSigned(run: seq<State>, k: nat, i: Id)
    requires IsRun(run) && k < |run| && SentSuccess(run[k], i)
    ensures var r, o := run[k].reqs[i], run[k].reqs[i].phase.sent.outcome;
      r.signed == Some(o.statement.attestation) && r.answer.Some? && KeepsReport(r.answer.value, o.debugReport)
  {
    RunExplained(run, k);
  }

  /** After opening the only errors are NotReady, exactly when the engine was too busy, and an internal one. */
  lemma NotReadyIsBusy(run: seq<State>, k: nat, i: Id)
    requires IsRun(run) && k < |run| && i in run[k].reqs && run[k].reqs[i].phase.Left? && run[k].reqs[i].slots != []
    ensures run[k].reqs[i].phase.sent == Error(NotReady) <==> run[k].reqs[i].answer == Some(EngineError(Busy))
    ensures run[k].reqs[i].phase.sent.Error? ==> run[k].reqs[i].phase.sent.error in {NotReady, EnclaveInternal}
  {
    RunExplained(run, k);
    RunKeeps(run, k);
    assert ReqInvariant(run[k], i) && AnswerAgrees(run[k].release, run[k].reqs[i]);
  }

  /** The engine times out only after every slot of the request has passed. */
  lemma TimeoutIsPastEverySlot(run: seq<State>, k: nat, i: Id, slot: nat)
    requires IsRun(run) && k < |run| && i in run[k].reqs && TimedOut(run[k].reqs[i]) && slot in run[k].reqs[i].slots
    ensures run[k].now >= run[k].reqs[i].arrival + slot * NANOS_PER_MILLI
  {
    RunExplained(run, k);
    RunKeeps(run, k);
    assert ReqInvariant(run[k], i);
    LastIsLargest(run[k].reqs[i].slots);
  }

  // The engine overruns exactly when a request timed out

  lemma AnswerStays(s: State, a: Action, i: Id)
    requires Enabled(s, a) && i in s.reqs && s.reqs[i].answer.Some? && AnswerAgrees(s.release, s.reqs[i])
    ensures i in Apply(s, a).reqs && Apply(s, a).reqs[i].answer == s.reqs[i].answer
  {}

  lemma OverranStep(s: State, a: Action)
    requires Enabled(s, a) && !s.overran && Apply(s, a).overran
    ensures a.EngineAnswers? && TimedOut(Apply(s, a).reqs[a.id])
  {}

  ghost predicate SomeTimedOut(s: State) { exists i :: i in s.reqs && TimedOut(s.reqs[i]) }

  lemma SomeTimedOutStep(s: State, s': State)
    requires Next(s, s') && Explained(s) && (s.overran ==> SomeTimedOut(s)) && s'.overran
    ensures SomeTimedOut(s')
  {
    if s' != s {
      var a: Action :| Enabled(s, a) && s' == Apply(s, a);
      if s.overran {
        var i :| i in s.reqs && TimedOut(s.reqs[i]);
        AnswerStays(s, a, i);
      } else {
        OverranStep(s, a);
      }
    }
  }

  /** A boot has overrun exactly when the engine answered some request of it with a timeout. */
  lemma {:induction false} OverranIff(run: seq<State>, k: nat)
    requires IsRun(run) && k < |run|
    ensures run[k].overran <==> SomeTimedOut(run[k])
  {
    RunExplained(run, k);
    if k > 0 {
      OverranIff(run, k - 1);
      RunExplained(run, k - 1);
      assert Next(run[k - 1], run[k]);
      if run[k].overran { SomeTimedOutStep(run[k - 1], run[k]); }
    } else {
      StartsUnoverrun(run);
    }
  }

  lemma StartsUnoverrun(run: seq<State>)
    requires IsRun(run)
    ensures !run[0].overran
  {}

  // Arrivals

  /** Step `m` is the arrival of `i`, with this body and at this time. */
  ghost predicate ArrivesAt(run: seq<State>, m: nat, i: Id, body: Body, at: Instant)
    requires m + 1 < |run|
  {
    && i !in run[m].reqs && run[m].now == at
    && HandlerEnabled(run[m], Arrive(i, body)) && run[m + 1] == Apply(run[m], Arrive(i, body))
  }

  lemma ArrivalStays(s: State, a: Action, i: Id)
    requires HandlerEnabled(s, a) && i in s.reqs
    ensures i in Apply(s, a).reqs
    ensures Apply(s, a).reqs[i].arrival == s.reqs[i].arrival && Apply(s, a).reqs[i].body == s.reqs[i].body
  {}

  lemma ArrivalStep(run: seq<State>, k: nat, i: Id)
    requires IsRun(run) && k + 1 < |run| && i in run[k + 1].reqs
    ensures var r := run[k + 1].reqs[i];
      if i in run[k].reqs then r.arrival == run[k].reqs[i].arrival && r.body == run[k].reqs[i].body
      else ArrivesAt(run, k, i, r.body, r.arrival)
  {
    assert Next(run[k], run[k + 1]);
    if run[k + 1] != run[k] {
      var a: Action :| Enabled(run[k], a) && run[k + 1] == Apply(run[k], a);
      if i in run[k].reqs { ArrivalStays(run[k], a, i); } else { Arrives(run[k], a, i); }
    }
  }

  /** The arrival that slots and deadlines are counted from, and the body that is answered, are those of
      the step in which the request arrived. */
  lemma {:induction false} ArrivalIsRecorded(run: seq<State>, k: nat, i: Id)
    requires IsRun(run) && k < |run| && i in run[k].reqs
    ensures exists m :: 0 <= m < k && ArrivesAt(run, m, i, run[k].reqs[i].body, run[k].reqs[i].arrival)
  {
    if k == 0 {
      StartsIdle(run);
    } else {
      ArrivalStep(run, k - 1, i);
      if i in run[k - 1].reqs { ArrivalIsRecorded(run, k - 1, i); }
    }
  }
}
