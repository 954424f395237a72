/** The handlers together with the worker executor, and why the executor meets the engine contract:
    with the executor erased, every run is a run of the handlers over that contract. */
module EnclaveRuns {
  import opened SealedTypes
  import opened Wrappers
  import opened ResponseSlots
  import opened ReplayGuard
  import opened Pipeline
  import P = MatchProtocol
  import MatchSafety
  import MatchRuns
  import X = Executor
  import Client = SandboxClient

  type Id = nat

  /** What the worker's client makes of one exclusive exchange. */
  type WorkerResult = Result<Client.Outcome, Client.Rejection>

  /** `f` is how the engine rounds a similarity; it never changes. */
  datatype State = State(h: P.State, x: X.State<WorkerResult>, f: Client.Rounding)

  datatype Action =
    | Tick(t: Instant)
    | Handler(a: P.Action)             // a handler step that does not involve the executor
    | Call(id: Id)                     // the handler calls the engine and enters the executor
    | Poll(id: Id)                     // the lock is picked up: dispatched, or Busy past the deadline
    | Expire(id: Id)
    | Finish(id: Id, result: Option<WorkerResult>)
    | Timeout(id: Id)
    | Deliver(id: Id)
    | Cancel(id: Id)

  function Initial(now: Instant, lag: nat, hash: seq<int>, f: Client.Rounding): State {
    State(P.Initial(now, lag, hash), X.Initial(now, lag), f)
  }

  /** The scores the client checked, and the mapping of its rejections. */
  function WorkerAnswer(f: Client.Rounding, r: WorkerResult): P.EngineAnswer {
    match r
    case Ok(o) =>
      if Client.ScoresOf(o).Some? && Client.AllValid(Client.ScoresOf(o).value) then Client.AnswerOf(f, o)
      else P.EngineError(P.EngineFault)
    case Err(AnalysisFailed(failure)) =>
      P.EngineError(if failure.reason == FailureReason.Internal then P.EngineFault
                    else P.AnalysisRejected(failure.reason, failure.report))
    case Err(InvalidImages) => P.EngineError(P.Rejected(MalformedInputs))
  }

  function OutcomeAnswer(f: Client.Rounding, o: X.Outcome<WorkerResult>): P.EngineAnswer {
    match o
    case Busy => P.EngineError(P.Busy)
    case EngineTimeout => P.EngineError(P.EngineTimedOut)
    case Completed(r) => WorkerAnswer(f, r)
    case Lost => P.EngineError(P.EngineFault)
  }

  /** Handler steps that never touch the executor. */
  predicate Local(a: P.Action) {
    !a.Tick? && !a.CallEngine? && !a.StartInference? && !a.EngineAnswers? && !a.Cancel?
  }

  predicate Engaged(s: State, i: Id) { i in s.h.reqs && s.h.reqs[i].phase.Engaged? }

  /** What the client accepts is a result of the operation it was asked for, with every score valid
      (`SandboxClient.Evaluate`). */
  predicate ResultFits(h: P.State, i: Id, r: Option<WorkerResult>) {
    r.Some? && r.value.Ok? && i in h.reqs && h.reqs[i].prepared.Some? ==>
      Accepted(h.reqs[i].prepared.value.operation, r.value.value)
  }

  predicate Accepted(op: Operation, o: Client.Outcome) {
    var expected := Client.ExpectedOf(Client.WorkerOperation(op));
    expected.Some? && Client.OfKind(o, expected.value) && Client.AllValid(Client.ScoresOf(o).value)
  }

  /** The answer an executor step gives its caller. */
  function AnswerOf(s: State, a: Action): P.EngineAnswer {
    match a
    case Deliver(i) =>
      if i in s.x.tasks && s.x.tasks[i].work.Ended? then
        var result := s.x.tasks[i].work.result;
        OutcomeAnswer(s.f, if result.Some? then X.Completed(result.value) else X.Lost)
      else P.EngineError(P.EngineFault)
    case Timeout(_) => P.EngineError(P.EngineTimedOut)
    case _ => P.EngineError(P.Busy)
  }

  predicate Enabled(s: State, a: Action) {
    match a
    case Tick(t) => P.HandlerEnabled(s.h, P.Tick(t)) && X.Enabled(s.x, X.Tick(t))
    case Handler(b) => Local(b) && P.HandlerEnabled(s.h, b)
    case Call(i) => P.HandlerEnabled(s.h, P.CallEngine(i)) && i !in s.x.tasks
    case Poll(i) => Engaged(s, i) && X.Enabled(s.x, X.Poll(i))
    case Expire(i) => Engaged(s, i) && X.Enabled(s.x, X.Expire(i))
    case Finish(i, r) => X.Enabled(s.x, X.Finish(i, r)) && ResultFits(s.h, i, r)
    case Timeout(i) => Engaged(s, i) && X.Enabled(s.x, X.Timeout(i))
    case Deliver(i) => Engaged(s, i) && X.Enabled(s.x, X.Deliver(i))
    case Cancel(i) => P.HandlerEnabled(s.h, P.Cancel(i)) && (Engaged(s, i) ==> X.Enabled(s.x, X.Drop(i)))
  }

  /** The handlers' side of picking the lock up: Busy past the deadline, otherwise inference starts. */
  function AfterPoll(s: State, i: Id): P.State
    requires Engaged(s, i) && X.Enabled(s.x, X.Poll(i))
  {
    if s.x.now >= s.x.tasks[i].deadline then P.AfterAnswer(s.h, i, P.EngineError(P.Busy))
    else if s.h.reqs[i].phase.started then s.h
    else P.AfterStart(s.h, i)
  }

  function HandlersAfter(s: State, a: Action): P.State
    requires Enabled(s, a)
  {
    match a
    case Tick(t) => P.Apply(s.h, P.Tick(t))
    case Handler(b) => P.Apply(s.h, b)
    case Call(i) => P.Apply(s.h, P.CallEngine(i))
    case Poll(i) => AfterPoll(s, i)
    case Expire(i) => P.AfterAnswer(s.h, i, P.EngineError(P.Busy))
    case Finish(i, r) => s.h
    case Timeout(i) => P.AfterAnswer(s.h, i, P.EngineError(P.EngineTimedOut))
    case Deliver(i) => P.AfterAnswer(s.h, i, AnswerOf(s, a))
    case Cancel(i) => P.Apply(s.h, P.Cancel(i))
  }

  function ExecutorAfter(s: State, a: Action): X.State<WorkerResult>
    requires Enabled(s, a)
  {
    match a
    case Tick(t) => X.Apply(s.x, X.Tick(t))
    case Handler(_) => s.x
    case Call(i) => X.Apply(s.x, X.Enter(i, P.Deadline(s.h.reqs[i])))
    case Poll(i) => X.Apply(s.x, X.Poll(i))
    case Expire(i) => X.Apply(s.x, X.Expire(i))
    case Finish(i, r) => X.Apply(s.x, X.Finish(i, r))
    case Timeout(i) => X.Apply(s.x, X.Timeout(i))
    case Deliver(i) => X.Apply(s.x, X.Deliver(i))
    case Cancel(i) => if Engaged(s, i) then X.Apply(s.x, X.Drop(i)) else s.x
  }

  function Apply(s: State, a: Action): State
    requires Enabled(s, a)
  {
    State(HandlersAfter(s, a), ExecutorAfter(s, a), s.f)
  }

  // How the two halves stay in step

  /** The executor's view of an engine call agrees with the handler's. */
  predicate Agrees(s: State, i: Id) {
    && OperationKept(s.h, i)
    && (i in s.x.tasks && s.x.tasks[i].work.Ended? ==> ResultFits(s.h, i, s.x.tasks[i].work.result))
    && CallAgrees(s, i)
  }

  /** A request is engaged for the operation it was prepared for. */
  predicate OperationKept(h: P.State, i: Id) {
    i in h.reqs ==>
      var r := h.reqs[i];
      && (r.phase.Opening? ==> r.prepared.None?)
      && (r.phase.Ready? || r.phase.Engaged? ==> r.prepared == Some(r.phase.prepared))
  }

  /** An open engine call is one the executor still has to answer, by the same deadline; any other task
      is past caring. */
  predicate CallAgrees(s: State, i: Id) {
    if Engaged(s, i) then
      var r := s.h.reqs[i];
      && i in s.x.tasks
      && s.x.tasks[i].deadline == P.Deadline(r) && s.x.tasks[i].entered == r.phase.calledAt
      && (X.Waiting(s.x.tasks[i]) || s.x.tasks[i].caller.Awaiting?)
      && (r.phase.started <==> !s.x.tasks[i].work.NotStarted?)
    else i in s.x.tasks ==>
      && (s.x.tasks[i].caller.Answered? || s.x.tasks[i].caller.Dropped?)
      && i in s.h.reqs && !s.h.reqs[i].phase.Opening? && !s.h.reqs[i].phase.Ready?
  }

  ghost predicate InStep(s: State) {
    && X.Invariant(s.x)
    && s.h.now == s.x.now && s.h.lag == s.x.lag
    && forall i: Id :: Agrees(s, i)
  }

  lemma InitialInStep(now: Instant, lag: nat, hash: seq<int>, f: Client.Rounding)
    ensures InStep(Initial(now, lag, hash, f))
  {}

  /** The contract step an enclave step amounts to; None when it is invisible to the handlers. */
  function Abstract(s: State, a: Action): Option<P.Action> {
    match a
    case Tick(t) => Some(P.Tick(t))
    case Handler(b) => Some(b)
    case Call(i) => Some(P.CallEngine(i))
    case Poll(i) =>
      if i in s.x.tasks && s.x.now < s.x.tasks[i].deadline then Some(P.StartInference(i))
      else Some(P.EngineAnswers(i, P.EngineError(P.Busy)))
    case Expire(i) => Some(P.EngineAnswers(i, P.EngineError(P.Busy)))
    case Finish(_, _) => None
    case Timeout(i) => Some(P.EngineAnswers(i, P.EngineError(P.EngineTimedOut)))
    case Deliver(i) => Some(P.EngineAnswers(i, AnswerOf(s, a)))
    case Cancel(i) => Some(P.Cancel(i))
  }

  /** The executor meets the `BiometricEngine` contract: each of its steps is one the contract allows. */
  lemma StepRefines(s: State, a: Action)
    requires InStep(s) && Enabled(s, a)
    ensures Refines(s, a)
  {
    match a
    case Tick(t) => TickRefines(s, t);
    case Handler(b) => HandlerRefines(s, b);
    case Call(i) => CallRefines(s, i);
    case Poll(i) => assert Agrees(s, i); PollRefines(s, i);
    case Expire(i) => assert Agrees(s, i); BusyRefines(s, i);
    case Finish(i, r) =>
    case Timeout(i) => assert Agrees(s, i); TimeoutRefines(s, i);
    case Deliver(i) => assert Agrees(s, i); DeliverRefines(s, i);
    case Cancel(i) => CancelRefines(s, i);
  }

  predicate Refines(s: State, a: Action)
    requires Enabled(s, a)
  {
    match Abstract(s, a)
    case Some(b) => P.Enabled(s.h, b) && HandlersAfter(s, a) == P.Apply(s.h, b)
    case None => HandlersAfter(s, a) == s.h
  }

  /** The executor answers in time, so the contract lets time pass whenever both halves do. */
  lemma TickRefines(s: State, t: Instant)
    requires InStep(s) && Enabled(s, Tick(t))
    ensures Refines(s, Tick(t))
  {
    forall i | i in s.h.reqs && s.h.reqs[i].phase.Engaged? ensures t <= P.AnswerBy(s.h.reqs[i]) + s.h.lag {
      assert Agrees(s, i);
      assert X.Pending(s.x.tasks[i]);
    }
  }

  lemma HandlerRefines(s: State, b: P.Action)
    requires Enabled(s, Handler(b))
    ensures Refines(s, Handler(b))
  {}

  lemma CallRefines(s: State, i: Id)
    requires Enabled(s, Call(i))
    ensures Refines(s, Call(i))
  {}

  lemma PollRefines(s: State, i: Id)
    requires Enabled(s, Poll(i)) && CallAgrees(s, i) && X.Coherent(s.x.tasks[i])
    ensures Refines(s, Poll(i))
  {}

  lemma BusyRefines(s: State, i: Id)
    requires Enabled(s, Expire(i)) && CallAgrees(s, i) && X.Coherent(s.x.tasks[i])
    ensures Refines(s, Expire(i))
  {}

  lemma TimeoutRefines(s: State, i: Id)
    requires Enabled(s, Timeout(i)) && CallAgrees(s, i) && s.h.now == s.x.now
    ensures Refines(s, Timeout(i))
  {}

  lemma DeliverRefines(s: State, i: Id)
    requires Enabled(s, Deliver(i)) && Agrees(s, i)
    ensures Refines(s, Deliver(i))
  {
    var result := s.x.tasks[i].work.result;
    if result.Some? && result.value.Ok? {
      AcceptedAnswerFits(s.f, s.h.reqs[i].phase.prepared.operation, result.value.value);
    }
  }

  lemma AcceptedAnswerFits(f: Client.Rounding, op: Operation, o: Client.Outcome)
    requires Accepted(op, o)
    ensures P.AnswerFits(op, WorkerAnswer(f, Ok(o))) && !WorkerAnswer(f, Ok(o)).EngineError?
  {}

  lemma CancelRefines(s: State, i: Id)
    requires Enabled(s, Cancel(i))
    ensures Refines(s, Cancel(i))
  {}

  /** An executor step of one task leaves every other as it was, or hands it the lock it waits for. */
  lemma OthersInExecutor(x: X.State<WorkerResult>, a: X.Action<WorkerResult>, j: Id)
    requires X.Enabled(x, a) && X.QueueMatches(x) && (a.Tick? || a.id != j)
    ensures var x' := X.Apply(x, a);
      if j in x.tasks then
        j in x'.tasks && (x'.tasks[j] == x.tasks[j]
                          || (x.tasks[j].caller.Queued? && x'.tasks[j] == x.tasks[j].(caller := X.Handed)))
      else j !in x'.tasks
  {}

  /** A request that a step did not move, and whose task it at most handed the lock, still agrees. */
  lemma UnmovedAgrees(s: State, s': State, j: Id)
    requires Agrees(s, j)
    requires if j in s.h.reqs then j in s'.h.reqs && s'.h.reqs[j] == s.h.reqs[j] else j !in s'.h.reqs
    requires if j in s.x.tasks then
               j in s'.x.tasks && (s'.x.tasks[j] == s.x.tasks[j]
                 || (s.x.tasks[j].caller.Queued? && s'.x.tasks[j] == s.x.tasks[j].(caller := X.Handed)))
             else j !in s'.x.tasks
    ensures Agrees(s', j)
  {}

  /** The executor step an enclave step performs. */
  function ExecutorStep(s: State, a: Action): Option<X.Action<WorkerResult>> {
    match a
    case Tick(t) => Some(X.Tick(t))
    case Handler(_) => None
    case Call(i) => if i in s.h.reqs then Some(X.Enter(i, P.Deadline(s.h.reqs[i]))) else None
    case Poll(i) => Some(X.Poll(i))
    case Expire(i) => Some(X.Expire(i))
    case Finish(i, r) => Some(X.Finish(i, r))
    case Timeout(i) => Some(X.Timeout(i))
    case Deliver(i) => Some(X.Deliver(i))
    case Cancel(i) => if Engaged(s, i) then Some(X.Drop(i)) else None
  }

  lemma StepOfExecutor(s: State, a: Action)
    requires Enabled(s, a)
    ensures match ExecutorStep(s, a)
            case Some(b) => X.Enabled(s.x, b) && Apply(s, a).x == X.Apply(s.x, b)
            case None => Apply(s, a).x == s.x
  {}

  /** The request a step is about. */
  function Subject(a: Action): Option<Id> {
    match a
    case Tick(_) => None
    case Handler(Arrive(i, _)) => Some(i)
    case Handler(FinishOpening(i)) => Some(i)
    case Handler(Sign(i, _)) => Some(i)
    case Handler(Seal(i, _, _)) => Some(i)
    case Handler(Leave(i)) => Some(i)
    case Handler(LoseTask(i)) => Some(i)
    case Handler(_) => None
    case Finish(i, _) => Some(i)
    case Call(i) => Some(i)
    case Poll(i) => Some(i)
    case Expire(i) => Some(i)
    case Timeout(i) => Some(i)
    case Deliver(i) => Some(i)
    case Cancel(i) => Some(i)
  }

  lemma OthersInHandlers(s: State, a: Action, j: Id)
    requires Enabled(s, a) && Subject(a) != Some(j)
    ensures var h' := Apply(s, a).h;
      if j in s.h.reqs then j in h'.reqs && h'.reqs[j] == s.h.reqs[j] else j !in h'.reqs
  {
    match a
    case Handler(b) => OthersUnmoved(s.h, b, j);
    case Call(i) => OthersUnmoved(s.h, P.CallEngine(i), j);
    case Cancel(i) => OthersUnmoved(s.h, P.Cancel(i), j);
    case _ =>
  }

  lemma OthersUnmoved(h: P.State, b: P.Action, j: Id)
    requires P.HandlerEnabled(h, b) && !b.EngineAnswers? && (b.Tick? || b.LoadRelease? || b.id != j)
    ensures var h' := P.Apply(h, b);
      if j in h.reqs then j in h'.reqs && h'.reqs[j] == h.reqs[j] else j !in h'.reqs
  {}

  lemma OthersAgree(s: State, a: Action, j: Id)
    requires Enabled(s, a) && X.QueueMatches(s.x) && Agrees(s, j) && Subject(a) != Some(j)
    ensures Agrees(Apply(s, a), j)
  {
    OthersInHandlers(s, a, j);
    StepOfExecutor(s, a);
    if ExecutorStep(s, a).Some? { OthersInExecutor(s.x, ExecutorStep(s, a).value, j); }
    UnmovedAgrees(s, Apply(s, a), j);
  }

  lemma HandlerSubjectAgrees(s: State, b: P.Action, i: Id)
    requires Enabled(s, Handler(b)) && Agrees(s, i) && Subject(Handler(b)) == Some(i)
    ensures Agrees(Apply(s, Handler(b)), i)
  {}

  lemma CallSubjectAgrees(s: State, i: Id)
    requires Enabled(s, Call(i)) && Agrees(s, i) && s.h.now == s.x.now
    ensures Agrees(Apply(s, Call(i)), i)
  {}

  lemma PollSubjectAgrees(s: State, i: Id)
    requires Enabled(s, Poll(i)) && Agrees(s, i) && X.QueueMatches(s.x)
    ensures Agrees(Apply(s, Poll(i)), i)
  {
    if s.x.now >= s.x.tasks[i].deadline { LatePollAgrees(s, i); } else { StartAgrees(s, i); }
  }

  lemma LatePollAgrees(s: State, i: Id)
    requires Enabled(s, Poll(i)) && Agrees(s, i) && X.QueueMatches(s.x) && s.x.now >= s.x.tasks[i].deadline
    ensures Agrees(Apply(s, Poll(i)), i)
  {}

  lemma StartAgrees(s: State, i: Id)
    requires Enabled(s, Poll(i)) && Agrees(s, i) && s.x.now < s.x.tasks[i].deadline
    ensures Agrees(Apply(s, Poll(i)), i)
  {}

  lemma FinishSubjectAgrees(s: State, i: Id, r: Option<WorkerResult>)
    requires Enabled(s, Finish(i, r)) && Agrees(s, i) && X.QueueMatches(s.x) && X.Coherent(s.x.tasks[i])
    ensures Agrees(Apply(s, Finish(i, r)), i)
  {}

  lemma AnswerSubjectAgrees(s: State, a: Action)
    requires (a.Expire? || a.Timeout? || a.Deliver?) && Enabled(s, a) && Agrees(s, a.id) && X.QueueMatches(s.x)
    ensures Agrees(Apply(s, a), a.id)
  {}

  lemma CancelSubjectAgrees(s: State, i: Id)
    requires Enabled(s, Cancel(i)) && Agrees(s, i) && X.QueueMatches(s.x)
    ensures Agrees(Apply(s, Cancel(i)), i)
  {}

  lemma SubjectAgrees(s: State, a: Action, i: Id)
    requires Enabled(s, a) && InStep(s) && Subject(a) == Some(i)
    ensures Agrees(Apply(s, a), i)
  {
    assert Agrees(s, i);
    match a
    case Handler(b) => HandlerSubjectAgrees(s, b, i);
    case Call(_) => CallSubjectAgrees(s, i);
    case Poll(_) => PollSubjectAgrees(s, i);
    case Finish(_, r) => FinishSubjectAgrees(s, i, r);
    case Cancel(_) => CancelSubjectAgrees(s, i);
    case _ => AnswerSubjectAgrees(s, a);
  }

  lemma HandlersClock(s: P.State, a: P.Action)
    requires P.HandlerEnabled(s, a)
    ensures P.Apply(s, a).now == (if a.Tick? then a.t else s.now) && P.Apply(s, a).lag == s.lag
  {}

  lemma ExecutorClock(x: X.State<WorkerResult>, a: X.Action<WorkerResult>)
    requires X.Enabled(x, a)
    ensures X.Apply(x, a).now == (if a.Tick? then a.t else x.now) && X.Apply(x, a).lag == x.lag
  {}

  lemma ClocksAgree(s: State, a: Action)
    requires Enabled(s, a) && s.h.now == s.x.now && s.h.lag == s.x.lag
    ensures Apply(s, a).h.now == Apply(s, a).x.now && Apply(s, a).h.lag == Apply(s, a).x.lag
  {
    StepOfExecutor(s, a);
    var b := ExecutorStep(s, a);
    if b.Some? { ExecutorClock(s.x, b.value); }
    match a
    case Tick(t) => HandlersClock(s.h, P.Tick(t));
    case Handler(h) => HandlersClock(s.h, h);
    case Call(i) => HandlersClock(s.h, P.CallEngine(i));
    case Cancel(i) => HandlersClock(s.h, P.Cancel(i));
    case _ =>
  }

  lemma ExecutorKeeps(s: State, a: Action)
    requires X.Invariant(s.x) && Enabled(s, a)
    ensures X.Invariant(Apply(s, a).x)
  {
    StepOfExecutor(s, a);
    if ExecutorStep(s, a).Some? { X.StepKeepsInvariant(s.x, ExecutorStep(s, a).value); }
  }

  lemma StepKeepsInStep(s: State, a: Action)
    requires InStep(s) && Enabled(s, a)
    ensures InStep(Apply(s, a))
  {
    ExecutorKeeps(s, a);
    ClocksAgree(s, a);
    forall j: Id ensures Agrees(Apply(s, a), j) {
      assert Agrees(s, j);
      if Subject(a) == Some(j) { SubjectAgrees(s, a, j); } else { OthersAgree(s, a, j); }
    }
  }

  // Whole runs

  ghost predicate IsRun(run: seq<State>, actions: seq<Action>) {
    && |run| == |actions| + 1
    && (exists now, lag, hash, f :: run[0] == Initial(now, lag, hash, f))
    && forall k :: 0 <= k < |actions| ==> Enabled(run[k], actions[k]) && run[k + 1] == Apply(run[k], actions[k])
  }

  /** The run as the handlers see it, the executor erased. */
  function Erased(run: seq<State>): (e: seq<P.State>)
    ensures |e| == |run| && forall k :: 0 <= k < |run| ==> e[k] == run[k].h
  {
    seq(|run|, k requires 0 <= k < |run| => run[k].h)
  }

  lemma {:induction false} RunStaysInStep(run: seq<State>, actions: seq<Action>, k: nat)
    requires IsRun(run, actions) && k < |run|
    ensures InStep(run[k])
  {
    if k == 0 {
      var now, lag, hash, f :| run[0] == Initial(now, lag, hash, f);
      InitialInStep(now, lag, hash, f);
    } else {
      RunStaysInStep(run, actions, k - 1);
      StepKeepsInStep(run[k - 1], actions[k - 1]);
    }
  }

  /** Every run with the real executor, with the executor erased, is a run over the engine contract. */
  lemma RunRefines(run: seq<State>, actions: seq<Action>)
    requires IsRun(run, actions)
    ensures MatchRuns.IsRun(Erased(run))
  {
    var e := Erased(run);
    var now, lag, hash, f :| run[0] == Initial(now, lag, hash, f);
    assert e[0] == P.Initial(now, lag, hash);
    forall k | 0 <= k < |e| - 1 ensures MatchRuns.Next(e[k], e[k + 1]) {
      RunStaysInStep(run, actions, k);
      StepRefines(run[k], actions[k]);
    }
  }

  /** On the executor itself: over every run and every interleaving, including cancelled waiters,
      cancelled runners and Busy retries, inference is dispatched at most once per (`aud`, `nonce`). */
  lemma EnclaveDispatchesOncePerPair(run: seq<State>, actions: seq<Action>, k: nat)
    requires IsRun(run, actions) && k < |run|
    ensures forall m, n :: 0 <= m < n < |run[k].h.starts| ==> run[k].h.starts[m].pair != run[k].h.starts[n].pair
    ensures forall m :: 0 <= m < |run[k].h.starts| ==> run[k].h.starts[m].pair in run[k].h.guard.processed
  {
    RunRefines(run, actions);
    MatchRuns.AtMostOncePerPair(Erased(run), k);
  }

  /** On the executor itself: no open engine call is past its deadline, or past its own start if that
      came later, by more than `lag`. */
  lemma EnclaveAnswersInTime(run: seq<State>, actions: seq<Action>, k: nat, i: Id)
    requires IsRun(run, actions) && k < |run| && Engaged(run[k], i)
    ensures run[k].h.now <= P.AnswerBy(run[k].h.reqs[i]) + run[k].h.lag
  {
    RunRefines(run, actions);
    MatchRuns.EngineAnswersInTime(Erased(run), k, i);
  }

  /** The step that settles an engine call whose timer fired. */
  function DueAction(s: State, i: Id): Action {
    if i !in s.x.tasks then Expire(i)
    else
      match s.x.tasks[i].caller
      case Queued => Expire(i)
      case Handed => Poll(i)
      case _ => if s.x.tasks[i].work.Ended? then Deliver(i) else Timeout(i)
  }

  /** Time never locks in the whole enclave: in every reachable state it can move on, or a reply that is
      due can leave, or an engine call that is due can be settled. */
  lemma EnclaveTimeNeverLocks(run: seq<State>, actions: seq<Action>, k: nat)
    requires IsRun(run, actions) && k < |run|
    ensures var s := run[k];
      || Enabled(s, Tick(s.h.now + 1))
      || (exists i :: Enabled(s, Handler(P.Leave(i))))
      || (exists i :: Enabled(s, DueAction(s, i)))
  {
    var s := run[k];
    RunStaysInStep(run, actions, k);
    if !X.Enabled(s.x, X.Tick(s.x.now + 1)) {
      var i :| i in s.x.tasks && X.Pending(s.x.tasks[i]) && s.x.now + 1 > X.AnswerBy(s.x.tasks[i]) + s.x.lag;
      DueCallIsSettled(s, i);
    } else if !P.HandlerEnabled(s.h, P.Tick(s.h.now + 1)) {
      var i :| i in s.h.reqs && s.h.reqs[i].phase.Leaving? && s.h.reqs[i].arrival <= s.h.reqs[i].phase.readyAt
               && s.h.now + 1 > P.LeaveTime(s.h.reqs[i], s.h.reqs[i].phase.readyAt) + s.h.lag;
      MatchRuns.DueReplyLeaves(s.h, i);
      assert Enabled(s, Handler(P.Leave(i)));
    }
  }

  lemma DueCallIsSettled(s: State, i: Id)
    requires InStep(s) && i in s.x.tasks && X.Pending(s.x.tasks[i])
    requires s.x.now + 1 > X.AnswerBy(s.x.tasks[i]) + s.x.lag
    ensures Enabled(s, DueAction(s, i))
  {
    assert Agrees(s, i);
    X.DueStepIsEnabled(s.x, i);
  }

  lemma StartsGrow(run: seq<State>, actions: seq<Action>, k: nat)
    requires IsRun(run, actions) && 0 < k < |run|
    ensures run[k - 1].h.starts <= run[k].h.starts
  {
    RunRefines(run, actions);
    MatchRuns.HistoryGrows(Erased(run), k - 1, k);
  }

  predicate WasDispatched(x: X.State<WorkerResult>, i: Id) { i in x.tasks && !x.tasks[i].work.NotStarted? }

  lemma StartsIdle(run: seq<State>, actions: seq<Action>)
    requires IsRun(run, actions)
    ensures run[0].x.tasks == map[]
  {}

  predicate Recorded(h: P.State, i: Id) { exists d :: 0 <= d < |h.starts| && h.starts[d].id == i }

  /** Every work item the executor ever dispatched is one of the recorded inferences, so none is missed. */
  lemma {:induction false} DispatchesAreRecorded(run: seq<State>, actions: seq<Action>, k: nat, i: Id)
    requires IsRun(run, actions) && k < |run| && WasDispatched(run[k].x, i)
    ensures Recorded(run[k].h, i)
    decreases k
  {
    if k == 0 {
      StartsIdle(run, actions);
    } else if WasDispatched(run[k - 1].x, i) {
      DispatchesAreRecorded(run, actions, k - 1, i);
      StartsGrow(run, actions, k);
      RecordedStays(run[k - 1].h, run[k].h, i);
    } else {
      StepOfRun(run, actions, k, i);
      DispatchStep(run[k - 1], actions[k - 1], run[k], i);
    }
  }

  lemma StepOfRun(run: seq<State>, actions: seq<Action>, k: nat, i: Id)
    requires IsRun(run, actions) && 0 < k < |run|
    ensures Agrees(run[k - 1], i) && X.QueueMatches(run[k - 1].x) && Enabled(run[k - 1], actions[k - 1])
    ensures run[k] == Apply(run[k - 1], actions[k - 1])
  {
    RunStaysInStep(run, actions, k - 1);
    var n := k - 1;
    assert Enabled(run[n], actions[n]) && run[n + 1] == Apply(run[n], actions[n]);
  }

  lemma RecordedStays(h: P.State, h': P.State, i: Id)
    requires h.starts <= h'.starts && Recorded(h, i)
    ensures Recorded(h', i)
  {}

  lemma DispatchStep(s: State, a: Action, s': State, i: Id)
    requires Agrees(s, i) && X.QueueMatches(s.x) && Enabled(s, a) && s' == Apply(s, a)
    requires !WasDispatched(s.x, i) && WasDispatched(s'.x, i)
    ensures Recorded(s'.h, i)
  {
    StepOfExecutor(s, a);
    var b := ExecutorStep(s, a);
    if b.Some? && (b.value.Tick? || b.value.id != i) { OthersInExecutor(s.x, b.value, i); }
    assert a == Poll(i);
    assert s'.h.starts[|s.h.starts|].id == i;
  }

  /** On the executor itself: two sealed successes never share a pair. */
  lemma EnclaveSuccessesAreDistinct(run: seq<State>, actions: seq<Action>, k: nat, i: Id, j: Id)
    requires IsRun(run, actions) && k < |run| && i in run[k].h.reqs && j in run[k].h.reqs && i != j
    requires MatchRuns.SentSuccess(run[k].h, i) && MatchRuns.SentSuccess(run[k].h, j)
    ensures P.PairOf(run[k].h.reqs[i].phase.sent.outcome.statement.claims)
         != P.PairOf(run[k].h.reqs[j].phase.sent.outcome.statement.claims)
  {
    RunRefines(run, actions);
    MatchRuns.SuccessesAreDistinct(Erased(run), k, i, j);
  }

  // What an answer says about the worker

  /** Each error the handler is answered means one thing that happened to the work, and that only. */
  lemma AnswerMeansIff(f: Client.Rounding, o: X.Outcome<WorkerResult>, reason: FailureReason, report: Option<Report>)
    ensures OutcomeAnswer(f, o) == P.EngineError(P.Busy) <==> o.Busy?
    ensures OutcomeAnswer(f, o) == P.EngineError(P.EngineTimedOut) <==> o.EngineTimeout?
    ensures OutcomeAnswer(f, o) == P.EngineError(P.Rejected(reason)) <==>
              o == X.Completed(Err(Client.InvalidImages)) && reason == MalformedInputs
    ensures OutcomeAnswer(f, o) == P.EngineError(P.AnalysisRejected(reason, report)) <==>
              && o.Completed? && o.value.Err? && o.value.error.AnalysisFailed? && reason != FailureReason.Internal
              && o.value.error.failure.reason == reason && o.value.error.failure.report == report
    ensures !OutcomeAnswer(f, o).EngineError? ==>
              && o.Completed? && o.value.Ok? && Client.ScoresOf(o.value.value).Some?
              && Client.AllValid(Client.ScoresOf(o.value.value).value)
              && OutcomeAnswer(f, o) == Client.AnswerOf(f, o.value.value)
  {}

  /** What the handler recorded as the engine's answer is what the executor answered. */
  predicate AnswerKept(s: State, i: Id) {
    i in s.h.reqs && s.h.reqs[i].answer.Some? ==>
      && i in s.x.tasks && s.x.tasks[i].caller.Answered?
      && s.h.reqs[i].answer.value == OutcomeAnswer(s.f, s.x.tasks[i].caller.outcome)
  }

  lemma AnswerKeptStep(s: State, a: Action, i: Id)
    requires Enabled(s, a) && X.QueueMatches(s.x) && Agrees(s, i) && AnswerKept(s, i)
    ensures AnswerKept(Apply(s, a), i)
  {
    if Subject(a) == Some(i) {
      SubjectAnswerKept(s, a, i);
    } else {
      OthersInHandlers(s, a, i);
      StepOfExecutor(s, a);
      if ExecutorStep(s, a).Some? { OthersInExecutor(s.x, ExecutorStep(s, a).value, i); }
    }
  }

  lemma SubjectAnswerKept(s: State, a: Action, i: Id)
    requires Enabled(s, a) && X.QueueMatches(s.x) && Agrees(s, i) && AnswerKept(s, i) && Subject(a) == Some(i)
    ensures AnswerKept(Apply(s, a), i)
  {
    match a
    case Handler(b) => LocalAnswerKept(s, b, i);
    case Poll(_) => PollAnswerKept(s, i);
    case Cancel(_) => CancelAnswerKept(s, i);
    case Call(_) =>
    case Finish(_, _) =>
    case _ => SettledAnswerKept(s, a, i);
  }

  lemma SettledAnswerKept(s: State, a: Action, i: Id)
    requires (a.Expire? || a.Timeout? || a.Deliver?) && Enabled(s, a) && a.id == i
    ensures AnswerKept(Apply(s, a), i)
  {}

  lemma LocalAnswerKept(s: State, b: P.Action, i: Id)
    requires Enabled(s, Handler(b)) && AnswerKept(s, i)
    ensures AnswerKept(Apply(s, Handler(b)), i)
  {}

  lemma PollAnswerKept(s: State, i: Id)
    requires Enabled(s, Poll(i)) && X.QueueMatches(s.x) && AnswerKept(s, i)
    ensures AnswerKept(Apply(s, Poll(i)), i)
  {}

  lemma CancelAnswerKept(s: State, i: Id)
    requires Enabled(s, Cancel(i)) && X.QueueMatches(s.x) && Agrees(s, i) && AnswerKept(s, i)
    ensures AnswerKept(Apply(s, Cancel(i)), i)
  {}

  lemma {:induction false} AnswersAreKept(run: seq<State>, actions: seq<Action>, k: nat, i: Id)
    requires IsRun(run, actions) && k < |run|
    ensures AnswerKept(run[k], i)
  {
    if k == 0 {
      StartsWithoutRequests(run, actions);
    } else {
      AnswersAreKept(run, actions, k - 1, i);
      StepOfRun(run, actions, k, i);
      AnswerKeptStep(run[k - 1], actions[k - 1], i);
    }
  }

  lemma StartsWithoutRequests(run: seq<State>, actions: seq<Action>)
    requires IsRun(run, actions)
    ensures run[0].h.reqs == map[]
  {}

  /** A similarity of the worker, normalised, reaches its level. */
  predicate SimilarityReaches(f: Client.Rounding, score: Option<Score>, level: nat) {
    && score.Some? && score.value.Finite? && -1.0 <= score.value.value <= 1.0
    && 0.8 + 0.05 * (level as real) <= f.single(f.double(1.0 + f.single(score.value.value)) / 2.0) <= 1.0
  }

  predicate WorkerReaches(f: Client.Rounding, o: Client.Outcome, pipeline: nat, level: nat) {
    match o
    case DeepFaceResult(cl, cc, lc, _) =>
      pipeline == 1 && SimilarityReaches(f, cl, level) && SimilarityReaches(f, cc, level) && SimilarityReaches(f, lc, level)
    case GrayBadgeResult(lc, _) => pipeline == 2 && SimilarityReaches(f, lc, level)
    case _ => false
  }

  lemma ScoresReach(f: Client.Rounding, o: Client.Outcome, pipeline: nat, level: nat)
    requires Client.ScoresOf(o).Some? && Client.AllValid(Client.ScoresOf(o).value)
    requires MatchRuns.AllReach(Client.AnswerOf(f, o), pipeline, level)
    ensures WorkerReaches(f, o, pipeline, level)
  {
    Client.AnswerKeepsFields(f, o);
    var scores := Client.ScoresOf(o).value;
    assert forall n :: 0 <= n < |scores| ==> Client.Valid(scores[n]);
    if o.DeepFaceResult? { assert Client.Valid(scores[0]) && Client.Valid(scores[1]) && Client.Valid(scores[2]); }
    else { assert Client.Valid(scores[0]); }
  }

  /** The work of `i` returned a result whose every similarity reaches the level the request asked for. */
  predicate WorkReaches(s: State, i: Id) {
    && i in s.h.reqs && s.h.reqs[i].body.plaintext.Some? && s.h.reqs[i].body.plaintext.value.Good?
    && s.h.reqs[i].body.plaintext.value.value.payload.Good?
    && i in s.x.tasks && s.x.tasks[i].work.Ended? && s.x.tasks[i].work.result.Some?
    && s.x.tasks[i].work.result.value.Ok?
    && var payload := s.h.reqs[i].body.plaintext.value.value.payload.value;
    WorkerReaches(s.f, s.x.tasks[i].work.result.value.value, payload.pipeline, payload.matchStrictness)
  }

  /** End to end, with the real executor and the worker behind it: the result of a sealed success is one
      the worker returned for exactly this request's work, and every similarity in it, normalised, reaches
      the level the request asked for. */
  lemma EnclaveSuccessIsEarned(run: seq<State>, actions: seq<Action>, k: nat, i: Id)
    requires IsRun(run, actions) && k < |run| && MatchRuns.SentSuccess(run[k].h, i)
    ensures WorkReaches(run[k], i)
  {
    RunRefines(run, actions);
    MatchRuns.SuccessIsEarned(Erased(run), k, i);
    AnswersAreKept(run, actions, k, i);
    RunStaysInStep(run, actions, k);
    SuccessIsWork(run[k], i);
  }

  lemma SuccessIsWork(s: State, i: Id)
    requires InStep(s) && AnswerKept(s, i) && i in s.h.reqs && s.h.reqs[i].answer.Some?
    requires s.h.reqs[i].body.plaintext.Some? && s.h.reqs[i].body.plaintext.value.Good?
    requires s.h.reqs[i].body.plaintext.value.value.payload.Good?
    requires var payload := s.h.reqs[i].body.plaintext.value.value.payload.value;
             MatchRuns.AllReach(s.h.reqs[i].answer.value, payload.pipeline, payload.matchStrictness)
    ensures WorkReaches(s, i)
  {
    AnsweredByWork(s, i);
    var payload := s.h.reqs[i].body.plaintext.value.value.payload.value;
    ScoresReach(s.f, s.x.tasks[i].work.result.value.value, payload.pipeline, payload.matchStrictness);
  }

  /** An answer with scores is the answer to what the work returned. */
  lemma AnsweredByWork(s: State, i: Id)
    requires InStep(s) && AnswerKept(s, i) && i in s.h.reqs && s.h.reqs[i].answer.Some?
    requires !s.h.reqs[i].answer.value.EngineError?
    ensures i in s.x.tasks && s.x.tasks[i].work.Ended? && s.x.tasks[i].work.result.Some?
    ensures s.x.tasks[i].work.result.value.Ok?
    ensures var o := s.x.tasks[i].work.result.value.value;
      && Client.ScoresOf(o).Some? && Client.AllValid(Client.ScoresOf(o).value)
      && s.h.reqs[i].answer.value == Client.AnswerOf(s.f, o)
  {
    assert X.Coherent(s.x.tasks[i]);
  }
}
