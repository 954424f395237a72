/** The worker executor: one worker behind a fair mutex, callers that wait under deadlines and may be
    cancelled, and blocking work that keeps the worker until it ends. Every await is one or more steps. */
module Executor {
  import opened SealedTypes
  import opened Wrappers
  import opened ResponseSlots

  type Id = nat

  const QUEUE_TIMEOUT: nat := 5_000 * NANOS_PER_MILLI

  /** Where the async caller stands. A lock that was handed over still has to be picked up. */
  datatype Caller<V> = Queued | Handed | Awaiting | Answered(outcome: Outcome<V>) | Dropped

  /** Where the blocking work stands. Work can be lost when the runtime shuts down. */
  datatype Work<V> = NotStarted | Executing | Ended(result: Option<V>)

  datatype Outcome<V> = Busy | EngineTimeout | Completed(value: V) | Lost

  datatype Task<V> = Task(
    entered: Instant, deadline: Instant, caller: Caller<V>, work: Work<V>, dispatchedAt: Option<Instant>)

  /** `lag` bounds how late the runtime polls a task whose timer fired. */
  datatype State<V> = State(now: Instant, lag: nat, locked: bool, queue: seq<Id>, tasks: map<Id, Task<V>>)

  datatype Action<V> =
    | Tick(t: Instant)
    | Enter(id: Id, deadline: Instant)  // first poll of `lock_owned`
    | Poll(id: Id)                      // picks the lock up, checks the deadline, spawns the work
    | Expire(id: Id)                    // the bounded wait for the lock runs out
    | Finish(id: Id, result: Option<V>) // the blocking work returns and drops the guard
    | Timeout(id: Id)                   // the deadline passes while the work still runs
    | Deliver(id: Id)                   // the caller receives the ended work
    | Drop(id: Id)                      // the caller is cancelled

  function Initial<V>(now: Instant, lag: nat): State<V> { State(now, lag, false, [], map[]) }

  function Min(a: nat, b: nat): nat { if a < b then a else b }

  /** When the wait for the lock is given up. */
  function QueueDeadline(t: Task): Instant { Min(t.deadline, t.entered + QUEUE_TIMEOUT) }

  predicate Waiting(t: Task) { t.caller.Queued? || t.caller.Handed? }

  predicate Pending(t: Task) { Waiting(t) || t.caller.Awaiting? }

  /** When a pending caller's timer fires: the bounded wait for the lock, then the deadline itself. */
  function AnswerBy(t: Task): Instant {
    if Waiting(t) then Max(t.entered, QueueDeadline(t)) else t.deadline
  }

  /** Holds the guard: picked for it, or running with it. */
  predicate Owns(t: Task) { t.caller.Handed? || t.work.Executing? }

  predicate Enabled<V>(s: State<V>, a: Action<V>) {
    match a
    case Tick(t) =>
      s.now <= t && forall i :: i in s.tasks && Pending(s.tasks[i]) ==> t <= AnswerBy(s.tasks[i]) + s.lag
    case Enter(i, _) => i !in s.tasks
    case Poll(i) => i in s.tasks && s.tasks[i].caller.Handed?
    case Expire(i) => i in s.tasks && s.tasks[i].caller.Queued? && s.now >= QueueDeadline(s.tasks[i])
    case Finish(i, _) => i in s.tasks && s.tasks[i].work.Executing?
    case Timeout(i) =>
      i in s.tasks && s.tasks[i].caller.Awaiting? && s.tasks[i].work.Executing? && s.now >= s.tasks[i].deadline
    case Deliver(i) => i in s.tasks && s.tasks[i].caller.Awaiting? && s.tasks[i].work.Ended?
    case Drop(i) => i in s.tasks && (Waiting(s.tasks[i]) || s.tasks[i].caller.Awaiting?)
  }

  function Remove(queue: seq<Id>, id: Id): (q: seq<Id>)
    ensures forall i :: i in q <==> i in queue && i != id
  {
    if queue == [] then []
    else if queue[0] == id then Remove(queue[1..], id)
    else [queue[0]] + Remove(queue[1..], id)
  }

  /** Dropping the guard hands the lock to the longest waiter, if there is one. */
  function Unlock<V>(s: State<V>): State<V> {
    if s.queue == [] || s.queue[0] !in s.tasks then s.(locked := false)
    else
      var next := s.queue[0];
      s.(queue := s.queue[1..], tasks := s.tasks[next := s.tasks[next].(caller := Handed)])
  }

  function Put<V>(s: State<V>, id: Id, t: Task<V>): State<V> { s.(tasks := s.tasks[id := t]) }

  function Apply<V>(s: State<V>, a: Action<V>): State<V>
    requires Enabled(s, a)
  {
    match a
    case Tick(t) => s.(now := t)
    case Enter(i, deadline) =>
      if s.locked then
        Put(s, i, Task(s.now, deadline, Queued, NotStarted, None)).(queue := s.queue + [i])
      else
        Put(s, i, Task(s.now, deadline, Handed, NotStarted, None)).(locked := true)
    case Poll(i) =>
      var t := s.tasks[i];
      if s.now >= t.deadline then Unlock(Put(s, i, t.(caller := Answered(Busy))))
      else Put(s, i, t.(caller := Awaiting, work := Executing, dispatchedAt := Some(s.now)))
    case Expire(i) =>
      Put(s, i, s.tasks[i].(caller := Answered(Busy))).(queue := Remove(s.queue, i))
    case Finish(i, result) => Unlock(Put(s, i, s.tasks[i].(work := Ended(result))))
    case Timeout(i) => Put(s, i, s.tasks[i].(caller := Answered(Outcome.EngineTimeout)))
    case Deliver(i) =>
      var result := s.tasks[i].work.result;
      Put(s, i, s.tasks[i].(caller := Answered(if result.Some? then Completed(result.value) else Lost)))
    case Drop(i) =>
      var t := s.tasks[i];
      var s' := Put(s, i, t.(caller := Dropped));
      if t.caller.Queued? then s'.(queue := Remove(s.queue, i))
      else if t.caller.Handed? then Unlock(s')
      else s'
  }

  // The invariant

  predicate Distinct(queue: seq<Id>) {
    forall i, j :: 0 <= i < j < |queue| ==> queue[i] != queue[j]
  }

  ghost predicate QueueMatches<V>(s: State<V>) {
    && Distinct(s.queue)
    && (forall i :: i in s.queue <==> i in s.tasks && s.tasks[i].caller.Queued?)
    && (s.queue != [] ==> s.locked)
  }

  predicate OneOwner<V>(s: State<V>) {
    && (forall i, j :: i in s.tasks && j in s.tasks && Owns(s.tasks[i]) && Owns(s.tasks[j]) ==> i == j)
    && (s.locked <==> exists i :: i in s.tasks && Owns(s.tasks[i]))
  }

  /** What a task's caller and work say about each other. */
  predicate Coherent<V>(t: Task<V>) {
    && (t.work.NotStarted? <==> t.dispatchedAt.None?)
    && (Waiting(t) ==> t.work.NotStarted?)
    && (t.caller.Awaiting? ==> !t.work.NotStarted?)
    && (t.caller.Answered? ==> (t.caller.outcome.Busy? <==> t.work.NotStarted?))
    && (t.caller.Answered? && (t.caller.outcome.Completed? || t.caller.outcome.Lost?) ==> t.work.Ended?)
  }

  /** A result is the work's own, and is lost only with it. */
  ghost predicate Honest<V>(t: Task<V>) {
    && (t.caller.Answered? && t.caller.outcome.Completed? ==> t.work == Ended(Some(t.caller.outcome.value)))
    && (t.caller.Answered? && t.caller.outcome.Lost? ==> t.work == Ended(None))
  }

  /** When a task was dispatched, relative to when it entered. */
  predicate Punctual<V>(t: Task<V>, lag: nat) {
    t.dispatchedAt.Some? ==>
      && t.entered <= t.dispatchedAt.value < t.deadline
      && t.dispatchedAt.value <= Max(t.entered, QueueDeadline(t)) + lag
  }

  predicate OnTime<V>(t: Task<V>, now: Instant, lag: nat) {
    && t.entered <= now
    && Punctual(t, lag)
    && (Pending(t) ==> now <= AnswerBy(t) + lag)
    && (t.caller == Answered(Outcome.EngineTimeout) ==> now >= t.deadline)
    && (t.caller == Answered(Busy) ==> now >= QueueDeadline(t))
  }

  predicate Timed<V>(s: State<V>) { forall i :: i in s.tasks ==> OnTime(s.tasks[i], s.now, s.lag) }

  ghost predicate Invariant<V>(s: State<V>) {
    && QueueMatches(s)
    && OneOwner(s)
    && (forall i :: i in s.tasks ==> Coherent(s.tasks[i]) && Honest(s.tasks[i]))
    && Timed(s)
  }

  lemma InitialInvariant<V>(now: Instant, lag: nat)
    ensures Invariant(Initial<V>(now, lag))
  {}

  lemma {:induction false} RemoveKeepsDistinct(queue: seq<Id>, id: Id)
    requires Distinct(queue)
    ensures Distinct(Remove(queue, id))
  {
    if queue != [] {
      RemoveKeepsDistinct(queue[1..], id);
      assert queue[0] !in queue[1..];
    }
  }

  lemma UnlockKeepsQueue<V>(s: State<V>)
    requires s.locked && QueueMatches(s)
    ensures QueueMatches(Unlock(s))
  {}

  lemma UnlockKeepsOneOwner<V>(s: State<V>)
    requires s.locked && QueueMatches(s) && forall i :: i in s.tasks ==> !Owns(s.tasks[i])
    ensures OneOwner(Unlock(s))
  {
    if s.queue != [] { assert s.queue[0] in s.queue && Owns(Unlock(s).tasks[s.queue[0]]); }
  }

  /** Freeing the lock from a state whose only owner just let go of it. */
  lemma UnlockKeepsInvariant<V>(s: State<V>)
    requires s.locked && QueueMatches(s)
    requires forall i :: i in s.tasks ==> Coherent(s.tasks[i]) && Honest(s.tasks[i]) && !Owns(s.tasks[i])
    requires Timed(s)
    ensures Invariant(Unlock(s))
  {
    UnlockKeepsQueue(s);
    UnlockKeepsOneOwner(s);
    if s.queue != [] { assert s.queue[0] in s.queue; }
  }

  /** A change of one task that neither waits nor comes to wait, and owns the lock as much as before. */
  lemma SettlingKeepsInvariant<V>(s: State<V>, i: Id, t: Task<V>)
    requires Invariant(s) && i in s.tasks && !Waiting(s.tasks[i]) && !Waiting(t) && Owns(t) == Owns(s.tasks[i])
    requires Coherent(t) && Honest(t) && OnTime(t, s.now, s.lag)
    ensures Invariant(Put(s, i, t))
  {
    var s' := Put(s, i, t);
    assert forall j :: j in s.tasks ==> Owns(s'.tasks[j]) == Owns(s.tasks[j]);
  }

  lemma PollKeepsInvariant<V>(s: State<V>, i: Id)
    requires Invariant(s) && Enabled(s, Poll(i))
    ensures Invariant(Apply(s, Poll(i)))
  {
    var t := s.tasks[i];
    assert Owns(t);
    if s.now >= t.deadline {
      UnlockKeepsInvariant(Put(s, i, t.(caller := Answered(Busy))));
    } else {
      var s' := Apply(s, Poll(i));
      assert Owns(s'.tasks[i]);
    }
  }

  lemma FinishKeepsInvariant<V>(s: State<V>, i: Id, result: Option<V>)
    requires Invariant(s) && Enabled(s, Finish(i, result))
    ensures Invariant(Apply(s, Finish(i, result)))
  {
    assert Owns(s.tasks[i]);
    UnlockKeepsInvariant(Put(s, i, s.tasks[i].(work := Ended(result))));
  }

  lemma DropQueuedKeepsInvariant<V>(s: State<V>, i: Id)
    requires Invariant(s) && i in s.tasks && s.tasks[i].caller.Queued?
    ensures Invariant(Apply(s, Drop(i)))
  {
    RemoveKeepsDistinct(s.queue, i);
    var s' := Apply(s, Drop(i));
    assert forall j :: j in s.tasks ==> Owns(s'.tasks[j]) == Owns(s.tasks[j]);
  }

  lemma DropHandedKeepsInvariant<V>(s: State<V>, i: Id)
    requires Invariant(s) && i in s.tasks && s.tasks[i].caller.Handed?
    ensures Invariant(Apply(s, Drop(i)))
  {
    assert Owns(s.tasks[i]);
    UnlockKeepsInvariant(Put(s, i, s.tasks[i].(caller := Dropped)));
  }

  lemma DropAwaitingKeepsInvariant<V>(s: State<V>, i: Id)
    requires Invariant(s) && i in s.tasks && s.tasks[i].caller.Awaiting?
    ensures Invariant(Apply(s, Drop(i)))
  {
    SettlingKeepsInvariant(s, i, s.tasks[i].(caller := Dropped));
  }

  lemma EnterKeepsInvariant<V>(s: State<V>, i: Id, deadline: Instant)
    requires Invariant(s) && Enabled(s, Enter(i, deadline))
    ensures Invariant(Apply(s, Enter(i, deadline)))
  {
    var s' := Apply(s, Enter(i, deadline));
    if s.locked {
      assert s'.queue == s.queue + [i];
      assert forall j :: j in s.tasks ==> s'.tasks[j] == s.tasks[j];
    } else {
      assert Owns(s'.tasks[i]);
    }
  }

  lemma ExpireKeepsInvariant<V>(s: State<V>, i: Id)
    requires Invariant(s) && Enabled(s, Expire(i))
    ensures Invariant(Apply(s, Expire(i)))
  {
    RemoveKeepsDistinct(s.queue, i);
    var s' := Apply(s, Expire(i));
    assert forall j :: j in s.tasks ==> Owns(s'.tasks[j]) == Owns(s.tasks[j]);
  }

  lemma TimeoutKeepsInvariant<V>(s: State<V>, i: Id)
    requires Invariant(s) && Enabled(s, Timeout(i))
    ensures Invariant(Apply(s, Timeout(i)))
  {
    SettlingKeepsInvariant(s, i, s.tasks[i].(caller := Answered(Outcome.EngineTimeout)));
  }

  lemma DeliverKeepsInvariant<V>(s: State<V>, i: Id)
    requires Invariant(s) && Enabled(s, Deliver(i))
    ensures Invariant(Apply(s, Deliver(i)))
  {
    SettlingKeepsInvariant(s, i, Apply(s, Deliver(i)).tasks[i]);
  }

  lemma StepKeepsInvariant<V>(s: State<V>, a: Action<V>)
    requires Invariant(s) && Enabled(s, a)
    ensures Invariant(Apply(s, a))
  {
    match a
    case Tick(_) =>
    case Enter(i, deadline) => EnterKeepsInvariant(s, i, deadline);
    case Poll(i) => PollKeepsInvariant(s, i);
    case Expire(i) => ExpireKeepsInvariant(s, i);
    case Finish(i, result) => FinishKeepsInvariant(s, i, result);
    case Timeout(i) => TimeoutKeepsInvariant(s, i);
    case Deliver(i) => DeliverKeepsInvariant(s, i);
    case Drop(i) =>
      if s.tasks[i].caller.Queued? { DropQueuedKeepsInvariant(s, i); }
      else if s.tasks[i].caller.Handed? { DropHandedKeepsInvariant(s, i); }
      else { DropAwaitingKeepsInvariant(s, i); }
  }

  // Fairness

  /** Who waits longer is ahead. */
  predicate Fair<V>(s: State<V>) {
    forall i, j :: 0 <= i < j < |s.queue| && s.queue[i] in s.tasks && s.queue[j] in s.tasks ==>
      s.tasks[s.queue[i]].entered <= s.tasks[s.queue[j]].entered
  }

  lemma {:induction false} RemoveKeepsFair<V>(s: State<V>, id: Id)
    requires Fair(s)
    ensures Fair(s.(queue := Remove(s.queue, id)))
    decreases |s.queue|
  {
    if s.queue != [] {
      var first, rest := s.queue[0], Remove(s.queue[1..], id);
      RemoveKeepsFair(s.(queue := s.queue[1..]), id);
      forall x | x in rest && x in s.tasks && first in s.tasks
        ensures s.tasks[first].entered <= s.tasks[x].entered
      {
        var j :| 0 < j < |s.queue| && s.queue[j] == x;
      }
    }
  }

  /** No step changes when a task entered. */
  lemma EnteredStays<V>(s: State<V>, a: Action<V>)
    requires Enabled(s, a)
    ensures forall i :: i in s.tasks ==> i in Apply(s, a).tasks && Apply(s, a).tasks[i].entered == s.tasks[i].entered
  {}

  /** A step leaves the queue alone, takes its head or one member out, or lets a newcomer join at its end. */
  lemma QueueStep<V>(s: State<V>, a: Action<V>)
    requires Enabled(s, a)
    ensures var q := Apply(s, a).queue;
      || q == s.queue || (s.queue != [] && q == s.queue[1..])
      || (!a.Tick? && q == Remove(s.queue, a.id))
      || (a.Enter? && q == s.queue + [a.id] && Apply(s, a).tasks[a.id].entered == s.now)
  {}

  lemma SameEntries<V>(s: State<V>, s': State<V>)
    requires Fair(s) && (forall i :: i in s.queue ==> i in s.tasks)
    requires forall i :: i in s.tasks ==> i in s'.tasks && s'.tasks[i].entered == s.tasks[i].entered
    ensures Fair(s'.(queue := s.queue))
  {}

  lemma StepKeepsFair<V>(s: State<V>, a: Action<V>)
    requires Invariant(s) && Fair(s) && Enabled(s, a)
    ensures Fair(Apply(s, a))
  {
    var s' := Apply(s, a);
    EnteredStays(s, a);
    QueueStep(s, a);
    assert forall i :: i in s.queue ==> i in s.tasks;
    SameEntries(s, s');
    if !a.Tick? { RemoveKeepsFair(s'.(queue := s.queue), a.id); }
  }

  // Over whole runs

  ghost predicate IsRun<V>(run: seq<State<V>>, actions: seq<Action<V>>) {
    && |run| == |actions| + 1
    && (exists now, lag :: run[0] == Initial<V>(now, lag))
    && forall k :: 0 <= k < |actions| ==> Enabled(run[k], actions[k]) && run[k + 1] == Apply(run[k], actions[k])
  }

  lemma {:induction false} RunKeepsInvariant<V>(run: seq<State<V>>, actions: seq<Action<V>>, k: nat)
    requires IsRun(run, actions) && k < |run|
    ensures Invariant(run[k])
  {
    if k == 0 {
      var now, lag :| run[0] == Initial<V>(now, lag);
      InitialInvariant<V>(now, lag);
    } else {
      RunKeepsInvariant(run, actions, k - 1);
      StepKeepsInvariant(run[k - 1], actions[k - 1]);
    }
  }

  /** In every state of every run at most one work item has the worker, and an answer tells the
      truth: Busy was never dispatched and waited out the five seconds or its deadline, every other
      answer was dispatched, a result is the work's own, and a timeout comes after the deadline. */
  lemma AnswersAreTrue<V>(run: seq<State<V>>, actions: seq<Action<V>>, k: nat, i: Id)
    requires IsRun(run, actions) && k < |run| && i in run[k].tasks
    ensures var t := run[k].tasks[i];
            && (t.caller == Answered(Busy) ==> t.work.NotStarted?)
            && (t.caller == Answered(Busy) ==>
                  run[k].now >= t.deadline || run[k].now >= t.entered + 5_000 * NANOS_PER_MILLI)
            && Honest(t)
            && (t.caller.Answered? && !t.caller.outcome.Busy? ==> !t.work.NotStarted?)
            && (t.caller == Answered(Outcome.EngineTimeout) ==> run[k].now >= t.deadline)
            && (t.work.Executing? ==> forall j :: j in run[k].tasks && run[k].tasks[j].work.Executing? ==> j == i)
  {
    RunKeepsInvariant(run, actions, k);
  }

  /** Work is dispatched strictly before its deadline, and no later than the queue bound allows,
      give or take how late the runtime polls. */
  lemma DispatchIsPunctual<V>(run: seq<State<V>>, actions: seq<Action<V>>, k: nat, i: Id)
    requires IsRun(run, actions) && k < |run| && i in run[k].tasks && !run[k].tasks[i].work.NotStarted?
    ensures var t := run[k].tasks[i];
            && t.dispatchedAt.Some?
            && t.entered <= t.dispatchedAt.value < t.deadline
            && t.dispatchedAt.value <= t.entered + QUEUE_TIMEOUT + run[k].lag
  {
    RunKeepsInvariant(run, actions, k);
  }

  /** No caller is left unanswered: while it waits for the lock it is not past the queue bound, while
      its work runs not past its deadline, by more than `lag`. */
  lemma CallersAnsweredInTime<V>(run: seq<State<V>>, actions: seq<Action<V>>, k: nat, i: Id)
    requires IsRun(run, actions) && k < |run| && i in run[k].tasks && Pending(run[k].tasks[i])
    ensures run[k].now <= AnswerBy(run[k].tasks[i]) + run[k].lag
    ensures AnswerBy(run[k].tasks[i]) <= Max(run[k].tasks[i].entered, run[k].tasks[i].deadline)
  {
    RunKeepsInvariant(run, actions, k);
  }

  lemma {:induction false} RunKeepsFair<V>(run: seq<State<V>>, actions: seq<Action<V>>, k: nat)
    requires IsRun(run, actions) && k < |run|
    ensures Fair(run[k])
  {
    if k > 0 {
      RunKeepsFair(run, actions, k - 1);
      RunKeepsInvariant(run, actions, k - 1);
      StepKeepsFair(run[k - 1], actions[k - 1]);
    }
  }

  /** The lock is fair: whoever gets it next has waited at least as long as everyone else in the queue. */
  lemma LongestWaiterIsNext<V>(run: seq<State<V>>, actions: seq<Action<V>>, k: nat, i: Id)
    requires IsRun(run, actions) && k < |run| && i in run[k].tasks && run[k].tasks[i].caller.Queued?
    ensures var s := run[k];
      && NextHolder(s).HeldBy? && NextHolder(s).id in s.tasks && s.tasks[NextHolder(s).id].caller.Queued?
      && s.tasks[NextHolder(s).id].entered <= s.tasks[i].entered
  {
    RunKeepsInvariant(run, actions, k);
    RunKeepsFair(run, actions, k);
    var s := run[k];
    assert i in s.queue;
    var j :| 0 <= j < |s.queue| && s.queue[j] == i;
    assert s.queue[0] in s.queue;
  }

  /** The step that answers a caller whose timer fired, or picks up the lock handed to it. */
  function DueStep<V>(t: Task<V>, i: Id): Action<V> {
    match t.caller
    case Queued => Expire(i)
    case Handed => Poll(i)
    case _ => if t.work.Ended? then Deliver(i) else Timeout(i)
  }

  lemma DueStepIsEnabled<V>(s: State<V>, i: Id)
    requires i in s.tasks && Pending(s.tasks[i]) && Coherent(s.tasks[i]) && s.now + 1 > AnswerBy(s.tasks[i]) + s.lag
    requires s.tasks[i].entered <= s.now
    ensures Enabled(s, DueStep(s.tasks[i], i))
  {}

  /** Time never locks: in every reachable state it can move on, or a caller that is due can be
      answered or pick up its lock. */
  lemma TimeNeverLocks<V>(run: seq<State<V>>, actions: seq<Action<V>>, k: nat)
    requires IsRun(run, actions) && k < |run|
    ensures var s := run[k];
      || Enabled(s, Tick(s.now + 1))
      || exists i :: i in s.tasks && Pending(s.tasks[i]) && Enabled(s, DueStep(s.tasks[i], i))
  {
    RunKeepsInvariant(run, actions, k);
    var s := run[k];
    if !Enabled(s, Tick(s.now + 1)) {
      var i :| i in s.tasks && Pending(s.tasks[i]) && s.now + 1 > AnswerBy(s.tasks[i]) + s.lag;
      DueStepIsEnabled(s, i);
    }
  }

  /** The caller is gone and its work was never dispatched. */
  predicate Settled<V>(t: Task<V>) { (t.caller.Dropped? || t.caller.Answered?) && t.work.NotStarted? }

  lemma SettledStays<V>(s: State<V>, a: Action<V>, i: Id)
    requires QueueMatches(s) && Enabled(s, a) && i in s.tasks && Settled(s.tasks[i])
    ensures i in Apply(s, a).tasks && Apply(s, a).tasks[i] == s.tasks[i]
  {}

  /** A waiter that was cancelled or answered Busy never runs, however the run goes on. */
  lemma {:induction false} SettledNeverRuns<V>(run: seq<State<V>>, actions: seq<Action<V>>, k: nat, m: nat, i: Id)
    requires IsRun(run, actions) && k <= m < |run| && i in run[k].tasks && Settled(run[k].tasks[i])
    ensures i in run[m].tasks && run[m].tasks[i] == run[k].tasks[i]
  {
    if k < m {
      SettledNeverRuns(run, actions, k, m - 1, i);
      RunKeepsInvariant(run, actions, m - 1);
      SettledStays(run[m - 1], actions[m - 1], i);
    }
  }

  // Refinement of a single-owner lock

  datatype Lock = Free | HeldBy(id: Id)

  ghost function Holder<V>(s: State<V>): Lock {
    if exists i :: i in s.tasks && Owns(s.tasks[i])
    then var i :| i in s.tasks && Owns(s.tasks[i]); HeldBy(i)
    else Free
  }

  /** Whom the lock goes to when its owner lets go: the longest waiter. */
  function NextHolder<V>(s: State<V>): Lock {
    if s.queue == [] then Free else HeldBy(s.queue[0])
  }

  lemma HolderIs<V>(s: State<V>, l: Lock)
    requires Invariant(s)
    requires match l case HeldBy(i) => i in s.tasks && Owns(s.tasks[i]) case Free => !s.locked
    ensures Holder(s) == l
  {}

  lemma UnlockPasses<V>(s: State<V>)
    requires s.locked && QueueMatches(s) && Timed(s)
    requires forall i :: i in s.tasks ==> Coherent(s.tasks[i]) && Honest(s.tasks[i]) && !Owns(s.tasks[i])
    ensures Holder(Unlock(s)) == NextHolder(s)
  {
    UnlockKeepsInvariant(s);
    HolderIs(Unlock(s), NextHolder(s));
  }

  lemma SameHolder<V>(s: State<V>, s': State<V>)
    requires Invariant(s) && Invariant(s') && s.locked == s'.locked
    requires forall i :: i in s.tasks ==> i in s'.tasks && Owns(s'.tasks[i]) == Owns(s.tasks[i])
    ensures Holder(s') == Holder(s)
  {}

  lemma PollRefinesLock<V>(s: State<V>, i: Id)
    requires Invariant(s) && Enabled(s, Poll(i))
    ensures Holder(s) == HeldBy(i)
    ensures Holder(Apply(s, Poll(i))) == if s.now < s.tasks[i].deadline then HeldBy(i) else NextHolder(s)
  {
    HolderIs(s, HeldBy(i));
    if s.now < s.tasks[i].deadline {
      PollKeepsInvariant(s, i);
      HolderIs(Apply(s, Poll(i)), HeldBy(i));
    } else {
      UnlockPasses(Put(s, i, s.tasks[i].(caller := Answered(Busy))));
    }
  }

  lemma FinishRefinesLock<V>(s: State<V>, i: Id, result: Option<V>)
    requires Invariant(s) && Enabled(s, Finish(i, result))
    ensures Holder(s) == HeldBy(i) && Holder(Apply(s, Finish(i, result))) == NextHolder(s)
  {
    HolderIs(s, HeldBy(i));
    UnlockPasses(Put(s, i, s.tasks[i].(work := Ended(result))));
  }

  lemma DropRefinesLock<V>(s: State<V>, i: Id)
    requires Invariant(s) && Enabled(s, Drop(i))
    ensures if s.tasks[i].caller.Handed? then Holder(s) == HeldBy(i) && Holder(Apply(s, Drop(i))) == NextHolder(s)
            else Holder(Apply(s, Drop(i))) == Holder(s)
  {
    if s.tasks[i].caller.Handed? {
      HolderIs(s, HeldBy(i));
      UnlockPasses(Put(s, i, s.tasks[i].(caller := Dropped)));
    } else {
      StepKeepsInvariant(s, Drop(i));
      SameHolder(s, Apply(s, Drop(i)));
    }
  }

  lemma EnterRefinesLock<V>(s: State<V>, i: Id, deadline: Instant)
    requires Invariant(s) && Enabled(s, Enter(i, deadline))
    ensures Holder(Apply(s, Enter(i, deadline))) == if Holder(s) == Free then HeldBy(i) else Holder(s)
  {
    EnterKeepsInvariant(s, i, deadline);
    if s.locked {
      var j :| j in s.tasks && Owns(s.tasks[j]);
      HolderIs(s, HeldBy(j));
      SameHolder(s, Apply(s, Enter(i, deadline)));
    } else {
      HolderIs(s, Free);
      HolderIs(Apply(s, Enter(i, deadline)), HeldBy(i));
    }
  }

  /** The executor is a lock with one owner: entering takes it only when it is free, only the owner
      lets go of it, and cancelling a caller whose work runs does not free it. */
  lemma RefinesLock<V>(s: State<V>, a: Action<V>)
    requires Invariant(s) && Enabled(s, a)
    ensures var before, after := Holder(s), Holder(Apply(s, a));
      match a
      case Enter(i, _) => after == if before == Free then HeldBy(i) else before
      case Poll(i) => before == HeldBy(i) && after == if s.now < s.tasks[i].deadline then HeldBy(i) else NextHolder(s)
      case Finish(i, _) => before == HeldBy(i) && after == NextHolder(s)
      case Drop(i) =>
        if s.tasks[i].caller.Handed? then before == HeldBy(i) && after == NextHolder(s) else after == before
      case _ => after == before
  {
    match a
    case Enter(i, deadline) => EnterRefinesLock(s, i, deadline);
    case Poll(i) => PollRefinesLock(s, i);
    case Finish(i, result) => FinishRefinesLock(s, i, result);
    case Drop(i) => DropRefinesLock(s, i);
    case _ =>
      StepKeepsInvariant(s, a);
      SameHolder(s, Apply(s, a));
  }
}
