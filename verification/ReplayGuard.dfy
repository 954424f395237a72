/** The bounded set of (`aud`, `nonce`) pairs one boot has processed. */
module ReplayGuard {
  import opened SealedTypes
  import opened Wrappers

  type FieldElement = nat

  datatype Pair = Pair(aud: FieldElement, nonce: FieldElement)

  const MAX_PROCESSED_REQUESTS: nat := 262_144

  /** The guarded set and the flag that caches whether it has no capacity. */
  datatype Guard = Guard(processed: set<Pair>, limit: nat, full: bool)

  function Fresh(limit: nat): Guard { Guard({}, limit, false) }

  datatype Answer = Reserved | Refused(reason: FailureReason)

  function ReserveIn(g: Guard, p: Pair): (Guard, Answer) {
    if p in g.processed then (g, Refused(Replayed))
    else if |g.processed| >= g.limit then (g.(full := true), Refused(Internal))
    else
      var processed := g.processed + {p};
      (Guard(processed, g.limit, g.full || |processed| >= g.limit), Reserved)
  }

  function ReleaseFrom(g: Guard, p: Pair): Guard {
    var processed := g.processed - {p};
    Guard(processed, g.limit, |processed| >= g.limit)
  }

  class ReplayGuard {
    var processed: set<Pair>
    const limit: nat
    var full: bool

    function State(): Guard reads this { Guard(processed, limit, full) }

    constructor (limit: nat)
      ensures State() == Fresh(limit)
    {
      processed, this.limit, full := {}, limit, false;
    }

    method Reserve(p: Pair) returns (answer: Answer)
      modifies this
      ensures (State(), answer) == ReserveIn(old(State()), p)
    {
      if p in processed { return Refused(Replayed); }
      if |processed| >= limit {
        full := true;
        return Refused(Internal);
      }
      processed := processed + {p};
      if |processed| >= limit { full := true; }
      return Reserved;
    }

    method Release(p: Pair)
      modifies this
      ensures State() == ReleaseFrom(old(State()), p)
    {
      processed := processed - {p};
      full := |processed| >= limit;
    }

    method IsFull() returns (r: bool)
      ensures r == State().full
    {
      r := full;
    }
  }

  // Bookkeeping over any sequence of calls

  datatype Call = ReserveCall(pair: Pair) | ReleaseCall(pair: Pair)

  function After(g: Guard, call: Call): Guard {
    match call
    case ReserveCall(p) => ReserveIn(g, p).0
    case ReleaseCall(p) => ReleaseFrom(g, p)
  }

  function Run(g: Guard, calls: seq<Call>): Guard {
    if calls == [] then g else After(Run(g, calls[..|calls| - 1]), calls[|calls| - 1])
  }

  /** What the last call did to the number of processed pairs. */
  function Gain(g: Guard, call: Call): int {
    match call
    case ReserveCall(p) => if ReserveIn(g, p).1 == Reserved then 1 else 0
    case ReleaseCall(p) => if p in g.processed then -1 else 0
  }

  /** Successful reservations minus releases of a held pair. */
  function Balance(g: Guard, calls: seq<Call>): int {
    if calls == [] then 0
    else
      var before := calls[..|calls| - 1];
      Balance(g, before) + Gain(Run(g, before), calls[|calls| - 1])
  }

  predicate Consistent(g: Guard) {
    |g.processed| <= g.limit && (g.full <==> |g.processed| >= g.limit)
  }

  lemma CallKeepsConsistent(g: Guard, call: Call)
    requires Consistent(g)
    ensures Consistent(After(g, call)) && After(g, call).limit == g.limit
    ensures |After(g, call).processed| == |g.processed| + Gain(g, call)
  {}

  /** The set never exceeds its limit, its size is exactly reservations minus releases, and the flag
      is set exactly when the set has no room left, after any sequence of calls in any order. */
  lemma {:induction false} Bookkeeping(limit: nat, calls: seq<Call>)
    requires limit > 0
    ensures var g := Run(Fresh(limit), calls);
            Consistent(g) && g.limit == limit && |g.processed| == Balance(Fresh(limit), calls)
  {
    if calls != [] {
      Bookkeeping(limit, calls[..|calls| - 1]);
      CallKeepsConsistent(Run(Fresh(limit), calls[..|calls| - 1]), calls[|calls| - 1]);
    }
  }

  /** A guard starts consistent exactly when its limit is positive: a zero limit is already reached
      while the flag is still clear. */
  lemma FreshIsConsistentIff(limit: nat)
    ensures Consistent(Fresh(limit)) <==> limit > 0
  {}

  /** A pair is held exactly when it was reserved and not released since; a held pair is answered
      Replayed, full or not, and Internal is answered exactly to a new pair without room for it. */
  lemma AnswersAfterAnyRun(limit: nat, calls: seq<Call>, p: Pair)
    requires limit > 0
    ensures var g := Run(Fresh(limit), calls);
            var answer := ReserveIn(g, p).1;
            && (answer == Refused(Replayed) <==> HeldBy(limit, calls, p))
            && (answer == Refused(Internal) <==> !HeldBy(limit, calls, p) && g.full)
  {
    HeldIsProcessed(limit, calls, p);
    Bookkeeping(limit, calls);
  }

  /** The last call about `p` that took effect was a reservation. */
  predicate HeldBy(limit: nat, calls: seq<Call>, p: Pair) {
    if calls == [] then false
    else
      var before, last := calls[..|calls| - 1], calls[|calls| - 1];
      if last.pair != p then HeldBy(limit, before, p)
      else last.ReserveCall? && (HeldBy(limit, before, p) || Balance(Fresh(limit), before) < limit)
  }

  lemma {:induction false} HeldIsProcessed(limit: nat, calls: seq<Call>, p: Pair)
    requires limit > 0
    ensures p in Run(Fresh(limit), calls).processed <==> HeldBy(limit, calls, p)
  {
    if calls != [] {
      HeldIsProcessed(limit, calls[..|calls| - 1], p);
      Bookkeeping(limit, calls[..|calls| - 1]);
    }
  }
}
