/** The cached attestation of a boot-scoped key and the task that keeps it fresh. Times are nanoseconds. */
module Attestation {
  import opened Bytes
  import opened SealedTypes
  import opened Wrappers
  import opened ResponseSlots

  type Key = seq<byte>
  type Document = seq<byte>

  const MAX_CACHED_AGE: nat := 10 * 60 * 1_000_000_000
  const MAX_SERVABLE_AGE: nat := 60 * 60 * 1_000_000_000

  datatype Answer = Attested(document: Document) | Refused | Panicked

  /** One call of the attestor: what it answers for a key, and the time from the end of the sleep
      before it until its answer is handled. */
  datatype Attempt = Attempt(takes: nat, answer: Key -> Answer)

  datatype Cache = Cache(document: Document, attestedAt: Instant)

  /** The refresh task between two attempts, or after it ended. */
  datatype Task = Task(running: bool, now: Instant, cache: Cache)

  /** One turn of the loop: sleep, attest, then store, keep or give up. */
  function Turn(t: Task, key: Key, maxAge: nat, a: Attempt): Task {
    if !t.running then t
    else
      var now := t.now + maxAge + a.takes;
      match a.answer(key)
      case Attested(document) => Task(true, now, Cache(document, now))
      case Refused => Task(now < t.cache.attestedAt + MAX_SERVABLE_AGE, now, t.cache)
      case Panicked => Task(false, now, t.cache)
  }

  function Turns(t: Task, key: Key, maxAge: nat, attempts: seq<Attempt>): Task {
    if attempts == [] then t
    else Turn(Turns(t, key, maxAge, attempts[..|attempts| - 1]), key, maxAge, attempts[|attempts| - 1])
  }

  class AttestedKey {
    const publicKey: Key
    const maxAge: nat
    var document: Document
    var attestedAt: Instant
    var refreshStarted: bool

    constructor (publicKey: Key, maxAge: nat, document: Document, now: Instant)
      ensures this.publicKey == publicKey && this.maxAge == maxAge && !refreshStarted
      ensures Served() == Cache(document, now)
    {
      this.publicKey, this.maxAge := publicKey, maxAge;
      this.document, attestedAt, refreshStarted := document, now, false;
    }

    function Served(): Cache reads this { Cache(document, attestedAt) }

    /** Runs the refresh loop against the attestor's next answers; false when the task has ended. */
    method Refresh(start: Instant, attempts: seq<Attempt>) returns (running: bool, now: Instant)
      requires !refreshStarted
      modifies this
      ensures refreshStarted
      ensures Task(running, now, Served()) == Turns(Task(true, start, old(Served())), publicKey, maxAge, attempts)
    {
      refreshStarted := true;
      running, now := true, start;
      ghost var first := Task(true, start, Served());
      var i := 0;
      while i < |attempts| && running
        invariant 0 <= i <= |attempts| && refreshStarted
        invariant Task(running, now, Served()) == Turns(first, publicKey, maxAge, attempts[..i])
      {
        assert attempts[..i + 1][..i] == attempts[..i];
        now := now + maxAge + attempts[i].takes;
        match attempts[i].answer(publicKey) {
          case Attested(next) => document, attestedAt := next, now;
          case Refused =>
            var age := now - attestedAt;
            if age >= MAX_SERVABLE_AGE { running := false; }
          case Panicked => running := false;
        }
        i := i + 1;
      }
      EndedStaysEnded(first, publicKey, maxAge, attempts, i);
      assert attempts[..|attempts|] == attempts;
    }
  }

  lemma {:induction false} EndedStaysEnded(t: Task, key: Key, maxAge: nat, attempts: seq<Attempt>, i: nat)
    requires i <= |attempts|
    ensures !Turns(t, key, maxAge, attempts[..i]).running ==>
              Turns(t, key, maxAge, attempts) == Turns(t, key, maxAge, attempts[..i])
  {
    if i == |attempts| {
      assert attempts[..i] == attempts;
    } else {
      EndedStaysEnded(t, key, maxAge, attempts[..|attempts| - 1], i);
      assert attempts[..|attempts| - 1][..i] == attempts[..i];
    }
  }

  /** Attests once before anything is served; without a document there is no key to serve. */
  method NewAttestedKey(attestor: Key -> Answer, publicKey: Key, maxAge: nat, now: Instant)
    returns (key: Option<AttestedKey>)
    ensures key.Some? <==> attestor(publicKey).Attested?
    ensures key.Some? ==> key.value.publicKey == publicKey && key.value.maxAge == maxAge && !key.value.refreshStarted
                          && key.value.Served() == Cache(attestor(publicKey).document, now)
  {
    match attestor(publicKey)
    case Attested(document) =>
      var k := new AttestedKey(publicKey, maxAge, document, now);
      return Some(k);
    case _ => return None;
  }

  // What is served, and for how long

  predicate Failed(key: Key, a: Attempt) { !a.answer(key).Attested? }

  /** The last attempt that succeeded. */
  function LastSuccess(key: Key, attempts: seq<Attempt>): Option<nat> {
    if attempts == [] then None
    else if !Failed(key, attempts[|attempts| - 1]) then Some(|attempts| - 1)
    else LastSuccess(key, attempts[..|attempts| - 1])
  }

  /** When the answer to attempt `n` is handled, if the task is still running then. */
  function HandledAt(start: Instant, maxAge: nat, attempts: seq<Attempt>): Instant {
    if attempts == [] then start
    else HandledAt(start, maxAge, attempts[..|attempts| - 1]) + maxAge + attempts[|attempts| - 1].takes
  }

  lemma {:induction false} LastSuccessIsLast(key: Key, attempts: seq<Attempt>)
    ensures match LastSuccess(key, attempts)
            case None => forall k :: 0 <= k < |attempts| ==> Failed(key, attempts[k])
            case Some(n) => n < |attempts| && !Failed(key, attempts[n])
                            && forall k :: n < k < |attempts| ==> Failed(key, attempts[k])
  {
    if attempts != [] { LastSuccessIsLast(key, attempts[..|attempts| - 1]); }
  }

  /** While the task runs, what is served is the document of the last successful attestation of this
      key, dated when that answer was handled, or the boot's own when none succeeded since. */
  lemma {:induction false} ServesLastSuccess(boot: Cache, start: Instant, key: Key, maxAge: nat, attempts: seq<Attempt>)
    requires Turns(Task(true, start, boot), key, maxAge, attempts).running
    ensures var t := Turns(Task(true, start, boot), key, maxAge, attempts);
      && t.now == HandledAt(start, maxAge, attempts)
      && match LastSuccess(key, attempts)
         case None => t.cache == boot
         case Some(n) => n < |attempts| && attempts[n].answer(key) == Attested(t.cache.document)
                         && t.cache.attestedAt == HandledAt(start, maxAge, attempts[..n + 1])
  {
    LastSuccessIsLast(key, attempts);
    if attempts != [] {
      var before := attempts[..|attempts| - 1];
      ServesLastSuccess(boot, start, key, maxAge, before);
      LastSuccessIsLast(key, before);
      assert attempts[..|attempts|] == attempts;
      var last := LastSuccess(key, attempts);
      if last.Some? && last.value < |before| { assert attempts[..last.value + 1] == before[..last.value + 1]; }
    }
  }

  /** When the document served after these attempts was attested. */
  function DatedAt(boot: Cache, start: Instant, key: Key, maxAge: nat, attempts: seq<Attempt>): Instant {
    match LastSuccess(key, attempts)
    case None => boot.attestedAt
    case Some(n) => if n < |attempts| then HandledAt(start, maxAge, attempts[..n + 1]) else start
  }

  /** Attempt `k` does not end the task: it succeeds, or it is refused while the document that is served
      is younger than the servable age. A panic always ends it. */
  predicate GoesOn(boot: Cache, start: Instant, key: Key, maxAge: nat, attempts: seq<Attempt>, k: nat)
    requires k < |attempts|
  {
    match attempts[k].answer(key)
    case Attested(_) => true
    case Panicked => false
    case Refused =>
      HandledAt(start, maxAge, attempts[..k + 1]) < DatedAt(boot, start, key, maxAge, attempts[..k]) + MAX_SERVABLE_AGE
  }

  /** The task is still running exactly when none of its attempts ended it. */
  lemma {:induction false} RunsOnIff(boot: Cache, start: Instant, key: Key, maxAge: nat, attempts: seq<Attempt>)
    ensures Turns(Task(true, start, boot), key, maxAge, attempts).running
            <==> forall k :: 0 <= k < |attempts| ==> GoesOn(boot, start, key, maxAge, attempts, k)
  {
    if attempts != [] {
      var n := |attempts| - 1;
      var before := attempts[..n];
      RunsOnIff(boot, start, key, maxAge, before);
      assert attempts[..n + 1] == attempts;
      forall k | 0 <= k < n
        ensures GoesOn(boot, start, key, maxAge, attempts, k) == GoesOn(boot, start, key, maxAge, before, k)
      {
        assert attempts[..k + 1] == before[..k + 1] && attempts[..k] == before[..k];
      }
      if Turns(Task(true, start, boot), key, maxAge, before).running {
        ServesLastSuccess(boot, start, key, maxAge, before);
        var t := Turns(Task(true, start, boot), key, maxAge, before);
        assert t.cache.attestedAt == DatedAt(boot, start, key, maxAge, before);
        assert HandledAt(start, maxAge, attempts) == t.now + maxAge + attempts[n].takes;
        assert GoesOn(boot, start, key, maxAge, attempts, n) <==> Turn(t, key, maxAge, attempts[n]).running;
      }
      assert (forall k :: 0 <= k < |attempts| ==> GoesOn(boot, start, key, maxAge, attempts, k))
        <==> (forall k :: 0 <= k < n ==> GoesOn(boot, start, key, maxAge, attempts, k))
             && GoesOn(boot, start, key, maxAge, attempts, n);
    }
  }

  /** The servable age, or how old the boot's document already was when the task started. */
  function AgeLimit(boot: Cache, start: Instant): nat
    requires boot.attestedAt <= start
  {
    Max(MAX_SERVABLE_AGE, start - boot.attestedAt + 1)
  }

  /** While the task runs, up to the moment the next answer is handled, the served document is younger
      than the servable age plus one refresh interval plus that attempt. */
  lemma AgeIsBounded(boot: Cache, start: Instant, key: Key, maxAge: nat, attempts: seq<Attempt>,
                     next: Attempt, at: Instant)
    requires boot.attestedAt <= start
    requires var t := Turns(Task(true, start, boot), key, maxAge, attempts);
             t.running && t.now <= at <= t.now + maxAge + next.takes
    ensures var served := Turns(Task(true, start, boot), key, maxAge, attempts).cache;
      && served.attestedAt <= at < served.attestedAt + AgeLimit(boot, start) + maxAge + next.takes
      && (start < boot.attestedAt + MAX_SERVABLE_AGE || attempts != [] ==>
            at < served.attestedAt + MAX_SERVABLE_AGE + maxAge + next.takes)
  {
    RunningIsYoung(boot, start, key, maxAge, attempts);
  }

  lemma {:induction false} RunningIsYoung(boot: Cache, start: Instant, key: Key, maxAge: nat, attempts: seq<Attempt>)
    requires boot.attestedAt <= start
    ensures var t := Turns(Task(true, start, boot), key, maxAge, attempts);
      t.running ==> t.cache.attestedAt <= t.now
                    && (attempts != [] ==> t.now < t.cache.attestedAt + MAX_SERVABLE_AGE)
                    && (attempts == [] ==> t == Task(true, start, boot))
  {
    if attempts != [] { RunningIsYoung(boot, start, key, maxAge, attempts[..|attempts| - 1]); }
  }

  // How long failures are survived

  predicate AllRefused(key: Key, attempts: seq<Attempt>) {
    forall k :: 0 <= k < |attempts| ==> attempts[k].answer(key) == Refused
  }

  function Spent(attempts: seq<Attempt>): nat {
    if attempts == [] then 0 else Spent(attempts[..|attempts| - 1]) + attempts[|attempts| - 1].takes
  }

  /** A run of failures is survived exactly as long as it fits in the servable age. */
  lemma {:induction false} SurvivesFailuresIff(t: Task, key: Key, maxAge: nat, attempts: seq<Attempt>)
    requires t.running && t.cache.attestedAt <= t.now && AllRefused(key, attempts)
    ensures var t' := Turns(t, key, maxAge, attempts);
      var elapsed := t.now - t.cache.attestedAt + |attempts| * maxAge + Spent(attempts);
      && (t'.running <==> attempts == [] || elapsed < MAX_SERVABLE_AGE)
      && t'.cache == t.cache
      && (t'.running ==> t'.now == t.cache.attestedAt + elapsed)
  {
    if attempts != [] {
      var before := attempts[..|attempts| - 1];
      SurvivesFailuresIff(t, key, maxAge, before);
      assert |attempts| * maxAge == |before| * maxAge + maxAge;
    }
  }

  /** An attestor that only fails ends the task once that many intervals fill the servable age. */
  lemma FailuresEndTheTask(t: Task, key: Key, maxAge: nat, attempts: seq<Attempt>)
    requires t.running && t.cache.attestedAt <= t.now && AllRefused(key, attempts)
    requires |attempts| * maxAge >= MAX_SERVABLE_AGE
    ensures !Turns(t, key, maxAge, attempts).running
  {
    SurvivesFailuresIff(t, key, maxAge, attempts);
  }

  /** With the default interval that is the sixth failure in a row at the latest. */
  lemma SixFailuresEndTheTask(t: Task, key: Key, attempts: seq<Attempt>)
    requires t.running && t.cache.attestedAt <= t.now && AllRefused(key, attempts) && |attempts| >= 6
    ensures !Turns(t, key, MAX_CACHED_AGE, attempts).running
  {
    assert |attempts| * MAX_CACHED_AGE >= 6 * MAX_CACHED_AGE;
    FailuresEndTheTask(t, key, MAX_CACHED_AGE, attempts);
  }
}
