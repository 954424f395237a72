/** Response slots and the release manifest that defines them. Instants are nanoseconds, slots milliseconds. */
module ResponseSlots {
  import opened SealedTypes
  import opened Wrappers

  type Instant = nat

  const NANOS_PER_MILLI: nat := 1_000_000

  type Slots = seq<nat>

  datatype PipelineSpec = PipelineSpec(pipeline: nat, responseSlots: Slots, maxRequestBytes: nat)

  datatype Release = Release(
    releaseHash: seq<int>, engineHash: seq<int>, pipelines: seq<PipelineSpec>, strictnessLevels: set<nat>)

  /** Slots of a loaded manifest: at least one, strictly increasing. */
  predicate ValidSlots(slots: Slots) {
    slots != [] && forall i, j :: 0 <= i < j < |slots| ==> slots[i] < slots[j]
  }

  /** What parsing a manifest guarantees. */
  predicate ValidRelease(r: Release) {
    forall i :: 0 <= i < |r.pipelines| ==> ValidSlots(r.pipelines[i].responseSlots)
  }

  function Max(a: nat, b: nat): nat { if a < b then b else a }

  /** The first slot at or after `elapsed` milliseconds. */
  function ReleaseAt(slots: Slots, elapsed: nat): Option<nat> {
    if slots == [] then None
    else if slots[0] >= elapsed then Some(slots[0])
    else ReleaseAt(slots[1..], elapsed)
  }

  function LastSlot(slots: Slots): nat {
    if slots == [] then 0 else slots[|slots| - 1]
  }

  /** The slot a response is released at, `elapsed` nanoseconds after its request arrived. */
  function ChosenSlot(slots: Slots, elapsed: nat): nat {
    match ReleaseAt(slots, elapsed / NANOS_PER_MILLI)
    case Some(slot) => slot
    case None => LastSlot(slots)
  }

  /** How long after arrival a response that was ready at `elapsed` leaves. */
  function LeavesAfter(slots: Slots, elapsed: nat): nat {
    Max(elapsed, ChosenSlot(slots, elapsed) * NANOS_PER_MILLI)
  }

  /** The latest first slot of any pipeline, for a request rejected before its pipeline is known. */
  function LatestFirstSlot(pipelines: seq<PipelineSpec>): nat {
    if pipelines == [] then 0
    else
      var rest := LatestFirstSlot(pipelines[1..]);
      if pipelines[0].responseSlots == [] then rest else Max(pipelines[0].responseSlots[0], rest)
  }

  /** The latest slot of any pipeline, which bounds the host's wait. */
  function LatestSlot(pipelines: seq<PipelineSpec>): Option<nat> {
    if pipelines == [] then None
    else
      var rest := LatestSlot(pipelines[1..]);
      if pipelines[0].responseSlots == [] then rest
      else Some(Max(LastSlot(pipelines[0].responseSlots), if rest.Some? then rest.value else 0))
  }

  function LargestRequest(pipelines: seq<PipelineSpec>): nat {
    if pipelines == [] then 0 else Max(pipelines[0].maxRequestBytes, LargestRequest(pipelines[1..]))
  }

  function FindPipeline(pipelines: seq<PipelineSpec>, id: nat): Option<PipelineSpec> {
    if pipelines == [] then None
    else if pipelines[0].pipeline == id then Some(pipelines[0])
    else FindPipeline(pipelines[1..], id)
  }

  /** The chosen slot is the first at or after the elapsed whole milliseconds, or the last slot when none is. */
  lemma {:induction false} ReleaseAtIsFirst(slots: Slots, elapsed: nat)
    requires ValidSlots(slots)
    ensures match ReleaseAt(slots, elapsed)
            case Some(slot) => slot in slots && slot >= elapsed && forall s :: s in slots && s >= elapsed ==> slot <= s
            case None => forall s :: s in slots ==> s < elapsed
    decreases |slots|
  {
    if slots[0] < elapsed && |slots| > 1 {
      assert ValidSlots(slots[1..]);
      ReleaseAtIsFirst(slots[1..], elapsed);
      assert forall s :: s in slots ==> s == slots[0] || s in slots[1..];
    }
  }

  /** A response that is ready by the last slot leaves at the first slot at or after its elapsed
      whole milliseconds: exactly on it, unless it was ready within the millisecond after it, and
      then at once. A response ready later than the last slot leaves at once. */
  lemma LeavesAtSlot(slots: Slots, elapsed: nat)
    requires ValidSlots(slots)
    ensures var ready, slot := elapsed / NANOS_PER_MILLI, ChosenSlot(slots, elapsed);
            if ready <= LastSlot(slots) then
              && slot in slots && ready <= slot
              && (forall s :: s in slots && s >= ready ==> slot <= s)
              && slot * NANOS_PER_MILLI <= LeavesAfter(slots, elapsed) < (slot + 1) * NANOS_PER_MILLI
              && (LeavesAfter(slots, elapsed) == slot * NANOS_PER_MILLI <==> elapsed <= slot * NANOS_PER_MILLI)
            else LeavesAfter(slots, elapsed) == elapsed
  {
    ReleaseAtIsFirst(slots, elapsed / NANOS_PER_MILLI);
    assert LastSlot(slots) in slots;
    LastIsLargest(slots);
  }

  /** A response to a request of `arrival` that was ready at `readyAt` is due at `due`: at the first slot
      whose millisecond is not over yet, or at once when every slot's is. */
  ghost predicate DueAt(slots: Slots, arrival: Instant, readyAt: Instant, due: Instant) {
    || (exists slot :: slot in slots && NotOver(arrival, readyAt, slot)
          && (forall s :: s in slots && s < slot ==> !NotOver(arrival, readyAt, s))
          && due == Max(readyAt, arrival + slot * NANOS_PER_MILLI))
    || ((forall s :: s in slots ==> !NotOver(arrival, readyAt, s)) && due == readyAt)
  }

  /** The millisecond that begins at the slot is not over at `at`. */
  predicate NotOver(arrival: Instant, at: Instant, slot: nat) { at < arrival + (slot + 1) * NANOS_PER_MILLI }

  lemma LeavesWhenDue(slots: Slots, arrival: Instant, readyAt: Instant)
    requires ValidSlots(slots) && arrival <= readyAt
    ensures DueAt(slots, arrival, readyAt, arrival + LeavesAfter(slots, readyAt - arrival))
  {
    var elapsed := readyAt - arrival;
    ReleaseAtIsFirst(slots, elapsed / NANOS_PER_MILLI);
    forall s: nat ensures NotOver(arrival, readyAt, s) <==> s >= elapsed / NANOS_PER_MILLI {}
    if ReleaseAt(slots, elapsed / NANOS_PER_MILLI).Some? {
      var slot := ReleaseAt(slots, elapsed / NANOS_PER_MILLI).value;
      assert slot in slots && NotOver(arrival, readyAt, slot);
      assert arrival + LeavesAfter(slots, elapsed) == Max(readyAt, arrival + slot * NANOS_PER_MILLI);
    } else {
      assert LastSlot(slots) in slots && !NotOver(arrival, readyAt, LastSlot(slots));
    }
  }

  lemma LastIsLargest(slots: Slots)
    requires ValidSlots(slots)
    ensures forall s :: s in slots ==> s <= LastSlot(slots)
  {}

  /** Ready after the previous slot and no later than slot `i`. */
  predicate ReadyFor(slots: Slots, i: nat, elapsed: nat)
    requires i < |slots|
  {
    elapsed <= slots[i] * NANOS_PER_MILLI && (i > 0 ==> slots[i - 1] * NANOS_PER_MILLI < elapsed)
  }

  /** Ready within the millisecond that begins at the previous slot: whole milliseconds do not tell it
      from that slot. */
  predicate JustMissed(slots: Slots, i: nat, elapsed: nat)
    requires i < |slots|
  {
    i > 0 && elapsed / NANOS_PER_MILLI == slots[i - 1]
  }

  /** When a response ready in the interval of slot `i` leaves: on that slot, or at once if it just
      missed the slot before. */
  lemma IntervalSlot(slots: Slots, i: nat, elapsed: nat)
    requires ValidSlots(slots) && i < |slots| && ReadyFor(slots, i, elapsed)
    ensures LeavesAfter(slots, elapsed) == if JustMissed(slots, i, elapsed) then elapsed else slots[i] * NANOS_PER_MILLI
    ensures LeavesAfter(slots, elapsed) == slots[i] * NANOS_PER_MILLI <==> !JustMissed(slots, i, elapsed)
  {
    ReleaseAtIsFirst(slots, elapsed / NANOS_PER_MILLI);
    assert slots[i] in slots;
    assert i > 0 ==> slots[i - 1] in slots;
    assert forall k :: 0 <= k < i ==> slots[k] <= slots[i - 1];
  }

  /** Two runs ready in the same slot interval leave together exactly when they were ready together or
      neither just missed the slot before. */
  lemma SameIntervalSameSlotIff(slots: Slots, i: nat, a: nat, b: nat)
    requires ValidSlots(slots) && i < |slots| && ReadyFor(slots, i, a) && ReadyFor(slots, i, b)
    ensures LeavesAfter(slots, a) == LeavesAfter(slots, b)
            <==> a == b || (!JustMissed(slots, i, a) && !JustMissed(slots, i, b))
  {
    IntervalSlot(slots, i, a);
    IntervalSlot(slots, i, b);
  }

  /** Ready half a millisecond after its slot of 100, a response leaves at once; ready at 150, it waits
      for the slot of 200. Both became ready in the same interval. */
  lemma JustMissedShows()
    ensures ReadyFor([100, 200], 1, 100_500_000) && ReadyFor([100, 200], 1, 150_000_000)
    ensures LeavesAfter([100, 200], 100_500_000) == 100_500_000
    ensures LeavesAfter([100, 200], 150_000_000) == 200_000_000
  {
    IntervalSlot([100, 200], 1, 100_500_000);
    IntervalSlot([100, 200], 1, 150_000_000);
  }

  lemma {:induction false} LatestFirstSlotCovers(pipelines: seq<PipelineSpec>, i: nat)
    requires i < |pipelines| && pipelines[i].responseSlots != []
    ensures pipelines[i].responseSlots[0] <= LatestFirstSlot(pipelines)
    decreases |pipelines|
  {
    if i > 0 { LatestFirstSlotCovers(pipelines[1..], i - 1); }
  }

  /** A request rejected before its pipeline is known never leaves sooner than the first slot of any
      pipeline, so it cannot be told from a completed run by being early. */
  lemma EarlyRejectionIsNotEarly(pipelines: seq<PipelineSpec>, i: nat, rejected: nat, completed: nat)
    requires i < |pipelines| && ValidSlots(pipelines[i].responseSlots)
    ensures LeavesAfter([LatestFirstSlot(pipelines)], rejected) >= pipelines[i].responseSlots[0] * NANOS_PER_MILLI
    ensures LeavesAfter(pipelines[i].responseSlots, completed) >= pipelines[i].responseSlots[0] * NANOS_PER_MILLI
  {
    var slots := pipelines[i].responseSlots;
    LatestFirstSlotCovers(pipelines, i);
    assert LastSlot([LatestFirstSlot(pipelines)]) == LatestFirstSlot(pipelines);
    ReleaseAtIsFirst([LatestFirstSlot(pipelines)], rejected / NANOS_PER_MILLI);
    ReleaseAtIsFirst(slots, completed / NANOS_PER_MILLI);
    assert forall s :: s in slots ==> slots[0] <= s;
    assert LastSlot(slots) in slots;
  }

  lemma {:induction false} LatestSlotCovers(pipelines: seq<PipelineSpec>, i: nat)
    requires i < |pipelines| && pipelines[i].responseSlots != []
    ensures LatestSlot(pipelines).Some? && LastSlot(pipelines[i].responseSlots) <= LatestSlot(pipelines).value
    decreases |pipelines|
  {
    if i > 0 { LatestSlotCovers(pipelines[1..], i - 1); }
  }

  lemma {:induction false} LatestSlotIsOneOfThem(pipelines: seq<PipelineSpec>)
    requires LatestSlot(pipelines).Some?
    ensures exists i :: 0 <= i < |pipelines| && pipelines[i].responseSlots != []
              && LatestSlot(pipelines).value == LastSlot(pipelines[i].responseSlots)
    decreases |pipelines|
  {
    var first, rest := pipelines[0].responseSlots, pipelines[1..];
    if first != [] && (LatestSlot(rest).None? || LastSlot(first) >= LatestSlot(rest).value) {
      assert LatestSlot(pipelines).value == LastSlot(pipelines[0].responseSlots);
    } else {
      LatestSlotIsOneOfThem(rest);
      var i :| 0 <= i < |rest| && rest[i].responseSlots != [] && LatestSlot(rest).value == LastSlot(rest[i].responseSlots);
      assert pipelines[i + 1] == rest[i];
    }
  }

  /** The host's wait covers every response that was ready by its own pipeline's last slot, and it is
      one of the pipelines' last slots, so it is not longer than that takes. */
  lemma HostWaitCovers(pipelines: seq<PipelineSpec>, i: nat, elapsed: nat)
    requires i < |pipelines| && ValidSlots(pipelines[i].responseSlots)
    requires elapsed <= LastSlot(pipelines[i].responseSlots) * NANOS_PER_MILLI
    ensures LatestSlot(pipelines).Some?
    ensures LeavesAfter(pipelines[i].responseSlots, elapsed) <= LatestSlot(pipelines).value * NANOS_PER_MILLI
    ensures exists k :: 0 <= k < |pipelines| && pipelines[k].responseSlots != []
              && LatestSlot(pipelines).value == LastSlot(pipelines[k].responseSlots)
  {
    var slots := pipelines[i].responseSlots;
    LatestSlotCovers(pipelines, i);
    LatestSlotIsOneOfThem(pipelines);
    ReleaseAtIsFirst(slots, elapsed / NANOS_PER_MILLI);
    LastIsLargest(slots);
  }

  lemma {:induction false} FoundPipeline(pipelines: seq<PipelineSpec>, id: nat)
    ensures match FindPipeline(pipelines, id)
            case Some(p) => p.maxRequestBytes <= LargestRequest(pipelines) && p.pipeline == id
                            && exists i :: 0 <= i < |pipelines| && pipelines[i] == p
                                 && forall j :: 0 <= j < i ==> pipelines[j].pipeline != id
            case None => forall i :: 0 <= i < |pipelines| ==> pipelines[i].pipeline != id
  {
    if pipelines != [] && pipelines[0].pipeline != id {
      var rest := pipelines[1..];
      FoundPipeline(rest, id);
      assert forall i :: 0 < i < |pipelines| ==> pipelines[i] == rest[i - 1];
      if FindPipeline(pipelines, id).Some? {
        var i :| 0 <= i < |rest| && rest[i] == FindPipeline(rest, id).value
                 && forall j :: 0 <= j < i ==> rest[j].pipeline != id;
        assert pipelines[i + 1] == rest[i];
      }
    }
  }

  /** The largest request is the most any pipeline takes: a size is within it exactly when it is within
      the limit of some pipeline. */
  lemma {:induction false} LargestRequestIff(pipelines: seq<PipelineSpec>, size: nat)
    ensures size <= LargestRequest(pipelines)
            <==> size == 0 || exists i :: 0 <= i < |pipelines| && size <= pipelines[i].maxRequestBytes
  {
    if pipelines != [] {
      var rest := pipelines[1..];
      LargestRequestIff(rest, size);
      if i :| 0 <= i < |rest| && size <= rest[i].maxRequestBytes { assert pipelines[i + 1] == rest[i]; }
      if i :| 0 <= i < |pipelines| && size <= pipelines[i].maxRequestBytes {
        if i > 0 { assert rest[i - 1] == pipelines[i]; }
      }
    }
  }

  /** The latest first slot is exactly that: a time is within it exactly when some pipeline's first slot
      is no earlier. */
  lemma {:induction false} LatestFirstSlotIff(pipelines: seq<PipelineSpec>, at: nat)
    ensures at <= LatestFirstSlot(pipelines)
            <==> at == 0 || exists i :: 0 <= i < |pipelines| && pipelines[i].responseSlots != []
                                        && at <= pipelines[i].responseSlots[0]
  {
    if pipelines != [] {
      var rest := pipelines[1..];
      LatestFirstSlotIff(rest, at);
      if i :| 0 <= i < |rest| && rest[i].responseSlots != [] && at <= rest[i].responseSlots[0] {
        assert pipelines[i + 1] == rest[i];
      }
      if i :| 0 <= i < |pipelines| && pipelines[i].responseSlots != [] && at <= pipelines[i].responseSlots[0] {
        if i > 0 { assert rest[i - 1] == pipelines[i]; }
      }
    }
  }
}
