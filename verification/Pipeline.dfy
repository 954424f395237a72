/** The adapter from a request payload to one engine operation, and the score policy. */
module Pipeline {
  import opened Bytes
  import opened SealedTypes
  import opened Wrappers

  type Hash = seq<byte>

  datatype Entry = Entry(data: seq<byte>, meta: seq<byte>)

  datatype Payload = Payload(
    pipeline: nat, matchStrictness: nat, hints: seq<byte>, entries: seq<Entry>, compare: seq<byte>, releaseHash: Hash)

  datatype MatchingFrame = Illuminated | Unilluminated

  datatype LiveCapture =
    | Vanilla(image: seq<byte>)
    | LightGuard(illuminated: seq<byte>, unilluminated: seq<byte>, matchingFrame: MatchingFrame)

  datatype Operation =
    | DeepFace(credential: seq<byte>, live: LiveCapture, challenge: seq<byte>)
    | GrayBadge(live: LiveCapture, challenge: seq<byte>)

  const PIPELINE_DEEPFACE: nat := 1
  const PIPELINE_GRAYBADGE: nat := 2

  const ILLUMINATED: seq<byte> := Ascii("illuminated")
  const UNILLUMINATED: seq<byte> := Ascii("unilluminated")

  // Which payloads fit an operation

  /** Position of the live capture in `compare`, for the pipelines the adapter knows. */
  function LivePosition(pipeline: nat): Option<nat> {
    if pipeline == PIPELINE_DEEPFACE then Some(1)
    else if pipeline == PIPELINE_GRAYBADGE then Some(0)
    else None
  }

  predicate DistinctInRange(compare: seq<byte>, count: nat) {
    && (forall i :: 0 <= i < |compare| ==> compare[i] < count)
    && (forall i, j :: 0 <= i < j < |compare| ==> compare[i] != compare[j])
  }

  /** The entries still in their slots, in order. */
  function Remaining(slots: seq<Option<Entry>>): seq<Entry> {
    if slots == [] then []
    else (match slots[0] case Some(e) => [e] case None => []) + Remaining(slots[1..])
  }

  /** The slots once every compared entry has been taken out. */
  function SlotsAfter(entries: seq<Entry>, compare: seq<byte>): (s: seq<Option<Entry>>)
    ensures |s| == |entries|
  {
    seq(|entries|, k requires 0 <= k < |entries| => if k in compare then None else Some(entries[k]))
  }

  function Leftover(p: Payload): seq<Entry> { Remaining(SlotsAfter(p.entries, p.compare)) }

  function Compared(p: Payload): (c: seq<Entry>)
    requires DistinctInRange(p.compare, |p.entries|)
    ensures |c| == |p.compare|
  {
    seq(|p.compare|, i requires 0 <= i < |p.compare| => p.entries[p.compare[i]])
  }

  /** No metadata anywhere, or one frame of a LightGuard pair compared and the other left over. */
  predicate LiveLayout(live: Entry, leftover: seq<Entry>) {
    if leftover == [] then live.meta == []
    else |leftover| == 1
         && ((live.meta == ILLUMINATED && leftover[0].meta == UNILLUMINATED)
             || (live.meta == UNILLUMINATED && leftover[0].meta == ILLUMINATED))
  }

  /** The pipeline is known and `compare` selects its positions out of the entries. */
  predicate Selects(p: Payload) {
    var live := LivePosition(p.pipeline);
    live.Some? && p.hints == [] && |p.compare| == live.value + 2 && DistinctInRange(p.compare, |p.entries|)
  }

  predicate Admissible(p: Payload) {
    && Selects(p)
    && LiveLayout(Compared(p)[LivePosition(p.pipeline).value], Leftover(p))
    && (forall i :: 0 <= i < |p.compare| && i != LivePosition(p.pipeline).value ==> Compared(p)[i].meta == [])
  }

  function LiveOf(live: Entry, leftover: seq<Entry>): LiveCapture
    requires LiveLayout(live, leftover)
  {
    if leftover == [] then Vanilla(live.data)
    else if live.meta == ILLUMINATED then LightGuard(live.data, leftover[0].data, Illuminated)
    else LightGuard(leftover[0].data, live.data, Unilluminated)
  }

  /** The operation of an admissible payload: roles are positions in `compare`. */
  function OperationOf(p: Payload): Operation
    requires Admissible(p)
  {
    var c := Compared(p);
    if p.pipeline == PIPELINE_DEEPFACE then DeepFace(c[0].data, LiveOf(c[1], Leftover(p)), c[2].data)
    else GrayBadge(LiveOf(c[0], Leftover(p)), c[1].data)
  }

  // The adapter

  /** `Option::take` on one slot, by an index the client chose. */
  method Take(slots: array<Option<Entry>>, index: byte) returns (e: Option<Entry>)
    modifies slots
    ensures e == if index < slots.Length then old(slots[index]) else None
    ensures forall k :: 0 <= k < slots.Length ==> slots[k] == if k == index then None else old(slots[k])
  {
    if index >= slots.Length { return None; }
    e := slots[index];
    slots[index] := None;
  }

  /** Takes the first entry left, if any. */
  method TakeFirst(slots: array<Option<Entry>>) returns (e: Option<Entry>)
    modifies slots
    ensures e == if Remaining(old(slots[..])) == [] then None else Some(Remaining(old(slots[..]))[0])
    ensures Remaining(slots[..]) == if Remaining(old(slots[..])) == [] then [] else Remaining(old(slots[..]))[1..]
  {
    var i := 0;
    while i < slots.Length
      invariant 0 <= i <= slots.Length && slots[..] == old(slots[..])
      invariant Remaining(slots[..]) == Remaining(slots[i..])
    {
      if slots[i].Some? {
        ghost var before := slots[..];
        e := slots[i];
        slots[i] := None;
        TakingOneOut(before, i);
        assert slots[..] == before[i := None];
        return;
      }
      i := i + 1;
    }
    return None;
  }

  lemma {:induction false} TakingOneOut(s: seq<Option<Entry>>, i: nat)
    requires i < |s| && s[i].Some? && Remaining(s) == Remaining(s[i..])
    ensures Remaining(s) == [s[i].value] + Remaining(s[i := None])
  {
    assert s == s[..i] + s[i..];
    assert s[i := None] == s[..i] + ([None] + s[i + 1..]);
    RemainingAppend(s[..i], s[i..]);
    RemainingAppend(s[..i], [None] + s[i + 1..]);
    assert s[i..][1..] == s[i + 1..];
    assert ([None] + s[i + 1..])[1..] == s[i + 1..];
  }

  method AnyLeft(slots: array<Option<Entry>>) returns (any: bool)
    ensures any <==> Remaining(slots[..]) != []
  {
    var i := 0;
    while i < slots.Length
      invariant 0 <= i <= slots.Length
      invariant Remaining(slots[..]) == Remaining(slots[i..])
    {
      if slots[i].Some? { return true; }
      i := i + 1;
    }
    return false;
  }

  method LiveCaptureOf(live: Entry, partner: Option<Entry>) returns (r: Result<LiveCapture, FailureReason>)
    ensures var leftover := if partner.Some? then [partner.value] else [];
            r == if LiveLayout(live, leftover) then Ok(LiveOf(live, leftover)) else Err(UnsupportedPipeline)
    ensures r.Ok? && partner.None? ==> live.meta == [] && r.value == Vanilla(live.data)
    ensures r.Ok? && partner.Some? ==> r.value.LightGuard? && live.meta != partner.value.meta
    ensures r.Ok? && partner.Some? ==> (r.value.matchingFrame.Illuminated? <==> live.meta == ILLUMINATED)
    ensures r.Ok? && partner.Some? ==> forall e :: e in [live, partner.value] ==>
              && (e.meta == ILLUMINATED || e.meta == UNILLUMINATED)
              && e.data == if e.meta == ILLUMINATED then r.value.illuminated else r.value.unilluminated
  {
    MetasDiffer();
    if partner.None? {
      return if live.meta == [] then Ok(Vanilla(live.data)) else Err(UnsupportedPipeline);
    }
    if live.meta == ILLUMINATED && partner.value.meta == UNILLUMINATED {
      return Ok(LightGuard(live.data, partner.value.data, Illuminated));
    }
    if live.meta == UNILLUMINATED && partner.value.meta == ILLUMINATED {
      return Ok(LightGuard(partner.value.data, live.data, Unilluminated));
    }
    return Err(UnsupportedPipeline);
  }

  lemma MetasDiffer()
    ensures ILLUMINATED != UNILLUMINATED
  {}

  /** Takes the compared entries out of their slots, in `compare` order. */
  method TakeCompared(p: Payload, slots: array<Option<Entry>>) returns (r: Option<seq<Entry>>)
    requires slots[..] == SlotsAfter(p.entries, [])
    modifies slots
    ensures r.Some? <==> DistinctInRange(p.compare, |p.entries|)
    ensures r.Some? ==> r.value == Compared(p) && slots[..] == SlotsAfter(p.entries, p.compare)
  {
    var compared: seq<Entry> := [];
    for i := 0 to |p.compare|
      invariant DistinctInRange(p.compare[..i], |p.entries|)
      invariant slots[..] == SlotsAfter(p.entries, p.compare[..i])
      invariant |compared| == i && forall j :: 0 <= j < i ==> compared[j] == p.entries[p.compare[j]]
    {
      var index := p.compare[i];
      assert p.compare[..i + 1] == p.compare[..i] + [index];
      var e := Take(slots, index);
      if e.None? {
        TakenTwice(p.compare, i, |p.entries|);
        return None;
      }
      compared := compared + [e.value];
    }
    assert p.compare[..|p.compare|] == p.compare;
    r := Some(compared);
  }

  /** Maps a payload onto an operation, exactly when it is admissible. */
  method OperationFor(p: Payload) returns (r: Result<Operation, FailureReason>)
    ensures r == if Admissible(p) then Ok(OperationOf(p)) else Err(UnsupportedPipeline)
    ensures r.Ok? ==> Selects(p) && Places(p, r.value)
  {
    var position := LivePosition(p.pipeline);
    if position.None? { return Err(UnsupportedPipeline); }
    if |p.compare| != position.value + 2 || p.hints != [] { return Err(UnsupportedPipeline); }

    var slots := new Option<Entry>[|p.entries|](k requires 0 <= k < |p.entries| => Some(p.entries[k]));
    assert slots[..] == SlotsAfter(p.entries, []);
    var taken := TakeCompared(p, slots);
    if taken.None? { return Err(UnsupportedPipeline); }
    var compared := taken.value;
    var partner := TakeFirst(slots);
    var more := AnyLeft(slots);
    if more { return Err(UnsupportedPipeline); }
    assert Leftover(p) == if partner.Some? then [partner.value] else [];
    r := AssignRoles(p, compared, partner);
  }

  /** Gives the compared entries their roles, popping them off from the last position. */
  method AssignRoles(p: Payload, entries: seq<Entry>, partner: Option<Entry>)
    returns (r: Result<Operation, FailureReason>)
    requires Selects(p) && entries == Compared(p)
    requires Leftover(p) == if partner.Some? then [partner.value] else []
    ensures r == if Admissible(p) then Ok(OperationOf(p)) else Err(UnsupportedPipeline)
    ensures r.Ok? ==> Places(p, r.value)
  {
    AdmissibleByRole(p);
    if Admissible(p) { OperationPlacesEntries(p, OperationOf(p)); }
    var compared := entries;
    var challenge := compared[|compared| - 1];
    compared := compared[..|compared| - 1];
    var live := LiveCaptureOf(compared[|compared| - 1], partner);
    compared := compared[..|compared| - 1];
    if live.Err? || challenge.meta != [] { return Err(UnsupportedPipeline); }
    if compared == [] { return Ok(GrayBadge(live.value, challenge.data)); }
    var credential := compared[|compared| - 1];
    if credential.meta != [] { return Err(UnsupportedPipeline); }
    r := Ok(DeepFace(credential.data, live.value, challenge.data));
  }

  /** Admissible, said of the roles: the challenge and the credential carry no metadata, the live
      capture has one of its layouts. */
  lemma AdmissibleByRole(p: Payload)
    requires Selects(p)
    ensures var c := Compared(p);
      if p.pipeline == PIPELINE_DEEPFACE then
        |c| == 3 && (Admissible(p) <==> LiveLayout(c[1], Leftover(p)) && c[2].meta == [] && c[0].meta == [])
      else
        |c| == 2 && (Admissible(p) <==> LiveLayout(c[0], Leftover(p)) && c[1].meta == [])
  {}

  /** An empty slot means the index is out of range or was used before. */
  lemma TakenTwice(compare: seq<byte>, i: nat, count: nat)
    requires i < |compare| && (compare[i] >= count || compare[i] in compare[..i])
    ensures !DistinctInRange(compare, count)
  {}

  lemma {:induction false} RemainingAppend(a: seq<Option<Entry>>, b: seq<Option<Entry>>)
    ensures Remaining(a + b) == Remaining(a) + Remaining(b)
  {
    if a == [] {
      assert a + b == b;
    } else {
      RemainingAppend(a[1..], b);
      assert (a + b)[1..] == a[1..] + b && (a + b)[0] == a[0];
      Associative(match a[0] case Some(e) => [e] case None => [], Remaining(a[1..]), Remaining(b));
    }
  }

  // Nothing is lost, nothing is used twice

  function Data(entries: seq<Entry>): (d: seq<seq<byte>>)
    ensures |d| == |entries|
  {
    seq(|entries|, i requires 0 <= i < |entries| => entries[i].data)
  }

  function LiveImages(live: LiveCapture): seq<seq<byte>> {
    match live
    case Vanilla(image) => [image]
    case LightGuard(lit, dark, _) => [lit, dark]
  }

  /** Every image an operation carries. */
  function Images(op: Operation): seq<seq<byte>> {
    match op
    case DeepFace(credential, live, challenge) => [credential] + LiveImages(live) + [challenge]
    case GrayBadge(live, challenge) => LiveImages(live) + [challenge]
  }

  /** The frame of the live capture that is compared with the other images. */
  function MatchedFrame(live: LiveCapture): seq<byte> {
    match live
    case Vanilla(image) => image
    case LightGuard(lit, dark, frame) => if frame == Illuminated then lit else dark
  }

  /** The images the engine compares, in role order. */
  function ComparedImages(op: Operation): seq<seq<byte>> {
    match op
    case DeepFace(credential, live, challenge) => [credential, MatchedFrame(live), challenge]
    case GrayBadge(live, challenge) => [MatchedFrame(live), challenge]
  }

  lemma {:induction false} RemainingOfFull(entries: seq<Entry>)
    ensures Remaining(SlotsAfter(entries, [])) == entries
  {
    if entries != [] {
      RemainingOfFull(entries[1..]);
      assert SlotsAfter(entries, [])[1..] == SlotsAfter(entries[1..], []);
    }
  }

  lemma RemainingWithout(s: seq<Option<Entry>>, i: nat)
    requires i < |s| && s[i].Some?
    ensures multiset(Remaining(s)) == multiset(Remaining(s[i := None])) + multiset{s[i].value}
    ensures |Remaining(s)| == |Remaining(s[i := None])| + 1
  {
    assert s == s[..i] + ([s[i]] + s[i + 1..]);
    assert s[i := None] == s[..i] + ([None] + s[i + 1..]);
    RemainingAppend(s[..i], [s[i]] + s[i + 1..]);
    RemainingAppend(s[..i], [None] + s[i + 1..]);
    assert ([s[i]] + s[i + 1..])[1..] == ([None] + s[i + 1..])[1..] == s[i + 1..];
  }

  /** The first `n` compared entries. */
  function Taken(entries: seq<Entry>, compare: seq<byte>, n: nat): (t: seq<Entry>)
    requires DistinctInRange(compare, |entries|) && n <= |compare|
  {
    if n == 0 then [] else Taken(entries, compare, n - 1) + [entries[compare[n - 1]]]
  }

  lemma {:induction false} TakenAt(entries: seq<Entry>, compare: seq<byte>, n: nat)
    requires DistinctInRange(compare, |entries|) && n <= |compare|
    ensures |Taken(entries, compare, n)| == n
    ensures forall i :: 0 <= i < n ==> Taken(entries, compare, n)[i] == entries[compare[i]]
  {
    if n > 0 { TakenAt(entries, compare, n - 1); }
  }

  lemma SlotTaken(entries: seq<Entry>, compare: seq<byte>, n: nat)
    requires DistinctInRange(compare, |entries|) && n < |compare|
    ensures var before := SlotsAfter(entries, compare[..n]);
            before[compare[n]] == Some(entries[compare[n]])
            && SlotsAfter(entries, compare[..n + 1]) == before[compare[n] := None]
  {}

  /** Taken and remaining entries add up to all entries. */
  predicate Balanced(entries: seq<Entry>, taken: seq<Entry>, slots: seq<Option<Entry>>) {
    multiset(entries) == multiset(taken) + multiset(Remaining(slots)) && |entries| == |taken| + |Remaining(slots)|
  }

  lemma TakingKeepsBalance(entries: seq<Entry>, taken: seq<Entry>, slots: seq<Option<Entry>>, i: nat)
    requires Balanced(entries, taken, slots) && i < |slots| && slots[i].Some?
    ensures Balanced(entries, taken + [slots[i].value], slots[i := None])
  {
    RemainingWithout(slots, i);
  }

  lemma NothingTaken(entries: seq<Entry>, compare: seq<byte>)
    requires DistinctInRange(compare, |entries|)
    ensures Balanced(entries, Taken(entries, compare, 0), SlotsAfter(entries, compare[..0]))
  {
    RemainingOfFull(entries);
    assert compare[..0] == [];
  }

  lemma {:induction false} Conserved(entries: seq<Entry>, compare: seq<byte>, n: nat)
    requires DistinctInRange(compare, |entries|) && n <= |compare|
    ensures Balanced(entries, Taken(entries, compare, n), SlotsAfter(entries, compare[..n]))
  {
    if n == 0 {
      NothingTaken(entries, compare);
    } else {
      Conserved(entries, compare, n - 1);
      OneMoreTaken(entries, compare, n);
    }
  }

  lemma OneMoreTaken(entries: seq<Entry>, compare: seq<byte>, n: nat)
    requires DistinctInRange(compare, |entries|) && 0 < n <= |compare|
    requires Balanced(entries, Taken(entries, compare, n - 1), SlotsAfter(entries, compare[..n - 1]))
    ensures Balanced(entries, Taken(entries, compare, n), SlotsAfter(entries, compare[..n]))
  {
    SlotTaken(entries, compare, n - 1);
    TakingKeepsBalance(entries, Taken(entries, compare, n - 1), SlotsAfter(entries, compare[..n - 1]), compare[n - 1]);
  }

  /** The compared entries and the left-over ones are together all entries, each exactly once. */
  lemma EntriesConserved(p: Payload)
    requires DistinctInRange(p.compare, |p.entries|)
    ensures multiset(p.entries) == multiset(Compared(p)) + multiset(Leftover(p))
    ensures |Leftover(p)| == |p.entries| - |p.compare|
  {
    Conserved(p.entries, p.compare, |p.compare|);
    TakenAt(p.entries, p.compare, |p.compare|);
    assert p.compare[..|p.compare|] == p.compare;
    assert Taken(p.entries, p.compare, |p.compare|) == Compared(p);
  }

  lemma DataWithout(b: seq<Entry>, j: nat)
    requires j < |b|
    ensures multiset(b) == multiset(b[..j] + b[j + 1..]) + multiset{b[j]}
    ensures multiset(Data(b)) == multiset(Data(b[..j] + b[j + 1..])) + multiset{b[j].data}
  {
    assert b == b[..j] + [b[j]] + b[j + 1..];
    assert Data(b) == Data(b[..j]) + [b[j].data] + Data(b[j + 1..]);
    assert Data(b[..j] + b[j + 1..]) == Data(b[..j]) + Data(b[j + 1..]);
  }

  lemma {:induction false} SameEntriesSameData(a: seq<Entry>, b: seq<Entry>)
    requires multiset(a) == multiset(b)
    ensures multiset(Data(a)) == multiset(Data(b))
    decreases |a|
  {
    if a == [] {
      assert |multiset(b)| == |multiset(a)| == 0;
    } else {
      assert a[0] in multiset(b);
      var j :| 0 <= j < |b| && b[j] == a[0];
      DataWithout(a, 0);
      DataWithout(b, j);
      var a', b' := a[..0] + a[1..], b[..j] + b[j + 1..];
      assert multiset(a') == multiset(a) - multiset{a[0]};
      assert multiset(b') == multiset(b) - multiset{a[0]};
      SameEntriesSameData(a', b');
    }
  }

  /** The images of an operation are a permutation of all entry data: at most one entry is left
      over, and it is the other frame of a LightGuard capture. */
  lemma ImagesArePermutation(p: Payload)
    requires Admissible(p)
    ensures multiset(Images(OperationOf(p))) == multiset(Data(p.entries))
    ensures |p.entries| - |p.compare| <= 1
    ensures OperationOf(p).live.LightGuard? <==> |p.entries| == |p.compare| + 1
  {
    EntriesConserved(p);
    SameEntriesSameData(p.entries, Compared(p) + Leftover(p));
    DataAppend(Compared(p), Leftover(p));
    ImagesOfParts(p);
  }

  lemma DataAppend(a: seq<Entry>, b: seq<Entry>)
    ensures Data(a + b) == Data(a) + Data(b)
    ensures multiset(Data(a + b)) == multiset(Data(a)) + multiset(Data(b))
  {
    assert Data(a + b) == Data(a) + Data(b);
  }

  lemma LiveImagesOfParts(live: Entry, leftover: seq<Entry>)
    requires LiveLayout(live, leftover)
    ensures multiset(LiveImages(LiveOf(live, leftover))) == multiset{live.data} + multiset(Data(leftover))
  {}

  lemma BagAround(images: seq<seq<byte>>, data: seq<seq<byte>>, at: nat, live: seq<seq<byte>>, extra: seq<seq<byte>>)
    requires |data| == at + 2 && images == data[..at] + live + [data[at + 1]]
    requires multiset(live) == multiset{data[at]} + multiset(extra)
    ensures multiset(images) == multiset(data) + multiset(extra)
  {
    assert data == data[..at] + [data[at], data[at + 1]];
  }

  lemma ImagesOfParts(p: Payload)
    requires Admissible(p)
    ensures multiset(Images(OperationOf(p))) == multiset(Data(Compared(p))) + multiset(Data(Leftover(p)))
  {
    var c, l, at := Compared(p), Leftover(p), LivePosition(p.pipeline).value;
    var live := LiveImages(LiveOf(c[at], l));
    LiveImagesOfParts(c[at], l);
    ImagesInOrder(p);
    BagAround(Images(OperationOf(p)), Data(c), at, live, Data(l));
  }

  lemma ImagesInOrder(p: Payload)
    requires Admissible(p)
    ensures var c, at := Compared(p), LivePosition(p.pipeline).value;
            Images(OperationOf(p)) == Data(c)[..at] + LiveImages(LiveOf(c[at], Leftover(p))) + [c[at + 1].data]
  {
    var c := Compared(p);
    if p.pipeline == PIPELINE_DEEPFACE {
      assert Data(c)[..1] == [c[0].data];
    } else {
      assert Data(c)[..0] == [];
    }
  }

  /** The engine compares exactly the images `compare` selects, in that order, taking the matching
      frame of a LightGuard capture as the live image. */
  lemma ComparedImagesAreSelected(p: Payload)
    requires Admissible(p)
    ensures ComparedImages(OperationOf(p)) == Data(Compared(p))
  {}

  // Where each entry goes

  /** No entry carries metadata, or one frame of a LightGuard pair is the compared live entry, the other
      is the one entry that is not compared, and no other entry carries metadata. */
  predicate LayoutFits(entries: seq<Entry>, compare: seq<byte>, live: nat)
    requires live < |entries|
  {
    if |entries| == |compare| then forall k :: 0 <= k < |entries| ==> entries[k].meta == []
    else
      && |entries| == |compare| + 1
      && exists other :: 0 <= other < |entries| && IsPartner(entries, compare, live, other)
  }

  predicate IsPartner(entries: seq<Entry>, compare: seq<byte>, live: nat, other: nat)
    requires live < |entries| && other < |entries|
  {
    && other !in compare
    && ((entries[live].meta == ILLUMINATED && entries[other].meta == UNILLUMINATED)
        || (entries[live].meta == UNILLUMINATED && entries[other].meta == ILLUMINATED))
    && forall k :: 0 <= k < |entries| && k != live && k != other ==> entries[k].meta == []
  }

  /** Admissible, said of the entries alone. */
  lemma AdmissibleIff(p: Payload)
    ensures Admissible(p) <==>
              && (p.pipeline == 1 || p.pipeline == 2) && p.hints == []
              && |p.compare| == (if p.pipeline == 1 then 3 else 2)
              && DistinctInRange(p.compare, |p.entries|)
              && LayoutFits(p.entries, p.compare, p.compare[|p.compare| - 2])
  {
    if Selects(p) {
      EntriesConserved(p);
      AdmissibleByRole(p);
      if |p.entries| == |p.compare| {
        AllCompared(p);
      } else if |p.entries| == |p.compare| + 1 {
        var other := TheOther(p);
        OneLeftFits(p, other);
      }
    }
  }

  lemma OneLeftFits(p: Payload, other: nat)
    requires Selects(p) && other < |p.entries| && other !in p.compare && Leftover(p) == [p.entries[other]]
    requires |p.entries| == |p.compare| + 1
    ensures Admissible(p) <==> LayoutFits(p.entries, p.compare, p.compare[|p.compare| - 2])
  {
    var live := p.compare[|p.compare| - 2];
    OtherEntries(p, other);
    AdmissibleByRole(p);
    assert Compared(p)[|p.compare| - 2] == p.entries[live];
    if Admissible(p) {
      forall k | 0 <= k < |p.entries| && k != live && k != other ensures p.entries[k].meta == [] {
        var i :| 0 <= i < |p.compare| && p.compare[i] == k;
        assert Compared(p)[i].meta == [];
      }
      assert IsPartner(p.entries, p.compare, live, other);
    }
    if LayoutFits(p.entries, p.compare, live) {
      var o :| 0 <= o < |p.entries| && IsPartner(p.entries, p.compare, live, o);
      assert o == other;
    }
  }

  lemma {:induction false} RemainingEmptyIff(s: seq<Option<Entry>>)
    ensures Remaining(s) == [] <==> forall k :: 0 <= k < |s| ==> s[k].None?
  {
    if s != [] {
      RemainingEmptyIff(s[1..]);
      assert forall k :: 0 < k < |s| ==> s[k] == s[1..][k - 1];
      if s[0].None? && (forall k :: 0 <= k < |s| ==> s[k].None?) {
        forall k | 0 <= k < |s[1..]| ensures s[1..][k].None? { assert s[k + 1].None?; }
      }
    }
  }

  lemma {:induction false} RemainingHas(s: seq<Option<Entry>>, k: nat)
    requires k < |s| && s[k].Some?
    ensures s[k].value in Remaining(s)
  {
    if k > 0 {
      RemainingHas(s[1..], k - 1);
    }
  }

  /** Without a left-over entry every entry is compared. */
  lemma AllCompared(p: Payload)
    requires DistinctInRange(p.compare, |p.entries|) && Leftover(p) == []
    ensures forall k :: 0 <= k < |p.entries| ==> exists i :: 0 <= i < |p.compare| && Compared(p)[i] == p.entries[k]
  {
    RemainingEmptyIff(SlotsAfter(p.entries, p.compare));
    forall k | 0 <= k < |p.entries| ensures exists i :: 0 <= i < |p.compare| && Compared(p)[i] == p.entries[k] {
      assert SlotsAfter(p.entries, p.compare)[k].None?;
      var i :| 0 <= i < |p.compare| && p.compare[i] == k;
      assert Compared(p)[i] == p.entries[k];
    }
  }

  /** The one entry that is not compared, when there is one. */
  lemma TheOther(p: Payload) returns (other: nat)
    requires DistinctInRange(p.compare, |p.entries|) && |Leftover(p)| == 1
    ensures other < |p.entries| && other !in p.compare && Leftover(p) == [p.entries[other]]
  {
    RemainingEmptyIff(SlotsAfter(p.entries, p.compare));
    other :| 0 <= other < |p.entries| && SlotsAfter(p.entries, p.compare)[other].Some?;
    RemainingHas(SlotsAfter(p.entries, p.compare), other);
  }

  /** Every entry but the left-over one is compared. */
  lemma OtherEntries(p: Payload, other: nat)
    requires DistinctInRange(p.compare, |p.entries|) && |Leftover(p)| == 1
    requires other < |p.entries| && other !in p.compare
    ensures forall k :: 0 <= k < |p.entries| && k != other ==> k in p.compare
  {
    var slots := SlotsAfter(p.entries, p.compare);
    RemainingWithout(slots, other);
    RemainingEmptyIff(slots[other := None]);
    forall k | 0 <= k < |p.entries| && k != other ensures k in p.compare {
      assert slots[other := None][k].None?;
    }
  }

  /** Each role holds the data of the entry at its place in `compare`; a live capture with metadata holds
      the lit frame as lit, the unlit one as unlit, and is matched by the compared one. */
  predicate Places(p: Payload, op: Operation)
    requires Selects(p)
  {
    && (op.DeepFace? <==> p.pipeline == PIPELINE_DEEPFACE)
    && (op.DeepFace? ==> op.credential == p.entries[p.compare[0]].data)
    && op.challenge == p.entries[p.compare[|p.compare| - 1]].data
    && PlacesLive(p.entries, p.compare[|p.compare| - 2], op.live)
  }

  predicate PlacesLive(entries: seq<Entry>, live: nat, capture: LiveCapture)
    requires live < |entries|
  {
    if entries[live].meta == [] then capture == Vanilla(entries[live].data)
    else
      && capture.LightGuard?
      && (forall k :: 0 <= k < |entries| && entries[k].meta == ILLUMINATED ==> capture.illuminated == entries[k].data)
      && (forall k :: 0 <= k < |entries| && entries[k].meta == UNILLUMINATED ==> capture.unilluminated == entries[k].data)
      && (capture.matchingFrame.Illuminated? <==> entries[live].meta == ILLUMINATED)
  }

  /** The operation of an admissible payload is the one that puts every entry in its place. */
  lemma OperationPlacesEntries(p: Payload, op: Operation)
    requires Admissible(p)
    ensures Places(p, op) <==> op == OperationOf(p)
  {
    AdmissibleIff(p);
    EntriesConserved(p);
    MetasDiffer();
    var entries, live := p.entries, p.compare[|p.compare| - 2];
    assert Compared(p)[|p.compare| - 2] == entries[live];
    if |entries| == |p.compare| + 1 {
      var other :| 0 <= other < |entries| && IsPartner(entries, p.compare, live, other);
      var it := TheOther(p);
      OtherEntries(p, it);
      assert it == other;
      PairIsPlaced(entries, p.compare, live, other, op.live);
    }
  }

  lemma PairIsPlaced(entries: seq<Entry>, compare: seq<byte>, live: nat, other: nat, capture: LiveCapture)
    requires live < |entries| && other < |entries| && IsPartner(entries, compare, live, other)
    ensures LiveLayout(entries[live], [entries[other]])
    ensures PlacesLive(entries, live, capture) <==> capture == LiveOf(entries[live], [entries[other]])
  {
    MetasDiffer();
  }

  // Score policy

  /** A float score: rounding is not the point, being a number in range is. */
  datatype Score = NotFinite | Finite(value: real)

  function Threshold(matchStrictness: nat): Result<real, FailureReason> {
    if matchStrictness == 1 then Ok(0.85)
    else if matchStrictness == 2 then Ok(0.9)
    else if matchStrictness == 3 then Ok(0.95)
    else Err(UnsupportedMatchStrictness)
  }

  predicate InRange(score: Score) { score.Finite? && 0.0 <= score.value <= 1.0 }

  predicate Passes(score: Score, threshold: real) { InRange(score) && score.value >= threshold }

  /** Why one comparison fails, if it does. */
  function CheckScore(score: Score, threshold: real, role: ComparisonRole): (failure: Option<FailureReason>)
    ensures failure.None? <==> Passes(score, threshold)
    ensures failure == Some(Internal) <==> !InRange(score)
    ensures failure == Some(MatchBelowThreshold(role)) <==> InRange(score) && score.value < threshold
  {
    if score == NotFinite || !(0.0 <= score.value <= 1.0) then Some(Internal)
    else if score.value < threshold then Some(MatchBelowThreshold(role))
    else None
  }

  /** The first comparison that fails, in role order. */
  function FirstFailure(scores: seq<(Score, ComparisonRole)>, threshold: real): Option<FailureReason> {
    if scores == [] then None
    else
      var failure := CheckScore(scores[0].0, threshold, scores[0].1);
      if failure.Some? then failure else FirstFailure(scores[1..], threshold)
  }

  lemma {:induction false} NoFailureIff(scores: seq<(Score, ComparisonRole)>, threshold: real)
    ensures FirstFailure(scores, threshold).None? <==> forall i :: 0 <= i < |scores| ==> Passes(scores[i].0, threshold)
  {
    if scores != [] {
      NoFailureIff(scores[1..], threshold);
      assert forall i :: 0 <= i < |scores| - 1 ==> scores[1..][i] == scores[i + 1];
      if forall i :: 0 <= i < |scores| ==> Passes(scores[i].0, threshold) {
        assert Passes(scores[0].0, threshold);
        forall i | 0 <= i < |scores[1..]| ensures Passes(scores[1..][i].0, threshold) {
          assert Passes(scores[i + 1].0, threshold);
        }
      }
    }
  }

  /** The failure is that of the first comparison that does not pass, under its own role. */
  lemma {:induction false} FirstFailureIsFirst(scores: seq<(Score, ComparisonRole)>, threshold: real)
    ensures match FirstFailure(scores, threshold)
            case None => forall i :: 0 <= i < |scores| ==> Passes(scores[i].0, threshold)
            case Some(reason) =>
              exists i :: 0 <= i < |scores| && !Passes(scores[i].0, threshold)
                && (forall j :: 0 <= j < i ==> Passes(scores[j].0, threshold))
                && reason == if InRange(scores[i].0) then MatchBelowThreshold(scores[i].1) else Internal
  {
    NoFailureIff(scores, threshold);
    if scores != [] && Passes(scores[0].0, threshold) {
      var rest := scores[1..];
      FirstFailureIsFirst(rest, threshold);
      if FirstFailure(scores, threshold).Some? {
        var i :| 0 <= i < |rest| && !Passes(rest[i].0, threshold)
          && (forall j :: 0 <= j < i ==> Passes(rest[j].0, threshold))
          && FirstFailure(rest, threshold).value == if InRange(rest[i].0) then MatchBelowThreshold(rest[i].1) else Internal;
        assert scores[i + 1] == rest[i];
        assert forall j :: 0 < j < i + 1 ==> scores[j] == rest[j - 1];
      }
    }
  }

  /** Three levels, each stricter by 0.05, all within the range of a score. */
  lemma ThresholdLevels(level: nat)
    ensures Threshold(level).Ok? <==> 1 <= level <= 3
    ensures Threshold(level).Ok? ==> Threshold(level).value == 0.8 + 0.05 * (level as real)
    ensures Threshold(level).Err? ==> Threshold(level).error == UnsupportedMatchStrictness
  {}

  /** An internal failure means a score out of range. */
  lemma {:induction false} InRangeNeverInternal(scores: seq<(Score, ComparisonRole)>, threshold: real)
    requires forall i :: 0 <= i < |scores| ==> InRange(scores[i].0)
    ensures FirstFailure(scores, threshold) != Some(Internal)
  {
    if scores != [] { InRangeNeverInternal(scores[1..], threshold); }
  }
}
