/** The enclave's client of its sandboxed worker: what may be asked, and which replies are believed. */
module SandboxClient {
  import opened Bytes
  import opened SealedTypes
  import opened Wrappers
  import Pipe = Pipeline
  import P = MatchProtocol

  type Score = Pipe.Score

  const USIZE_LIMIT: nat := U64_LIMIT

  type usize = n: nat | n < USIZE_LIMIT

  // The worker's messages

  datatype MatchingFrame = LitFrame | UnlitFrame | UnknownFrame

  datatype Source =
    | Orb(data: seq<byte>) | VanillaSelfie(data: seq<byte>) | Rtms(data: seq<byte>)
    | LightGuardFrames(illuminated: seq<byte>, unilluminated: seq<byte>, matchingFrame: MatchingFrame)

  datatype FaceImage = FaceImage(source: Option<Source>)

  datatype Operation =
    | DeepFace(credential: Option<FaceImage>, live: Option<FaceImage>, challenge: Option<FaceImage>)
    | GrayBadge(live: Option<FaceImage>, challenge: Option<FaceImage>)
    | Embedding

  datatype FaceFailure = FaceFailure(isInternal: bool, reason: FailureReason, report: Option<Report>)

  datatype Kind = Face(failure: FaceFailure) | OtherKind

  datatype Outcome =
    | DeepFaceResult(
        credentialLive: Option<Score>, credentialChallenge: Option<Score>, liveChallenge: Option<Score>,
        deepReport: Option<Report>)
    | GrayBadgeResult(grayScore: Option<Score>, grayReport: Option<Report>)
    | FailureOutcome(kind: Option<Kind>)
    | OtherOutcome

  datatype Response = Response(requestId: nat, outcome: Option<Outcome>)

  datatype Rejection = InvalidImages | AnalysisFailed(failure: FaceFailure)

  datatype Violation = Protocol | InvalidScore | WrongResponse | UnsupportedOperation | RequestIdExhausted

  // Limits

  /** Byte limits of the worker protocol, which the enclave's own limits must respect. */
  datatype ProtocolLimits = ProtocolLimits(maxFrameBytes: usize, maxImageBytes: usize, maxTotalImageBytes: usize)

  datatype FaceLimits = FaceLimits(maxRequestBytes: usize, maxImageBytes: usize)

  function Validate(l: FaceLimits, p: ProtocolLimits): bool {
    !(l.maxImageBytes == 0 || l.maxImageBytes > l.maxRequestBytes || l.maxRequestBytes >= U32_LIMIT
      || l.maxRequestBytes > p.maxFrameBytes || l.maxImageBytes > p.maxImageBytes)
  }

  /** Limits are accepted exactly when an image may hold something and fit a request, a request fits a
      32-bit length, and neither exceeds what the worker protocol allows. */
  lemma ValidateIff(l: FaceLimits, p: ProtocolLimits)
    ensures Validate(l, p) <==>
              && 0 < l.maxImageBytes <= l.maxRequestBytes < 0x1_0000_0000
              && l.maxRequestBytes <= p.maxFrameBytes && l.maxImageBytes <= p.maxImageBytes
  {}

  // Which images may be sent

  function ImageFields(op: Operation): seq<Option<FaceImage>> {
    match op
    case DeepFace(credential, live, challenge) => [credential, live, challenge]
    case GrayBadge(live, challenge) => [live, challenge]
    case Embedding => []
  }

  function SourceImages(s: Source): seq<seq<byte>> {
    match s
    case LightGuardFrames(lit, dark, _) => [lit, dark]
    case _ => [s.data]
  }

  predicate HasSource(image: Option<FaceImage>) { image.Some? && image.value.source.Some? }

  predicate FrameKnown(s: Source) { s.LightGuardFrames? ==> !s.matchingFrame.UnknownFrame? }

  predicate ImageFits(l: FaceLimits, data: seq<byte>) { 0 < |data| <= l.maxImageBytes }

  function Total(images: seq<seq<byte>>): nat {
    if images == [] then 0 else Total(images[..|images| - 1]) + |images[|images| - 1]|
  }

  /** The images a field contributes. */
  function FieldImages(field: Option<FaceImage>): seq<seq<byte>> {
    if HasSource(field) then SourceImages(field.value.source.value) else []
  }

  /** All images of the given fields, in order. */
  function AllImages(fields: seq<Option<FaceImage>>): seq<seq<byte>> {
    if fields == [] then []
    else AllImages(fields[..|fields| - 1])
         + FieldImages(fields[|fields| - 1])
  }

  predicate FieldFits(l: FaceLimits, field: Option<FaceImage>) {
    && HasSource(field) && FrameKnown(field.value.source.value)
    && var images := SourceImages(field.value.source.value);
    forall i :: 0 <= i < |images| ==> ImageFits(l, images[i])
  }

  predicate FieldsFit(l: FaceLimits, fields: seq<Option<FaceImage>>) {
    forall i :: 0 <= i < |fields| ==> FieldFits(l, fields[i])
  }

  /** Every image is there, of a known kind and within its limit, and together they fit. */
  predicate Sendable(l: FaceLimits, p: ProtocolLimits, op: Operation) {
    && !op.Embedding? && FieldsFit(l, ImageFields(op))
    && Total(AllImages(ImageFields(op))) <= l.maxRequestBytes
    && Total(AllImages(ImageFields(op))) <= p.maxTotalImageBytes
  }

  lemma {:induction false} TotalAppend(a: seq<seq<byte>>, b: seq<seq<byte>>)
    ensures Total(a + b) == Total(a) + Total(b)
  {
    if b == [] {
      assert a + b == a;
    } else {
      TotalAppend(a, b[..|b| - 1]);
      assert (a + b)[..|a + b| - 1] == a + b[..|b| - 1];
    }
  }

  /** Totals only grow with further fields, so an overflowing one is over every limit already. */
  lemma {:induction false} TotalGrows(fields: seq<Option<FaceImage>>, i: nat)
    requires i <= |fields|
    ensures Total(AllImages(fields[..i])) <= Total(AllImages(fields))
  {
    if i == |fields| {
      assert fields[..i] == fields;
    } else {
      TotalGrows(fields[..|fields| - 1], i);
      assert fields[..|fields| - 1][..i] == fields[..i];
      TotalAppend(AllImages(fields[..|fields| - 1]), FieldImages(fields[|fields| - 1]));
    }
  }

  /** Adds up one field's images with checked additions; None when one does not fit. */
  method AddImages(l: FaceLimits, images: seq<seq<byte>>, before: usize) returns (total: Option<usize>)
    ensures total.Some? <==>
              before + Total(images) < USIZE_LIMIT && forall i :: 0 <= i < |images| ==> ImageFits(l, images[i])
    ensures total.Some? ==> total.value == before + Total(images)
  {
    var sum: usize := before;
    for i := 0 to |images|
      invariant forall j :: 0 <= j < i ==> ImageFits(l, images[j])
      invariant sum == before + Total(images[..i])
    {
      assert images[..i + 1][..i] == images[..i];
      TotalPrefix(images, i + 1);
      if |images[i]| == 0 || |images[i]| > l.maxImageBytes { return None; }
      if sum + |images[i]| >= USIZE_LIMIT { return None; }
      sum := sum + |images[i]|;
    }
    assert images[..|images|] == images;
    return Some(sum);
  }

  lemma {:induction false} TotalPrefix(images: seq<seq<byte>>, i: nat)
    requires i <= |images|
    ensures Total(images[..i]) <= Total(images)
  {
    TotalAppend(images[..i], images[i..]);
    assert images[..i] + images[i..] == images;
  }

  method AddField(l: FaceLimits, field: Option<FaceImage>, before: usize) returns (total: Option<usize>)
    ensures total.Some? <==> FieldFits(l, field) && before + Total(FieldImages(field)) < USIZE_LIMIT
    ensures total.Some? ==> total.value == before + Total(FieldImages(field))
  {
    if !HasSource(field) { return None; }
    if !FrameKnown(field.value.source.value) { return None; }
    total := AddImages(l, SourceImages(field.value.source.value), before);
  }

  lemma LastField(fields: seq<Option<FaceImage>>)
    requires fields != []
    ensures Total(AllImages(fields))
         == Total(AllImages(fields[..|fields| - 1])) + Total(FieldImages(fields[|fields| - 1]))
  {
    TotalAppend(AllImages(fields[..|fields| - 1]), FieldImages(fields[|fields| - 1]));
  }

  lemma OneMoreField(fields: seq<Option<FaceImage>>, i: nat)
    requires i < |fields|
    ensures Total(AllImages(fields[..i + 1])) == Total(AllImages(fields[..i])) + Total(FieldImages(fields[i]))
  {
    var upTo := fields[..i + 1];
    assert upTo[..i] == fields[..i];
    LastField(upTo);
  }

  lemma OneMoreFits(l: FaceLimits, fields: seq<Option<FaceImage>>, i: nat)
    requires i < |fields|
    ensures FieldsFit(l, fields[..i + 1]) <==> FieldsFit(l, fields[..i]) && FieldFits(l, fields[i])
    ensures FieldsFit(l, fields) ==> FieldsFit(l, fields[..i + 1])
  {}

  /** Adds up every image of every field; None when one does not fit or the sum overflows. */
  method AddFields(l: FaceLimits, fields: seq<Option<FaceImage>>) returns (total: Option<usize>)
    ensures total.Some? <==> FieldsFit(l, fields) && Total(AllImages(fields)) < USIZE_LIMIT
    ensures total.Some? ==> total.value == Total(AllImages(fields))
  {
    var sum: usize := 0;
    for i := 0 to |fields|
      invariant FieldsFit(l, fields[..i])
      invariant sum == Total(AllImages(fields[..i]))
    {
      OneMoreField(fields, i);
      OneMoreFits(l, fields, i);
      TotalGrows(fields, i + 1);
      var added := AddField(l, fields[i], sum);
      if added.None? { return None; }
      sum := added.value;
    }
    assert fields[..|fields|] == fields;
    return Some(sum);
  }

  method ValidateImages(l: FaceLimits, p: ProtocolLimits, op: Operation) returns (r: Result<(), Rejection>)
    ensures r == if Sendable(l, p, op) then Ok(()) else Err(InvalidImages)
  {
    if op.Embedding? { return Err(InvalidImages); }
    var total := AddFields(l, ImageFields(op));
    if total.None? { return Err(InvalidImages); }
    return if total.value > l.maxRequestBytes || total.value > p.maxTotalImageBytes then Err(InvalidImages) else Ok(());
  }

  /** Under valid limits whatever is sent respects the worker protocol's own bounds. */
  lemma SentFitsProtocol(l: FaceLimits, p: ProtocolLimits, op: Operation)
    requires Validate(l, p) && Sendable(l, p, op)
    ensures Total(AllImages(ImageFields(op))) <= p.maxFrameBytes && Total(AllImages(ImageFields(op))) < U32_LIMIT
    ensures forall image :: image in AllImages(ImageFields(op)) ==> 0 < |image| <= p.maxImageBytes
  {
    ImagesFit(l, ImageFields(op));
  }

  /** Sendable, said of the images: every field is there with a source of a known kind, every image holds
      something and is within its limit, and all together are within both totals. */
  lemma SendableIff(l: FaceLimits, p: ProtocolLimits, op: Operation)
    ensures var fields := ImageFields(op);
      Sendable(l, p, op) <==>
        && (op.DeepFace? || op.GrayBadge?)
        && (forall i :: 0 <= i < |fields| ==>
              fields[i].Some? && fields[i].value.source.Some? && MatchedBy(fields[i].value.source.value).Some?)
        && (forall image :: image in AllImages(fields) ==> 1 <= |image| <= l.maxImageBytes)
        && Total(AllImages(fields)) <= l.maxRequestBytes && Total(AllImages(fields)) <= p.maxTotalImageBytes
  {
    var fields := ImageFields(op);
    if FieldsFit(l, fields) { ImagesFit(l, fields); }
    forall i | 0 <= i < |fields|
      ensures forall image :: image in FieldImages(fields[i]) ==> image in AllImages(fields)
    {
      FieldImagesAreThere(fields, i);
    }
  }

  lemma {:induction false} FieldImagesAreThere(fields: seq<Option<FaceImage>>, i: nat)
    requires i < |fields|
    ensures forall image :: image in FieldImages(fields[i]) ==> image in AllImages(fields)
  {
    if i < |fields| - 1 { FieldImagesAreThere(fields[..|fields| - 1], i); }
  }

  lemma {:induction false} ImagesFit(l: FaceLimits, fields: seq<Option<FaceImage>>)
    requires FieldsFit(l, fields)
    ensures forall image :: image in AllImages(fields) ==> ImageFits(l, image)
  {
    if fields != [] {
      ImagesFit(l, fields[..|fields| - 1]);
      assert FieldFits(l, fields[|fields| - 1]);
    }
  }

  // Which replies are believed

  datatype Expected = ExpectDeepFace | ExpectGrayBadge

  function ExpectedOf(op: Operation): Option<Expected> {
    match op
    case DeepFace(_, _, _) => Some(ExpectDeepFace)
    case GrayBadge(_, _) => Some(ExpectGrayBadge)
    case Embedding => None
  }

  /** A finite score in -1..=1. */
  predicate Valid(score: Option<Score>) { score.Some? && score.value.Finite? && -1.0 <= score.value.value <= 1.0 }

  predicate AllValid(scores: seq<Option<Score>>) { forall i :: 0 <= i < |scores| ==> Valid(scores[i]) }

  /** The scores of a result, None for anything else. */
  function ScoresOf(o: Outcome): Option<seq<Option<Score>>> {
    match o
    case DeepFaceResult(cl, cc, lc, _) => Some([cl, cc, lc])
    case GrayBadgeResult(lc, _) => Some([lc])
    case _ => None
  }

  predicate OfKind(o: Outcome, expected: Expected) {
    match expected
    case ExpectDeepFace => o.DeepFaceResult?
    case ExpectGrayBadge => o.GrayBadgeResult?
  }

  /** A reply that is a recoverable failure of the analysis. */
  predicate Recoverable(o: Outcome) {
    o.FailureOutcome? && o.kind.Some? && o.kind.value.Face? && !o.kind.value.failure.isInternal
  }

  type Decoded = Result<Result<Outcome, Rejection>, Violation>

  /** Checks one decoded response. A violation is fatal to the enclave, a rejection only to its request. */
  method Decode(response: Option<Response>, id: nat, expected: Expected) returns (r: Decoded)
    ensures r.Ok? && r.value.Ok? <==>
              && response.Some? && response.value.requestId == id && response.value.outcome.Some?
              && OfKind(response.value.outcome.value, expected) && AllValid(ScoresOf(response.value.outcome.value).value)
    ensures r.Ok? && r.value.Ok? ==> r.value.value == response.value.outcome.value
    ensures r.Ok? && r.value.Err? <==>
              && response.Some? && response.value.requestId == id && response.value.outcome.Some?
              && Recoverable(response.value.outcome.value)
    ensures r.Ok? && r.value.Err? ==> r.value.error == AnalysisFailed(response.value.outcome.value.kind.value.failure)
    ensures r == Err(InvalidScore) <==>
              && response.Some? && response.value.requestId == id && response.value.outcome.Some?
              && OfKind(response.value.outcome.value, expected) && !AllValid(ScoresOf(response.value.outcome.value).value)
    ensures r == Err(Protocol) <==>
              response.None? || (response.value.requestId == id && response.value.outcome.Some?
                                 && response.value.outcome.value.FailureOutcome?
                                 && !Recoverable(response.value.outcome.value))
    ensures r.Err? ==> r.error == Protocol || r.error == InvalidScore || r.error == WrongResponse
  {
    if response.None? { return Err(Protocol); }
    if response.value.requestId != id { return Err(WrongResponse); }
    if response.value.outcome.None? { return Err(WrongResponse); }
    var result := response.value.outcome.value;
    var scores: seq<Option<Score>>;
    match (result, expected) {
      case (DeepFaceResult(cl, cc, lc, _), ExpectDeepFace) => scores := [cl, cc, lc];
      case (GrayBadgeResult(lc, _), ExpectGrayBadge) => scores := [lc];
      case (FailureOutcome(kind), _) =>
        match kind {
          case Some(Face(failure)) =>
            if !failure.isInternal { return Ok(Err(AnalysisFailed(failure))); }
            return Err(Protocol);
          case _ => return Err(Protocol);
        }
      case _ => return Err(WrongResponse);
    }
    for i := 0 to |scores|
      invariant forall j :: 0 <= j < i ==> Valid(scores[j])
    {
      if !Valid(scores[i]) { return Err(InvalidScore); }
    }
    return Ok(Ok(result));
  }

  // The client

  const U64_MAX: nat := U64_LIMIT - 1

  /** What the worker connection makes of one request; a transport failure never returns. */
  datatype Exchange = Unsent | Replied(response: Option<Response>)

  /** `Fatal` ends the enclave. */
  datatype Evaluation = Accepted(outcome: Outcome) | Rejected(rejection: Rejection) | Fatal(violation: Violation)

  class SandboxClient {
    const limits: FaceLimits
    const protocol: ProtocolLimits
    var nextId: nat
    ghost var sent: seq<nat>              // IDs of the requests the worker was sent, in order

    /** Every ID sent so far is below the next one, and later ones are larger. */
    ghost predicate Valid() reads this {
      && 1 <= nextId <= U64_MAX
      && (forall i :: 0 <= i < |sent| ==> 1 <= sent[i] < nextId)
      && (forall i, j :: 0 <= i < j < |sent| ==> sent[i] < sent[j])
    }

    constructor (limits: FaceLimits, protocol: ProtocolLimits)
      requires Validate(limits, protocol)
      ensures Valid() && this.limits == limits && this.protocol == protocol && nextId == 1 && sent == []
    {
      this.limits, this.protocol, nextId, sent := limits, protocol, 1, [];
    }

    /** `size` is the encoded length of the request under an ID, `worker` what an exchange comes to. */
    method Evaluate(op: Operation, size: nat -> nat, worker: nat -> Exchange) returns (r: Evaluation)
      requires Valid()
      modifies this
      ensures Valid() && old(sent) <= sent
      ensures nextId == if Sendable(limits, protocol, op) && old(nextId) < U64_MAX then old(nextId) + 1 else old(nextId)
      ensures sent == old(sent) + (if |sent| > |old(sent)| then [old(nextId)] else [])
      ensures |sent| > |old(sent)| <==>
                && Sendable(limits, protocol, op) && old(nextId) < U64_MAX && size(old(nextId)) <= limits.maxRequestBytes
                && worker(old(nextId)).Replied?
      ensures r.Accepted? ==>
                && |sent| > |old(sent)|
                && worker(old(nextId)).response == Some(Response(old(nextId), Some(r.outcome)))
                && ExpectedOf(op).Some? && OfKind(r.outcome, ExpectedOf(op).value)
                && AllValid(ScoresOf(r.outcome).value)
      ensures r == Fatal(UnsupportedOperation) <==> op.Embedding?
      ensures r == Fatal(RequestIdExhausted) <==> Sendable(limits, protocol, op) && old(nextId) == U64_MAX
      ensures r.Fatal? && !op.Embedding? && old(nextId) < U64_MAX ==> |sent| > |old(sent)|
      ensures r == Rejected(InvalidImages) <==>
                && !op.Embedding? && (Sendable(limits, protocol, op) ==> old(nextId) < U64_MAX)
                && |sent| == |old(sent)|
    {
      var expected := ExpectedOf(op);
      if expected.None? { return Fatal(UnsupportedOperation); }
      var images := ValidateImages(limits, protocol, op);
      if images.Err? { return Rejected(images.error); }
      var id := nextId;
      if id == U64_MAX { return Fatal(RequestIdExhausted); }
      nextId := id + 1;
      if size(id) > limits.maxRequestBytes { return Rejected(InvalidImages); }
      var exchange := worker(id);
      if exchange.Unsent? { return Rejected(InvalidImages); }
      sent := sent + [id];
      var decoded := Decode(exchange.response, id, expected.value);
      match decoded {
        case Ok(Ok(outcome)) => r := Accepted(outcome);
        case Ok(Err(rejection)) => r := Rejected(rejection);
        case Err(violation) => r := Fatal(violation);
      }
    }
  }

  // From a reply to the score policy

  /** Rounding to f32 and to f64: monotone, and exact on the few values the argument needs. */
  datatype Rounding = Rounding(single: real -> real, double: real -> real)

  ghost predicate Sound(f: Rounding) {
    && (forall x, y :: x <= y ==> f.single(x) <= f.single(y))
    && (forall x, y :: x <= y ==> f.double(x) <= f.double(y))
    && f.single(-1.0) == -1.0 && f.single(0.0) == 0.0 && f.single(1.0) == 1.0
    && f.double(0.0) == 0.0 && f.double(2.0) == 2.0
  }

  /** `f64::from(f32::midpoint(1.0, score as f32))`: the sum in double width, halved, rounded to single. */
  function Normalized(f: Rounding, score: real): real {
    f.single(f.double(1.0 + f.single(score)) / 2.0)
  }

  /** A score between -1 and 1 normalises into 0..=1, in the same order, with the ends kept. */
  lemma NormalizedIsMonotone(f: Rounding, x: real, y: real)
    requires Sound(f) && -1.0 <= x <= y <= 1.0
    ensures 0.0 <= Normalized(f, x) <= Normalized(f, y) <= 1.0
    ensures Normalized(f, -1.0) == 0.0 && Normalized(f, 1.0) == 1.0
  {}

  /** The engine's request of an operation: every image in its role. */
  function WorkerOperation(op: Pipe.Operation): Operation {
    match op
    case DeepFace(credential, live, challenge) =>
      DeepFace(ImageOf(Orb(credential)), ImageOf(LiveSource(live)), ImageOf(Rtms(challenge)))
    case GrayBadge(live, challenge) => GrayBadge(ImageOf(LiveSource(live)), ImageOf(Rtms(challenge)))
  }

  function ImageOf(s: Source): Option<FaceImage> { Some(FaceImage(Some(s))) }

  function LiveSource(live: Pipe.LiveCapture): Source {
    match live
    case Vanilla(image) => VanillaSelfie(image)
    case LightGuard(lit, dark, frame) =>
      LightGuardFrames(lit, dark, if frame == Pipe.Illuminated then LitFrame else UnlitFrame)
  }

  /** What the engine answers for an accepted outcome. */
  function AnswerOf(f: Rounding, o: Outcome): P.EngineAnswer
    requires ScoresOf(o).Some? && AllValid(ScoresOf(o).value)
  {
    var s := ScoresOf(o).value;
    match o
    case DeepFaceResult(_, _, _, report) =>
      P.DeepFaceScores(Norm(f, s[0].value), Norm(f, s[1].value), Norm(f, s[2].value), report)
    case GrayBadgeResult(_, report) => P.GrayBadgeScores(Norm(f, s[0].value), report)
  }

  function Norm(f: Rounding, score: Score): Score
    requires score.Finite?
  {
    Pipe.Finite(Normalized(f, score.value))
  }

  /** The worker is sent exactly the operation's images, in the operation's order. */
  lemma WorkerSeesTheImages(op: Pipe.Operation)
    ensures AllImages(ImageFields(WorkerOperation(op))) == Pipe.Images(op)
  {
    var f := ImageFields(WorkerOperation(op));
    AllImagesOfFew(f[0], f[1], f[|f| - 1]);
    assert f == if op.DeepFace? then [f[0], f[1], f[2]] else [f[0], f[1]];
  }

  /** The picture the worker matches for a source: of a LightGuard pair the frame it names. */
  function MatchedBy(s: Source): Option<seq<byte>> {
    match s
    case LightGuardFrames(lit, _, LitFrame) => Some(lit)
    case LightGuardFrames(_, dark, UnlitFrame) => Some(dark)
    case LightGuardFrames(_, _, UnknownFrame) => None
    case Orb(data) => Some(data)
    case VanillaSelfie(data) => Some(data)
    case Rtms(data) => Some(data)
  }

  /** The pictures the worker matches, in role order. */
  function MatchedImages(op: Operation): seq<Option<seq<byte>>> {
    var fields := ImageFields(op);
    seq(|fields|, i requires 0 <= i < |fields| =>
      if HasSource(fields[i]) then MatchedBy(fields[i].value.source.value) else None)
  }

  /** The worker matches exactly the pictures the engine compares and the token signs, in role order. */
  lemma WorkerComparesTheImages(op: Pipe.Operation)
    ensures |MatchedImages(WorkerOperation(op))| == |Pipe.ComparedImages(op)|
    ensures forall i :: 0 <= i < |Pipe.ComparedImages(op)| ==>
              MatchedImages(WorkerOperation(op))[i] == Some(Pipe.ComparedImages(op)[i])
  {}

  /** `image` carries this source. */
  predicate Carries(image: Option<FaceImage>, s: Source) { HasSource(image) && image.value.source.value == s }

  /** The credential travels as an orb picture, the challenge as an RTMS one, and the live capture as it
      was taken, with its two frames in place. */
  lemma WorkerRoles(op: Pipe.Operation)
    ensures op.DeepFace? <==> WorkerOperation(op).DeepFace?
    ensures op.GrayBadge? <==> WorkerOperation(op).GrayBadge?
    ensures op.DeepFace? ==> Carries(WorkerOperation(op).credential, Orb(op.credential))
    ensures Carries(WorkerOperation(op).challenge, Rtms(op.challenge))
    ensures match op.live
            case Vanilla(image) => Carries(WorkerOperation(op).live, VanillaSelfie(image))
            case LightGuard(lit, dark, Illuminated) =>
              Carries(WorkerOperation(op).live, LightGuardFrames(lit, dark, LitFrame))
            case LightGuard(lit, dark, Unilluminated) =>
              Carries(WorkerOperation(op).live, LightGuardFrames(lit, dark, UnlitFrame))
  {}

  /** Every score of the answer is the normalised similarity of the reply's own field, and the report is
      the reply's. */
  lemma AnswerKeepsFields(f: Rounding, o: Outcome)
    requires ScoresOf(o).Some? && AllValid(ScoresOf(o).value)
    ensures match o
      case DeepFaceResult(Some(cl), Some(cc), Some(lc), report) =>
        var a := AnswerOf(f, o);
        && a.DeepFaceScores? && a.deepReport == report
        && a.credentialLive == Pipe.Finite(f.single(f.double(1.0 + f.single(cl.value)) / 2.0))
        && a.credentialChallenge == Pipe.Finite(f.single(f.double(1.0 + f.single(cc.value)) / 2.0))
        && a.liveChallenge == Pipe.Finite(f.single(f.double(1.0 + f.single(lc.value)) / 2.0))
      case GrayBadgeResult(Some(lc), report) =>
        lc.Finite?
        && AnswerOf(f, o) == P.GrayBadgeScores(Pipe.Finite(f.single(f.double(1.0 + f.single(lc.value)) / 2.0)), report)
      case _ => false
  {
    assert forall i :: 0 <= i < |ScoresOf(o).value| ==> Valid(ScoresOf(o).value[i]);
    match o
    case DeepFaceResult(cl, cc, lc, _) =>
      assert Valid(ScoresOf(o).value[0]) && Valid(ScoresOf(o).value[1]) && Valid(ScoresOf(o).value[2]);
    case GrayBadgeResult(lc, _) => assert Valid(ScoresOf(o).value[0]);
    case _ =>
  }

  lemma AllImagesOfFew(a: Option<FaceImage>, b: Option<FaceImage>, c: Option<FaceImage>)
    ensures AllImages([a, b]) == FieldImages(a) + FieldImages(b)
    ensures AllImages([a, b, c]) == FieldImages(a) + FieldImages(b) + FieldImages(c)
  {
    assert [a, b, c][..2] == [a, b] && [a, b][..1] == [a] && [a][..0] == [];
    assert AllImages([a]) == FieldImages(a);
    assert AllImages([a, b]) == AllImages([a]) + FieldImages(b);
  }

  /** A reply the client accepts always has the shape its operation needs, so the engine's result is
      there, and its scores are in range, so the score policy never reports an internal error. */
  lemma AcceptedReplyIsJudged(f: Rounding, op: Pipe.Operation, o: Outcome, threshold: real)
    requires Sound(f) && OfKind(o, ExpectedOf(WorkerOperation(op)).value)
    requires ScoresOf(o).Some? && AllValid(ScoresOf(o).value)
    ensures P.AnswerFits(op, AnswerOf(f, o)) && !AnswerOf(f, o).EngineError?
    ensures Pipe.FirstFailure(P.RoleScores(AnswerOf(f, o)), threshold) != Some(FailureReason.Internal)
  {
    var scores := ScoresOf(o).value;
    forall i | 0 <= i < |scores| ensures Pipe.InRange(Norm(f, scores[i].value)) {
      assert Valid(scores[i]);
      NormalizedIsMonotone(f, scores[i].value.value, scores[i].value.value);
    }
    Pipe.InRangeNeverInternal(P.RoleScores(AnswerOf(f, o)), threshold);
  }
}
