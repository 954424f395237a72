/** The fixed-size padded envelope of a sealed response, down to its CBOR bytes. */
module ResponseEnvelope {
  import opened Bytes
  import opened Cbor
  import opened SealedTypes
  import opened Wrappers

  const LENGTH_LEN: nat := 4
  const BUDGET: nat := MATCH_RESPONSE_ENVELOPE_LEN - LENGTH_LEN

  type Blob = b: seq<byte> | |b| < U64_LIMIT witness []

  datatype AttestedStatement = AttestedStatement(token: Blob, signingKeyAttestation: Blob)

  type Response = MatchResult<AttestedStatement>

  datatype Error = Malformed | Encoding | ResponseTooLarge
  // Schema: the field and variant names serde derives

  function Pair(k1: seq<byte>, v1: Value, k2: seq<byte>, v2: Value): Value {
    Map(Field(k1, v1, Field(k2, v2, End)))
  }

  function Triple(k1: seq<byte>, v1: Value, k2: seq<byte>, v2: Value, k3: seq<byte>, v3: Value): Value {
    Map(Field(k1, v1, Field(k2, v2, Field(k3, v3, End))))
  }

  /** A non-unit enum variant: a one-entry map from its name to its content. */
  function Tagged(name: seq<byte>, content: Value): Value {
    Map(Field(name, content, End))
  }

  function Unit(name: string): Value {
    Text(Ascii(name))
  }

  function ImageRoleValue(r: ImageRole): Value {
    match r
    case OrbCredential => Unit("orb_credential")
    case LiveSelfie => Unit("live_selfie")
    case RtmsChallenge => Unit("rtms_challenge")
  }

  function ComparisonRoleValue(r: ComparisonRole): Value {
    match r
    case OrbSelfie => Unit("orb_selfie")
    case OrbChallenge => Unit("orb_challenge")
    case SelfieChallenge => Unit("selfie_challenge")
  }

  function TargetValue(t: ValidationTarget): Value {
    match t
    case Image => Unit("image")
    case IlluminatedFrame => Unit("illuminated_frame")
    case UnilluminatedFrame => Unit("unilluminated_frame")
    case LightGuardPair => Unit("light_guard_pair")
  }

  function InputReasonValue(r: InputFailureReason): Value {
    match r
    case MissingImage => Unit("missing_image")
    case MissingSource => Unit("missing_source")
    case InvalidMatchingFrame => Unit("invalid_matching_frame")
    case EmptyImage => Unit("empty_image")
    case ImageTooLarge => Unit("image_too_large")
    case TotalImagesTooLarge => Unit("total_images_too_large")
  }

  /** Failures of the request itself, before its payload is understood. */
  function RequestReasonValue(r: FailureReason): Option<Value> {
    match r
    case MalformedInputs => Some(Unit("malformed_inputs"))
    case RequestTooLarge => Some(Unit("request_too_large"))
    case AatRejected => Some(Unit("aat_rejected"))
    case Replayed => Some(Unit("replayed"))
    case _ => None
  }

  function ServiceReasonValue(r: FailureReason): Option<Value> {
    match r
    case UnsupportedRelease => Some(Unit("unsupported_release"))
    case UnsupportedPipeline => Some(Unit("unsupported_pipeline"))
    case UnsupportedMatchStrictness => Some(Unit("unsupported_match_strictness"))
    case EngineTimeout => Some(Unit("engine_timeout"))
    case Internal => Some(Unit("internal"))
    case _ => None
  }

  function UnitReasonValue(r: FailureReason): Value {
    match RequestReasonValue(r)
    case Some(v) => v
    case None =>
      match ServiceReasonValue(r)
      case Some(v) => v
      case None => Null
  }

  function InputRejectedValue(input: InputFailureReason, location: Option<ImageRole>, limit: Option<u64>): Value {
    Triple(
      Ascii("reason"), InputReasonValue(input),
      Ascii("image"), if location.Some? then ImageRoleValue(location.value) else Null,
      Ascii("limit_bytes"), if limit.Some? then UInt(limit.value) else Null)
  }

  function ImageRejectedValue(image: ImageRole, reason: ImageFailureReason, target: Option<ValidationTarget>): Value {
    Triple(
      Ascii("image"), ImageRoleValue(image),
      Ascii("reason"), Text(reason),
      Ascii("target"), if target.Some? then TargetValue(target.value) else Null)
  }

  function ReasonValue(r: FailureReason): Value {
    match r
    case InputRejected(input, location, limit) => Tagged(Ascii("input_rejected"), InputRejectedValue(input, location, limit))
    case MatchBelowThreshold(role) => Tagged(Ascii("match_below_threshold"), ComparisonRoleValue(role))
    case ImageRejected(image, reason, target) => Tagged(Ascii("image_rejected"), ImageRejectedValue(image, reason, target))
    case MatchingFailed(role) => Tagged(Ascii("matching_failed"), ComparisonRoleValue(role))
    case _ => UnitReasonValue(r)
  }

  function ReportValue(r: DebugReport): Value {
    match r
    case Available(json) => Tagged(Ascii("available"), Tagged(Ascii("json"), Text(json)))
    case NotProduced => Unit("not_produced")
    case OmittedTooLarge(size) =>
      Tagged(Ascii("omitted_too_large"), Tagged(Ascii("original_size_bytes"), UInt(size)))
  }

  function StatementValue(s: AttestedStatement): Value {
    Pair(Ascii("token"), ByteString(s.token), Ascii("signing_key_attestation"), ByteString(s.signingKeyAttestation))
  }

  function ResponseValue(r: Response): Value {
    match r
    case Success(statement, report) =>
      Tagged(Ascii("Success"),
             Pair(Ascii("statement"), StatementValue(statement), Ascii("debug_report"), ReportValue(report)))
    case Failed(reason, report) =>
      Tagged(Ascii("Failed"), Pair(Ascii("reason"), ReasonValue(reason), Ascii("debug_report"), ReportValue(report)))
  }

  // Reading the schema back, fields in declared order

  function ReadTagged(v: Value, name: seq<byte>): Option<Value> {
    match v
    case Map(Field(n, content, End)) => if n == name then Some(content) else None
    case _ => None
  }

  function ReadPair(v: Value, k1: seq<byte>, k2: seq<byte>): Option<(Value, Value)> {
    match v
    case Map(Field(n1, v1, Field(n2, v2, End))) => if n1 == k1 && n2 == k2 then Some((v1, v2)) else None
    case _ => None
  }

  function ReadTriple(v: Value, k1: seq<byte>, k2: seq<byte>, k3: seq<byte>): Option<(Value, Value, Value)> {
    match v
    case Map(Field(n1, v1, Field(n2, v2, Field(n3, v3, End)))) =>
      if n1 == k1 && n2 == k2 && n3 == k3 then Some((v1, v2, v3)) else None
    case _ => None
  }

  function ReadImageRole(v: Value): Option<ImageRole> {
    if v == Unit("orb_credential") then Some(OrbCredential)
    else if v == Unit("live_selfie") then Some(LiveSelfie)
    else if v == Unit("rtms_challenge") then Some(RtmsChallenge)
    else None
  }

  function ReadComparisonRole(v: Value): Option<ComparisonRole> {
    if v == Unit("orb_selfie") then Some(OrbSelfie)
    else if v == Unit("orb_challenge") then Some(OrbChallenge)
    else if v == Unit("selfie_challenge") then Some(SelfieChallenge)
    else None
  }

  function ReadTarget(v: Value): Option<ValidationTarget> {
    if v == Unit("image") then Some(Image)
    else if v == Unit("illuminated_frame") then Some(IlluminatedFrame)
    else if v == Unit("unilluminated_frame") then Some(UnilluminatedFrame)
    else if v == Unit("light_guard_pair") then Some(LightGuardPair)
    else None
  }

  function ReadInputReason(v: Value): Option<InputFailureReason> {
    if v == Unit("missing_image") then Some(MissingImage)
    else if v == Unit("missing_source") then Some(MissingSource)
    else if v == Unit("invalid_matching_frame") then Some(InvalidMatchingFrame)
    else if v == Unit("empty_image") then Some(EmptyImage)
    else if v == Unit("image_too_large") then Some(ImageTooLarge)
    else if v == Unit("total_images_too_large") then Some(TotalImagesTooLarge)
    else None
  }

  function ReadRequestReason(v: Value): Option<FailureReason> {
    if v == Unit("malformed_inputs") then Some(MalformedInputs)
    else if v == Unit("request_too_large") then Some(RequestTooLarge)
    else if v == Unit("aat_rejected") then Some(AatRejected)
    else if v == Unit("replayed") then Some(Replayed)
    else None
  }

  function ReadServiceReason(v: Value): Option<FailureReason> {
    if v == Unit("unsupported_release") then Some(UnsupportedRelease)
    else if v == Unit("unsupported_pipeline") then Some(UnsupportedPipeline)
    else if v == Unit("unsupported_match_strictness") then Some(UnsupportedMatchStrictness)
    else if v == Unit("engine_timeout") then Some(EngineTimeout)
    else if v == Unit("internal") then Some(Internal)
    else None
  }

  function ReadInputRejected(v: Value): Option<FailureReason> {
    match ReadTriple(v, Ascii("reason"), Ascii("image"), Ascii("limit_bytes"))
    case None => None
    case Some((reason, image, limit)) =>
      var input, role := ReadInputReason(reason), ReadImageRole(image);
      if input.None? || (image != Null && role.None?) || !(limit.Null? || (limit.UInt? && limit.n < U64_LIMIT)) then None
      else Some(InputRejected(input.value, role, if limit.UInt? then Some(limit.n) else None))
  }

  function ReadImageRejected(v: Value): Option<FailureReason> {
    match ReadTriple(v, Ascii("image"), Ascii("reason"), Ascii("target"))
    case None => None
    case Some((image, reason, t)) =>
      var role, target := ReadImageRole(image), ReadTarget(t);
      if role.None? || (t != Null && target.None?) then None
      else if !reason.Text? || |reason.text| > MAX_IMAGE_REASON_BYTES || !ValidUtf8(reason.text) then None
      else Some(ImageRejected(role.value, reason.text, target))
  }

  function ReadReason(v: Value): Option<FailureReason> {
    if v.Text? then
      var request := ReadRequestReason(v);
      if request.Some? then request else ReadServiceReason(v)
    else
      var input, image := ReadTagged(v, Ascii("input_rejected")), ReadTagged(v, Ascii("image_rejected"));
      if input.Some? then ReadInputRejected(input.value)
      else if image.Some? then ReadImageRejected(image.value)
      else ReadComparisonFailure(v)
  }

  function ReadComparisonFailure(v: Value): Option<FailureReason> {
    var below, matching := ReadTagged(v, Ascii("match_below_threshold")), ReadTagged(v, Ascii("matching_failed"));
    if below.Some? then
      var role := ReadComparisonRole(below.value);
      if role.Some? then Some(MatchBelowThreshold(role.value)) else None
    else if matching.Some? then
      var role := ReadComparisonRole(matching.value);
      if role.Some? then Some(MatchingFailed(role.value)) else None
    else None
  }

  function ReadReport(v: Value): Option<DebugReport> {
    if v == Unit("not_produced") then Some(NotProduced) else
    var available := ReadTagged(v, Ascii("available"));
    if available.Some? then
      var json := ReadTagged(available.value, Ascii("json"));
      if json.Some? && json.value.Text? && ValidUtf8(json.value.text) && |json.value.text| < U64_LIMIT
      then Some(Available(json.value.text))
      else None
    else
      var omitted := ReadTagged(v, Ascii("omitted_too_large"));
      if omitted.None? then None else
      var size := ReadTagged(omitted.value, Ascii("original_size_bytes"));
      if size.Some? && size.value.UInt? && size.value.n < U64_LIMIT then Some(OmittedTooLarge(size.value.n)) else None
  }

  function ReadStatement(v: Value): Option<AttestedStatement> {
    match ReadPair(v, Ascii("token"), Ascii("signing_key_attestation"))
    case Some((ByteString(token), ByteString(attestation))) =>
      if |token| < U64_LIMIT && |attestation| < U64_LIMIT then Some(AttestedStatement(token, attestation)) else None
    case _ => None
  }

  function ReadResponse(v: Value): Option<Response> {
    var success, failed := ReadTagged(v, Ascii("Success")), ReadTagged(v, Ascii("Failed"));
    if success.Some? then
      var content := ReadPair(success.value, Ascii("statement"), Ascii("debug_report"));
      if content.None? then None else
      var (statement, report) := (ReadStatement(content.value.0), ReadReport(content.value.1));
      if statement.None? || report.None? then None else Some(MatchResult.Success(statement.value, report.value))
    else if failed.Some? then
      var content := ReadPair(failed.value, Ascii("reason"), Ascii("debug_report"));
      if content.None? then None else
      var (reason, report) := (ReadReason(content.value.0), ReadReport(content.value.1));
      if reason.None? || report.None? then None else Some(MatchResult.Failed(reason.value, report.value))
    else None
  }

  /** Two names differ when their lengths or their `k`-th letters do. */
  lemma NamesDiffer(a: string, b: string, k: nat)
    requires |a| != |b| || (k < |a| && a[k] as int % 128 != b[k] as int % 128)
    ensures Ascii(a) != Ascii(b)
  {
    if |a| == |b| {
      assert Ascii(a)[k] != Ascii(b)[k];
    }
  }

  lemma ImageRoleReadsBack(r: ImageRole)
    ensures ReadImageRole(ImageRoleValue(r)) == Some(r)
  {
    NamesDiffer("live_selfie", "orb_credential", 0);
    NamesDiffer("rtms_challenge", "orb_credential", 0);
    NamesDiffer("rtms_challenge", "live_selfie", 0);
  }

  lemma ComparisonRoleReadsBack(r: ComparisonRole)
    ensures ReadComparisonRole(ComparisonRoleValue(r)) == Some(r)
  {}

  lemma TargetReadsBack(t: ValidationTarget)
    ensures ReadTarget(TargetValue(t)) == Some(t)
  {}

  lemma InputReasonReadsBack(r: InputFailureReason)
    ensures ReadInputReason(InputReasonValue(r)) == Some(r)
  {
    NamesDiffer("total_images_too_large", "invalid_matching_frame", 0);
  }

  lemma RequestReasonReadsBack(r: FailureReason)
    requires RequestReasonValue(r).Some?
    ensures ReadRequestReason(RequestReasonValue(r).value) == Some(r)
  {}

  lemma ServiceReasonReadsBack(r: FailureReason)
    requires ServiceReasonValue(r).Some?
    ensures ReadServiceReason(ServiceReasonValue(r).value) == Some(r)
  {}

  lemma ServiceReasonIsNoRequestReason(r: FailureReason)
    requires ServiceReasonValue(r).Some?
    ensures ReadRequestReason(ServiceReasonValue(r).value) == None
  {
    NamesDiffer("internal", "replayed", 0);
  }

  lemma InputRejectedReadsBack(input: InputFailureReason, location: Option<ImageRole>, limit: Option<u64>)
    ensures ReadInputRejected(InputRejectedValue(input, location, limit)) == Some(InputRejected(input, location, limit))
  {
    InputReasonReadsBack(input);
    if location.Some? { ImageRoleReadsBack(location.value); }
  }

  lemma ImageRejectedReadsBack(image: ImageRole, reason: ImageFailureReason, target: Option<ValidationTarget>)
    ensures ReadImageRejected(ImageRejectedValue(image, reason, target)) == Some(ImageRejected(image, reason, target))
  {
    ImageRoleReadsBack(image);
    if target.Some? { TargetReadsBack(target.value); }
  }

  lemma UnitReasonReadsBack(r: FailureReason)
    requires RequestReasonValue(r).Some? || ServiceReasonValue(r).Some?
    ensures ReadReason(UnitReasonValue(r)) == Some(r)
  {
    if RequestReasonValue(r).Some? {
      RequestReasonReadsBack(r);
    } else {
      ServiceReasonReadsBack(r);
      ServiceReasonIsNoRequestReason(r);
    }
  }

  lemma ReasonReadsBack(r: FailureReason)
    ensures ReadReason(ReasonValue(r)) == Some(r)
  {
    match r
    case InputRejected(input, location, limit) => InputRejectedReadsBack(input, location, limit);
    case ImageRejected(image, reason, target) =>
      NamesDiffer("image_rejected", "input_rejected", 1);
      ImageRejectedReadsBack(image, reason, target);
    case MatchBelowThreshold(role) => ComparisonRoleReadsBack(role);
    case MatchingFailed(role) => ComparisonRoleReadsBack(role);
    case _ => UnitReasonReadsBack(r);
  }

  lemma ReportReadsBack(r: DebugReport)
    ensures ReadReport(ReportValue(r)) == Some(r)
  {}

  /** The schema loses nothing: reading a written response gives that response. */
  lemma ResponseReadsBack(r: Response)
    ensures ReadResponse(ResponseValue(r)) == Some(r)
  {
    ReportReadsBack(r.debugReport);
    if r.Failed? { ReasonReadsBack(r.failure); }
  }

  // Everything written is encodable, and its exact size is known

  lemma UnitEncodable(name: string)
    requires |name| < U64_LIMIT
    ensures Encodable(Unit(name)) && Size(Unit(name)) == TextSize(|name|) && ValidUtf8(Ascii(name))
  {
    AsciiIsUtf8(Ascii(name));
  }

  lemma TaggedEncodable(name: string, content: Value)
    requires |name| < U64_LIMIT && Encodable(content)
    ensures Encodable(Tagged(Ascii(name), content))
    ensures Size(Tagged(Ascii(name), content)) == 1 + TextSize(|name|) + Size(content)
  {
    AsciiIsUtf8(Ascii(name));
    var fields := Tagged(Ascii(name), content).fields;
    assert FieldCount(fields.rest) == 0 == FieldsSize(fields.rest);
    assert FieldCount(fields) == 1;
  }

  lemma PairEncodable(k1: string, v1: Value, k2: string, v2: Value)
    requires |k1| < U64_LIMIT && |k2| < U64_LIMIT && Encodable(v1) && Encodable(v2)
    ensures var v := Pair(Ascii(k1), v1, Ascii(k2), v2);
            Encodable(v) && Size(v) == 1 + TextSize(|k1|) + Size(v1) + TextSize(|k2|) + Size(v2)
  {
    AsciiIsUtf8(Ascii(k1));
    TaggedEncodable(k2, v2);
    var fields := Pair(Ascii(k1), v1, Ascii(k2), v2).fields;
    assert fields.rest == Tagged(Ascii(k2), v2).fields;
    assert FieldCount(fields.rest.rest) == 0;
    assert FieldCount(fields.rest) == 1;
    assert FieldCount(fields) == 2;
  }

  lemma TripleEncodable(k1: string, v1: Value, k2: string, v2: Value, k3: string, v3: Value)
    requires |k1| < U64_LIMIT && |k2| < U64_LIMIT && |k3| < U64_LIMIT
    requires Encodable(v1) && Encodable(v2) && Encodable(v3)
    ensures var v := Triple(Ascii(k1), v1, Ascii(k2), v2, Ascii(k3), v3);
            Encodable(v) && Size(v) == 1 + TextSize(|k1|) + Size(v1) + TextSize(|k2|) + Size(v2) + TextSize(|k3|) + Size(v3)
  {
    AsciiIsUtf8(Ascii(k1));
    PairEncodable(k2, v2, k3, v3);
    var fields := Triple(Ascii(k1), v1, Ascii(k2), v2, Ascii(k3), v3).fields;
    assert fields.rest == Pair(Ascii(k2), v2, Ascii(k3), v3).fields;
    assert FieldCount(fields.rest.rest.rest) == 0;
    assert FieldCount(fields.rest.rest) == 1;
    assert FieldCount(fields.rest) == 2;
    assert FieldCount(fields) == 3;
  }

  lemma ReportSize(r: DebugReport)
    ensures Encodable(ReportValue(r))
    ensures Size(ReportValue(r)) == match r
              case Available(json) => 17 + TextSize(|json|)
              case NotProduced => 13
              case OmittedTooLarge(size) => 41 + ArgumentWidth(size)
  {
    match r
    case Available(json) =>
      TaggedEncodable("json", Text(json));
      TaggedEncodable("available", Tagged(Ascii("json"), Text(json)));
    case NotProduced => UnitEncodable("not_produced");
    case OmittedTooLarge(size) =>
      TaggedEncodable("original_size_bytes", UInt(size));
      TaggedEncodable("omitted_too_large", Tagged(Ascii("original_size_bytes"), UInt(size)));
  }

  lemma RolesEncodable(r: ComparisonRole, i: ImageRole, t: ValidationTarget, input: InputFailureReason)
    ensures Encodable(ComparisonRoleValue(r)) && Size(ComparisonRoleValue(r)) <= 24
    ensures Encodable(ImageRoleValue(i)) && Size(ImageRoleValue(i)) <= 24
    ensures Encodable(TargetValue(t)) && Size(TargetValue(t)) <= 24
    ensures Encodable(InputReasonValue(input)) && Size(InputReasonValue(input)) <= 24
  {
    UnitEncodable(match r
                  case OrbSelfie => "orb_selfie"
                  case OrbChallenge => "orb_challenge"
                  case SelfieChallenge => "selfie_challenge");
    UnitEncodable(match i
                  case OrbCredential => "orb_credential"
                  case LiveSelfie => "live_selfie"
                  case RtmsChallenge => "rtms_challenge");
    TargetEncodable(t);
    InputReasonEncodable(input);
  }

  lemma TargetEncodable(t: ValidationTarget)
    ensures Encodable(TargetValue(t)) && Size(TargetValue(t)) <= 24
  {
    match t
    case Image => UnitEncodable("image");
    case IlluminatedFrame => UnitEncodable("illuminated_frame");
    case UnilluminatedFrame => UnitEncodable("unilluminated_frame");
    case LightGuardPair => UnitEncodable("light_guard_pair");
  }

  lemma InputReasonEncodable(input: InputFailureReason)
    ensures Encodable(InputReasonValue(input)) && Size(InputReasonValue(input)) <= 24
  {
    match input
    case MissingImage => UnitEncodable("missing_image");
    case MissingSource => UnitEncodable("missing_source");
    case InvalidMatchingFrame => UnitEncodable("invalid_matching_frame");
    case EmptyImage => UnitEncodable("empty_image");
    case ImageTooLarge => UnitEncodable("image_too_large");
    case TotalImagesTooLarge => UnitEncodable("total_images_too_large");
  }

  lemma UnitReasonEncodable(r: FailureReason)
    ensures Encodable(UnitReasonValue(r)) && Size(UnitReasonValue(r)) <= 30
  {
    match r
    case MalformedInputs => UnitEncodable("malformed_inputs");
    case RequestTooLarge => UnitEncodable("request_too_large");
    case AatRejected => UnitEncodable("aat_rejected");
    case Replayed => UnitEncodable("replayed");
    case UnsupportedRelease => UnitEncodable("unsupported_release");
    case UnsupportedPipeline => UnitEncodable("unsupported_pipeline");
    case UnsupportedMatchStrictness => UnitEncodable("unsupported_match_strictness");
    case EngineTimeout => UnitEncodable("engine_timeout");
    case Internal => UnitEncodable("internal");
    case _ =>
  }

  lemma InputRejectedSize(input: InputFailureReason, location: Option<ImageRole>, limit: Option<u64>)
    ensures var v := ReasonValue(InputRejected(input, location, limit)); Encodable(v) && Size(v) <= 160
  {
    InputRejectedBodySize(input, location, limit);
    TaggedEncodable("input_rejected", InputRejectedValue(input, location, limit));
  }

  lemma InputRejectedBodySize(input: InputFailureReason, location: Option<ImageRole>, limit: Option<u64>)
    ensures var v := InputRejectedValue(input, location, limit); Encodable(v) && Size(v) <= 120
  {
    RolesEncodable(OrbSelfie, if location.Some? then location.value else LiveSelfie, Image, input);
    TripleEncodable("reason", InputReasonValue(input),
                    "image", if location.Some? then ImageRoleValue(location.value) else Null,
                    "limit_bytes", if limit.Some? then UInt(limit.value) else Null);
  }

  lemma ImageRejectedSize(image: ImageRole, reason: ImageFailureReason, target: Option<ValidationTarget>)
    ensures var v := ReasonValue(ImageRejected(image, reason, target)); Encodable(v) && Size(v) <= 160
  {
    ImageRejectedBodySize(image, reason, target);
    TaggedEncodable("image_rejected", ImageRejectedValue(image, reason, target));
  }

  lemma ImageRejectedBodySize(image: ImageRole, reason: ImageFailureReason, target: Option<ValidationTarget>)
    ensures var v := ImageRejectedValue(image, reason, target); Encodable(v) && Size(v) <= 120
  {
    RolesEncodable(OrbSelfie, image, if target.Some? then target.value else Image, EmptyImage);
    TripleEncodable("image", ImageRoleValue(image), "reason", Text(reason),
                    "target", if target.Some? then TargetValue(target.value) else Null);
  }

  lemma RoleReasonSize(name: string, role: ComparisonRole)
    requires |name| <= 24
    ensures var v := Tagged(Ascii(name), ComparisonRoleValue(role)); Encodable(v) && Size(v) <= 160
  {
    RolesEncodable(role, LiveSelfie, Image, EmptyImage);
    TaggedEncodable(name, ComparisonRoleValue(role));
  }

  /** No failure reason takes more than 160 bytes. */
  lemma ReasonSize(r: FailureReason)
    ensures Encodable(ReasonValue(r)) && Size(ReasonValue(r)) <= 160
  {
    match r
    case InputRejected(input, location, limit) => InputRejectedSize(input, location, limit);
    case ImageRejected(image, reason, target) => ImageRejectedSize(image, reason, target);
    case MatchBelowThreshold(role) => RoleReasonSize("match_below_threshold", role);
    case MatchingFailed(role) => RoleReasonSize("matching_failed", role);
    case _ => UnitReasonEncodable(r);
  }

  /** Bytes of a response before its report. */
  function BodySize(r: Response): nat {
    match r
    case Success(s, _) => 64 + TextSize(|s.token|) + TextSize(|s.signingKeyAttestation|)
    case Failed(reason, _) => 29 + Size(ReasonValue(reason))
  }

  lemma ResponseSize(r: Response)
    ensures Encodable(ResponseValue(r))
    ensures Size(ResponseValue(r)) == BodySize(r) + Size(ReportValue(r.debugReport))
  {
    ReportSize(r.debugReport);
    match r
    case Success(s, report) =>
      PairEncodable("token", ByteString(s.token), "signing_key_attestation", ByteString(s.signingKeyAttestation));
      var content := Pair(Ascii("statement"), StatementValue(s), Ascii("debug_report"), ReportValue(report));
      PairEncodable("statement", StatementValue(s), "debug_report", ReportValue(report));
      TaggedEncodable("Success", content);
    case Failed(reason, report) =>
      ReasonSize(reason);
      var content := Pair(Ascii("reason"), ReasonValue(reason), Ascii("debug_report"), ReportValue(report));
      PairEncodable("reason", ReasonValue(reason), "debug_report", ReportValue(report));
      TaggedEncodable("Failed", content);
  }

  // The envelope

  /** `validate`. */
  predicate Valid(r: Response) {
    match r.debugReport
    case Available(json) => |json| <= MAX_DEBUG_REPORT_BYTES
    case OmittedTooLarge(size) => size > 0
    case NotProduced => true
  }

  function Serialized(r: Response): (b: seq<byte>)
    ensures |b| == BodySize(r) + Size(ReportValue(r.debugReport)) >= 1
  {
    ResponseSize(r);
    EncodedSize(ResponseValue(r));
    Encode(ResponseValue(r))
  }

  predicate Fits(r: Response) { |Serialized(r)| <= BUDGET }

  function WithoutReport(r: Response): Response
    requires r.debugReport.Available?
  {
    r.(debugReport := OmittedTooLarge(|r.debugReport.json|))
  }

  /** What the encoder puts in the envelope. */
  function Delivered(r: Response): Result<Response, Error> {
    if !Valid(r) then Err(Malformed)
    else if Fits(r) then Result.Ok(r)
    else if r.debugReport.Available? && Fits(WithoutReport(r)) then Result.Ok(WithoutReport(r))
    else Err(Error.ResponseTooLarge)
  }

  function Zeros(n: nat): (z: seq<byte>)
    ensures |z| == n && forall i :: 0 <= i < n ==> z[i] == 0
  {
    seq(n, _ => 0)
  }

  /** Declared length, payload, zero padding. */
  function Framed(payload: seq<byte>, length: nat): (e: seq<byte>)
    requires |payload| <= BUDGET
    ensures |e| == MATCH_RESPONSE_ENVELOPE_LEN
  {
    ToBigEndian(length, LENGTH_LEN) + payload + Zeros(BUDGET - |payload|)
  }

  /** The honest envelope declares the payload's own length. */
  function Envelope(payload: seq<byte>): (e: seq<byte>)
    requires |payload| <= BUDGET
    ensures |e| == MATCH_RESPONSE_ENVELOPE_LEN
  {
    Framed(payload, |payload|)
  }

  function Padded(r: Response): Result<seq<byte>, Error> {
    match Delivered(r)
    case Ok(d) => Result.Ok(Envelope(Serialized(d)))
    case Err(e) => Err(e)
  }

  /** What the strict reader makes of received bytes. */
  function Opened(bytes: seq<byte>): Result<Response, Error> {
    if |bytes| != MATCH_RESPONSE_ENVELOPE_LEN then Err(Malformed) else
    var end := LENGTH_LEN + FromBigEndian(bytes[..LENGTH_LEN]);
    if end > |bytes| || (exists i :: end <= i < |bytes| && bytes[i] != 0) then Err(Malformed) else
    var item := Decode(bytes[LENGTH_LEN..end]);
    if item.Failed? || item.rest != [] then Err(Malformed) else
    var response := ReadResponse(item.value);
    if response.None? || !Valid(response.value) then Err(Malformed) else Result.Ok(response.value)
  }

  method ToPaddedCbor(r: Response) returns (out: Result<seq<byte>, Error>)
    ensures out == Padded(r)
  {
    if !Valid(r) { return Err(Malformed); }
    var encoded := Serialized(r);
    if |encoded| > BUDGET {
      if r.debugReport.Available? {
        encoded := Serialized(WithoutReport(r));
      }
      if |encoded| > BUDGET { return Err(Error.ResponseTooLarge); }
    }
    var envelope := WriteEnvelope(encoded);
    out := Result.Ok(envelope);
  }

  /** Copies the length and the payload into a zeroed envelope. */
  method WriteEnvelope(encoded: seq<byte>) returns (e: seq<byte>)
    requires |encoded| <= BUDGET
    ensures e == Envelope(encoded)
  {
    var length := ToBigEndian(|encoded|, LENGTH_LEN);
    var envelope := new byte[MATCH_RESPONSE_ENVELOPE_LEN](_ => 0);
    forall i | 0 <= i < LENGTH_LEN { envelope[i] := length[i]; }
    forall i | 0 <= i < |encoded| { envelope[LENGTH_LEN + i] := encoded[i]; }
    assert envelope[..] == Envelope(encoded);
    e := envelope[..];
  }

  method FromPaddedCbor(bytes: seq<byte>) returns (out: Result<Response, Error>)
    ensures out == Opened(bytes)
  {
    if |bytes| != MATCH_RESPONSE_ENVELOPE_LEN { return Err(Malformed); }
    var end := LENGTH_LEN + FromBigEndian(bytes[..LENGTH_LEN]);
    if end > |bytes| { return Err(Malformed); }
    var i := end;
    while i < |bytes|
      invariant end <= i <= |bytes|
      invariant forall k :: end <= k < i ==> bytes[k] == 0
    {
      if bytes[i] != 0 { return Err(Malformed); }
      i := i + 1;
    }
    var item := Decode(bytes[LENGTH_LEN..end]);
    if item.Failed? || item.rest != [] { return Err(Malformed); }
    var response := ReadResponse(item.value);
    if response.None? || !Valid(response.value) { return Err(Malformed); }
    out := Result.Ok(response.value);
  }

  lemma EnvelopeParts(payload: seq<byte>)
    requires |payload| <= BUDGET
    ensures var e, end := Envelope(payload), LENGTH_LEN + |payload|;
            FromBigEndian(e[..LENGTH_LEN]) == |payload| && e[LENGTH_LEN..end] == payload
            && forall i :: end <= i < |e| ==> e[i] == 0
  {
    Pow256Values();
    BigEndianRoundTrip(|payload|, LENGTH_LEN);
    var e := Envelope(payload);
    assert e[..LENGTH_LEN] == ToBigEndian(|payload|, LENGTH_LEN);
  }

  /** A serialized response is exactly one item and reads back as that response. */
  lemma SerializedReadsBack(r: Response)
    ensures var item := Decode(Serialized(r)); item.Ok? && item.rest == [] && ReadResponse(item.value) == Some(r)
  {
    ResponseSize(r);
    ResponseReadsBack(r);
    DecodeEncode(ResponseValue(r), []);
    assert Encode(ResponseValue(r)) + [] == Encode(ResponseValue(r));
  }

  /** The fallback saves space exactly for reports of 24 bytes or more. */
  lemma FallbackIsShorterIff(r: Response)
    requires r.debugReport.Available?
    ensures |Serialized(WithoutReport(r))| < |Serialized(r)| <==> |r.debugReport.json| >= 24
  {
    ReportSize(r.debugReport);
    ReportSize(WithoutReport(r).debugReport);
  }

  /** Whatever the encoder accepts has the fixed length and opens to the same response, or to it
      with its report replaced by the report's size exactly when the full form does not fit. */
  lemma EnvelopeRoundTrip(r: Response)
    requires Padded(r).Ok?
    ensures |Padded(r).value| == MATCH_RESPONSE_ENVELOPE_LEN
    ensures Fits(r) ==> Opened(Padded(r).value) == Result.Ok(r)
    ensures !Fits(r) ==> r.debugReport.Available? && |r.debugReport.json| >= 24
                         && Opened(Padded(r).value) == Result.Ok(WithoutReport(r))
  {
    if !Fits(r) { FallbackIsShorterIff(r); }
    OpensBack(Delivered(r).value);
  }

  lemma OpensBack(r: Response)
    requires Fits(r) && Valid(r)
    ensures Opened(Envelope(Serialized(r))) == Result.Ok(r)
  {
    SerializedReadsBack(r);
    EnvelopeParts(Serialized(r));
  }

  /** Bytes of the shorter way to deliver a report: itself, or the note of its size. */
  function ShortestReport(report: DebugReport): nat {
    match report
    case Available(json) => if |json| >= 24 then 41 + ArgumentWidth(|json|) else 17 + TextSize(|json|)
    case NotProduced => 13
    case OmittedTooLarge(size) => 41 + ArgumentWidth(size)
  }

  /** The encoder refuses a valid response exactly when not even its shortest form fits. */
  lemma AcceptedIff(r: Response)
    requires Valid(r)
    ensures Padded(r).Ok? <==> BodySize(r) + ShortestReport(r.debugReport) <= BUDGET
  {
    ShortestIsBest(r.debugReport);
    assert Fits(r) <==> BodySize(r) + Size(ReportValue(r.debugReport)) <= BUDGET;
    if r.debugReport.Available? {
      assert Fits(WithoutReport(r)) <==> BodySize(r) + Size(ReportValue(WithoutReport(r).debugReport)) <= BUDGET;
    }
  }

  lemma ShortestIsBest(report: DebugReport)
    ensures ShortestReport(report) <= Size(ReportValue(report))
    ensures report.Available? ==>
      var omitted := Size(ReportValue(OmittedTooLarge(|report.json|)));
      ShortestReport(report) == if omitted < Size(ReportValue(report)) then omitted else Size(ReportValue(report))
    ensures !report.Available? ==> ShortestReport(report) == Size(ReportValue(report))
  {
    ReportSize(report);
    if report.Available? { ReportSize(OmittedTooLarge(|report.json|)); }
  }

  /** A response is refused as malformed exactly for a report above the cap or a size of zero, and no such
      response is ever read. */
  lemma MalformedIff(r: Response, bytes: seq<byte>)
    ensures Padded(r) == Err(Malformed) <==>
              (r.debugReport.Available? && |r.debugReport.json| > 64 * 1024) || r.debugReport == OmittedTooLarge(0)
    ensures Padded(r) == Err(Malformed) ==> Opened(bytes) != Result.Ok(r)
  {}

  lemma RejectionBodySize(reason: FailureReason, report: DebugReport)
    ensures BodySize(MatchResult.Failed(reason, report)) <= 189
  {
    ReasonSize(reason);
  }

  lemma AdmissibleReportSize(report: DebugReport)
    requires report.Available? ==> |report.json| <= MAX_DEBUG_REPORT_BYTES
    ensures Size(ReportValue(report)) <= MAX_DEBUG_REPORT_BYTES + 64
  {
    ReportSize(report);
  }

  /** A rejection with an admissible report always travels with its report intact. */
  lemma RejectionAlwaysFits(reason: FailureReason, report: DebugReport)
    requires Valid(MatchResult.Failed(reason, report))
    ensures Delivered(MatchResult.Failed(reason, report)) == Result.Ok(MatchResult.Failed(reason, report))
  {
    RejectionBodySize(reason, report);
    AdmissibleReportSize(report);
  }

  /** Every report the engine boundary builds is admissible, so no rejection is ever turned into an
      encoding error: it opens at the client to the reason and the report it was made of. */
  lemma RejectionReachesClient(reason: FailureReason, report: Option<Report>)
    ensures var r := MatchResult.Failed(reason, DebugReportFrom(report));
            Padded(r).Ok? && Opened(Padded(r).value) == Result.Ok(r)
  {
    var r := MatchResult<AttestedStatement>.Failed(reason, DebugReportFrom(report));
    RejectionAlwaysFits(reason, r.debugReport);
    EnvelopeRoundTrip(r);
  }

  /** One nonzero padding byte makes the reader refuse the envelope. */
  lemma PaddingIsChecked(payload: seq<byte>, i: nat, b: byte)
    requires |payload| <= BUDGET && LENGTH_LEN + |payload| <= i < MATCH_RESPONSE_ENVELOPE_LEN && b != 0
    ensures Opened(Envelope(payload)[i := b]) == Err(Malformed)
  {
    EnvelopeParts(payload);
    var e, f := Envelope(payload), Envelope(payload)[i := b];
    assert f[..LENGTH_LEN] == e[..LENGTH_LEN];
    assert f[i] != 0;
  }

  lemma FramedPayload(payload: seq<byte>, length: nat)
    requires |payload| <= BUDGET && length <= BUDGET
    ensures var e := Framed(payload, length);
            FromBigEndian(e[..LENGTH_LEN]) == length
            && e[LENGTH_LEN..LENGTH_LEN + length]
               == if length <= |payload| then payload[..length] else payload + Zeros(length - |payload|)
  {
    Pow256Values();
    BigEndianRoundTrip(length, LENGTH_LEN);
    var e := Framed(payload, length);
    assert e[..LENGTH_LEN] == ToBigEndian(length, LENGTH_LEN);
  }

  lemma OversizedLengthIsRefused(payload: seq<byte>, length: nat)
    requires |payload| <= BUDGET < length < U32_LIMIT
    ensures Opened(Framed(payload, length)) == Err(Malformed)
  {
    Pow256Values();
    BigEndianRoundTrip(length, LENGTH_LEN);
    assert Framed(payload, length)[..LENGTH_LEN] == ToBigEndian(length, LENGTH_LEN);
  }

  /** The length field is exact: with any other value, shorter or longer, the reader refuses the envelope. */
  lemma LengthIsExact(r: Response, length: nat)
    requires Fits(r) && length < U32_LIMIT && length != |Serialized(r)|
    ensures Opened(Framed(Serialized(r), length)) == Err(Malformed)
  {
    var p := Serialized(r);
    if length > BUDGET { OversizedLengthIsRefused(p, length); }
    else if length < |p| { ShortLengthIsRefused(r, length); }
    else { LongLengthIsRefused(r, length); }
  }

  lemma ShortLengthIsRefused(r: Response, length: nat)
    requires Fits(r) && length < |Serialized(r)|
    ensures Opened(Framed(Serialized(r), length)) == Err(Malformed)
  {
    ResponseSize(r);
    FramedPayload(Serialized(r), length);
    NoPrefixDecodes(ResponseValue(r), length);
  }

  /** Padding inside the declared length is more than the one item. */
  lemma LongLengthIsRefused(r: Response, length: nat)
    requires Fits(r) && |Serialized(r)| < length <= BUDGET
    ensures Opened(Framed(Serialized(r), length)) == Err(Malformed)
  {
    ResponseSize(r);
    FramedPayload(Serialized(r), length);
    var padding := Zeros(length - |Serialized(r)|);
    TrailingIsRefused(ResponseValue(r), padding, Framed(Serialized(r), length), LENGTH_LEN + length);
  }

  lemma TrailingIsRefused(v: Value, trailing: seq<byte>, bytes: seq<byte>, end: nat)
    requires Encodable(v) && trailing != [] && LENGTH_LEN <= end <= |bytes|
    requires end == LENGTH_LEN + FromBigEndian(bytes[..LENGTH_LEN]) && bytes[LENGTH_LEN..end] == Encode(v) + trailing
    ensures Opened(bytes) == Err(Malformed)
  {
    DecodeEncode(v, trailing);
  }
}
