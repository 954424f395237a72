/** The plaintext vocabulary of a sealed match response. */
module SealedTypes {
  import opened Bytes
  import opened Wrappers

  /** Bounds of the sealed exchange: entry data, other fields and the channel's own overhead. */
  const MAX_MATCH_BODY_BYTES: nat := 7 * 1024 * 1024 + 8 * 1024 + 4096
  const MATCH_RESPONSE_ENVELOPE_LEN: nat := 96 * 1024
  const MAX_MATCH_RESPONSE_BYTES: nat := MATCH_RESPONSE_ENVELOPE_LEN + 4096

  datatype ImageRole = OrbCredential | LiveSelfie | RtmsChallenge

  datatype ComparisonRole = OrbSelfie | OrbChallenge | SelfieChallenge

  datatype ValidationTarget = Image | IlluminatedFrame | UnilluminatedFrame | LightGuardPair

  datatype InputFailureReason =
    | MissingImage | MissingSource | InvalidMatchingFrame | EmptyImage | ImageTooLarge | TotalImagesTooLarge

  const MAX_IMAGE_REASON_BYTES: nat := 33

  /** An `ImageFailureReason` stands for its snake-case wire name; the longest has 33 bytes. */
  type ImageFailureReason = s: Utf8 | |s| <= MAX_IMAGE_REASON_BYTES witness []

  type u64 = n: nat | n < U64_LIMIT

  datatype FailureReason =
    | MalformedInputs
    | RequestTooLarge
    | UnsupportedRelease
    | UnsupportedPipeline
    | UnsupportedMatchStrictness
    | AatRejected
    | Replayed
    | InputRejected(input: InputFailureReason, location: Option<ImageRole>, limitBytes: Option<u64>)
    | MatchBelowThreshold(comparison: ComparisonRole)
    | ImageRejected(image: ImageRole, reason: ImageFailureReason, target: Option<ValidationTarget>)
    | MatchingFailed(failed: ComparisonRole)
    | EngineTimeout
    | Internal

  const MAX_DEBUG_REPORT_BYTES: nat := 64 * 1024

  /** A Rust `String`: UTF-8 that never reaches 2^64 bytes. */
  type Report = s: Utf8 | |s| < U64_LIMIT witness []

  datatype DebugReport = Available(json: Report) | NotProduced | OmittedTooLarge(originalSizeBytes: u64)

  /** `From<Option<String>>`: a report above the cap is replaced by its size. */
  function DebugReportFrom(report: Option<Report>): (r: DebugReport)
    ensures r.Available? <==> report.Some? && |report.value| <= MAX_DEBUG_REPORT_BYTES
    ensures r.Available? ==> r.json == report.value
    ensures r.OmittedTooLarge? ==> report.Some? && r.originalSizeBytes == |report.value| > MAX_DEBUG_REPORT_BYTES
    ensures r.NotProduced? <==> report.None?
  {
    match report
    case Some(json) =>
      if |json| > MAX_DEBUG_REPORT_BYTES then OmittedTooLarge(|json|) else Available(json)
    case None => NotProduced
  }

  /** The sealed response, over the statement it carries on success. */
  datatype MatchResult<+S> =
    | Success(statement: S, debugReport: DebugReport)
    | Failed(failure: FailureReason, debugReport: DebugReport)
}
