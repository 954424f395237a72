/** Request and response envelopes of the verifier/engine IPC. */
module EngineInterface {
  import opened Bytes
  import opened SealedTypes
  import opened Wrappers
  import Framing

  const MAX_PAYLOAD_BYTES: nat := 8 * 1024 * 1024
  const ID_LEN: nat := 8
  const RESPONSE_HEADER_LEN: nat := 10
  const MAX_REQUEST_BYTES: nat := ID_LEN + MAX_PAYLOAD_BYTES
  const MAX_RESPONSE_BYTES: nat := RESPONSE_HEADER_LEN + MAX_DEBUG_REPORT_BYTES

  datatype ErrorCode =
    | InvalidPayload | UnsupportedPipeline | UnsupportedMatchStrictness | BiometricRejected | MatchRejected | Internal

  datatype Verdict = Pass | Error(code: ErrorCode)

  datatype Response = Response(requestId: u64, verdict: Verdict, debugReport: Option<Report>)

  datatype CodecError = Malformed | TooLarge

  function CodeByte(code: ErrorCode): byte {
    match code
    case InvalidPayload => 1
    case UnsupportedPipeline => 2
    case UnsupportedMatchStrictness => 3
    case BiometricRejected => 4
    case MatchRejected => 5
    case Internal => 6
  }

  function CodeOf(b: byte): Result<ErrorCode, CodecError> {
    match b
    case 1 => Ok(InvalidPayload)
    case 2 => Ok(ErrorCode.UnsupportedPipeline)
    case 3 => Ok(ErrorCode.UnsupportedMatchStrictness)
    case 4 => Ok(BiometricRejected)
    case 5 => Ok(MatchRejected)
    case 6 => Ok(ErrorCode.Internal)
    case _ => Err(Malformed)
  }

  function VerdictByte(v: Verdict): byte {
    match v
    case Pass => 0
    case Error(code) => CodeByte(code)
  }

  function ReportBytes(r: Response): seq<byte> {
    match r.debugReport
    case Some(report) => report
    case None => []
  }

  /** Wire bytes of an admissible response. */
  function ResponseBytes(r: Response): seq<byte> {
    ToBigEndian(r.requestId, ID_LEN) + [VerdictByte(r.verdict), if r.debugReport.Some? then 1 else 0] + ReportBytes(r)
  }

  function RequestBytes(id: nat, payload: seq<byte>): seq<byte> {
    ToBigEndian(id, ID_LEN) + payload
  }

  method EncodeRequest(id: u64, payload: seq<byte>) returns (r: Result<seq<byte>, CodecError>)
    ensures r == if id == 0 || payload == [] then Err(Malformed)
                 else if |payload| > MAX_PAYLOAD_BYTES then Err(TooLarge)
                 else Ok(RequestBytes(id, payload))
  {
    if id == 0 || payload == [] { return Err(Malformed); }
    if |payload| > MAX_PAYLOAD_BYTES { return Err(TooLarge); }
    var bytes := [];
    bytes := bytes + ToBigEndian(id, ID_LEN);
    bytes := bytes + payload;
    assert bytes == RequestBytes(id, payload);
    r := Ok(bytes);
  }

  method EncodeResponse(response: Response) returns (r: Result<seq<byte>, CodecError>)
    ensures r == if response.requestId == 0 then Err(Malformed)
                 else if |ReportBytes(response)| > MAX_DEBUG_REPORT_BYTES then Err(TooLarge)
                 else Ok(ResponseBytes(response))
  {
    if response.requestId == 0 { return Err(Malformed); }
    var report := ReportBytes(response);
    if |report| > MAX_DEBUG_REPORT_BYTES { return Err(TooLarge); }
    var bytes := [];
    bytes := bytes + ToBigEndian(response.requestId, ID_LEN);
    bytes := bytes + [match response.verdict case Pass => 0 case Error(code) => CodeByte(code)];
    bytes := bytes + [if response.debugReport.Some? then 1 else 0];
    bytes := bytes + report;
    assert bytes == ResponseBytes(response);
    r := Ok(bytes);
  }

  function RequestId(bytes: seq<byte>): Result<u64, CodecError>
    requires |bytes| == ID_LEN
  {
    Pow256Values();
    var id := FromBigEndian(bytes);
    if id == 0 then Err(Malformed) else Ok(id)
  }

  function DecodeRequest(bytes: seq<byte>): Result<(u64, seq<byte>), CodecError> {
    if |bytes| > MAX_REQUEST_BYTES then Err(TooLarge)
    else if |bytes| < ID_LEN then Err(Malformed) else
    match RequestId(bytes[..ID_LEN])
    case Err(e) => Err(e)
    case Ok(id) => if bytes[ID_LEN..] == [] then Err(Malformed) else Ok((id, bytes[ID_LEN..]))
  }

  function DecodeVerdict(b: byte): Result<Verdict, CodecError> {
    if b == 0 then Ok(Pass) else
    match CodeOf(b)
    case Err(e) => Err(e)
    case Ok(code) => Ok(Error(code))
  }

  function DecodeReport(flag: byte, report: seq<byte>): Result<Option<Report>, CodecError> {
    if flag == 0 && report == [] then Ok(None)
    else if flag == 1 then
      if ValidUtf8(report) && |report| < U64_LIMIT then Ok(Some(report)) else Err(Malformed)
    else Err(Malformed)
  }

  function DecodeResponse(bytes: seq<byte>): Result<Response, CodecError> {
    if |bytes| > MAX_RESPONSE_BYTES then Err(TooLarge)
    else if |bytes| < RESPONSE_HEADER_LEN then Err(Malformed) else
    match RequestId(bytes[..ID_LEN])
    case Err(e) => Err(e)
    case Ok(id) =>
      match DecodeVerdict(bytes[8])
      case Err(e) => Err(e)
      case Ok(verdict) =>
        match DecodeReport(bytes[9], bytes[RESPONSE_HEADER_LEN..])
        case Err(e) => Err(e)
        case Ok(report) => Ok(Response(id, verdict, report))
  }

  // One wire form per message, and one message per wire form

  predicate SendableRequest(id: u64, payload: seq<byte>) {
    id != 0 && 0 < |payload| <= MAX_PAYLOAD_BYTES
  }

  predicate SendableResponse(r: Response) {
    r.requestId != 0 && |ReportBytes(r)| <= MAX_DEBUG_REPORT_BYTES
  }

  /** `b` is the request `(id, payload)` exactly when it is that request's admissible encoding. */
  lemma RequestWireIff(id: u64, payload: seq<byte>, b: seq<byte>)
    ensures DecodeRequest(b) == Ok((id, payload)) <==> SendableRequest(id, payload) && b == RequestBytes(id, payload)
  {
    Pow256Values();
    if SendableRequest(id, payload) && b == RequestBytes(id, payload) {
      BigEndianRoundTrip(id, ID_LEN);
      assert b[..ID_LEN] == ToBigEndian(id, ID_LEN) && b[ID_LEN..] == payload;
    }
    if DecodeRequest(b) == Ok((id, payload)) {
      BigEndianUnique(b[..ID_LEN]);
      assert b == b[..ID_LEN] + b[ID_LEN..];
    }
  }

  /** `b` is the response `r` exactly when it is that response's admissible encoding. */
  lemma ResponseWireIff(r: Response, b: seq<byte>)
    ensures DecodeResponse(b) == Ok(r) <==> SendableResponse(r) && b == ResponseBytes(r)
  {
    Pow256Values();
    if SendableResponse(r) && b == ResponseBytes(r) {
      BigEndianRoundTrip(r.requestId, ID_LEN);
      assert b[..ID_LEN] == ToBigEndian(r.requestId, ID_LEN) && b[RESPONSE_HEADER_LEN..] == ReportBytes(r);
    }
    if DecodeResponse(b) == Ok(r) {
      BigEndianUnique(b[..ID_LEN]);
      assert b == b[..ID_LEN] + [b[8], b[9]] + b[RESPONSE_HEADER_LEN..];
    }
  }

  /** Bytes are refused as too large exactly above the codec's limit, however they go on; all other
      refusals are of malformed bytes. */
  lemma TooLargeIff(b: seq<byte>)
    ensures DecodeRequest(b) == Err(TooLarge) <==> |b| > 8 + 8 * 1024 * 1024
    ensures DecodeResponse(b) == Err(TooLarge) <==> |b| > 10 + 64 * 1024
    ensures |b| < 9 ==> DecodeRequest(b) == Err(Malformed)
    ensures |b| < 10 ==> DecodeResponse(b) == Err(Malformed)
  {}

  /** The frame limits coincide with the codec limits: every encoding fits the frame its side sends
      it in, and one more payload or report byte would not. */
  lemma FrameLimitsCoincide(id: u64, payload: seq<byte>, r: Response)
    requires id != 0 && r.requestId != 0
    ensures Framing.Sendable(RequestBytes(id, payload), MAX_REQUEST_BYTES) && payload != []
            <==> SendableRequest(id, payload)
    ensures Framing.Sendable(ResponseBytes(r), MAX_RESPONSE_BYTES) <==> SendableResponse(r)
  {}
}
