/** The wire formats byte by byte: where each field lies, and fixed encodings that must never change. */
module KnownBytes {
  import opened Bytes
  import opened Cbor
  import opened SealedTypes
  import opened Wrappers
  import Envelope = ResponseEnvelope
  import Engine = EngineInterface
  import Framing

  /** The byte of `n` that weighs 256 to the `k`. */
  function Digit(n: nat, k: nat): byte { n / Pow256(k) % 256 }

  /** A number of `k` bytes at the start of `b`, most significant byte first. */
  predicate StartsWith(b: seq<byte>, n: nat, k: nat) {
    |b| >= k && forall i :: 0 <= i < k ==> b[i] == Digit(n, k - 1 - i)
  }

  lemma BigEndianStarts(n: nat, k: nat, rest: seq<byte>)
    ensures StartsWith(ToBigEndian(n, k) + rest, n, k)
  {
    forall i | 0 <= i < k ensures (ToBigEndian(n, k) + rest)[i] == Digit(n, k - 1 - i) { BigEndianDigit(n, k, i); }
  }

  /** A frame is its payload's length in four bytes, most significant first, and the payload. */
  lemma FrameLayout(payload: seq<byte>)
    ensures var b := Framing.FrameBytes(payload); StartsWith(b, |payload|, 4) && b[4..] == payload
  {
    BigEndianStarts(|payload|, 4, payload);
  }

  /** A request is its ID in eight bytes, most significant first, and the payload. */
  lemma RequestLayout(id: nat, payload: seq<byte>)
    ensures var b := Engine.RequestBytes(id, payload); StartsWith(b, id, 8) && b[8..] == payload
  {
    BigEndianStarts(id, 8, payload);
  }

  /** The byte of a verdict. */
  const VERDICTS: seq<Engine.Verdict> := [
    Engine.Pass, Engine.Error(Engine.InvalidPayload), Engine.Error(Engine.ErrorCode.UnsupportedPipeline),
    Engine.Error(Engine.ErrorCode.UnsupportedMatchStrictness), Engine.Error(Engine.BiometricRejected),
    Engine.Error(Engine.MatchRejected), Engine.Error(Engine.ErrorCode.Internal)]

  /** A response is its ID in eight bytes, the place of its verdict among the seven, whether a report
      follows, and the report. */
  lemma ResponseLayout(r: Engine.Response)
    ensures var b := Engine.ResponseBytes(r);
      && |b| >= 10 && StartsWith(b, r.requestId, 8)
      && b[8] < 7 && VERDICTS[b[8]] == r.verdict
      && b[9] == (if r.debugReport.Some? then 1 else 0)
      && b[10..] == if r.debugReport.Some? then r.debugReport.value else []
  {
    var b := Engine.ResponseBytes(r);
    var head := [Engine.VerdictByte(r.verdict), if r.debugReport.Some? then 1 else 0];
    BigEndianStarts(r.requestId, 8, head + Engine.ReportBytes(r));
    assert b == ToBigEndian(r.requestId, 8) + (head + Engine.ReportBytes(r));
  }

  /** An envelope is the payload's length in four bytes, the payload, and zeros to the fixed length. */
  lemma EnvelopeLayout(payload: seq<byte>)
    requires |payload| <= Envelope.BUDGET
    ensures var e, end := Envelope.Envelope(payload), 4 + |payload|;
      && |e| == 96 * 1024 && StartsWith(e, |payload|, 4) && e[4..end] == payload
      && forall i :: end <= i < |e| ==> e[i] == 0
  {
    BigEndianStarts(|payload|, 4, payload + Envelope.Zeros(Envelope.BUDGET - |payload|));
    Envelope.EnvelopeParts(payload);
    assert Envelope.Envelope(payload)
        == ToBigEndian(|payload|, 4) + (payload + Envelope.Zeros(Envelope.BUDGET - |payload|));
  }

  /** Encodings listed in appendix A of RFC 8949. */
  lemma CborExamples()
    ensures Encode(UInt(0)) == [0x00] && Encode(UInt(23)) == [0x17] && Encode(UInt(24)) == [0x18, 0x18]
    ensures Encode(UInt(100)) == [0x18, 0x64] && Encode(UInt(1000)) == [0x19, 0x03, 0xE8]
    ensures Encode(Null) == [0xF6] && Encode(ByteString([])) == [0x40]
    ensures Encode(ByteString([1, 2, 3, 4])) == [0x44, 0x01, 0x02, 0x03, 0x04]
  {}

  lemma CborFourByteExample()
    ensures Encode(UInt(1_000_000)) == [0x1A, 0x00, 0x0F, 0x42, 0x40]
  {
    assert ToBigEndian(1_000_000, 4) == [0x00, 0x0F, 0x42, 0x40];
  }

  lemma CborEightByteExample()
    ensures Encode(UInt(1_000_000_000_000)) == [0x1B, 0x00, 0x00, 0x00, 0xE8, 0xD4, 0xA5, 0x10, 0x00]
  {
    assert ToBigEndian(1_000_000_000_000, 8) == [0x00, 0x00, 0x00, 0xE8, 0xD4, 0xA5, 0x10, 0x00];
  }

  // The sealed response

  /** A short text item. */
  function Name(name: string): seq<byte>
    requires |name| < 24
  {
    [0x60 + |name|] + Ascii(name)
  }

  lemma EncodeName(name: string)
    requires |name| < 24
    ensures Encodable(Envelope.Unit(name)) && Encode(Envelope.Unit(name)) == Name(name)
    ensures Head(MAJOR_TEXT, |name|) + Ascii(name) == Name(name)
  {
    Envelope.UnitEncodable(name);
  }

  lemma EncodeTagged(name: string, content: Value)
    requires |name| < 24 && Encodable(content)
    ensures Encodable(Envelope.Tagged(Ascii(name), content))
    ensures Encode(Envelope.Tagged(Ascii(name), content)) == [0xA1] + Name(name) + Encode(content)
  {
    Envelope.TaggedEncodable(name, content);
    EncodeName(name);
    var fields := Field(Ascii(name), content, End);
    assert FieldCount(fields) == 1;
    assert EncodeFields(fields) == Name(name) + Encode(content) + [];
  }

  lemma EncodePair(k1: string, v1: Value, k2: string, v2: Value)
    requires |k1| < 24 && |k2| < 24 && Encodable(v1) && Encodable(v2)
    ensures var v := Envelope.Pair(Ascii(k1), v1, Ascii(k2), v2);
      Encodable(v) && Encode(v) == [0xA2] + Name(k1) + Encode(v1) + (Name(k2) + Encode(v2))
  {
    Envelope.PairEncodable(k1, v1, k2, v2);
    EncodeName(k1);
    EncodeName(k2);
    var rest := Field(Ascii(k2), v2, End);
    assert FieldCount(rest) == 1;
    assert FieldCount(Field(Ascii(k1), v1, rest)) == 2;
    assert EncodeFields(rest) == Name(k2) + Encode(v2) + [];
  }

  /** Every rejection without a report, byte by byte. */
  lemma RejectionBytes(reason: FailureReason)
    ensures Encodable(Envelope.ReasonValue(reason))
    ensures Envelope.Serialized(MatchResult.Failed(reason, NotProduced))
      == [0xA1] + Name("Failed")
         + ([0xA2] + Name("reason") + Encode(Envelope.ReasonValue(reason)) + (Name("debug_report") + Name("not_produced")))
  {
    var value, report := Envelope.ReasonValue(reason), Envelope.Unit("not_produced");
    Envelope.ReasonSize(reason);
    EncodeName("not_produced");
    EncodePair("reason", value, "debug_report", report);
    EncodeTagged("Failed", Envelope.Pair(Ascii("reason"), value, Ascii("debug_report"), report));
  }

  /** The one payload whose bytes the repository freezes: a malformed request without a report, in 59 bytes. */
  lemma FrozenRejection()
    ensures var b := Envelope.Serialized(MatchResult.Failed(MalformedInputs, NotProduced));
      && |b| == 59
      && b == [0xA1] + Name("Failed")
              + ([0xA2] + Name("reason") + Name("malformed_inputs") + (Name("debug_report") + Name("not_produced")))
  {
    EncodeName("malformed_inputs");
    RejectionBytes(MalformedInputs);
    assert |Name("Failed")| == 7 && |Name("reason")| == 7 && |Name("malformed_inputs")| == 17;
    assert |Name("debug_report")| == 13 && |Name("not_produced")| == 13;
  }

  /** Every success without a report, byte by byte. */
  lemma SuccessBytes(s: Envelope.AttestedStatement)
    ensures Envelope.Serialized(MatchResult.Success(s, NotProduced))
      == [0xA1] + Name("Success")
         + ([0xA2] + Name("statement")
            + ([0xA2] + Name("token") + Encode(ByteString(s.token))
               + (Name("signing_key_attestation") + Encode(ByteString(s.signingKeyAttestation))))
            + (Name("debug_report") + Name("not_produced")))
  {
    var token, attestation := ByteString(s.token), ByteString(s.signingKeyAttestation);
    var statement, report := Envelope.StatementValue(s), Envelope.Unit("not_produced");
    EncodeName("not_produced");
    EncodePair("token", token, "signing_key_attestation", attestation);
    EncodePair("statement", statement, "debug_report", report);
    EncodeTagged("Success", Envelope.Pair(Ascii("statement"), statement, Ascii("debug_report"), report));
  }

  /** The stable names of the reasons that carry nothing. */
  const REASON_NAMES: seq<(FailureReason, string)> := [
    (MalformedInputs, "malformed_inputs"), (FailureReason.RequestTooLarge, "request_too_large"),
    (UnsupportedRelease, "unsupported_release"), (FailureReason.UnsupportedPipeline, "unsupported_pipeline"),
    (FailureReason.UnsupportedMatchStrictness, "unsupported_match_strictness"), (AatRejected, "aat_rejected"),
    (Replayed, "replayed"), (EngineTimeout, "engine_timeout"), (FailureReason.Internal, "internal")]

  lemma ReasonNames(k: nat)
    requires k < |REASON_NAMES|
    ensures Envelope.ReasonValue(REASON_NAMES[k].0) == Text(Ascii(REASON_NAMES[k].1))
  {}

  const COMPARISON_NAMES: seq<(ComparisonRole, string)> := [
    (OrbSelfie, "orb_selfie"), (OrbChallenge, "orb_challenge"), (SelfieChallenge, "selfie_challenge")]

  const IMAGE_NAMES: seq<(ImageRole, string)> := [
    (OrbCredential, "orb_credential"), (LiveSelfie, "live_selfie"), (RtmsChallenge, "rtms_challenge")]

  const TARGET_NAMES: seq<(ValidationTarget, string)> := [
    (Image, "image"), (IlluminatedFrame, "illuminated_frame"), (UnilluminatedFrame, "unilluminated_frame"),
    (LightGuardPair, "light_guard_pair")]

  const INPUT_NAMES: seq<(InputFailureReason, string)> := [
    (MissingImage, "missing_image"), (MissingSource, "missing_source"),
    (InvalidMatchingFrame, "invalid_matching_frame"), (EmptyImage, "empty_image"),
    (ImageTooLarge, "image_too_large"), (TotalImagesTooLarge, "total_images_too_large")]

  lemma EncodeTaggedName(tag: string, name: string)
    requires |tag| < 24 && |name| < 24
    ensures var v := Envelope.Tagged(Ascii(tag), Text(Ascii(name)));
            Encodable(v) && Encode(v) == [0xA1] + Name(tag) + Name(name)
  {
    EncodeName(name);
    EncodeTagged(tag, Envelope.Unit(name));
  }

  lemma ComparisonNames(k: nat)
    requires k < |COMPARISON_NAMES|
    ensures var (role, name) := COMPARISON_NAMES[k];
      && Envelope.ReasonValue(MatchBelowThreshold(role))
         == Envelope.Tagged(Ascii("match_below_threshold"), Text(Ascii(name)))
      && Envelope.ReasonValue(MatchingFailed(role)) == Envelope.Tagged(Ascii("matching_failed"), Text(Ascii(name)))
  {}

  /** A comparison below its threshold, byte by byte: the name of the reason and the name of its role. */
  lemma BelowThresholdBytes(k: nat)
    requires k < |COMPARISON_NAMES|
    ensures var v := Envelope.ReasonValue(MatchBelowThreshold(COMPARISON_NAMES[k].0));
      Encodable(v) && Encode(v) == [0xA1] + Name("match_below_threshold") + Name(COMPARISON_NAMES[k].1)
  {
    var name := COMPARISON_NAMES[k].1;
    ComparisonNames(k);
    EncodeTaggedName("match_below_threshold", name);
  }

  /** A comparison that failed, byte by byte. */
  lemma MatchingFailedBytes(k: nat)
    requires k < |COMPARISON_NAMES|
    ensures var v := Envelope.ReasonValue(MatchingFailed(COMPARISON_NAMES[k].0));
      Encodable(v) && Encode(v) == [0xA1] + Name("matching_failed") + Name(COMPARISON_NAMES[k].1)
  {
    var name := COMPARISON_NAMES[k].1;
    ComparisonNames(k);
    EncodeTaggedName("matching_failed", name);
  }

  /** An image or an input that was rejected: the names of the fields, of the place and of the reason. */
  lemma RejectedNames(i: nat, t: nat, n: nat, wire: ImageFailureReason, limit: u64)
    requires i < |IMAGE_NAMES| && t < |TARGET_NAMES| && n < |INPUT_NAMES|
    ensures Envelope.ReasonValue(ImageRejected(IMAGE_NAMES[i].0, wire, Some(TARGET_NAMES[t].0)))
         == Map(Field(Ascii("image_rejected"),
                Map(Field(Ascii("image"), Text(Ascii(IMAGE_NAMES[i].1)),
                    Field(Ascii("reason"), Text(wire),
                    Field(Ascii("target"), Text(Ascii(TARGET_NAMES[t].1)), End)))), End))
    ensures Envelope.ReasonValue(InputRejected(INPUT_NAMES[n].0, Some(IMAGE_NAMES[i].0), Some(limit)))
         == Map(Field(Ascii("input_rejected"),
                Map(Field(Ascii("reason"), Text(Ascii(INPUT_NAMES[n].1)),
                    Field(Ascii("image"), Text(Ascii(IMAGE_NAMES[i].1)),
                    Field(Ascii("limit_bytes"), UInt(limit), End)))), End))
  {}

  /** The three forms of a debug report, byte by byte. */
  lemma ReportBytes(json: Report, size: u64)
    ensures var kept, omitted := Envelope.ReportValue(Available(json)), Envelope.ReportValue(OmittedTooLarge(size));
      && Encodable(kept)
      && Encode(kept) == [0xA1] + Name("available") + ([0xA1] + Name("json") + Encode(Text(json)))
      && Encodable(omitted)
      && Encode(omitted) == [0xA1] + Name("omitted_too_large") + ([0xA1] + Name("original_size_bytes") + Encode(UInt(size)))
    ensures Encodable(Envelope.ReportValue(NotProduced))
    ensures Encode(Envelope.ReportValue(NotProduced)) == Name("not_produced")
  {
    EncodeName("not_produced");
    EncodeTagged("json", Text(json));
    EncodeTagged("available", Envelope.Tagged(Ascii("json"), Text(json)));
    EncodeTagged("original_size_bytes", UInt(size));
    EncodeTagged("omitted_too_large", Envelope.Tagged(Ascii("original_size_bytes"), UInt(size)));
  }
}
