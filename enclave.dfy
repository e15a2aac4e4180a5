/**
 * The legacy `process_data` request path: hash the fetched dataset, check the
 * digest against the caller's optional hex-encoded expectation, and sign the
 * BCS bytes of an `IntentMessage<DatasetVerification>` stamped with one
 * timestamp. The clock, the fetch, SHA-256 and the Ed25519 key are inputs:
 * `now`, `content`, `sha256` and `sign`.
 */
module Enclave {
  import opened Bytes
  import opened Wrappers
  import Bcs
  import Hex
  import Verification
  import Intent

  datatype EnclaveError = GenericError(message: string)

  const INVALID_EXPECTED_HASH: string := "Invalid expected hash format"
  const HASH_MISMATCH: string := "Dataset hash mismatch"

  /** A SHA-256 digest. */
  type Digest = s: seq<Byte> | |s| == 32 witness seq(32, i => 0)

  /**
   * The request body; each string is held as its UTF-8 bytes, which is what
   * `as_bytes()` copies into the record and what `hex::decode` reads.
   */
  datatype DatasetRequest = DatasetRequest(
    datasetUrl: seq<Byte>,
    expectedHash: Option<seq<Byte>>,
    format: seq<Byte>,
    schemaVersion: seq<Byte>)

  datatype SignedResponse = SignedResponse(response: Intent.IntentMessage, signature: seq<Byte>)

  /** The optional expected-hash gate; `Ok` lets signing go ahead. */
  function CheckExpectedHash(datasetHash: seq<Byte>, expectedHash: Option<seq<Byte>>): (r: Result<(), EnclaveError>)
    ensures r.Ok? <==> expectedHash.None? || Hex.Decode(expectedHash.value) == Ok(datasetHash)
    ensures expectedHash.Some? && !Hex.ValidHex(expectedHash.value) ==> r == Err(GenericError(INVALID_EXPECTED_HASH))
    ensures expectedHash.Some? && Hex.ValidHex(expectedHash.value) && Hex.Decode(expectedHash.value) != Ok(datasetHash)
      ==> r == Err(GenericError(HASH_MISMATCH))
  {
    match expectedHash
    case None => Ok(())
    case Some(expected) =>
      Hex.DecodeSucceeds(expected);
      match Hex.Decode(expected)
      case Err(_) => Err(GenericError(INVALID_EXPECTED_HASH))
      case Ok(expectedBytes) =>
        if datasetHash != expectedBytes then Err(GenericError(HASH_MISMATCH)) else Ok(())
  }

  /** The bytes the enclave signs for a message. */
  function SigningPayload(m: Intent.IntentMessage): (bytes: seq<Byte>)
    requires Verification.Serializable(m.data)
    ensures Intent.Deserialize(bytes) == Ok(m)
  {
    Intent.RoundTrip(m);
    Intent.Serialize(m).value
  }

  /**
   * Wraps the payload, signs the wrapper's BCS bytes and returns both.
   * Serialization cannot fail for a record whose vectors BCS can length-prefix.
   */
  function ToSignedResponse(
    sign: seq<Byte> -> seq<Byte>,
    payload: Verification.DatasetVerification,
    timestampMs: U64,
    intent: Intent.IntentScope): (r: SignedResponse)
    requires Verification.Serializable(payload)
    ensures r.response.data == payload && r.response.timestampMs == timestampMs && r.response.intent == intent
    ensures r.signature == sign(SigningPayload(r.response))
  {
    var message := Intent.New(payload, timestampMs, intent);
    SignedResponse(message, sign(SigningPayload(message)))
  }

  /** Every request field that ends up in the record can be length-prefixed by BCS. */
  predicate RequestSerializable(request: DatasetRequest) {
    && |request.datasetUrl| <= Bcs.MAX_SEQUENCE_LENGTH
    && |request.format| <= Bcs.MAX_SEQUENCE_LENGTH
    && |request.schemaVersion| <= Bcs.MAX_SEQUENCE_LENGTH
  }

  /** `process_data` after the clock read and the fetch have succeeded. */
  function ProcessData(
    request: DatasetRequest,
    now: U64,
    content: seq<Byte>,
    sha256: seq<Byte> -> Digest,
    sign: seq<Byte> -> seq<Byte>): (r: Result<SignedResponse, EnclaveError>)
    requires CheckExpectedHash(sha256(content), request.expectedHash).Ok? ==> RequestSerializable(request)
    ensures r.Ok? <==> request.expectedHash.None? || Hex.Decode(request.expectedHash.value) == Ok(sha256(content))
    ensures r.Err? ==> r.error == CheckExpectedHash(sha256(content), request.expectedHash).error
    ensures r.Ok? ==> r.value.response.intent == Intent.ProcessData
    ensures r.Ok? ==> r.value.response.timestampMs == now && r.value.response.data.verificationTimestamp == now
    ensures r.Ok? ==> r.value.response.data == Verification.DatasetVerification(
      sha256(content), request.datasetUrl, request.format, request.schemaVersion, now)
    ensures r.Ok? ==> r.value.signature == sign(SigningPayload(r.value.response))
  {
    var datasetHash := sha256(content);
    match CheckExpectedHash(datasetHash, request.expectedHash)
    case Err(e) => Err(e)
    case Ok(_) =>
      var record := Verification.DatasetVerification(
        datasetHash, request.datasetUrl, request.format, request.schemaVersion, now);
      Ok(ToSignedResponse(sign, record, now, Intent.ProcessData))
  }

  /** The hex spelling of the digest itself, lower-case or upper-case, always passes the gate. */
  lemma OwnHexAccepted(datasetHash: seq<Byte>)
    ensures CheckExpectedHash(datasetHash, Some(Hex.Encode(datasetHash))).Ok?
    ensures CheckExpectedHash(datasetHash, Some(Hex.EncodeUpper(datasetHash))).Ok?
  {
    Hex.DecodeEncode(datasetHash);
    Hex.DecodeEncodeUpper(datasetHash);
  }

  /**
   * The gate accepts an expectation exactly when it spells the digest in hex,
   * each digit in either case.
   */
  lemma AcceptedIffDigestHex(datasetHash: seq<Byte>, expected: seq<Byte>)
    ensures CheckExpectedHash(datasetHash, Some(expected)).Ok? <==> Hex.FoldCase(expected) == Hex.Encode(datasetHash)
  {
    if CheckExpectedHash(datasetHash, Some(expected)).Ok? {
      Hex.DecodedIsFoldedEncoding(expected);
    }
    if Hex.FoldCase(expected) == Hex.Encode(datasetHash) {
      Hex.DecodeEncode(datasetHash);
      Hex.DecodeFoldCase(expected);
    }
  }

  /** An accepted lower-case expectation is exactly the hex spelling of the digest. */
  lemma AcceptedLowerHexIsDigest(datasetHash: seq<Byte>, expected: seq<Byte>)
    requires forall i :: 0 <= i < |expected| ==> Hex.IsLowerHexDigit(expected[i])
    requires CheckExpectedHash(datasetHash, Some(expected)).Ok?
    ensures expected == Hex.Encode(datasetHash)
  {
    Hex.EncodeDecode(expected);
  }

  /** A well-formed expectation of any length other than 64 digits never matches a SHA-256 digest. */
  lemma WrongLengthMismatches(datasetHash: Digest, expected: seq<Byte>)
    requires Hex.ValidHex(expected) && |expected| != 64
    ensures CheckExpectedHash(datasetHash, Some(expected)) == Err(GenericError(HASH_MISMATCH))
  {
  }

  /**
   * The signed bytes carry the `ProcessData` scope byte, then `now` as the
   * intent timestamp, and end with `now` again as the record's timestamp.
   */
  lemma SignedBytesCarryOneTimestamp(
    request: DatasetRequest, now: U64, content: seq<Byte>,
    sha256: seq<Byte> -> Digest, sign: seq<Byte> -> seq<Byte>)
    requires RequestSerializable(request)
    requires ProcessData(request, now, content, sha256, sign).Ok?
    ensures var bytes := SigningPayload(ProcessData(request, now, content, sha256, sign).value.response);
      && |bytes| >= 17
      && bytes[0] == 0x00
      && bytes[1..9] == Bcs.SerializeU64(now)
      && bytes[|bytes| - 8..] == Bcs.SerializeU64(now)
  {
    var m := ProcessData(request, now, content, sha256, sign).value.response;
    assert m.timestampMs == now && m.data.verificationTimestamp == now;
    Intent.SerializedTimestamps(m);
  }

  /** Two responses signed at different times sign different bytes, so one cannot stand in for the other. */
  lemma DistinctTimesSignDistinctBytes(
    request: DatasetRequest, now1: U64, now2: U64, content: seq<Byte>,
    sha256: seq<Byte> -> Digest, sign: seq<Byte> -> seq<Byte>)
    requires RequestSerializable(request) && now1 != now2
    requires ProcessData(request, now1, content, sha256, sign).Ok?
    ensures ProcessData(request, now2, content, sha256, sign).Ok?
    ensures SigningPayload(ProcessData(request, now1, content, sha256, sign).value.response)
      != SigningPayload(ProcessData(request, now2, content, sha256, sign).value.response)
  {
    var m1 := ProcessData(request, now1, content, sha256, sign).value.response;
    var m2 := ProcessData(request, now2, content, sha256, sign).value.response;
    if SigningPayload(m1) == SigningPayload(m2) {
      Intent.SerializeInjective(m1, m2);
    }
  }
}
