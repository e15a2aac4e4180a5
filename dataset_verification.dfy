/**
 * `DatasetVerification`, the record the enclave signs for the legacy
 * `process_data` endpoint, and its BCS encoding: the four byte vectors
 * `dataset_hash`, `dataset_url`, `format`, `schema_version` in declaration
 * order, each length-prefixed, then `verification_timestamp` as a `u64`.
 * The on-chain Move verifier rebuilds this record from its own fields and
 * re-encodes it; its bytes must equal these exactly for a signature to check.
 */
module Verification {
  import opened Bytes
  import opened Wrappers
  import opened Bcs
  import Uleb128

  datatype DatasetVerification = DatasetVerification(
    datasetHash: seq<Byte>,
    datasetUrl: seq<Byte>,
    format: seq<Byte>,
    schemaVersion: seq<Byte>,
    verificationTimestamp: U64)

  /** Every vector is short enough for BCS to write its length. */
  predicate Serializable(r: DatasetVerification) {
    && |r.datasetHash| <= MAX_SEQUENCE_LENGTH
    && |r.datasetUrl| <= MAX_SEQUENCE_LENGTH
    && |r.format| <= MAX_SEQUENCE_LENGTH
    && |r.schemaVersion| <= MAX_SEQUENCE_LENGTH
  }

  /** The length of one length-prefixed vector on the wire. */
  function FieldSize(v: seq<Byte>): nat {
    |Uleb128.Encode(|v|)| + |v|
  }

  /** `bcs::to_bytes` on the record; fails on the first vector that is too long. */
  function Serialize(r: DatasetVerification): (res: Result<seq<Byte>, Error>)
    ensures res.Ok? <==> Serializable(r)
    ensures res.Err? && |r.datasetHash| > MAX_SEQUENCE_LENGTH ==> res.error == ExceededMaxLen(|r.datasetHash|)
    ensures res.Ok? ==>
      |res.value| == FieldSize(r.datasetHash) + FieldSize(r.datasetUrl) + FieldSize(r.format) + FieldSize(r.schemaVersion) + 8
    ensures res.Ok? ==> res.value[|res.value| - 8..] == SerializeU64(r.verificationTimestamp)
  {
    var hash :- SerializeBytes(r.datasetHash);
    var url :- SerializeBytes(r.datasetUrl);
    var format :- SerializeBytes(r.format);
    var schema :- SerializeBytes(r.schemaVersion);
    var ts := SerializeU64(r.verificationTimestamp);
    var bytes := hash + url + format + schema + ts;
    assert bytes[|bytes| - 8..] == ts;
    Ok(bytes)
  }

  /** Reads the record's fields, in declaration order, from the front of `s`. */
  function Parse(s: seq<Byte>): (res: Result<Parsed<DatasetVerification>, Error>)
    ensures res.Ok? ==> Serializable(res.value.value) && |res.value.rest| + 12 <= |s|
  {
    var hash :- DeserializeBytes(s);
    var url :- DeserializeBytes(hash.rest);
    var format :- DeserializeBytes(url.rest);
    var schema :- DeserializeBytes(format.rest);
    var ts :- DeserializeU64(schema.rest);
    Ok(Parsed(DatasetVerification(hash.value, url.value, format.value, schema.value, ts.value), ts.rest))
  }

  /**
   * `bcs::from_bytes`: the whole input must be consumed. Whatever it accepts
   * is the encoder's own output for the record it returns, so no other
   * spelling of a record decodes.
   */
  function Deserialize(s: seq<Byte>): (res: Result<DatasetVerification, Error>)
    ensures res.Ok? ==> Serialize(res.value) == Ok(s)
    ensures Parse(s).Ok? && Parse(s).value.rest != [] ==> res == Err(RemainingInput)
  {
    match Parse(s)
    case Err(e) => Err(e)
    case Ok(p) =>
      if p.rest != [] then Err(RemainingInput)
      else
        WholeInputCanonical(s);
        Ok(p.value)
  }

  /** A parse that consumes the whole input read back the encoding of its record. */
  lemma WholeInputCanonical(s: seq<Byte>)
    requires Parse(s).Ok? && Parse(s).value.rest == []
    ensures Serialize(Parse(s).value.value) == Ok(s)
  {
    ParseCanonical(s);
    var bytes := Serialize(Parse(s).value.value);
    assert bytes.Ok? && s == bytes.value + [];
    assert s == bytes.value;
  }

  lemma ParseRoundTrip(r: DatasetVerification, rest: seq<Byte>)
    requires Serializable(r)
    ensures Parse(Serialize(r).value + rest) == Ok(Parsed(r, rest))
  {
    var hash := SerializeBytes(r.datasetHash).value;
    var url := SerializeBytes(r.datasetUrl).value;
    var format := SerializeBytes(r.format).value;
    var schema := SerializeBytes(r.schemaVersion).value;
    var ts := SerializeU64(r.verificationTimestamp);
    var afterSchema := ts + rest;
    var afterFormat := schema + afterSchema;
    var afterUrl := format + afterFormat;
    var afterHash := url + afterUrl;
    var s := Serialize(r).value + rest;
    SerializeThen(r, rest);
    BytesRoundTrip(r.datasetHash, afterHash);
    BytesRoundTrip(r.datasetUrl, afterUrl);
    BytesRoundTrip(r.format, afterFormat);
    BytesRoundTrip(r.schemaVersion, afterSchema);
    U64RoundTrip(r.verificationTimestamp, rest);
  }

  /** The record's bytes followed by `rest`, written as its five fields each followed by what comes after. */
  lemma SerializeThen(r: DatasetVerification, rest: seq<Byte>)
    requires Serializable(r)
    ensures Serialize(r).value + rest ==
      SerializeBytes(r.datasetHash).value + (SerializeBytes(r.datasetUrl).value + (SerializeBytes(r.format).value
        + (SerializeBytes(r.schemaVersion).value + (SerializeU64(r.verificationTimestamp) + rest))))
  {
    Reassociate(SerializeBytes(r.datasetHash).value, SerializeBytes(r.datasetUrl).value, SerializeBytes(r.format).value,
      SerializeBytes(r.schemaVersion).value, SerializeU64(r.verificationTimestamp), rest);
  }

  /** Decoding the BCS bytes of any record gives back every one of its fields. */
  lemma RoundTrip(r: DatasetVerification)
    requires Serializable(r)
    ensures Deserialize(Serialize(r).value) == Ok(r)
  {
    ParseRoundTrip(r, []);
    assert Serialize(r).value + [] == Serialize(r).value;
  }

  lemma ParseCanonical(s: seq<Byte>)
    requires Parse(s).Ok?
    ensures Serializable(Parse(s).value.value)
    ensures s == Serialize(Parse(s).value.value).value + Parse(s).value.rest
  {
    var hash := DeserializeBytes(s).value;
    var url := DeserializeBytes(hash.rest).value;
    var format := DeserializeBytes(url.rest).value;
    var schema := DeserializeBytes(format.rest).value;
    var ts := DeserializeU64(schema.rest).value;
    var r := DatasetVerification(hash.value, url.value, format.value, schema.value, ts.value);
    assert Parse(s).value == Parsed(r, ts.rest);
    BytesCanonical(s);
    BytesCanonical(hash.rest);
    BytesCanonical(url.rest);
    BytesCanonical(format.rest);
    U64Canonical(schema.rest);
    var hashBytes := SerializeBytes(hash.value).value;
    var urlBytes := SerializeBytes(url.value).value;
    var formatBytes := SerializeBytes(format.value).value;
    var schemaBytes := SerializeBytes(schema.value).value;
    var tsBytes := SerializeU64(ts.value);
    assert Serialize(r).value == hashBytes + urlBytes + formatBytes + schemaBytes + tsBytes;
    assert s == hashBytes + (urlBytes + (formatBytes + (schemaBytes + (tsBytes + ts.rest))));
    Reassociate(hashBytes, urlBytes, formatBytes, schemaBytes, tsBytes, ts.rest);
  }

  lemma Reassociate<T>(a: seq<T>, b: seq<T>, c: seq<T>, d: seq<T>, e: seq<T>, f: seq<T>)
    ensures a + (b + (c + (d + (e + f)))) == (a + b + c + d + e) + f
  {
  }

  /** Distinct records never share an encoding. */
  lemma SerializeInjective(a: DatasetVerification, b: DatasetVerification)
    requires Serialize(a).Ok? && Serialize(a) == Serialize(b)
    ensures a == b
  {
    RoundTrip(a);
    RoundTrip(b);
  }

  /** Changing only the timestamp changes the bytes. */
  lemma TimestampChangesEncoding(r: DatasetVerification, t: U64)
    requires Serializable(r) && t != r.verificationTimestamp
    ensures Serialize(r.(verificationTimestamp := t)) != Serialize(r)
  {
    var r' := r.(verificationTimestamp := t);
    if Serialize(r') == Serialize(r) {
      SerializeInjective(r, r');
    }
  }
}
