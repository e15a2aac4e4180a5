/**
 * The intent wrapper that is actually signed: an `IntentMessage` holding the
 * intent scope, a millisecond timestamp and the `DatasetVerification` payload,
 * BCS-encoded in that field order. The scope is an enum whose only variant
 * here, `ProcessData`, has index 0.
 */
module Intent {
  import opened Bytes
  import opened Wrappers
  import opened Bcs
  import Verification

  datatype IntentScope = ProcessData

  function VariantIndex(scope: IntentScope): nat {
    match scope
    case ProcessData => 0
  }

  /** An enum value on the wire is its ULEB128 variant index. */
  function SerializeScope(scope: IntentScope): (r: seq<Byte>)
    ensures r == [0x00]
  {
    SerializeVariantIndex(VariantIndex(scope))
  }

  function DeserializeScope(s: seq<Byte>): (r: Result<Parsed<IntentScope>, Error>)
    ensures r.Ok? <==> |s| > 0 && s[0] == 0x00
    ensures r.Ok? ==> r.value.rest == s[1..]
  {
    var index :- DeserializeVariantIndex(s);
    VariantIndexCanonical(s);
    if index.value == 0 then Ok(Parsed(ProcessData, index.rest))
    else Err(UnknownVariant(index.value))
  }

  datatype IntentMessage = IntentMessage(
    intent: IntentScope,
    timestampMs: U64,
    data: Verification.DatasetVerification)

  /** `IntentMessage::new(data, timestamp_ms, intent)`. */
  function New(data: Verification.DatasetVerification, timestampMs: U64, intent: IntentScope): (m: IntentMessage)
    ensures m.data == data && m.timestampMs == timestampMs && m.intent == intent
  {
    IntentMessage(intent, timestampMs, data)
  }

  /** `bcs::to_bytes` on the wrapper: scope byte, eight timestamp bytes, then the payload's own encoding. */
  function Serialize(m: IntentMessage): (r: Result<seq<Byte>, Error>)
    ensures r.Ok? <==> Verification.Serializable(m.data)
    ensures r.Err? ==> r == Verification.Serialize(m.data).PropagateFailure()
    ensures r.Ok? ==> |r.value| >= 9 && r.value[0] == 0x00 && r.value[1..9] == SerializeU64(m.timestampMs)
    ensures r.Ok? ==> Verification.Serialize(m.data) == Ok(r.value[9..])
  {
    var data :- Verification.Serialize(m.data);
    var bytes := SerializeScope(m.intent) + SerializeU64(m.timestampMs) + data;
    assert bytes[1..9] == SerializeU64(m.timestampMs) && bytes[9..] == data;
    Ok(bytes)
  }

  /** Reads the scope, `timestamp_ms`, then the record from the front of `s`. */
  function Parse(s: seq<Byte>): (r: Result<Parsed<IntentMessage>, Error>)
    ensures r.Ok? ==> Verification.Serializable(r.value.value.data) && |r.value.rest| + 21 <= |s|
  {
    var scope :- DeserializeScope(s);
    var ts :- DeserializeU64(scope.rest);
    var data :- Verification.Parse(ts.rest);
    Ok(Parsed(IntentMessage(scope.value, ts.value, data.value), data.rest))
  }

  /**
   * `bcs::from_bytes` for the wrapper. Whatever it accepts is the encoder's
   * own output for the message it returns, so no other byte string decodes.
   */
  function Deserialize(s: seq<Byte>): (r: Result<IntentMessage, Error>)
    ensures r.Ok? ==> Serialize(r.value) == Ok(s)
    ensures Parse(s).Ok? && Parse(s).value.rest != [] ==> r == Err(RemainingInput)
  {
    match Parse(s)
    case Err(e) => Err(e)
    case Ok(p) =>
      if p.rest != [] then Err(RemainingInput)
      else
        WholeInputCanonical(s);
        Ok(p.value)
  }

  lemma ParseRoundTrip(m: IntentMessage)
    requires Verification.Serializable(m.data)
    ensures Parse(Serialize(m).value) == Ok(Parsed(m, []))
  {
    var data := Verification.Serialize(m.data).value;
    var ts := SerializeU64(m.timestampMs);
    var s := Serialize(m).value;
    assert s == [0x00] + (ts + (data + []));
    assert s[1..] == ts + (data + []);
    var scope := DeserializeScope(s);
    assert scope.Ok? && scope.value.rest == ts + (data + []);
    assert scope.value.value == m.intent;
    U64RoundTrip(m.timestampMs, data + []);
    Verification.ParseRoundTrip(m.data, []);
    var p := Parse(s);
    assert p.Ok? && p.value.value == m && p.value.rest == [];
  }

  /** Decoding the signed bytes recovers the scope, the timestamp and every payload field. */
  lemma RoundTrip(m: IntentMessage)
    requires Verification.Serializable(m.data)
    ensures Deserialize(Serialize(m).value) == Ok(m)
  {
    ParseRoundTrip(m);
  }

  lemma SerializeLayout(m: IntentMessage)
    requires Verification.Serializable(m.data)
    ensures Serialize(m).value == [0x00] + (SerializeU64(m.timestampMs) + Verification.Serialize(m.data).value)
  {
  }

  lemma ParseShape(s: seq<Byte>)
    requires Parse(s).Ok?
    ensures |s| >= 9 && s[0] == 0x00
    ensures DeserializeU64(s[1..]) == Ok(Parsed(Parse(s).value.value.timestampMs, s[9..]))
    ensures Verification.Parse(s[9..]) == Ok(Parsed(Parse(s).value.value.data, Parse(s).value.rest))
  {
  }

  /** Puts an intent message back together from its three encoded parts. */
  lemma Reassemble(s: seq<Byte>, m: IntentMessage, rest: seq<Byte>)
    requires |s| >= 9 && s[0] == 0x00 && s[1..9] == SerializeU64(m.timestampMs)
    requires Verification.Serializable(m.data) && s[9..] == Verification.Serialize(m.data).value + rest
    ensures s == Serialize(m).value + rest
  {
    SerializeLayout(m);
    var tsBytes := SerializeU64(m.timestampMs);
    var dataBytes := Verification.Serialize(m.data).value;
    calc {
      s;
      [s[0]] + s[1..9] + s[9..];
      [0x00] + tsBytes + (dataBytes + rest);
      ([0x00] + (tsBytes + dataBytes)) + rest;
    }
  }

  /** The three parts `Parse` reads, each re-encoded, give back the input. */
  lemma CanonicalFromShape(s: seq<Byte>, m: IntentMessage, rest: seq<Byte>)
    requires |s| >= 9 && s[0] == 0x00
    requires DeserializeU64(s[1..]) == Ok(Parsed(m.timestampMs, s[9..]))
    requires Verification.Parse(s[9..]) == Ok(Parsed(m.data, rest))
    ensures Verification.Serializable(m.data)
    ensures s == Serialize(m).value + rest
  {
    assert s[1..9] == SerializeU64(m.timestampMs) by {
      U64Canonical(s[1..]);
      assert s[1..] == SerializeU64(m.timestampMs) + s[9..];
    }
    assert Verification.Serializable(m.data) && s[9..] == Verification.Serialize(m.data).value + rest by {
      Verification.ParseCanonical(s[9..]);
    }
    Reassemble(s, m, rest);
  }

  lemma ParseCanonical(s: seq<Byte>)
    requires Parse(s).Ok?
    ensures Verification.Serializable(Parse(s).value.value.data)
    ensures s == Serialize(Parse(s).value.value).value + Parse(s).value.rest
  {
    ParseShape(s);
    CanonicalFromShape(s, Parse(s).value.value, Parse(s).value.rest);
  }

  /** A parse that consumes the whole input read back the encoding of its message. */
  lemma WholeInputCanonical(s: seq<Byte>)
    requires Parse(s).Ok? && Parse(s).value.rest == []
    ensures Serialize(Parse(s).value.value) == Ok(s)
  {
    ParseCanonical(s);
    var bytes := Serialize(Parse(s).value.value);
    assert bytes.Ok? && s == bytes.value + [];
    assert s == bytes.value;
  }

  /** The signed bytes open with the scope and the intent timestamp and close with the record's timestamp. */
  lemma SerializedTimestamps(m: IntentMessage)
    requires Verification.Serializable(m.data)
    ensures var bytes := Serialize(m).value;
      && |bytes| >= 17
      && bytes[0] == 0x00
      && bytes[1..9] == SerializeU64(m.timestampMs)
      && bytes[|bytes| - 8..] == SerializeU64(m.data.verificationTimestamp)
  {
  }

  /** Distinct intent messages never share signed bytes. */
  lemma SerializeInjective(a: IntentMessage, b: IntentMessage)
    requires Serialize(a).Ok? && Serialize(a) == Serialize(b)
    ensures a == b
  {
    RoundTrip(a);
    RoundTrip(b);
  }
}
