/**
 * The primitives of Binary Canonical Serialization (BCS) that the signed
 * payload uses: `u64` as eight little-endian bytes, `Vec<u8>` as a ULEB128
 * length followed by the raw bytes, and an enum variant as its ULEB128 index.
 * Deserializers take the remaining input and return the value read together
 * with the input left after it.
 */
module Bcs {
  import opened Bytes
  import opened Wrappers
  import Uleb128

  /** The largest sequence length BCS will write or read (2^31 - 1). */
  const MAX_SEQUENCE_LENGTH: nat := 0x7fff_ffff

  datatype Error =
    | Eof
    | ExceededMaxLen(len: nat)
    | NonCanonicalUleb128Encoding
    | IntegerOverflowDuringUleb128Decoding
    | RemainingInput
    | UnknownVariant(index: nat)

  /** A value read from the front of the input, and the input after it. */
  datatype Parsed<+T> = Parsed(value: T, rest: seq<Byte>)

  function FromUlebError(e: Uleb128.DecodeError): Error {
    match e
    case Eof => Eof
    case NonCanonical => NonCanonicalUleb128Encoding
    case Overflow => IntegerOverflowDuringUleb128Decoding
  }

  // ---- fixed-width little-endian integers ----

  /** The low `k` bytes of `x`, least significant first. */
  function LeBytes(x: nat, k: nat): (r: seq<Byte>)
    ensures |r| == k
  {
    if k == 0 then [] else [x % 256] + LeBytes(x / 256, k - 1)
  }

  /** The number whose little-endian bytes are `s`. */
  function FromLe(s: seq<Byte>): (x: nat)
    ensures x < Pow(256, |s|)
  {
    if s == [] then 0 else s[0] + 256 * FromLe(s[1..])
  }

  lemma {:induction false} LeRoundTrip(x: nat, k: nat)
    requires x < Pow(256, k)
    ensures FromLe(LeBytes(x, k)) == x
  {
    if k > 0 {
      assert Pow(256, k) == 256 * Pow(256, k - 1);
      LeRoundTrip(x / 256, k - 1);
      assert LeBytes(x, k)[1..] == LeBytes(x / 256, k - 1);
    }
  }

  lemma {:induction false} LeCanonical(s: seq<Byte>)
    ensures LeBytes(FromLe(s), |s|) == s
  {
    if s != [] {
      LeCanonical(s[1..]);
      var x := FromLe(s);
      assert x % 256 == s[0] && x / 256 == FromLe(s[1..]);
    }
  }

  lemma Pow256Eight()
    ensures Pow(256, 8) == U64_LIMIT
  {
  }

  /** `u64`: exactly eight bytes, least significant first. */
  function SerializeU64(x: U64): (r: seq<Byte>)
    ensures |r| == 8 && FromLe(r) == x
    ensures r[0] == x % 256
  {
    Pow256Eight();
    LeRoundTrip(x, 8);
    LeBytes(x, 8)
  }

  function DeserializeU64(s: seq<Byte>): (r: Result<Parsed<U64>, Error>)
    ensures r.Ok? <==> |s| >= 8
    ensures r.Ok? ==> r.value.rest == s[8..]
    ensures r.Err? ==> r.error == Eof
  {
    if |s| < 8 then Err(Eof)
    else
      Pow256Eight();
      Ok(Parsed(FromLe(s[..8]), s[8..]))
  }

  lemma U64RoundTrip(x: U64, rest: seq<Byte>)
    ensures DeserializeU64(SerializeU64(x) + rest) == Ok(Parsed(x, rest))
  {
  }

  lemma {:induction false} U64Canonical(s: seq<Byte>)
    requires DeserializeU64(s).Ok?
    ensures s == SerializeU64(DeserializeU64(s).value.value) + DeserializeU64(s).value.rest
  {
    LeCanonical(s[..8]);
    assert s == s[..8] + s[8..];
  }

  // ---- sequence lengths and byte vectors ----

  function SerializeLength(len: nat): (r: Result<seq<Byte>, Error>)
  {
    if len > MAX_SEQUENCE_LENGTH then Err(ExceededMaxLen(len)) else Ok(Uleb128.Encode(len))
  }

  function DeserializeLength(s: seq<Byte>): (r: Result<Parsed<nat>, Error>)
    ensures r.Ok? ==> r.value.value <= MAX_SEQUENCE_LENGTH && |r.value.rest| < |s|
  {
    match Uleb128.DecodeU32(s)
    case Err(e) => Err(FromUlebError(e))
    case Ok((len, used)) =>
      if len > MAX_SEQUENCE_LENGTH then Err(ExceededMaxLen(len)) else Ok(Parsed(len, s[used..]))
  }

  /** `Vec<u8>`: the ULEB128 element count, then the elements, one byte each. */
  function SerializeBytes(v: seq<Byte>): (r: Result<seq<Byte>, Error>)
    ensures r.Ok? <==> |v| <= MAX_SEQUENCE_LENGTH
    ensures r.Err? ==> r.error == ExceededMaxLen(|v|)
    ensures r.Ok? ==> |r.value| == |Uleb128.Encode(|v|)| + |v|
    ensures r.Ok? ==> r.value[..|Uleb128.Encode(|v|)|] == Uleb128.Encode(|v|) && r.value[|Uleb128.Encode(|v|)|..] == v
  {
    var prefix :- SerializeLength(|v|);
    Ok(prefix + v)
  }

  function DeserializeBytes(s: seq<Byte>): (r: Result<Parsed<seq<Byte>>, Error>)
    ensures |s| == 0 ==> r == Err(Eof)
    ensures r.Ok? ==> |r.value.value| <= MAX_SEQUENCE_LENGTH && |r.value.rest| < |s|
  {
    var len :- DeserializeLength(s);
    if |len.rest| < len.value then Err(Eof)
    else Ok(Parsed(len.rest[..len.value], len.rest[len.value..]))
  }

  lemma {:induction false} BytesRoundTrip(v: seq<Byte>, rest: seq<Byte>)
    requires |v| <= MAX_SEQUENCE_LENGTH
    ensures DeserializeBytes(SerializeBytes(v).value + rest) == Ok(Parsed(v, rest))
  {
    var prefix := Uleb128.Encode(|v|);
    var s := prefix + (v + rest);
    assert SerializeBytes(v).value + rest == s;
    Uleb128.EncodeDecode(|v|, v + rest);
    assert s[|prefix|..] == v + rest;
    assert (v + rest)[..|v|] == v && (v + rest)[|v|..] == rest;
  }

  /** Puts a vector's encoding back together from its prefix and its bytes. */
  lemma BytesReassemble(s: seq<Byte>, used: nat, v: seq<Byte>, rest: seq<Byte>)
    requires used <= |s| && |v| <= MAX_SEQUENCE_LENGTH
    requires s[..used] == Uleb128.Encode(|v|) && s[used..] == v + rest
    ensures SerializeBytes(v).Ok? && s == SerializeBytes(v).value + rest
  {
  }

  lemma {:induction false} BytesCanonical(s: seq<Byte>)
    requires DeserializeBytes(s).Ok?
    ensures SerializeBytes(DeserializeBytes(s).value.value).Ok?
    ensures s == SerializeBytes(DeserializeBytes(s).value.value).value + DeserializeBytes(s).value.rest
  {
    var (len, used) := Uleb128.DecodeU32(s).value;
    var tail := s[used..];
    assert DeserializeBytes(s).value == Parsed(tail[..len], tail[len..]);
    assert s[..used] == Uleb128.Encode(len) by {
      Uleb128.DecodeCanonical(s);
    }
    assert tail == tail[..len] + tail[len..];
    BytesReassemble(s, used, tail[..len], tail[len..]);
  }

  // ---- enum variant indices ----

  function SerializeVariantIndex(index: nat): (r: seq<Byte>)
    requires index < U32_LIMIT
    ensures 1 <= |r| <= Uleb128.MaxDigits
  {
    Uleb128.EncodeU32Length(index);
    Uleb128.Encode(index)
  }

  function DeserializeVariantIndex(s: seq<Byte>): (r: Result<Parsed<nat>, Error>)
    ensures r.Ok? ==> r.value.value < U32_LIMIT && |r.value.rest| < |s|
  {
    match Uleb128.DecodeU32(s)
    case Err(e) => Err(FromUlebError(e))
    case Ok((index, used)) => Ok(Parsed(index, s[used..]))
  }

  lemma {:induction false} VariantIndexRoundTrip(index: nat, rest: seq<Byte>)
    requires index < U32_LIMIT
    ensures DeserializeVariantIndex(SerializeVariantIndex(index) + rest) == Ok(Parsed(index, rest))
  {
    var e := Uleb128.Encode(index);
    Uleb128.EncodeDecode(index, rest);
    assert (e + rest)[|e|..] == rest;
  }

  lemma {:induction false} VariantIndexCanonical(s: seq<Byte>)
    requires DeserializeVariantIndex(s).Ok?
    ensures s == SerializeVariantIndex(DeserializeVariantIndex(s).value.value) + DeserializeVariantIndex(s).value.rest
  {
    var (index, used) := Uleb128.DecodeU32(s).value;
    Uleb128.DecodeCanonical(s);
    assert s == s[..used] + s[used..];
  }
}
