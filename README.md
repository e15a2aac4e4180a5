# Signed payload of the SealTrust enclave's `process_data` path

This project models what the SealTrust Nautilus enclave signs when its legacy
`process_data` endpoint vouches for a dataset. The enclave hashes the fetched
dataset with SHA-256. If the caller supplied a hex-encoded expected hash, the
enclave checks it against the digest. It then builds a `DatasetVerification`
record (hash, URL, format, schema version, timestamp), wraps it in an
`IntentMessage` with scope `ProcessData` and the same timestamp, and signs the
message's BCS (Binary Canonical Serialization) bytes. The on-chain Move
verifier builds its own copy of the message from the record's fields and
encodes it; the signature checks only if its bytes are exactly the ones the
enclave signed (src/lib.rs:59, src/lib.rs:136-153), so the byte layout is
the contract. The decoders in this model are BCS's `from_bytes`, as the
round-trip test at src/lib.rs:181-201 uses it; they state what the signed
bytes determine.

Modules, leaves first:

- `Bytes`, `Wrappers`: bytes, `u64`, `Option` and `Result`.
- `Uleb128`: the unsigned LEB128 varint that BCS uses for lengths and enum
  variant indices. The reader accepts only canonical encodings of 32-bit values.
- `Bcs`: `u64` as eight little-endian bytes, `Vec<u8>` as a length prefix
  followed by the bytes, and enum variant indices, each with its reader.
  Sequence lengths above 2^31 - 1 are refused, as BCS refuses them.
- `Verification`: the `DatasetVerification` record, its encoder, its
  field-by-field parser and `from_bytes`, which rejects trailing input.
- `Intent`: `IntentScope`, `IntentMessage::new` and the wrapper's encoding.
  The wrapper is written as scope, `timestamp_ms`, then `data`.
- `Hex`: the `hex` crate's decoder and its lower-case and upper-case encoders,
  operating on the string's bytes.
- `Enclave`: the expected-hash gate, the payload assembly and `process_data`
  itself.

Every encoder is a Dafny function, so it is deterministic by construction.
Equal records, or one intent message encoded twice, give identical bytes
(src/lib.rs:223-226, src/lib.rs:296-317). The injectivity lemmas state the
converse.

Request strings are held as their UTF-8 bytes. The source copies them with
`as_bytes()` and `hex::decode` reads bytes, so no text model is needed.

`process_data` signs the five-field `DatasetVerification` and checks nothing
beyond the hash gate; key generation and attestation live in modules outside
this model.

## Model

| member | source | states |
|---|---|---|
| `Uleb128.Encode` | src/lib.rs:62-65 | a length prefix is at least one byte; its first byte carries the value's low seven bits; it is one byte, equal to the value, exactly when the value is below 128 |
| `Uleb128.DecodeU32` | src/lib.rs:191-195 | the prefix reader fails with `Eof` on empty input, and an accepted prefix is one to five bytes long and holds a value below 2^32 |
| `Uleb128.EncodeShape` | src/lib.rs:62-65 | the length prefix is one or more base-128 digits: every byte but the last has its top bit set, and the last digit is non-zero unless the value is 0 |
| `Uleb128.EncodeU32Length` | src/lib.rs:62-65 | a 32-bit length takes one to five prefix bytes |
| `Uleb128.EncodeDecode` | src/lib.rs:191-195 | reading the prefix back yields the same value and consumes exactly the prefix, whatever follows |
| `Uleb128.DecodeCanonical` | src/lib.rs:191-195 | any prefix the reader accepts is the encoder's own spelling of the value it returns |
| `Bcs.SerializeU64` | src/lib.rs:66 | a `u64` is exactly eight bytes whose little-endian value is the number, low byte first |
| `Bcs.DeserializeU64` | src/lib.rs:66 | the `u64` reader fails with `Eof` exactly when fewer than eight bytes remain, and otherwise consumes exactly eight (the value read is stated by `Bcs.U64RoundTrip` and `Bcs.U64Canonical`) |
| `Bcs.U64RoundTrip` | src/lib.rs:66 | eight little-endian bytes read back as the same `u64`, leaving the rest of the input untouched |
| `Bcs.U64Canonical` | src/lib.rs:66 | whatever the `u64` reader accepts is the encoding of the value it returns, followed by the rest |
| `Bcs.SerializeBytes` | src/lib.rs:62-65 | a byte vector is written exactly when its length is at most 2^31 - 1, otherwise it fails with `ExceededMaxLen`; the output is the ULEB128 encoding of the length followed by the bytes themselves |
| `Bcs.DeserializeBytes` | src/lib.rs:62-65 | the `Vec<u8>` reader fails with `Eof` on empty input; an accepted vector is at most 2^31 - 1 bytes long and at least the prefix byte is consumed (the contents are stated by `Bcs.BytesRoundTrip` and `Bcs.BytesCanonical`) |
| `Bcs.BytesRoundTrip` | src/lib.rs:62-65 | a length-prefixed vector reads back as the same bytes, leaving the rest of the input untouched |
| `Bcs.BytesCanonical` | src/lib.rs:62-65 | whatever the vector reader accepts is the encoding of the vector it returns, followed by the rest |
| `Bcs.SerializeVariantIndex` | src/lib.rs:380-386 | an enum variant index below 2^32 is written in one to five bytes |
| `Bcs.DeserializeVariantIndex` | src/lib.rs:380-386 | an accepted variant index is below 2^32 and takes at least one byte of input |
| `Bcs.VariantIndexRoundTrip` | src/lib.rs:380-386 | an enum variant index reads back as itself |
| `Bcs.VariantIndexCanonical` | src/lib.rs:380-386 | an accepted variant index is the encoder's own spelling of it |
| `Verification.Serialize` | src/lib.rs:61-67 | encoding succeeds exactly when every vector fits BCS's length limit; its length is the sum of prefix plus field length over the four vectors, plus 8; it ends with the timestamp's eight bytes |
| `Verification.Parse` | src/lib.rs:194 | the field reader inside `from_bytes` returns a record whose every vector fits BCS's length limit and consumes at least 12 bytes: four length prefixes and the eight timestamp bytes (field order and contents are stated by `Verification.ParseRoundTrip` and `Verification.ParseCanonical`) |
| `Verification.ParseRoundTrip` | src/lib.rs:61-67 | the fields are read back in declaration order, and any bytes after the record are left unread |
| `Verification.RoundTrip` | src/lib.rs:191-201 | decoding the encoding of any record returns that record: `dataset_hash`, `dataset_url`, `format`, `schema_version` and `verification_timestamp` all survive |
| `Verification.ParseCanonical` | src/lib.rs:191-195 | any record the parser reads came from exactly the record's encoding, followed by the rest |
| `Verification.Deserialize` | src/lib.rs:191-195 | every byte string `from_bytes` accepts is the encoding of the record it returns, so no other spelling of a record decodes; input that parses with bytes left over fails with `RemainingInput` |
| `Verification.SerializeInjective` | src/lib.rs:296-339 | two records with the same encoding are equal |
| `Verification.TimestampChangesEncoding` | src/lib.rs:321-339 | two records that differ only in `verification_timestamp` encode differently |
| `Intent.SerializeScope` | src/lib.rs:380-386 | `IntentScope::ProcessData` encodes to exactly the single byte `0x00` |
| `Intent.DeserializeScope` | src/lib.rs:380-386 | the scope reader accepts exactly input starting with `0x00` and consumes just that byte |
| `Intent.New` | src/lib.rs:216-220 | `IntentMessage::new(payload, ts, scope)` keeps `timestamp_ms == ts`, `data` identical to the payload, and the given scope |
| `Intent.Serialize` | src/lib.rs:145-146 | the wrapper encodes exactly when its payload does: byte 0 is the scope `0x00`, bytes 1 to 8 are `timestamp_ms`, and the rest is the payload's own encoding; a payload failure is passed through |
| `Intent.Parse` | src/lib.rs:145-146 | the wrapper reader returns a message whose record fits BCS's length limit and consumes at least 21 bytes: the scope byte, eight timestamp bytes and the record's minimum (order and contents are stated by `Intent.ParseRoundTrip` and `Intent.ParseCanonical`) |
| `Intent.ParseRoundTrip` | src/lib.rs:145-146 | parsing the wrapper's bytes yields the message and leaves nothing unread |
| `Intent.RoundTrip` | src/lib.rs:216-226 | decoding the signed bytes recovers the scope, the timestamp and every payload field |
| `Intent.Deserialize` | src/lib.rs:136-153 | every byte string `from_bytes` accepts for the wrapper is the encoding of the message it returns, so the signed bytes admit one reading; trailing bytes fail with `RemainingInput` |
| `Intent.SerializeInjective` | src/lib.rs:223-226 | distinct intent messages never share signed bytes |
| `Hex.Decode` | src/lib.rs:106-107 | odd-length text fails with `OddLength` whatever its characters; a decoded expected hash has half as many bytes as its text has characters (its value is stated by `Hex.DecodedIsFoldedEncoding`) |
| `Hex.DecodeSucceeds` | src/lib.rs:106-107 | decoding succeeds exactly when the text has even length and every character is a hex digit of either case |
| `Hex.DecodeFirstInvalid` | src/lib.rs:106-107 | on even-length text the error names the first non-hex character and its position |
| `Hex.Encode` | src/lib.rs:272 | encoding writes two lower-case hex digits per byte |
| `Hex.DecodeEncode` | src/lib.rs:264-276 | decoding the hex encoding of any bytes gives them back |
| `Hex.EncodeDecode` | src/lib.rs:264-276 | lower-case text that decodes is exactly the encoding of its decoded bytes |
| `Hex.DecodeFoldCase` | src/lib.rs:106-107 | the decoder ignores the case of hex digits: text and its lower-cased spelling give the same result, error included |
| `Hex.DecodeEncodeUpper` | src/lib.rs:106-107 | upper-case hex, the alphabet of section 8 of RFC 4648, decodes to the bytes it encodes |
| `Hex.DecodedIsFoldedEncoding` | src/lib.rs:106-107 | any text that decodes, in any mix of cases, folds to the lower-case encoding of the bytes it decodes to |
| `Enclave.CheckExpectedHash` | src/lib.rs:105-111 | the gate lets signing proceed exactly when no expected hash is given or it decodes to the computed digest byte for byte; text that is not valid hex fails with "Invalid expected hash format"; valid hex that decodes to other bytes fails with "Dataset hash mismatch" |
| `Enclave.OwnHexAccepted` | src/lib.rs:105-111 | the digest's own hex, lower-case or upper-case, always passes the gate |
| `Enclave.AcceptedIffDigestHex` | src/lib.rs:105-111 | the gate accepts an expectation exactly when it spells the digest in hex, each digit in either case |
| `Enclave.AcceptedLowerHexIsDigest` | src/lib.rs:105-111 | a lower-case expectation that passes the gate is exactly the hex spelling of the digest |
| `Enclave.WrongLengthMismatches` | src/lib.rs:99-111 | well-formed hex of any length other than 64 digits is rejected with "Dataset hash mismatch" against a 32-byte SHA-256 digest |
| `Enclave.SigningPayload` | src/lib.rs:115-126 | the signed bytes decode, under BCS's `from_bytes`, to exactly the message returned to the caller |
| `Enclave.ToSignedResponse` | src/lib.rs:115-126 | the response carries the payload, timestamp and scope it was given, and its signature is the signer applied to the message's BCS bytes |
| `Enclave.ProcessData` | src/lib.rs:78-127 | the request succeeds exactly when the gate accepts the digest of the content, and otherwise returns the gate's error; on success the scope is `ProcessData`, `timestamp_ms` and `verification_timestamp` both equal `now`, the record holds the digest and the request's URL, format and schema version, and the signature covers the message's BCS bytes |
| `Intent.SerializedTimestamps` | src/lib.rs:145-146 | the wrapper's bytes are at least 17 long, open with the scope byte and `timestamp_ms`, and close with the record's `verification_timestamp` |
| `Enclave.SignedBytesCarryOneTimestamp` | src/lib.rs:117-125 | the signed bytes start with the scope byte `0x00` and `now` as eight bytes, and end with `now` again as the record's timestamp |
| `Enclave.DistinctTimesSignDistinctBytes` | src/lib.rs:117-125 | the same request signed at two different times gives different signed bytes |

## Left out

- The Axum handler plumbing: `State`/`Json` extraction, and the mapping of `EnclaveError` to HTTP 500 (src/lib.rs:42-57). It is web-framework glue.
- The wall-clock read and its `as u64` cast (src/lib.rs:85-88) are left out. The timestamp is the parameter `now`, already a `u64`. The "Failed to get current timestamp" error is not modelled.
- The dataset fetch through `reqwest` (src/lib.rs:91-96) is left out. The fetched bytes are the parameter `content`. The two fetch error messages are not modelled.
- SHA-256 (src/lib.rs:99-102) is the parameter `sha256`: an arbitrary function that returns 32 bytes. No hash is implemented.
- Ed25519 signing, and the signature's text form inside `to_signed_response`, are the parameter `sign`. The `common` module is not part of this model. From it the model assumes the field order of `IntentMessage` (scope, `timestamp_ms`, `data`) and that `ProcessData` is variant 0.
- `Enclave.ProcessData`: requires that the URL, format and schema version are each at most 2^31 - 1 bytes when the hash gate passes. For longer input the source's `bcs::to_bytes(..).expect(..)` panics instead of returning an error. When the gate fails, any lengths are allowed and the gate's error is returned.
- `Enclave.ToSignedResponse`, `Enclave.SigningPayload`: require a payload that BCS can encode, for the same reason.
- UTF-8 validity of the request strings is not modelled. They are taken as the byte sequences that `as_bytes()` returns.
- The `info!` logging (src/lib.rs:83, src/lib.rs:113) has no effect on the result and is left out.
- The serde_json request-parsing tests (src/lib.rs:229-261, src/lib.rs:342-363) exercise a JSON library, not this code.
- The SHA-256 property tests (src/lib.rs:156-178, src/lib.rs:278-293, src/lib.rs:365-377) test the hash library. The model treats the hash as opaque, apart from its 32-byte length.
- src/main.rs is the development server's bootstrap: key generation, CORS, routing and the listener. `verify_metadata`, `get_attestation` and `health_check` are imported there, but their bodies are not part of this model.
- The unused `api_key` field of `AppState` (src/lib.rs:21-22) is left out.
