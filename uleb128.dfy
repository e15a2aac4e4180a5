/**
 * Unsigned LEB128, the variable-length integer BCS uses for sequence lengths
 * and enum variant indices: base-128 digits, least significant first, the top
 * bit of every byte but the last set. The reader accepts only values that fit
 * in 32 bits and only the canonical (shortest) spelling of each value.
 */
module Uleb128 {
  import opened Bytes
  import opened Wrappers

  datatype DecodeError = Eof | NonCanonical | Overflow

  /** A 32-bit value needs at most five 7-bit digits (shifts 0, 7, 14, 21, 28). */
  const MaxDigits: nat := 5

  /**
   * The writer: the low seven bits of `n` first, with the continuation bit
   * set exactly when more digits follow.
   */
  function Encode(n: nat): (r: seq<Byte>)
    ensures 1 <= |r|
    ensures r[0] % 128 == n % 128
    ensures |r| == 1 <==> r[0] < 128
    ensures n < 128 <==> r == [n]
  {
    if n < 128 then [n] else [n % 128 + 128] + Encode(n / 128)
  }

  /**
   * Every byte but the last carries the continuation bit, and the last digit
   * is non-zero unless the value is zero: the encoding is the shortest one.
   */
  lemma {:induction false} EncodeShape(n: nat)
    ensures forall i :: 0 <= i < |Encode(n)| - 1 ==> Encode(n)[i] >= 128
    ensures Encode(n)[|Encode(n)| - 1] < 128
    ensures n == 0 || Encode(n)[|Encode(n)| - 1] != 0
  {
    if n >= 128 {
      EncodeShape(n / 128);
      var r, tail := Encode(n), Encode(n / 128);
      assert r == [n % 128 + 128] + tail;
      assert forall i :: 1 <= i < |r| ==> r[i] == tail[i - 1];
    }
  }

  /**
   * Reads digits starting with digit number `k`; yields the value of the digits
   * read (digit `k` weighted 1) and how many bytes they took.
   */
  function DecodeDigits(s: seq<Byte>, k: nat): (r: Result<(nat, nat), DecodeError>)
    requires k <= MaxDigits
    ensures r.Ok? ==> 1 <= r.value.1 <= |s| && r.value.1 <= MaxDigits - k
    decreases MaxDigits - k
  {
    if k == MaxDigits then Err(Overflow)
    else if |s| == 0 then Err(Eof)
    else if s[0] < 128 then
      if k > 0 && s[0] == 0 then Err(NonCanonical) else Ok((s[0], 1))
    else
      match DecodeDigits(s[1..], k + 1)
      case Err(e) => Err(e)
      case Ok((v, c)) => Ok((s[0] - 128 + 128 * v, c + 1))
  }

  /** Reads one canonical ULEB128 value below 2^32; yields it and the bytes consumed. */
  function DecodeU32(s: seq<Byte>): (r: Result<(nat, nat), DecodeError>)
    ensures |s| == 0 ==> r == Err(Eof)
    ensures r.Ok? ==> r.value.0 < U32_LIMIT && 1 <= r.value.1 <= |s| && r.value.1 <= MaxDigits
  {
    match DecodeDigits(s, 0)
    case Err(e) => Err(e)
    case Ok((v, c)) => if v < U32_LIMIT then Ok((v, c)) else Err(Overflow)
  }

  lemma Pow128Five()
    ensures Pow(128, MaxDigits) == 0x8_0000_0000
  {
  }

  lemma {:induction false} EncodeLength(n: nat, k: nat)
    requires 1 <= k && n < Pow(128, k)
    ensures |Encode(n)| <= k
  {
    if n >= 128 {
      assert Pow(128, k) == 128 * Pow(128, k - 1);
      EncodeLength(n / 128, k - 1);
    }
  }

  /** A value below 2^32 takes one to five bytes. */
  lemma {:induction false} EncodeU32Length(n: nat)
    requires n < U32_LIMIT
    ensures 1 <= |Encode(n)| <= MaxDigits
  {
    Pow128Five();
    EncodeLength(n, MaxDigits);
  }

  /** One base-128 digit split off the bottom of a bounded value. */
  lemma DigitStep(n: nat, m: nat)
    requires 1 <= m && n < Pow(128, m)
    ensures n / 128 < Pow(128, m - 1)
    ensures n >= 128 ==> m >= 2
  {
    assert Pow(128, m) == 128 * Pow(128, m - 1);
  }

  /** A value of two or more digits is its low digit, flagged, before the encoding of the rest. */
  lemma DigitJoin(d: nat, q: nat)
    requires d < 128 && q > 0
    ensures Encode(d + 128 * q) == [d + 128] + Encode(q)
  {
    assert (d + 128 * q) / 128 == q && (d + 128 * q) % 128 == d;
  }

  lemma {:induction false} DigitsRoundTrip(n: nat, k: nat, rest: seq<Byte>)
    requires k < MaxDigits && n < Pow(128, MaxDigits - k)
    requires k == 0 || n > 0
    ensures DecodeDigits(Encode(n) + rest, k) == Ok((n, |Encode(n)|))
  {
    var s := Encode(n) + rest;
    if n >= 128 {
      var d, q := n % 128, n / 128;
      DigitStep(n, MaxDigits - k);
      assert Encode(n) == [d + 128] + Encode(q);
      assert s[0] == d + 128 && s[1..] == Encode(q) + rest;
      DigitsRoundTrip(q, k + 1, rest);
      assert DecodeDigits(s, k) == Ok((d + 128 * q, |Encode(q)| + 1));
    } else {
      assert s[0] == n;
    }
  }

  lemma {:induction false} DigitsBound(s: seq<Byte>, k: nat)
    requires k <= MaxDigits && DecodeDigits(s, k).Ok?
    ensures k == 0 || DecodeDigits(s, k).value.0 > 0
    ensures DecodeDigits(s, k).value.0 < Pow(128, MaxDigits - k)
  {
    assert Pow(128, MaxDigits - k) == 128 * Pow(128, MaxDigits - k - 1);
    if s[0] >= 128 {
      DigitsBound(s[1..], k + 1);
    }
  }

  lemma {:induction false} DigitsCanonical(s: seq<Byte>, k: nat)
    requires k <= MaxDigits && DecodeDigits(s, k).Ok?
    ensures s[..DecodeDigits(s, k).value.1] == Encode(DecodeDigits(s, k).value.0)
  {
    if s[0] >= 128 {
      DigitsCanonical(s[1..], k + 1);
      DigitsBound(s[1..], k + 1);
      var (w, c) := DecodeDigits(s[1..], k + 1).value;
      var d := s[0] - 128;
      assert DecodeDigits(s, k).value == (d + 128 * w, c + 1);
      DigitJoin(d, w);
      assert s[..c + 1] == [s[0]] + s[1..][..c];
    }
  }

  /** Decoding an encoded 32-bit value gives it back, whatever follows it. */
  lemma {:induction false} EncodeDecode(n: nat, rest: seq<Byte>)
    requires n < U32_LIMIT
    ensures DecodeU32(Encode(n) + rest) == Ok((n, |Encode(n)|))
  {
    Pow128Five();
    DigitsRoundTrip(n, 0, rest);
  }

  /** The reader accepts only the encoder's own spelling of the value it returns. */
  lemma {:induction false} DecodeCanonical(s: seq<Byte>)
    requires DecodeU32(s).Ok?
    ensures s[..DecodeU32(s).value.1] == Encode(DecodeU32(s).value.0)
  {
    DigitsCanonical(s, 0);
  }
}
