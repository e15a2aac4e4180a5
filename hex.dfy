/**
 * Base16 text (section 8 of RFC 4648) as the `hex` crate reads and writes it:
 * the decoder works on the string's bytes, accepts digits of either case and
 * reports an odd length before any bad character; `encode` writes
 * lower-case digits and `encode_upper` upper-case ones, high nibble first.
 */
module Hex {
  import opened Bytes
  import opened Wrappers

  datatype HexError = OddLength | InvalidHexCharacter(c: Byte, index: nat)

  /** The value of one ASCII hex digit (`0-9`, `A-F`, `a-f`), or None. */
  function DigitValue(c: Byte): (r: Option<nat>)
    ensures r.Some? <==> IsHexDigit(c)
    ensures r.Some? ==> r.value < 16
  {
    if 'A' as int <= c <= 'F' as int then Some(c - 'A' as int + 10)
    else if 'a' as int <= c <= 'f' as int then Some(c - 'a' as int + 10)
    else if '0' as int <= c <= '9' as int then Some(c - '0' as int)
    else None
  }

  /** ASCII `0`-`9`, `A`-`F` or `a`-`f`. */
  predicate IsHexDigit(c: Byte) {
    0x30 <= c <= 0x39 || 0x41 <= c <= 0x46 || 0x61 <= c <= 0x66
  }

  /** ASCII `0`-`9` or `a`-`f`. */
  predicate IsLowerHexDigit(c: Byte) {
    0x30 <= c <= 0x39 || 0x61 <= c <= 0x66
  }

  /** ASCII `0`-`9` or `A`-`F`. */
  predicate IsUpperHexDigit(c: Byte) {
    0x30 <= c <= 0x39 || 0x41 <= c <= 0x46
  }

  /** What the decoder accepts: an even number of hex digits. */
  predicate ValidHex(s: seq<Byte>) {
    |s| % 2 == 0 && forall i :: 0 <= i < |s| ==> IsHexDigit(s[i])
  }

  /** `hex::decode`. */
  function Decode(s: seq<Byte>): (r: Result<seq<Byte>, HexError>)
    ensures |s| % 2 != 0 ==> r == Err(OddLength)
    ensures r.Ok? ==> 2 * |r.value| == |s|
  {
    if |s| % 2 != 0 then Err(OddLength) else DecodePairs(s, 0)
  }

  /** Decodes digit pairs; `index` is the position of `s[0]` in the whole input. */
  function DecodePairs(s: seq<Byte>, index: nat): (r: Result<seq<Byte>, HexError>)
    requires |s| % 2 == 0
    ensures r.Ok? ==> 2 * |r.value| == |s|
    decreases |s|
  {
    if s == [] then Ok([])
    else
      match (DigitValue(s[0]), DigitValue(s[1]))
      case (None, _) => Err(InvalidHexCharacter(s[0], index))
      case (Some(_), None) => Err(InvalidHexCharacter(s[1], index + 1))
      case (Some(hi), Some(lo)) =>
        var tail :- DecodePairs(s[2..], index + 2);
        Ok([16 * hi + lo] + tail)
  }

  function LowerDigit(n: nat): (c: Byte)
    requires n < 16
    ensures IsLowerHexDigit(c) && DigitValue(c) == Some(n)
  {
    if n < 10 then '0' as int + n else 'a' as int + n - 10
  }

  lemma LowerDigitInverse(c: Byte)
    requires IsLowerHexDigit(c)
    ensures LowerDigit(DigitValue(c).value) == c
  {
  }

  /** `hex::encode`: two lower-case digits per byte. */
  function Encode(b: seq<Byte>): (r: seq<Byte>)
    ensures |r| == 2 * |b|
    ensures forall i :: 0 <= i < |r| ==> IsLowerHexDigit(r[i])
  {
    if b == [] then [] else [LowerDigit(b[0] / 16), LowerDigit(b[0] % 16)] + Encode(b[1..])
  }

  function UpperDigit(n: nat): (c: Byte)
    requires n < 16
    ensures IsUpperHexDigit(c) && DigitValue(c) == Some(n)
  {
    if n < 10 then '0' as int + n else 'A' as int + n - 10
  }

  /** `hex::encode_upper`: two upper-case digits per byte, the alphabet of RFC 4648. */
  function EncodeUpper(b: seq<Byte>): (r: seq<Byte>)
    ensures |r| == 2 * |b|
    ensures forall i :: 0 <= i < |r| ==> IsUpperHexDigit(r[i])
  {
    if b == [] then [] else [UpperDigit(b[0] / 16), UpperDigit(b[0] % 16)] + EncodeUpper(b[1..])
  }

  /** Writes an upper-case digit `A`-`F` in lower case and leaves every other byte alone. */
  function FoldDigit(c: Byte): (r: Byte)
    ensures DigitValue(r) == DigitValue(c)
    ensures IsHexDigit(c) ==> IsLowerHexDigit(r)
    ensures !IsHexDigit(c) ==> r == c
  {
    if 0x41 <= c <= 0x46 then c + 0x20 else c
  }

  /** The text with its hex digits folded to lower case. */
  function FoldCase(s: seq<Byte>): (r: seq<Byte>)
    ensures |r| == |s|
    ensures forall i :: 0 <= i < |s| ==> r[i] == FoldDigit(s[i])
  {
    seq(|s|, i requires 0 <= i < |s| => FoldDigit(s[i]))
  }

  lemma {:induction false} PairsSucceed(s: seq<Byte>, index: nat)
    requires |s| % 2 == 0
    ensures DecodePairs(s, index).Ok? <==> forall i :: 0 <= i < |s| ==> IsHexDigit(s[i])
    decreases |s|
  {
    if s != [] {
      PairsSucceed(s[2..], index + 2);
      assert forall i :: 2 <= i < |s| ==> s[i] == s[2..][i - 2];
    }
  }

  /** The decoder fails exactly on odd-length input or input with a non-hex character. */
  lemma {:induction false} DecodeSucceeds(s: seq<Byte>)
    ensures Decode(s).Ok? <==> ValidHex(s)
  {
    if |s| % 2 == 0 {
      PairsSucceed(s, 0);
    }
  }

  lemma {:induction false} PairsFirstInvalid(s: seq<Byte>, index: nat)
    requires |s| % 2 == 0 && DecodePairs(s, index).Err?
    ensures var e := DecodePairs(s, index).error;
      e.InvalidHexCharacter? && index <= e.index < index + |s| && s[e.index - index] == e.c
      && !IsHexDigit(e.c) && forall j :: 0 <= j < e.index - index ==> IsHexDigit(s[j])
    decreases |s|
  {
    if DigitValue(s[0]).Some? && DigitValue(s[1]).Some? {
      PairsFirstInvalid(s[2..], index + 2);
      assert forall j :: 2 <= j < |s| ==> s[j] == s[2..][j - 2];
    }
  }

  /** An even-length input is rejected at its first non-hex character, which the error names. */
  lemma {:induction false} DecodeFirstInvalid(s: seq<Byte>)
    requires |s| % 2 == 0 && Decode(s).Err?
    ensures var e := Decode(s).error;
      e.InvalidHexCharacter? && e.index < |s| && s[e.index] == e.c
      && !IsHexDigit(e.c) && forall j :: 0 <= j < e.index ==> IsHexDigit(s[j])
  {
    PairsFirstInvalid(s, 0);
  }

  lemma {:induction false} EncodeDecodePairs(b: seq<Byte>, index: nat)
    ensures DecodePairs(Encode(b), index) == Ok(b)
  {
    if b != [] {
      var s := Encode(b);
      assert s[2..] == Encode(b[1..]);
      EncodeDecodePairs(b[1..], index + 2);
      assert 16 * (b[0] / 16) + b[0] % 16 == b[0];
      assert [b[0]] + b[1..] == b;
    }
  }

  /** Decoding the encoder's text gives back the bytes. */
  lemma {:induction false} DecodeEncode(b: seq<Byte>)
    ensures Decode(Encode(b)) == Ok(b)
  {
    var s := Encode(b);
    assert |s| % 2 == 0 by {
      assert |s| == 2 * |b|;
    }
    EncodeDecodePairs(b, 0);
  }

  lemma {:induction false} PairsEncode(s: seq<Byte>, index: nat)
    requires |s| % 2 == 0 && DecodePairs(s, index).Ok?
    requires forall i :: 0 <= i < |s| ==> IsLowerHexDigit(s[i])
    ensures Encode(DecodePairs(s, index).value) == s
    decreases |s|
  {
    if s != [] {
      var hi := DigitValue(s[0]).value;
      var lo := DigitValue(s[1]).value;
      var tail := DecodePairs(s[2..], index + 2).value;
      var b := DecodePairs(s, index).value;
      assert b == [16 * hi + lo] + tail;
      PairsEncode(s[2..], index + 2);
      assert LowerDigit(hi) == s[0] && LowerDigit(lo) == s[1] by {
        LowerDigitInverse(s[0]);
        LowerDigitInverse(s[1]);
      }
      assert (16 * hi + lo) / 16 == hi && (16 * hi + lo) % 16 == lo;
      assert Encode(b) == [s[0], s[1]] + Encode(tail);
      assert s == [s[0], s[1]] + s[2..];
    }
  }

  /** Lower-case text that decodes is exactly the encoding of what it decodes to. */
  lemma {:induction false} EncodeDecode(s: seq<Byte>)
    requires Decode(s).Ok? && forall i :: 0 <= i < |s| ==> IsLowerHexDigit(s[i])
    ensures Encode(Decode(s).value) == s
  {
    PairsEncode(s, 0);
  }

  lemma {:induction false} PairsFoldCase(s: seq<Byte>, index: nat)
    requires |s| % 2 == 0
    ensures DecodePairs(FoldCase(s), index) == DecodePairs(s, index)
    decreases |s|
  {
    if s != [] {
      assert FoldCase(s)[2..] == FoldCase(s[2..]);
      PairsFoldCase(s[2..], index + 2);
    }
  }

  /** The decoder ignores the case of hex digits: the result, error included, is that of the lower-case text. */
  lemma {:induction false} DecodeFoldCase(s: seq<Byte>)
    ensures Decode(FoldCase(s)) == Decode(s)
  {
    if |s| % 2 == 0 {
      PairsFoldCase(s, 0);
    }
  }

  lemma {:induction false} FoldEncodeUpper(b: seq<Byte>)
    ensures FoldCase(EncodeUpper(b)) == Encode(b)
  {
    if b != [] {
      var u := EncodeUpper(b);
      FoldEncodeUpper(b[1..]);
      assert FoldDigit(UpperDigit(b[0] / 16)) == LowerDigit(b[0] / 16);
      assert FoldDigit(UpperDigit(b[0] % 16)) == LowerDigit(b[0] % 16);
      assert FoldCase(u)[2..] == FoldCase(u[2..]);
    }
  }

  /** Upper-case text decodes as well: decoding the upper-case encoding of any bytes gives them back. */
  lemma DecodeEncodeUpper(b: seq<Byte>)
    ensures Decode(EncodeUpper(b)) == Ok(b)
  {
    DecodeFoldCase(EncodeUpper(b));
    FoldEncodeUpper(b);
    DecodeEncode(b);
  }

  /** Any text that decodes, in whatever mix of cases, is the lower-case encoding of its bytes once folded. */
  lemma DecodedIsFoldedEncoding(s: seq<Byte>)
    requires Decode(s).Ok?
    ensures Encode(Decode(s).value) == FoldCase(s)
  {
    DecodeSucceeds(s);
    DecodeFoldCase(s);
    EncodeDecode(FoldCase(s));
  }
}
