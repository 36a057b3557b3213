/**
 * Lowercase hexadecimal encoding of byte strings, as done by Go's
 * `hex.EncodeToString`, together with the decoding that inverts it.
 */
module Hex {
  import opened Wrappers

  type Byte = b: int | 0 <= b < 256

  /** The digit table used by the encoder: lowercase letters only. */
  const Digits: string := "0123456789abcdef"

  predicate IsLowerHexDigit(c: char) {
    '0' <= c <= '9' || 'a' <= c <= 'f'
  }

  /** The numeric value of one lowercase hex digit. */
  function DigitValue(c: char): (n: int)
    requires IsLowerHexDigit(c)
    ensures 0 <= n < 16
  {
    if '0' <= c <= '9' then c as int - '0' as int else c as int - 'a' as int + 10
  }

  /** The digit for a nibble, looked up in the table. */
  function DigitChar(n: int): (c: char)
    requires 0 <= n < 16
    ensures IsLowerHexDigit(c) && DigitValue(c) == n
  {
    Digits[n]
  }

  /** Every lowercase hex digit is the table's entry for its value. */
  lemma DigitRoundTrip(c: char)
    requires IsLowerHexDigit(c)
    ensures DigitChar(DigitValue(c)) == c
  {
  }

  /** Two digits per byte, high nibble first. */
  function Encode(bytes: seq<Byte>): (s: string)
    ensures |s| == 2 * |bytes|
    ensures forall i :: 0 <= i < |s| ==> IsLowerHexDigit(s[i])
  {
    if bytes == [] then ""
    else [DigitChar(bytes[0] / 16), DigitChar(bytes[0] % 16)] + Encode(bytes[1..])
  }

  /** Decoding of lowercase hex; odd length or a non-digit gives `None`. */
  function Decode(s: string): (r: Option<seq<Byte>>)
    decreases |s|
  {
    if s == [] then Some([])
    else if |s| == 1 || !IsLowerHexDigit(s[0]) || !IsLowerHexDigit(s[1]) then None
    else
      match Decode(s[2..])
      case None => None
      case Some(rest) =>
        var b: Byte := DigitValue(s[0]) * 16 + DigitValue(s[1]);
        Some([b] + rest)
  }

  /** Decoding undoes encoding. */
  lemma {:induction false} DecodeEncode(bytes: seq<Byte>)
    ensures Decode(Encode(bytes)) == Some(bytes)
  {
    if bytes != [] {
      var s := Encode(bytes);
      assert s[2..] == Encode(bytes[1..]);
      DecodeEncode(bytes[1..]);
      assert [bytes[0]] + bytes[1..] == bytes;
    }
  }

  /** Encoding undoes decoding: every string that decodes is the encoding of its bytes. */
  lemma {:induction false} EncodeDecode(s: string, bytes: seq<Byte>)
    requires Decode(s) == Some(bytes)
    ensures Encode(bytes) == s
    decreases |s|
  {
    if s != [] {
      var rest := Decode(s[2..]).value;
      EncodeDecode(s[2..], rest);
      assert bytes == [bytes[0]] + rest;
      assert bytes[1..] == rest;
      var b := bytes[0];
      assert b / 16 == DigitValue(s[0]) && b % 16 == DigitValue(s[1]);
      DigitRoundTrip(s[0]);
      DigitRoundTrip(s[1]);
      assert s == [s[0], s[1]] + s[2..];
    }
  }

  /** Distinct byte strings have distinct encodings. */
  lemma EncodeInjective(a: seq<Byte>, b: seq<Byte>)
    requires Encode(a) == Encode(b)
    ensures a == b
  {
    DecodeEncode(a);
    DecodeEncode(b);
  }
}
