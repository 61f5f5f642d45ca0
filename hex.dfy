/**
 * A plain hexadecimal codec standing in for the SDK's `bin_toHexString` and
 * `bin_fromHexString`: encoding writes two lower-case digits per byte with no
 * prefix; decoding accepts an optional "0x" prefix and digits of either case.
 */
module Hex {
  import opened Common

  const HexDigits: string := "0123456789abcdef"

  function ToHex(bytes: seq<byte>): (s: string)
    ensures |s| == 2 * |bytes|
    ensures forall i :: 0 <= i < |s| ==> s[i] in HexDigits
  {
    if bytes == [] then ""
    else [HexDigits[bytes[0] / 16], HexDigits[bytes[0] % 16]] + ToHex(bytes[1..])
  }

  function DigitValue(c: char): (r: Option<nat>)
    ensures r.Some? ==> r.value < 16
  {
    if '0' <= c <= '9' then Some(c as int - '0' as int)
    else if 'a' <= c <= 'f' then Some(c as int - 'a' as int + 10)
    else if 'A' <= c <= 'F' then Some(c as int - 'A' as int + 10)
    else None
  }

  /** Decodes an unprefixed digit string; fails on an odd length or a non-digit. */
  function DecodeDigits(s: string): (r: Option<seq<byte>>)
    ensures r.Some? ==> |s| == 2 * |r.value|
  {
    if s == "" then Some([])
    else if |s| == 1 then None
    else
      match (DigitValue(s[0]), DigitValue(s[1]), DecodeDigits(s[2..]))
      case (Some(hi), Some(lo), Some(rest)) => Some([16 * hi + lo] + rest)
      case _ => None
  }

  function FromHex(s: string): Option<seq<byte>> {
    if |s| >= 2 && s[..2] == "0x" then DecodeDigits(s[2..]) else DecodeDigits(s)
  }

  lemma DigitValueOfHexDigit(n: nat)
    requires n < 16
    ensures DigitValue(HexDigits[n]) == Some(n)
  {
  }

  /** The first two digits of an encoding decode to the byte they encode. */
  lemma DecodeLeadingByte(b: byte, rest: string)
    ensures var s := [HexDigits[b / 16], HexDigits[b % 16]] + rest;
      DecodeDigits(s) == if DecodeDigits(rest).Some? then Some([b] + DecodeDigits(rest).value) else None
  {
    var s := [HexDigits[b / 16], HexDigits[b % 16]] + rest;
    DigitValueOfHexDigit(b / 16);
    DigitValueOfHexDigit(b % 16);
    assert s[2..] == rest;
  }

  lemma {:induction false} DecodeDigitsRoundTrip(bytes: seq<byte>)
    ensures DecodeDigits(ToHex(bytes)) == Some(bytes)
  {
    if bytes != [] {
      DecodeLeadingByte(bytes[0], ToHex(bytes[1..]));
      DecodeDigitsRoundTrip(bytes[1..]);
      assert bytes == [bytes[0]] + bytes[1..];
    }
  }

  /**
   * Decoding undoes encoding, with or without the "0x" prefix: an encoding
   * never itself starts with "0x", since 'x' is not a hexadecimal digit.
   */
  lemma FromHexRoundTrip(bytes: seq<byte>)
    ensures FromHex(ToHex(bytes)) == Some(bytes)
    ensures FromHex("0x" + ToHex(bytes)) == Some(bytes)
  {
    var s := ToHex(bytes);
    DecodeDigitsRoundTrip(bytes);
    if |s| >= 2 {
      assert s[1] in HexDigits;
      assert s[..2] != "0x";
    }
    assert ("0x" + s)[2..] == s;
  }
}
