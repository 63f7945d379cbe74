/** Hexadecimal payloads (main/BLE_Actor.c, s_hex_decode): Base16 of section 8 of RFC 4648, in either letter case. */
module Hex {
  type byte = x: int | 0 <= x < 256

  /** The value of a digit, or -1. */
  function DigitValue(c: char): (v: int)
    ensures -1 <= v < 16
  {
    if '0' <= c <= '9' then c as int - '0' as int
    else if 'a' <= c <= 'f' then c as int - 'a' as int + 10
    else if 'A' <= c <= 'F' then c as int - 'A' as int + 10
    else -1
  }

  function Digit(v: int): (c: char)
    requires 0 <= v < 16
    ensures DigitValue(c) == v
  {
    if v < 10 then '0' + v as char else 'a' + (v - 10) as char
  }

  function Lower(c: char): char {
    if 'A' <= c <= 'F' then c - 'A' + 'a' else c
  }

  function Lowercase(s: string): (r: string)
    ensures |r| == |s| && forall i :: 0 <= i < |s| ==> r[i] == Lower(s[i])
  {
    seq(|s|, i requires 0 <= i < |s| => Lower(s[i]))
  }

  /** Pairs of digits for at most `max` bytes. */
  ghost predicate Decodable(hex: string, max: nat) {
    |hex| % 2 == 0 && |hex| / 2 <= max && forall i :: 0 <= i < |hex| ==> DigitValue(hex[i]) >= 0
  }

  function ByteOf(high: char, low: char): byte
    requires DigitValue(high) >= 0 && DigitValue(low) >= 0
  {
    16 * DigitValue(high) + DigitValue(low)
  }

  function High(b: byte): char { Digit(b / 16) }

  function Low(b: byte): char { Digit(b % 16) }

  ghost function Decode(hex: string): (bytes: seq<byte>)
    requires Decodable(hex, |hex|)
    ensures |bytes| == |hex| / 2
    ensures forall i :: 0 <= i < |bytes| ==> bytes[i] == ByteOf(hex[2 * i], hex[2 * i + 1])
  {
    seq(|hex| / 2, i requires 0 <= i < |hex| / 2 => ByteOf(hex[2 * i], hex[2 * i + 1]))
  }

  function Encode(bytes: seq<byte>): (hex: string)
    ensures |hex| == 2 * |bytes|
    ensures forall i :: 0 <= i < |bytes| ==> hex[2 * i] == High(bytes[i]) && hex[2 * i + 1] == Low(bytes[i])
  {
    seq(2 * |bytes|, k requires 0 <= k < 2 * |bytes| => if k % 2 == 0 then High(bytes[k / 2]) else Low(bytes[k / 2]))
  }

  /** The number of bytes written to `out`, or -1; a failed call may have written some of them. */
  method HexDecode(hex: string, out: array<byte>) returns (n: int)
    modifies out
    ensures n >= 0 <==> Decodable(hex, out.Length)
    ensures n >= 0 ==> n == |hex| / 2 && out[..n] == Decode(hex) && out[n..] == old(out[n..])
    ensures n < 0 ==> n == -1
  {
    if |hex| % 2 != 0 || |hex| / 2 > out.Length {
      return -1;
    }
    n := |hex| / 2;
    var i := 0;
    while i < n
      invariant 0 <= i <= n
      invariant forall j :: 0 <= j < 2 * i ==> DigitValue(hex[j]) >= 0
      invariant forall j :: 0 <= j < i ==> out[j] == ByteOf(hex[2 * j], hex[2 * j + 1])
      invariant out[n..] == old(out[n..])
    {
      var high, low := DigitValue(hex[2 * i]), DigitValue(hex[2 * i + 1]);
      if high < 0 || low < 0 {
        return -1;
      }
      out[i] := 16 * high + low;
      i := i + 1;
    }
  }

  lemma DigitsOf(b: byte)
    ensures DigitValue(High(b)) >= 0 && DigitValue(Low(b)) >= 0 && ByteOf(High(b), Low(b)) == b
  {
  }

  lemma DigitsOfByte(c: char, d: char)
    requires DigitValue(c) >= 0 && DigitValue(d) >= 0
    ensures High(ByteOf(c, d)) == Lower(c) && Low(ByteOf(c, d)) == Lower(d)
  {
  }

  lemma LowerDigit(c: char)
    ensures DigitValue(Lower(c)) == DigitValue(c)
  {
  }

  lemma EvenOrOdd(k: nat)
    ensures k == 2 * (k / 2) || k == 2 * (k / 2) + 1
  {
  }

  lemma DecodeUndoesEncode(bytes: seq<byte>)
    ensures Decodable(Encode(bytes), |bytes|) && Decode(Encode(bytes)) == bytes
  {
    hide DigitValue, ByteOf, High, Low, Encode, Decode;
    var hex := Encode(bytes);
    forall k | 0 <= k < |hex| ensures DigitValue(hex[k]) >= 0 {
      EvenOrOdd(k);
      DigitsOf(bytes[k / 2]);
    }
    forall i | 0 <= i < |bytes| ensures Decode(hex)[i] == bytes[i] { DigitsOf(bytes[i]); }
  }

  lemma EncodeUndoesDecode(hex: string)
    requires Decodable(hex, |hex|)
    ensures Encode(Decode(hex)) == Lowercase(hex)
  {
    hide DigitValue, ByteOf, High, Low, Lower, Encode, Decode, Lowercase;
    forall k | 0 <= k < |hex| ensures Encode(Decode(hex))[k] == Lower(hex[k]) {
      EvenOrOdd(k);
      var i := k / 2;
      assert Decode(hex)[i] == ByteOf(hex[2 * i], hex[2 * i + 1]);
      DigitsOfByte(hex[2 * i], hex[2 * i + 1]);
    }
  }

  lemma DecodeIgnoresCase(hex: string, max: nat)
    ensures Decodable(hex, max) <==> Decodable(Lowercase(hex), max)
    ensures Decodable(hex, max) ==> Decode(hex) == Decode(Lowercase(hex))
  {
    hide DigitValue, Lower, Decode, Lowercase;
    forall k | 0 <= k < |hex| ensures DigitValue(Lowercase(hex)[k]) == DigitValue(hex[k]) { LowerDigit(hex[k]); }
    if Decodable(hex, max) {
      assert forall k :: 0 <= k < |hex| ==> DigitValue(hex[k]) == DigitValue(Lowercase(hex)[k]);
    }
  }

  /** Exactly the spellings of the encoding, in any mixture of cases, decode to the bytes. */
  lemma DecodesToIff(hex: string, bytes: seq<byte>)
    ensures Decodable(hex, |bytes|) && Decode(hex) == bytes <==> Lowercase(hex) == Encode(bytes)
  {
    hide DigitValue, ByteOf, High, Low, Lower, Encode, Decode, Lowercase;
    DecodeUndoesEncode(bytes);
    DecodeIgnoresCase(hex, |bytes|);
    if Decodable(hex, |bytes|) {
      EncodeUndoesDecode(hex);
    }
  }
}
