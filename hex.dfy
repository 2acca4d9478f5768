/** Base16 (section 8 of RFC 4648) the way aes-js utils.hex works:
    fromBytes writes two lowercase digits per byte (global.js lines 78
    and 81); toBytes reads the text two characters at a time (lines
    103-104). */
module Hex {
  import opened Wrappers

  predicate IsHexDigit(c: char) {
    ('0' <= c <= '9') || ('a' <= c <= 'f') || ('A' <= c <= 'F')
  }

  predicate IsLowerHexDigit(c: char) {
    IsHexDigit(c) && !('A' <= c <= 'F')
  }

  /** Text made only of hexadecimal digits, in either case. */
  predicate IsHexText(s: string) {
    forall i :: 0 <= i < |s| ==> IsHexDigit(s[i])
  }

  /** The value of one hexadecimal digit, either case. */
  function DigitValue(c: char): (v: nat)
    requires IsHexDigit(c)
    ensures v < 16
  {
    if '0' <= c <= '9' then c as int - '0' as int
    else if 'a' <= c <= 'f' then c as int - 'a' as int + 10
    else c as int - 'A' as int + 10
  }

  /** The lowercase digit for a value below 16, as in the table
      "0123456789abcdef"; DigitValue inverts it. */
  function DigitChar(v: nat): (c: char)
    requires v < 16
    ensures IsLowerHexDigit(c) && IsHexDigit(c) && DigitValue(c) == v
  {
    if v < 10 then ('0' as int + v) as char else ('a' as int + v - 10) as char
  }

  /** hex.fromBytes: the high then the low nibble of every byte. */
  function Encode(b: seq<Byte>): (s: string)
    ensures |s| == 2 * |b|
    ensures forall i :: 0 <= i < |s| ==> IsLowerHexDigit(s[i])
    decreases |b|
  {
    if |b| == 0 then ""
    else [DigitChar(b[0] / 16), DigitChar(b[0] % 16)] + Encode(b[1..])
  }

  /** hex.toBytes on text made of hexadecimal digit pairs; anything else
      (an odd length, a non-digit) is MalformedHex. */
  function Decode(s: string): (r: Result<seq<Byte>>)
    ensures r.Success? <==> |s| % 2 == 0 && IsHexText(s)
    ensures r.Success? ==> 2 * |r.value| == |s|
    ensures r.Failure? ==> r.error == MalformedHex
    decreases |s|
  {
    if |s| == 0 then Success([])
    else if |s| == 1 || !IsHexDigit(s[0]) || !IsHexDigit(s[1]) then Failure(MalformedHex)
    else
      assert forall i :: 2 <= i < |s| ==> s[i] == s[2..][i - 2];
      var rest :- Decode(s[2..]);
      Success([DigitValue(s[0]) * 16 + DigitValue(s[1])] + rest)
  }

  /** Decode inverts Encode. */
  lemma {:induction false} DecodeEncode(b: seq<Byte>)
    ensures Decode(Encode(b)) == Success(b)
    decreases |b|
  {
    if |b| > 0 {
      var s := Encode(b);
      var hi, lo := DigitChar(b[0] / 16), DigitChar(b[0] % 16);
      assert s == [hi, lo] + Encode(b[1..]);
      assert s[0] == hi && s[1] == lo && s[2..] == Encode(b[1..]);
      DecodeEncode(b[1..]);
      assert DigitValue(hi) * 16 + DigitValue(lo) == b[0];
      assert b == [b[0]] + b[1..];
    }
  }

  /** A byte read from two lowercase digits is written back as the same
      two digits. */
  lemma PairCanonical(c0: char, c1: char)
    requires IsLowerHexDigit(c0) && IsLowerHexDigit(c1)
    ensures DigitChar((DigitValue(c0) * 16 + DigitValue(c1)) / 16) == c0
    ensures DigitChar((DigitValue(c0) * 16 + DigitValue(c1)) % 16) == c1
  {
    var v := DigitValue(c0) * 16 + DigitValue(c1);
    assert v / 16 == DigitValue(c0) && v % 16 == DigitValue(c1);
  }

  /** Encode writes a leading byte as its two digits. */
  lemma EncodeCons(v: Byte, rest: seq<Byte>)
    ensures Encode([v] + rest) == [DigitChar(v / 16), DigitChar(v % 16)] + Encode(rest)
  {
    assert ([v] + rest)[1..] == rest;
  }

  /** Decode reads a leading digit pair as one byte. */
  lemma PairDecode(s: string, rest: seq<Byte>)
    requires |s| >= 2 && IsHexDigit(s[0]) && IsHexDigit(s[1])
    requires Decode(s[2..]) == Success(rest)
    ensures Decode(s) == Success([DigitValue(s[0]) * 16 + DigitValue(s[1])] + rest)
  {
  }

  /** The byte read from a lowercase digit pair is written back as that
      pair. */
  lemma PairEncode(c0: char, c1: char, rest: seq<Byte>)
    requires IsLowerHexDigit(c0) && IsLowerHexDigit(c1)
    ensures Encode([DigitValue(c0) * 16 + DigitValue(c1)] + rest) == [c0, c1] + Encode(rest)
  {
    PairCanonical(c0, c1);
    EncodeCons(DigitValue(c0) * 16 + DigitValue(c1), rest);
  }

  /** Even-length lowercase text decodes, and Encode gives it back: the
      encoding is canonical. */
  lemma {:induction false} EncodeDecode(s: string)
    requires forall i :: 0 <= i < |s| ==> IsLowerHexDigit(s[i])
    requires |s| % 2 == 0
    ensures Decode(s).Success?
    ensures Encode(Decode(s).value) == s
    decreases |s|
  {
    if |s| > 0 {
      var t := s[2..];
      assert forall i :: 0 <= i < |t| ==> t[i] == s[i + 2];
      EncodeDecode(t);
      var rest := Decode(t).value;
      PairDecode(s, rest);
      PairEncode(s[0], s[1], rest);
      assert s == [s[0], s[1]] + t;
    }
  }

  /** Different byte strings have different encodings. */
  lemma EncodeInjective(a: seq<Byte>, b: seq<Byte>)
    requires Encode(a) == Encode(b)
    ensures a == b
  {
    DecodeEncode(a);
    DecodeEncode(b);
  }
}
