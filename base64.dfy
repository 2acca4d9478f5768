/** `btoa` and `atob` as global.js uses them (lines 52 and 119):
    `btoa` is the Base64 encoding of section 4 of RFC 4648 applied to a
    Latin-1 string; `atob` is the WHATWG "forgiving-base64 decode", which
    accepts input whose trailing '=' padding is missing. */
module Base64 {
  import opened Wrappers

  /** The 64 characters of the Base64 alphabet ('=' is not one of them). */
  predicate IsAlphabetChar(c: char) {
    ('A' <= c <= 'Z') || ('a' <= c <= 'z') || ('0' <= c <= '9') || c == '+' || c == '/'
  }

  predicate IsAlphabetText(s: string) {
    forall i :: 0 <= i < |s| ==> IsAlphabetChar(s[i])
  }

  /** A string every character of which fits in one byte: what btoa accepts. */
  predicate IsLatin1(t: string) {
    forall i :: 0 <= i < |t| ==> t[i] as int < 256
  }

  /** A 6-bit value: what one Base64 character stands for. */
  type Sextet = v: nat | v < 64

  /** The 6-bit value a Base64 character stands for. */
  function SextetValue(c: char): (v: Sextet)
    requires IsAlphabetChar(c)
  {
    if 'A' <= c <= 'Z' then c as int - 'A' as int
    else if 'a' <= c <= 'z' then c as int - 'a' as int + 26
    else if '0' <= c <= '9' then c as int - '0' as int + 52
    else if c == '+' then 62
    else 63
  }

  /** The Base64 character for a 6-bit value; SextetValue inverts it. */
  function SextetChar(v: Sextet): (c: char)
    ensures IsAlphabetChar(c) && SextetValue(c) == v
  {
    if v < 26 then ('A' as int + v) as char
    else if v < 52 then ('a' as int + (v - 26)) as char
    else if v < 62 then ('0' as int + (v - 52)) as char
    else if v == 62 then '+'
    else '/'
  }

  /** The bytes of a Latin-1 string, one per character. */
  function Latin1ToBytes(t: string): (b: seq<Byte>)
    requires IsLatin1(t)
    ensures |b| == |t| && forall i :: 0 <= i < |t| ==> b[i] == t[i] as int
  {
    seq(|t|, i requires 0 <= i < |t| => t[i] as int)
  }

  /** The string whose character codes are the given bytes (what atob returns). */
  function BytesToLatin1(b: seq<Byte>): (t: string)
    ensures IsLatin1(t)
    ensures |t| == |b| && forall i :: 0 <= i < |b| ==> t[i] as int == b[i]
  {
    seq(|b|, i requires 0 <= i < |b| => b[i] as char)
  }

  /** The 6-bit values of section 4 of RFC 4648: four per 3-byte group,
      then two or three for a final group of one or two bytes (the unused
      low bits are zero). */
  function Sextets(b: seq<Byte>): (v: seq<Sextet>)
    decreases |b|
  {
    if |b| == 0 then []
    else if |b| == 1 then [b[0] / 4, (b[0] % 4) * 16]
    else if |b| == 2 then [b[0] / 4, (b[0] % 4) * 16 + b[1] / 16, (b[1] % 16) * 4]
    else GroupSextets(b[0], b[1], b[2]) + Sextets(b[3..])
  }

  /** The four 6-bit values of one full 3-byte group. */
  function GroupSextets(x: Byte, y: Byte, z: Byte): (v: seq<Sextet>) {
    [x / 4, (x % 4) * 16 + y / 16, (y % 16) * 4 + z / 64, z % 64]
  }

  /** RFC 4648 section 4 without the final '=' padding: every 6-bit value
      written as its alphabet character. */
  function EncodeUnpadded(b: seq<Byte>): (s: string)
    ensures IsAlphabetText(s)
    ensures |s| == |Sextets(b)| && forall i :: 0 <= i < |s| ==> SextetValue(s[i]) == Sextets(b)[i]
  {
    var v := Sextets(b);
    seq(|v|, i requires 0 <= i < |v| => SextetChar(v[i]))
  }

  /** RFC 4648 section 4: the unpadded encoding followed by "==" or "="
      so that the length is a multiple of 4. */
  function Encode(b: seq<Byte>): (s: string)
    ensures |s| % 4 == 0
    ensures |EncodeUnpadded(b)| <= |s| <= |EncodeUnpadded(b)| + 2
    ensures s[..|EncodeUnpadded(b)|] == EncodeUnpadded(b)
    ensures forall i :: |EncodeUnpadded(b)| <= i < |s| ==> s[i] == '='
  {
    SextetsMod4(b);
    EncodeUnpadded(b) + (if |b| % 3 == 1 then "==" else if |b| % 3 == 2 then "=" else "")
  }

  /** btoa: throws InvalidCharacterError unless every character is Latin-1. */
  function Btoa(t: string): (r: Result<string>)
    ensures r.Success? <==> IsLatin1(t)
    ensures r.Failure? ==> r.error == InvalidCharacter
  {
    if IsLatin1(t) then Success(Encode(Latin1ToBytes(t))) else Failure(InvalidCharacter)
  }

  /** ASCII whitespace as the WHATWG Infra standard defines it:
      TAB, LF, FF, CR and SPACE. */
  predicate IsAsciiWhitespace(c: char) {
    c == '\t' || c == '\n' || c == 12 as char || c == '\r' || c == ' '
  }

  /** Step 1 of forgiving-base64 decode: remove ASCII whitespace and
      keep every other character, in order (with RemoveWhitespaceConcat,
      the single-character cases below determine the result). */
  function RemoveWhitespace(s: string): (r: string)
    ensures forall i :: 0 <= i < |r| ==> !IsAsciiWhitespace(r[i])
    ensures (forall i :: 0 <= i < |s| ==> !IsAsciiWhitespace(s[i])) ==> r == s
    ensures |s| == 1 ==> r == (if IsAsciiWhitespace(s[0]) then "" else s)
    ensures forall c :: c in s && !IsAsciiWhitespace(c) ==> c in r
    decreases |s|
  {
    if |s| == 0 then ""
    else (if IsAsciiWhitespace(s[0]) then "" else [s[0]]) + RemoveWhitespace(s[1..])
  }

  /** Step 2 of forgiving-base64 decode: when the length is a multiple of
      4, one or two trailing '=' are removed. */
  function DropFinalPadding(d: string): (r: string)
    ensures |d| % 4 != 0 ==> r == d
    ensures r <= d && |d| - |r| <= 2
    ensures forall i :: |r| <= i < |d| ==> d[i] == '='
    ensures |d| % 4 == 0 && |d| >= 2 && d[|d| - 2] == '=' && d[|d| - 1] == '=' ==> |r| == |d| - 2
    ensures |d| % 4 == 0 && |d| >= 1 && d[|d| - 1] == '=' ==> |r| < |d|
  {
    if |d| % 4 == 0 && |d| >= 2 && d[|d| - 2] == '=' && d[|d| - 1] == '=' then d[..|d| - 2]
    else if |d| % 4 == 0 && |d| >= 1 && d[|d| - 1] == '=' then d[..|d| - 1]
    else d
  }

  /** The first, second and third byte of a group, from its sextets. */
  function FirstByte(v0: Sextet, v1: Sextet): (b: Byte)
  {
    v0 * 4 + v1 / 16
  }

  function SecondByte(v1: Sextet, v2: Sextet): (b: Byte)
  {
    (v1 % 16) * 16 + v2 / 4
  }

  function ThirdByte(v2: Sextet, v3: Sextet): (b: Byte)
  {
    (v2 % 4) * 64 + v3
  }

  /** Step 5 of forgiving-base64 decode on the 6-bit values: every four
      give three bytes; a final two or three give one or two bytes, the
      left-over 4 or 2 bits being discarded. */
  function Combine(v: seq<Sextet>): (b: seq<Byte>)
    requires |v| % 4 != 1
    ensures |b| == 3 * (|v| / 4) + (if |v| % 4 == 0 then 0 else |v| % 4 - 1)
    decreases |v|
  {
    if |v| == 0 then []
    else if |v| == 2 then [FirstByte(v[0], v[1])]
    else if |v| == 3 then [FirstByte(v[0], v[1]), SecondByte(v[1], v[2])]
    else [FirstByte(v[0], v[1]), SecondByte(v[1], v[2]), ThirdByte(v[2], v[3])] + Combine(v[4..])
  }

  /** The 6-bit value of every character. */
  function SextetValues(d: string): (v: seq<Sextet>)
    requires IsAlphabetText(d)
    ensures |v| == |d|
  {
    seq(|d|, i requires 0 <= i < |d| => SextetValue(d[i]))
  }

  /** Step 5 of forgiving-base64 decode: every four characters give three
      bytes; a final two or three characters give one or two bytes. */
  function DecodeGroups(d: string): (b: seq<Byte>)
    requires IsAlphabetText(d) && |d| % 4 != 1
    ensures |b| == 3 * (|d| / 4) + (if |d| % 4 == 0 then 0 else |d| % 4 - 1)
  {
    Combine(SextetValues(d))
  }

  /** Forgiving-base64 decode: remove whitespace, drop the final padding,
      fail on a length of 1 modulo 4 or on a character outside the
      alphabet, otherwise decode. */
  function ForgivingDecode(s: string): (r: Result<seq<Byte>>)
    ensures r.Failure? ==> r.error == InvalidCharacter
    ensures var d := DropFinalPadding(RemoveWhitespace(s));
      r.Success? <==> |d| % 4 != 1 && IsAlphabetText(d)
  {
    var d := DropFinalPadding(RemoveWhitespace(s));
    if |d| % 4 == 1 then Failure(InvalidCharacter)
    else if !IsAlphabetText(d) then Failure(InvalidCharacter)
    else Success(DecodeGroups(d))
  }

  /** Removing whitespace distributes over concatenation. */
  lemma {:induction false} RemoveWhitespaceConcat(s: string, t: string)
    ensures RemoveWhitespace(s + t) == RemoveWhitespace(s) + RemoveWhitespace(t)
    decreases |s|
  {
    if |s| == 0 {
      assert s + t == t;
    } else {
      var st := s + t;
      assert st[0] == s[0] && st[1..] == s[1..] + t;
      RemoveWhitespaceConcat(s[1..], t);
    }
  }

  /** A whitespace-free text whose length is 1 modulo 4 is rejected. */
  lemma RejectsLengthOneMod4(s: string)
    requires forall i :: 0 <= i < |s| ==> !IsAsciiWhitespace(s[i])
    requires |s| % 4 == 1
    ensures ForgivingDecode(s) == Failure(InvalidCharacter)
  {
  }

  /** A character that is not whitespace, '=' or in the alphabet is rejected,
      wherever it stands. */
  lemma RejectsNonAlphabet(s: string, i: nat)
    requires i < |s|
    requires !IsAlphabetChar(s[i]) && !IsAsciiWhitespace(s[i]) && s[i] != '='
    ensures ForgivingDecode(s) == Failure(InvalidCharacter)
  {
    var w := RemoveWhitespace(s);
    var d := DropFinalPadding(w);
    assert s[i] in s;
    var j :| 0 <= j < |w| && w[j] == s[i];
    assert d == w[..|d|];
  }

  /** atob: decode, then read each byte as one character. */
  function Atob(s: string): (r: Result<string>)
    ensures r.Success? <==> ForgivingDecode(s).Success?
    ensures r.Failure? ==> r.error == InvalidCharacter
    ensures r.Success? ==> IsLatin1(r.value)
  {
    var b :- ForgivingDecode(s);
    Success(BytesToLatin1(b))
  }

  /** There are 4 values per full 3-byte group and 2 or 3 for a final
      group of 1 or 2 bytes, hence as many characters in the unpadded
      encoding. */
  lemma {:induction false} SextetsLength(b: seq<Byte>)
    ensures |Sextets(b)| == 4 * (|b| / 3) + (if |b| % 3 == 0 then 0 else |b| % 3 + 1)
    decreases |b|
  {
    if |b| >= 3 {
      SextetsLength(b[3..]);
      assert |b[3..]| / 3 == |b| / 3 - 1 && |b[3..]| % 3 == |b| % 3;
    }
  }

  /** The number of values, and so the unpadded length, is 0, 2 or 3
      modulo 4 for a byte count that is 0, 1 or 2 modulo 3. */
  lemma {:induction false} SextetsMod4(b: seq<Byte>)
    ensures |Sextets(b)| % 4 == (if |b| % 3 == 0 then 0 else |b| % 3 + 1)
    decreases |b|
  {
    if |b| >= 3 {
      SextetsMod4(b[3..]);
      assert |b[3..]| % 3 == |b| % 3;
    }
  }

  /** The padded encoding is 4 characters per started 3-byte group. */
  lemma EncodeLength(b: seq<Byte>)
    ensures |Encode(b)| == 4 * ((|b| + 2) / 3)
  {
    SextetsLength(b);
    var q, r := |b| / 3, |b| % 3;
    assert |b| == 3 * q + r;
    assert (|b| + 2) / 3 == if r == 0 then q else q + 1;
  }

  /** Decoding a group recovers the three bytes it was encoded from. */
  lemma GroupRoundTrip(b0: Byte, b1: Byte, b2: Byte)
    ensures FirstByte(b0 / 4, (b0 % 4) * 16 + b1 / 16) == b0
    ensures SecondByte((b0 % 4) * 16 + b1 / 16, (b1 % 16) * 4 + b2 / 64) == b1
    ensures ThirdByte((b1 % 16) * 4 + b2 / 64, b2 % 64) == b2
  {
  }

  /** Decoding a final 2-byte group recovers both bytes. */
  lemma PairRoundTrip(x: Byte, y: Byte)
    ensures FirstByte(x / 4, (x % 4) * 16 + y / 16) == x
    ensures SecondByte((x % 4) * 16 + y / 16, (y % 16) * 4) == y
  {
  }

  /** Step 5 on a leading group of four values. */
  lemma CombineAppend(g: seq<Sextet>, r: seq<Sextet>)
    requires |g| == 4 && |r| % 4 != 1
    ensures Combine(g + r) == Combine(g) + Combine(r)
  {
    assert (g + r)[4..] == r;
    assert g[4..] == [];
  }

  /** Step 5 recovers a 3-byte group from its four values. */
  lemma CombineGroup(x: Byte, y: Byte, z: Byte)
    ensures |GroupSextets(x, y, z)| == 4
    ensures Combine(GroupSextets(x, y, z)) == [x, y, z]
  {
    GroupRoundTrip(x, y, z);
  }

  /** Step 5 on the two values of a final 1-byte group. */
  lemma CombineFinalOne(x: Byte)
    ensures Combine(Sextets([x])) == [x]
  {
    assert Sextets([x]) == [x / 4, (x % 4) * 16];
    assert FirstByte(x / 4, (x % 4) * 16) == x;
  }

  /** Step 5 on the three values of a final 2-byte group. */
  lemma CombineFinalTwo(x: Byte, y: Byte)
    ensures Combine(Sextets([x, y])) == [x, y]
  {
    assert Sextets([x, y]) == [x / 4, (x % 4) * 16 + y / 16, (y % 16) * 4];
    PairRoundTrip(x, y);
  }

  /** Step 5 inverts the split into 6-bit values. */
  lemma {:induction false} CombineSextets(b: seq<Byte>)
    ensures |Sextets(b)| % 4 != 1
    ensures Combine(Sextets(b)) == b
    decreases |b|
  {
    if |b| == 1 {
      CombineFinalOne(b[0]);
      assert b == [b[0]];
    } else if |b| == 2 {
      CombineFinalTwo(b[0], b[1]);
      assert b == [b[0], b[1]];
    } else if |b| >= 3 {
      CombineSextets(b[3..]);
      CombineAppend(GroupSextets(b[0], b[1], b[2]), Sextets(b[3..]));
      CombineGroup(b[0], b[1], b[2]);
      assert b == [b[0], b[1], b[2]] + b[3..];
    }
  }

  /** Decoding the unpadded encoding gives back the bytes. */
  lemma DecodeEncodeUnpadded(b: seq<Byte>)
    ensures |EncodeUnpadded(b)| % 4 != 1
    ensures DecodeGroups(EncodeUnpadded(b)) == b
  {
    CombineSextets(b);
    assert SextetValues(EncodeUnpadded(b)) == Sextets(b);
  }

  /** The forgiving decoder accepts the encoding with its '=' padding
      removed, and returns the bytes that were encoded. */
  lemma ForgivingDecodeUnpadded(b: seq<Byte>)
    ensures ForgivingDecode(EncodeUnpadded(b)) == Success(b)
  {
    var s := EncodeUnpadded(b);
    assert forall i :: 0 <= i < |s| ==> !IsAsciiWhitespace(s[i]);
    assert RemoveWhitespace(s) == s;
    if |s| % 4 == 0 && |s| >= 1 {
      assert s[|s| - 1] != '=';
    }
    assert DropFinalPadding(s) == s;
    DecodeEncodeUnpadded(b);
  }

  /** The padded encoding has no whitespace, and step 2 of the decoder
      removes exactly the padding btoa added. */
  lemma DropEncodePadding(b: seq<Byte>)
    ensures forall i :: 0 <= i < |Encode(b)| ==> !IsAsciiWhitespace(Encode(b)[i])
    ensures DropFinalPadding(Encode(b)) == EncodeUnpadded(b)
  {
    var s := Encode(b);
    var u := EncodeUnpadded(b);
    forall i | 0 <= i < |s| ensures !IsAsciiWhitespace(s[i]) {
      if i < |u| { assert s[i] == s[..|u|][i] == u[i]; }
    }
    SextetsMod4(b);
    if |u| > 0 && |u| < |s| {
      assert s[|u| - 1] == u[|u| - 1];
    }
    assert s[..|u|] == u;
  }

  /** The forgiving decoder also accepts the padded encoding. */
  lemma ForgivingDecodePadded(b: seq<Byte>)
    ensures ForgivingDecode(Encode(b)) == Success(b)
  {
    DropEncodePadding(b);
    assert RemoveWhitespace(Encode(b)) == Encode(b);
    DecodeEncodeUnpadded(b);
  }

  /** btoa and atob are inverse on Latin-1 text. */
  lemma AtobBtoa(t: string)
    requires IsLatin1(t)
    ensures Atob(Btoa(t).value) == Success(t)
  {
    ForgivingDecodePadded(Latin1ToBytes(t));
    assert BytesToLatin1(Latin1ToBytes(t)) == t;
  }

  /** atob inverts btoa even after btoa's own '=' padding is removed. */
  lemma AtobUnpaddedBtoa(t: string)
    requires IsLatin1(t)
    ensures Atob(EncodeUnpadded(Latin1ToBytes(t))) == Success(t)
  {
    ForgivingDecodeUnpadded(Latin1ToBytes(t));
    assert BytesToLatin1(Latin1ToBytes(t)) == t;
  }
}
