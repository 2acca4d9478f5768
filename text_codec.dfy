/** The hand-written block alignment of global.js: the Base64 text is
    right-padded with '=' to a multiple of 16 characters and turned into
    bytes (encryptText, lines 52-63); on the way back the bytes are read
    as text, every '=' is removed and the rest is Base64-decoded
    (decryptText, lines 113-119). */
module TextCodec {
  import opened Wrappers
  import opened Base64
  import Cipher

  function Repeat(c: char, n: nat): (s: string)
    ensures |s| == n && forall i :: 0 <= i < n ==> s[i] == c
  {
    seq(n, _ => c)
  }

  /** Lines 55-60: append `16 - len % 16` '=' characters unless the
      length is already a multiple of 16. */
  function Pad(s: string): (r: string)
    ensures |r| % Cipher.BlockSize == 0
    ensures |s| <= |r| < |s| + Cipher.BlockSize
    ensures |s| % Cipher.BlockSize == 0 ==> r == s
    ensures r[..|s|] == s
    ensures forall i :: |s| <= i < |r| ==> r[i] == '='
  {
    if |s| % Cipher.BlockSize != 0 then s + Repeat('=', Cipher.BlockSize - |s| % Cipher.BlockSize) else s
  }

  /** Line 116: `replace(/=/g, "")` removes every '=', wherever it is. */
  function StripPadding(s: string): (r: string)
    ensures '=' !in r
    ensures |r| <= |s|
    decreases |s|
  {
    if |s| == 0 then ""
    else (if s[0] == '=' then "" else [s[0]]) + StripPadding(s[1..])
  }

  /** A string is ASCII when every character is below 128. */
  predicate IsAscii(s: string) {
    forall i :: 0 <= i < |s| ==> s[i] as int < 128
  }

  /** Line 63: utf8.toBytes of ASCII text gives one byte per character. */
  function AsciiToBytes(s: string): (b: seq<Byte>)
    requires IsAscii(s)
    ensures |b| == |s| && forall i :: 0 <= i < |s| ==> b[i] == s[i] as int
  {
    seq(|s|, i requires 0 <= i < |s| => s[i] as int)
  }

  /** Line 113: utf8.fromBytes, for bytes that are ASCII; any other
      byte is reported as NotAscii. */
  function AsciiFromBytes(b: seq<Byte>): (r: Result<string>)
    ensures r.Success? <==> forall i :: 0 <= i < |b| ==> b[i] < 128
    ensures r.Success? ==> IsAscii(r.value) && |r.value| == |b|
    ensures r.Success? ==> forall i :: 0 <= i < |b| ==> r.value[i] as int == b[i]
  {
    if forall i :: 0 <= i < |b| ==> b[i] < 128 then
      Success(seq(|b|, i requires 0 <= i < |b| => b[i] as char))
    else Failure(NotAscii)
  }

  /** Lines 52-63: Base64-encode, pad to a multiple of 16, convert to bytes.
      Fails exactly when btoa does. */
  function EncodeAndPad(text: string): (r: Result<seq<Byte>>)
    ensures r.Success? <==> IsLatin1(text)
    ensures r.Success? ==> |r.value| % Cipher.BlockSize == 0
  {
    var b64 :- Btoa(text);
    PaddedIsAscii(b64);
    Success(AsciiToBytes(Pad(b64)))
  }

  /** Lines 113-119: bytes to text, strip every '=', atob. */
  function UnpadAndDecode(bytes: seq<Byte>): (r: Result<string>)
    ensures r.Success? ==> IsLatin1(r.value)
  {
    var b64 :- AsciiFromBytes(bytes);
    Atob(StripPadding(b64))
  }

  /** utf8.fromBytes inverts utf8.toBytes on ASCII text. */
  lemma AsciiBytesRoundTrip(s: string)
    requires IsAscii(s)
    ensures AsciiFromBytes(AsciiToBytes(s)) == Success(s)
  {
    var b := AsciiToBytes(s);
    var r := AsciiFromBytes(b);
    assert r.value == s by {
      forall i | 0 <= i < |s| ensures r.value[i] == s[i] {
        assert r.value[i] as int == b[i] == s[i] as int;
      }
    }
  }

  /** Base64 text (alphabet characters and '=') stays ASCII when padded. */
  lemma PaddedIsAscii(s: string)
    requires forall i :: 0 <= i < |s| ==> IsAlphabetChar(s[i]) || s[i] == '='
    ensures IsAscii(Pad(s))
  {
    var p := Pad(s);
    forall i | 0 <= i < |p| ensures p[i] as int < 128 {
      if i < |s| { assert p[i] == p[..|s|][i] == s[i]; }
    }
  }

  /** Stripping distributes over concatenation. */
  lemma {:induction false} StripConcat(s: string, t: string)
    ensures StripPadding(s + t) == StripPadding(s) + StripPadding(t)
    decreases |s|
  {
    if |s| == 0 {
      assert s + t == t;
    } else {
      var st := s + t;
      assert st[0] == s[0];
      assert st[1..] == s[1..] + t;
      StripConcat(s[1..], t);
      assert StripPadding(st) == (if s[0] == '=' then "" else [s[0]]) + StripPadding(st[1..]);
    }
  }

  /** Text without '=' is left unchanged by stripping. */
  lemma {:induction false} StripNoPadding(s: string)
    requires '=' !in s
    ensures StripPadding(s) == s
    decreases |s|
  {
    if |s| > 0 {
      assert s == [s[0]] + s[1..];
      StripNoPadding(s[1..]);
    }
  }

  /** Stripping twice is stripping once. */
  lemma StripIdempotent(s: string)
    ensures StripPadding(StripPadding(s)) == StripPadding(s)
  {
    StripNoPadding(StripPadding(s));
  }

  /** A run of '=' strips to nothing. */
  lemma {:induction false} StripAllPadding(s: string)
    requires forall i :: 0 <= i < |s| ==> s[i] == '='
    ensures StripPadding(s) == ""
    decreases |s|
  {
    if |s| > 0 { StripAllPadding(s[1..]); }
  }

  /** Stripping the padded Base64 text removes both btoa's own '=' and
      the block padding, and leaves the unpadded encoding. */
  lemma StripPadEncode(b: seq<Byte>)
    ensures StripPadding(Pad(Encode(b))) == EncodeUnpadded(b)
  {
    var u := EncodeUnpadded(b);
    var q := if |b| % 3 == 1 then "==" else if |b| % 3 == 2 then "=" else "";
    var e := Encode(b);
    assert e == u + q;
    var k := if |e| % Cipher.BlockSize != 0 then Cipher.BlockSize - |e| % Cipher.BlockSize else 0;
    assert Pad(e) == e + Repeat('=', k);
    StripConcat(e, Repeat('=', k));
    StripAllPadding(Repeat('=', k));
    StripConcat(u, q);
    StripAllPadding(q);
    assert '=' !in u by {
      forall i | 0 <= i < |u| ensures u[i] != '=' { assert IsAlphabetChar(u[i]); }
    }
    StripNoPadding(u);
    assert u + "" == u;
  }

  /** The text codec round trip: `atob(strip(pad(btoa(t)))) == t`. */
  lemma CodecRoundTrip(text: string)
    requires IsLatin1(text)
    ensures EncodeAndPad(text).Success?
    ensures UnpadAndDecode(EncodeAndPad(text).value) == Success(text)
  {
    var b64 := Btoa(text).value;
    PaddedIsAscii(b64);
    var bytes := AsciiToBytes(Pad(b64));
    AsciiBytesRoundTrip(Pad(b64));
    StripPadEncode(Latin1ToBytes(text));
    AtobUnpaddedBtoa(text);
  }
}
