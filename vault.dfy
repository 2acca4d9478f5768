/** The password-based text and JSON encryption of global.js:
    encryptText (lines 50-88), decryptText (lines 91-123), encryptJSON
    and decryptJSON (lines 128 and 131). The random IV of line 69 is a
    parameter; the foreign code is the Primitives bundle. */
module Vault {
  import opened Wrappers
  import opened Base64
  import TextCodec
  import Hex
  import CipherText
  import opened Cipher

  /** encryptText: pad the Base64 text, derive the key, encrypt under a
      fresh IV, write `hex(iv):hex(data)`. */
  function EncryptText(p: Primitives, password: string, text: string, iv: seq<Byte>): (r: Result<string>)
    ensures r.Success? <==>
      IsLatin1(text) && |iv| == BlockSize && IsKeySize(|DeriveKey(p, password)|)
    ensures !IsLatin1(text) ==> r == Failure(InvalidCharacter)
    ensures r.Success? ==> CipherText.Parse(r.value).Success? && CipherText.Parse(r.value).value.0 == iv
    ensures r.Success? ==>
      && TextCodec.EncodeAndPad(text).Success?
      && CipherText.Parse(r.value).value.1
         == p.encrypt(DeriveKey(p, password), iv, TextCodec.EncodeAndPad(text).value)
    ensures Assumed(p) && r.Success? ==> |CipherText.Parse(r.value).value.1| % BlockSize == 0
  {
    var bytes :- TextCodec.EncodeAndPad(text);
    var key := DeriveKey(p, password);
    var encrypted :- CbcEncrypt(p, key, iv, bytes);
    CipherText.ParseSerialize(iv, encrypted);
    assert Assumed(p) ==> |encrypted| == |bytes|;
    Success(CipherText.Serialize(iv, encrypted))
  }

  /** decryptText: derive the key, split and hex-decode, decrypt, strip
      the '=' and Base64-decode. */
  function DecryptText(p: Primitives, password: string, cipherText: string): (r: Result<string>)
    ensures ':' !in cipherText ==> r == Failure(MissingField)
    ensures r.Success? ==>
      && CipherText.Parse(cipherText).Success?
      && |CipherText.Parse(cipherText).value.0| == BlockSize
      && IsKeySize(|DeriveKey(p, password)|)
      && |CipherText.Parse(cipherText).value.1| % BlockSize == 0
    ensures r.Success? ==> IsLatin1(r.value)
  {
    var key := DeriveKey(p, password);
    var parsed :- CipherText.Parse(cipherText);
    var decrypted :- CbcDecrypt(p, key, parsed.0, parsed.1);
    TextCodec.UnpadAndDecode(decrypted)
  }

  /** JSON.stringify and JSON.parse for objects of type O. */
  datatype Json<!O> = Json(stringify: O -> string, parse: string -> Result<O>)

  /** What is assumed of the JSON library: parse inverts stringify. */
  ghost predicate JsonAssumed<O(!new)>(j: Json<O>)
    ensures JsonAssumed(j) ==>
      forall a, b :: j.stringify(a) == j.stringify(b) ==> a == b
  {
    forall obj :: j.parse(j.stringify(obj)) == Success(obj)
  }

  /** encryptJSON (line 128). */
  function EncryptJson<O>(p: Primitives, j: Json<O>, password: string, obj: O, iv: seq<Byte>): (r: Result<string>)
    ensures r.Success? <==>
      IsLatin1(j.stringify(obj)) && |iv| == BlockSize && IsKeySize(|DeriveKey(p, password)|)
    ensures r.Success? ==> CipherText.Parse(r.value).Success? && CipherText.Parse(r.value).value.0 == iv
  {
    EncryptText(p, password, j.stringify(obj), iv)
  }

  /** decryptJSON (line 131). */
  function DecryptJson<O>(p: Primitives, j: Json<O>, password: string, cipherText: string): (r: Result<O>)
    ensures ':' !in cipherText ==> r == Failure(MissingField)
    ensures DecryptText(p, password, cipherText).Failure? ==>
      r == Failure(DecryptText(p, password, cipherText).error)
    ensures r.Success? ==> DecryptText(p, password, cipherText).Success?
  {
    var text :- DecryptText(p, password, cipherText);
    j.parse(text)
  }

  /** encryptText throws exactly when btoa does: when the text has a
      character above U+00FF. */
  lemma EncryptTextFailsIffNotLatin1(p: Primitives, password: string, text: string, iv: seq<Byte>)
    requires Assumed(p) && |iv| == BlockSize
    ensures EncryptText(p, password, text, iv).Success? <==> IsLatin1(text)
    ensures EncryptText(p, password, text, iv).Failure? ==>
              EncryptText(p, password, text, iv).error == InvalidCharacter
  {
    if IsLatin1(text) {
      DerivedKeyIsAes256(p, password);
    }
  }

  /** On Latin-1 text encryptText serialises the IV with what the cipher
      returns for the padded Base64 text under the derived key, which is
      as long as that text. */
  lemma EncryptTextValue(p: Primitives, password: string, text: string, iv: seq<Byte>)
    returns (encrypted: seq<Byte>)
    requires Assumed(p) && |iv| == BlockSize && IsLatin1(text)
    ensures EncryptText(p, password, text, iv) == Success(CipherText.Serialize(iv, encrypted))
    ensures TextCodec.EncodeAndPad(text).Success?
    ensures encrypted == p.encrypt(DeriveKey(p, password), iv, TextCodec.EncodeAndPad(text).value)
    ensures |encrypted| == |TextCodec.Pad(Btoa(text).value)|
  {
    DerivedKeyIsAes256(p, password);
    var bytes := TextCodec.EncodeAndPad(text).value;
    encrypted := CbcEncrypt(p, DeriveKey(p, password), iv, bytes).value;
  }

  /** The produced cipher text: the IV's 32 hex digits, one colon, the
      hex of the encrypted bytes, which are as many as the padded Base64
      text has characters, a multiple of 16. */
  lemma EncryptTextShape(p: Primitives, password: string, text: string, iv: seq<Byte>)
    requires Assumed(p) && |iv| == BlockSize && IsLatin1(text)
    ensures EncryptText(p, password, text, iv).Success?
    ensures var c := EncryptText(p, password, text, iv).value;
      && c[..32] == Hex.Encode(iv)
      && c[32] == ':'
      && |CipherText.Split(c)| == 2
      && |CipherText.Split(c)[1]| == 2 * |TextCodec.Pad(Btoa(text).value)|
      && (|CipherText.Split(c)[1]| / 2) % BlockSize == 0
  {
    var encrypted := EncryptTextValue(p, password, text, iv);
    var n := |encrypted|;
    assert n % BlockSize == 0;
    CipherText.SerializeShape(iv, encrypted);
    CipherText.SplitSerialize(iv, encrypted);
    var c := EncryptText(p, password, text, iv).value;
    assert CipherText.Split(c)[1] == Hex.Encode(encrypted);
    assert |CipherText.Split(c)[1]| / 2 == n;
  }

  /** The end-to-end round trip: with the same password, decryptText
      returns the text encryptText was given. */
  lemma TextRoundTrip(p: Primitives, password: string, text: string, iv: seq<Byte>)
    requires Assumed(p) && |iv| == BlockSize && IsLatin1(text)
    ensures EncryptText(p, password, text, iv).Success?
    ensures DecryptText(p, password, EncryptText(p, password, text, iv).value) == Success(text)
  {
    var key := DeriveKey(p, password);
    DerivedKeyIsAes256(p, password);
    var bytes := TextCodec.EncodeAndPad(text).value;
    CbcRoundTrip(p, key, iv, bytes);
    var encrypted := CbcEncrypt(p, key, iv, bytes).value;
    CipherText.ParseSerialize(iv, encrypted);
    TextCodec.CodecRoundTrip(text);
  }

  /** Encrypting twice under different IVs gives different cipher texts,
      and both decrypt to the same text. */
  lemma DistinctIvsSameText(p: Primitives, password: string, text: string, iv1: seq<Byte>, iv2: seq<Byte>)
    requires Assumed(p) && IsLatin1(text)
    requires |iv1| == BlockSize && |iv2| == BlockSize && iv1 != iv2
    ensures EncryptText(p, password, text, iv1).Success? && EncryptText(p, password, text, iv2).Success?
    ensures EncryptText(p, password, text, iv1).value != EncryptText(p, password, text, iv2).value
    ensures DecryptText(p, password, EncryptText(p, password, text, iv1).value)
         == DecryptText(p, password, EncryptText(p, password, text, iv2).value)
  {
    TextRoundTrip(p, password, text, iv1);
    TextRoundTrip(p, password, text, iv2);
    var key := DeriveKey(p, password);
    var bytes := TextCodec.EncodeAndPad(text).value;
    CipherText.SerializeDistinctIvs(iv1, CbcEncrypt(p, key, iv1, bytes).value,
                                    iv2, CbcEncrypt(p, key, iv2, bytes).value);
  }

  /** The JSON round trip: decryptJSON(p, encryptJSON(p, obj)) == obj
      whenever the JSON text of obj is Latin-1. */
  lemma JsonRoundTrip<O(!new)>(p: Primitives, j: Json<O>, password: string, obj: O, iv: seq<Byte>)
    requires Assumed(p) && JsonAssumed(j)
    requires |iv| == BlockSize && IsLatin1(j.stringify(obj))
    ensures EncryptJson(p, j, password, obj, iv).Success?
    ensures DecryptJson(p, j, password, EncryptJson(p, j, password, obj, iv).value) == Success(obj)
  {
    TextRoundTrip(p, password, j.stringify(obj), iv);
  }
}
