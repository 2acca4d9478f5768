/** The foreign primitives global.js calls: PBKDF2 (lines 66 and 93) and
    aes-js AES-CBC (lines 72-75 and 107-110). They are carried as
    function values; what the pipeline relies on about them is the ghost
    predicate Assumed, which the theorems take as a precondition. */
module Cipher {
  import opened Wrappers

  /** The arguments of pbkdf2Sync besides the password. */
  datatype KdfParams = KdfParams(salt: string, iterations: nat, keyLength: nat, digest: string)

  /** Lines 66 and 93 both call pbkdf2Sync(password, 'salt', 1, 256 / 8, 'sha512'). */
  const SourceKdf: KdfParams := KdfParams("salt", 1, 256 / 8, "sha512")

  /** The AES block size in bytes: the CBC IV length (crypto.randomBytes(16)),
      and the multiple the Base64 text is padded to. */
  const BlockSize: nat := 16

  /** PBKDF2 and the two directions of CBC (key, iv, data). */
  datatype Primitives = Primitives(
    pbkdf2: (string, KdfParams) -> seq<Byte>,
    encrypt: (seq<Byte>, seq<Byte>, seq<Byte>) -> seq<Byte>,
    decrypt: (seq<Byte>, seq<Byte>, seq<Byte>) -> seq<Byte>)

  /** AES accepts 128-, 192- and 256-bit keys. */
  predicate IsKeySize(n: nat) {
    n == 16 || n == 24 || n == 32
  }

  /** What is assumed of the foreign code: PBKDF2 returns keyLength bytes;
      on a valid key, a 16-byte IV and block-aligned data, CBC keeps the
      length and decryption inverts encryption. */
  ghost predicate Assumed(p: Primitives)
    ensures Assumed(p) ==> forall pw :: |p.pbkdf2(pw, SourceKdf)| == 32
  {
    && (forall pw, prm :: |p.pbkdf2(pw, prm)| == prm.keyLength)
    && (forall key, iv, data ::
          IsKeySize(|key|) && |iv| == BlockSize && |data| % BlockSize == 0 ==>
            |p.encrypt(key, iv, data)| == |data|)
    && (forall key, iv, data ::
          IsKeySize(|key|) && |iv| == BlockSize && |data| % BlockSize == 0 ==>
            p.decrypt(key, iv, p.encrypt(key, iv, data)) == data)
  }

  /** Lines 66 and 93: the key both directions derive from the password. */
  function DeriveKey(p: Primitives, password: string): (key: seq<Byte>)
    ensures Assumed(p) ==> |key| == 32 && IsKeySize(|key|)
  {
    p.pbkdf2(password, SourceKdf)
  }

  /** `new aesjs.ModeOfOperation.cbc(key, iv).encrypt(data)` (lines 72-75):
      the library rejects a bad IV, a bad key and unaligned data. */
  function CbcEncrypt(p: Primitives, key: seq<Byte>, iv: seq<Byte>, data: seq<Byte>): (r: Result<seq<Byte>>)
    ensures r.Success? <==> |iv| == BlockSize && IsKeySize(|key|) && |data| % BlockSize == 0
  {
    if |iv| != BlockSize then Failure(InvalidIvSize)
    else if !IsKeySize(|key|) then Failure(InvalidKeySize)
    else if |data| % BlockSize != 0 then Failure(InvalidDataSize)
    else Success(p.encrypt(key, iv, data))
  }

  /** `new aesjs.ModeOfOperation.cbc(key, iv).decrypt(data)` (lines 107-110). */
  function CbcDecrypt(p: Primitives, key: seq<Byte>, iv: seq<Byte>, data: seq<Byte>): (r: Result<seq<Byte>>)
    ensures r.Success? <==> |iv| == BlockSize && IsKeySize(|key|) && |data| % BlockSize == 0
  {
    if |iv| != BlockSize then Failure(InvalidIvSize)
    else if !IsKeySize(|key|) then Failure(InvalidKeySize)
    else if |data| % BlockSize != 0 then Failure(InvalidDataSize)
    else Success(p.decrypt(key, iv, data))
  }

  /** The derived key has the 32 bytes AES-256 needs. */
  lemma DerivedKeyIsAes256(p: Primitives, password: string)
    requires Assumed(p)
    ensures |DeriveKey(p, password)| == 32 && IsKeySize(|DeriveKey(p, password)|)
  {
  }

  /** On block-aligned data the library call succeeds, keeps the length,
      and decrypting under the same key and IV gives the data back. */
  lemma CbcRoundTrip(p: Primitives, key: seq<Byte>, iv: seq<Byte>, data: seq<Byte>)
    requires Assumed(p)
    requires IsKeySize(|key|) && |iv| == BlockSize && |data| % BlockSize == 0
    ensures CbcEncrypt(p, key, iv, data).Success?
    ensures |CbcEncrypt(p, key, iv, data).value| == |data|
    ensures CbcDecrypt(p, key, iv, CbcEncrypt(p, key, iv, data).value) == Success(data)
  {
  }
}
