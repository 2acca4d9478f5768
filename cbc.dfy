/** Cipher block chaining (section 6.2 of NIST SP 800-38A), the mode
    global.js selects at lines 72 and 107, over an abstract block cipher.
    It shows that the contract Cipher.Assumed asks of aes-js is met by
    CBC whenever the block cipher itself is invertible. */
module Cbc {
  import opened Wrappers
  import opened Cipher

  /** A block cipher: forward and inverse permutations of 16-byte blocks under a key. */
  datatype BlockCipher = BlockCipher(
    forward: (seq<Byte>, seq<Byte>) -> seq<Byte>,
    inverse: (seq<Byte>, seq<Byte>) -> seq<Byte>)

  ghost predicate IsBlockCipher(bc: BlockCipher) {
    forall key, x :: |x| == BlockSize ==>
      |bc.forward(key, x)| == BlockSize && bc.inverse(key, bc.forward(key, x)) == x
  }

  /** Bitwise exclusive or of two naturals, one bit at a time. */
  function Xor(x: nat, y: nat): (z: nat)
    decreases x + y
  {
    if x == 0 && y == 0 then 0 else 2 * Xor(x / 2, y / 2) + (x + y) % 2
  }

  function Pow2(k: nat): (r: nat)
    ensures r >= 1
  {
    if k == 0 then 1 else 2 * Pow2(k - 1)
  }

  /** Xor of two k-bit values is a k-bit value. */
  lemma {:induction false} XorBound(x: nat, y: nat, k: nat)
    requires x < Pow2(k) && y < Pow2(k)
    ensures Xor(x, y) < Pow2(k)
    decreases k
  {
    if !(x == 0 && y == 0) {
      if k == 0 {
        assert false;
      } else {
        XorBound(x / 2, y / 2, k - 1);
      }
    }
  }

  /** Xor with the same value twice is the identity. */
  lemma {:induction false} XorCancel(x: nat, y: nat)
    ensures Xor(Xor(x, y), y) == x
    decreases x + y
  {
    if !(x == 0 && y == 0) {
      var z := Xor(x, y);
      var w := Xor(z, y);
      XorHalves(x, y);
      XorHalves(z, y);
      XorCancel(x / 2, y / 2);
      assert w / 2 == x / 2;
      ParityCancel(x % 2, y % 2);
      assert w % 2 == x % 2;
      Recompose(w);
      Recompose(x);
    }
  }

  /** Xor works on the low bit and on the remaining bits separately. */
  lemma XorHalves(x: nat, y: nat)
    ensures Xor(x, y) / 2 == Xor(x / 2, y / 2)
    ensures Xor(x, y) % 2 == (x % 2 + y % 2) % 2
  {
    var h, e := Xor(x / 2, y / 2), (x + y) % 2;
    if x == 0 && y == 0 {
      assert Xor(x, y) == 0 && h == 0;
    } else {
      assert Xor(x, y) == 2 * h + e;
      HalveParts(Xor(x, y), h, e);
      ModSum(x, y);
    }
  }

  lemma HalveParts(z: nat, h: nat, e: nat)
    requires e < 2 && z == 2 * h + e
    ensures z / 2 == h && z % 2 == e
  {
  }

  lemma ModSum(x: nat, y: nat)
    ensures (x + y) % 2 == (x % 2 + y % 2) % 2
  {
  }

  lemma Recompose(n: nat)
    ensures n == 2 * (n / 2) + n % 2
  {
  }

  lemma ParityCancel(a: nat, b: nat)
    requires a < 2 && b < 2
    ensures ((a + b) % 2 + b) % 2 == a
  {
  }

  function XorByte(x: Byte, y: Byte): (z: Byte) {
    assert Pow2(8) == 256;
    XorBound(x, y, 8);
    Xor(x, y)
  }

  function XorBlock(a: seq<Byte>, b: seq<Byte>): (r: seq<Byte>)
    requires |a| == |b|
    ensures |r| == |a|
  {
    seq(|a|, i requires 0 <= i < |a| => XorByte(a[i], b[i]))
  }

  /** Xor with the same block twice is the identity. */
  lemma XorBlockCancel(a: seq<Byte>, b: seq<Byte>)
    requires |a| == |b|
    ensures XorBlock(XorBlock(a, b), b) == a
  {
    var r := XorBlock(XorBlock(a, b), b);
    forall i | 0 <= i < |a| ensures r[i] == a[i] {
      XorCancel(a[i], b[i]);
    }
  }

  /** C_i = E(P_i xor C_{i-1}), C_0 = IV. A trailing partial block, or a
      chaining value that is not a block, ends the output (the library
      call never reaches either: it checks its arguments first). */
  function Encrypt(bc: BlockCipher, key: seq<Byte>, prev: seq<Byte>, data: seq<Byte>): (out: seq<Byte>)
    decreases |data|
  {
    if |data| < BlockSize || |prev| != BlockSize then []
    else
      var c := bc.forward(key, XorBlock(data[..BlockSize], prev));
      c + Encrypt(bc, key, c, data[BlockSize..])
  }

  /** P_i = D(C_i) xor C_{i-1}, C_0 = IV. */
  function Decrypt(bc: BlockCipher, key: seq<Byte>, prev: seq<Byte>, data: seq<Byte>): (out: seq<Byte>)
    decreases |data|
  {
    if |data| < BlockSize || |prev| != BlockSize then []
    else
      var x := bc.inverse(key, data[..BlockSize]);
      (if |x| == BlockSize then XorBlock(x, prev) else x)
      + Decrypt(bc, key, data[..BlockSize], data[BlockSize..])
  }

  /** CBC keeps the length of block-aligned data and decryption inverts it. */
  lemma {:induction false} DecryptEncrypt(bc: BlockCipher, key: seq<Byte>, prev: seq<Byte>, data: seq<Byte>)
    requires IsBlockCipher(bc) && |prev| == BlockSize && |data| % BlockSize == 0
    ensures |Encrypt(bc, key, prev, data)| == |data|
    ensures Decrypt(bc, key, prev, Encrypt(bc, key, prev, data)) == data
    decreases |data|
  {
    if |data| >= BlockSize {
      var p := XorBlock(data[..BlockSize], prev);
      var c := bc.forward(key, p);
      var rest := Encrypt(bc, key, c, data[BlockSize..]);
      DecryptEncrypt(bc, key, c, data[BlockSize..]);
      var e := c + rest;
      assert e[..BlockSize] == c && e[BlockSize..] == rest;
      XorBlockCancel(data[..BlockSize], prev);
      assert data == data[..BlockSize] + data[BlockSize..];
    }
  }

  /** The primitives with aes-js replaced by CBC over a block cipher. */
  function WithCbc(bc: BlockCipher, pbkdf2: (string, KdfParams) -> seq<Byte>): Primitives {
    Primitives(pbkdf2,
      (key, iv, data) => Encrypt(bc, key, iv, data),
      (key, iv, data) => Decrypt(bc, key, iv, data))
  }

  /** CBC over an invertible block cipher meets the cipher contract. */
  lemma WithCbcMeetsAssumed(bc: BlockCipher, pbkdf2: (string, KdfParams) -> seq<Byte>)
    requires IsBlockCipher(bc)
    requires forall pw, prm :: |pbkdf2(pw, prm)| == prm.keyLength
    ensures Assumed(WithCbc(bc, pbkdf2))
  {
    var p := WithCbc(bc, pbkdf2);
    forall key, iv, data | IsKeySize(|key|) && |iv| == BlockSize && |data| % BlockSize == 0
      ensures |p.encrypt(key, iv, data)| == |data|
      ensures p.decrypt(key, iv, p.encrypt(key, iv, data)) == data
    {
      DecryptEncrypt(bc, key, iv, data);
    }
  }

  /** The assumed contract is not contradictory: some primitives meet it. */
  lemma AssumedIsSatisfiable()
    ensures exists p :: Assumed(p)
  {
    var bc := BlockCipher((key, x) => x, (key, x) => x);
    var kdf := (pw: string, prm: KdfParams) => seq(prm.keyLength, _ => 0);
    WithCbcMeetsAssumed(bc, kdf);
  }
}
