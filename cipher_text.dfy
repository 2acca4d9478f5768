/** The at-rest cipher-text string of global.js: `hex(iv) ":" hex(data)`
    (lines 78-84), read back by `split(":")` and hex-decoding fields 0
    and 1 (lines 96-104). Nothing is validated on the way in: extra
    fields are ignored. */
module CipherText {
  import opened Wrappers
  import Hex
  import Cipher

  /** JavaScript `split(":")`: the maximal colon-free pieces between the
      colons, one more piece than there are colons. */
  function Split(s: string): (fields: seq<string>)
    ensures |fields| >= 1
    ensures forall i :: 0 <= i < |fields| ==> ':' !in fields[i]
    decreases |s|
  {
    if |s| == 0 then [""]
    else
      var rest := Split(s[1..]);
      if s[0] == ':' then [""] + rest
      else [[s[0]] + rest[0]] + rest[1..]
  }

  /** The fields joined back with ':' between them. */
  function Join(fields: seq<string>): (s: string)
    requires |fields| >= 1
    decreases |fields|
  {
    if |fields| == 1 then fields[0] else fields[0] + ":" + Join(fields[1..])
  }

  /** Line 84: the IV's hex, a colon, the encrypted bytes' hex. */
  function Serialize(iv: seq<Byte>, data: seq<Byte>): (c: string)
    ensures |c| == 2 * |iv| + 1 + 2 * |data|
    ensures c[2 * |iv|] == ':'
  {
    Hex.Encode(iv) + ":" + Hex.Encode(data)
  }

  /** Lines 96-104: split on ':' and hex-decode fields 0 and 1. With no
      colon, field 1 is undefined and hex.toBytes throws. */
  function Parse(c: string): (r: Result<(seq<Byte>, seq<Byte>)>)
    ensures r.Failure? ==> r.error == MissingField || r.error == MalformedHex
    ensures r.Failure? && r.error == MissingField <==> ':' !in c
  {
    var fields := Split(c);
    SplitSingle(c);
    if |fields| < 2 then Failure(MissingField)
    else
      var iv :- Hex.Decode(fields[0]);
      var data :- Hex.Decode(fields[1]);
      Success((iv, data))
  }

  /** Splitting then joining gives the string back. */
  lemma {:induction false} JoinSplit(s: string)
    ensures Join(Split(s)) == s
    decreases |s|
  {
    if |s| > 0 {
      var rest := Split(s[1..]);
      JoinSplit(s[1..]);
      if s[0] == ':' {
        assert ([""] + rest)[1..] == rest;
      } else {
        var f := [[s[0]] + rest[0]] + rest[1..];
        assert f[1..] == rest[1..];
        if |rest| == 1 {
          assert s == [s[0]] + rest[0];
        } else {
          assert rest[1..][1..] == rest[2..];
          assert Join(rest) == rest[0] + ":" + Join(rest[1..]);
          assert s == [s[0]] + s[1..];
        }
      }
    }
  }

  /** A string splits into one field exactly when it has no colon. */
  lemma SplitSingle(s: string)
    ensures |Split(s)| == 1 <==> ':' !in s
  {
    if ':' !in s {
      SplitColonFree(s);
    } else {
      JoinSplit(s);
    }
  }

  /** A colon-free string is its own only field. */
  lemma {:induction false} SplitColonFree(a: string)
    requires ':' !in a
    ensures Split(a) == [a]
    decreases |a|
  {
    if |a| > 0 {
      assert ':' !in a[1..];
      SplitColonFree(a[1..]);
      assert a == [a[0]] + a[1..];
    }
  }

  /** A colon-free prefix followed by ':' becomes the first field. */
  lemma {:induction false} SplitPrefix(a: string, rest: string)
    requires ':' !in a
    ensures Split(a + ":" + rest) == [a] + Split(rest)
    decreases |a|
  {
    var s := a + ":" + rest;
    if |a| == 0 {
      assert s == ":" + rest;
      assert s[1..] == rest;
    } else {
      assert s[1..] == a[1..] + ":" + rest;
      assert ':' !in a[1..];
      SplitPrefix(a[1..], rest);
      assert a == [a[0]] + a[1..];
    }
  }

  /** The serialised form has exactly one colon, with fields the two hex strings. */
  lemma SplitSerialize(iv: seq<Byte>, data: seq<Byte>)
    ensures Split(Serialize(iv, data)) == [Hex.Encode(iv), Hex.Encode(data)]
  {
    NoColonInHex(iv);
    NoColonInHex(data);
    SplitPrefix(Hex.Encode(iv), Hex.Encode(data));
    SplitColonFree(Hex.Encode(data));
  }

  lemma NoColonInHex(b: seq<Byte>)
    ensures ':' !in Hex.Encode(b)
  {
    var s := Hex.Encode(b);
    forall i | 0 <= i < |s| ensures s[i] != ':' { assert Hex.IsLowerHexDigit(s[i]); }
  }

  /** Parsing a serialised pair gives back the IV and the data. */
  lemma ParseSerialize(iv: seq<Byte>, data: seq<Byte>)
    ensures Parse(Serialize(iv, data)) == Success((iv, data))
  {
    SplitSerialize(iv, data);
    Hex.DecodeEncode(iv);
    Hex.DecodeEncode(data);
  }

  /** A 16-byte IV is written as the first 32 characters, then the colon. */
  lemma SerializeShape(iv: seq<Byte>, data: seq<Byte>)
    requires |iv| == Cipher.BlockSize
    ensures Serialize(iv, data)[..32] == Hex.Encode(iv)
    ensures Serialize(iv, data)[32] == ':'
    ensures |Split(Serialize(iv, data))| == 2
  {
    var c := Serialize(iv, data);
    assert c == Hex.Encode(iv) + (":" + Hex.Encode(data));
    SplitSerialize(iv, data);
  }

  /** Fields after the second are ignored: appending ":" and anything to
      a two-field cipher text does not change what it parses to. */
  lemma ParseIgnoresExtraFields(a: string, b: string, extra: string)
    requires ':' !in a && ':' !in b
    ensures Parse(a + ":" + b + ":" + extra) == Parse(a + ":" + b)
  {
    assert a + ":" + b + ":" + extra == a + ":" + (b + ":" + extra);
    SplitPrefix(a, b + ":" + extra);
    SplitPrefix(b, extra);
    SplitPrefix(a, b);
    SplitColonFree(b);
  }

  /** Different IVs give different cipher texts, whatever the data. */
  lemma SerializeDistinctIvs(iv1: seq<Byte>, d1: seq<Byte>, iv2: seq<Byte>, d2: seq<Byte>)
    requires |iv1| == Cipher.BlockSize && |iv2| == Cipher.BlockSize && iv1 != iv2
    ensures Serialize(iv1, d1) != Serialize(iv2, d2)
  {
    SerializeShape(iv1, d1);
    SerializeShape(iv2, d2);
    if Serialize(iv1, d1) == Serialize(iv2, d2) {
      Hex.EncodeInjective(iv1, iv2);
    }
  }
}
