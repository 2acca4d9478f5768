# CoderPass text encryption, modelled in Dafny

CoderPass stores JSON documents encrypted under a password. The logic written by
hand sits in `appassets/js/global.js`. There, `encryptText` Base64-encodes the text
with `btoa` and right-pads it with `=` to a multiple of 16 characters. It then turns
the text into bytes, derives a key with PBKDF2 (fixed salt `'salt'`, 1 iteration,
32 bytes, SHA-512), encrypts with AES-256-CBC under a random 16-byte IV, and writes
`hex(iv) ":" hex(data)`. `decryptText` splits on `:`, hex-decodes fields 0 and 1,
decrypts, removes every `=` and decodes with `atob`. `encryptJSON` and `decryptJSON`
wrap these two functions in `JSON.stringify` and `JSON.parse`.

Apart from the random IV, which the model takes as a parameter, the core is pure.
So the model is pure too: functions and lemmas, one module per stage.

- `Wrappers`: bytes, the kinds of failure the model distinguishes, and a `Result` type.
  `Result` turns each thrown exception into a value that `:-` propagates.
- `Base64`: `btoa` (section 4 of RFC 4648, on Latin-1 text) and `atob` (the WHATWG
  "forgiving-base64 decode", which accepts text with its final `=` removed).
- `TextCodec`: the block padding with `=`, the removal of every `=`, and the
  character/byte conversions between them.
- `Hex`: lowercase base16 (section 8 of RFC 4648), as the aes-js hex helpers write
  and read it.
- `CipherText`: JavaScript `split(":")`, and the `iv:data` format with its parser.
  The parser ignores every field after the second.
- `Cipher`: PBKDF2 and AES-CBC, passed in as function values (`Primitives`).
  The ghost predicate `Assumed` states what the pipeline relies on: the KDF returns
  `keyLength` bytes, and for block-aligned data under a 16-byte IV and a valid key,
  CBC keeps the length and decryption inverts encryption.
  `CbcEncrypt`/`CbcDecrypt` add the argument checks the library makes before
  encrypting.
- `Cbc`: cipher block chaining (section 6.2 of NIST SP 800-38A) over any invertible
  block cipher. It proves that CBC meets `Assumed`, so the assumption is consistent.
  `Cbc.Encrypt` and `Cbc.Decrypt` model no code in global.js, which calls aes-js;
  they only show that `Assumed` can be met.
- `Vault`: `encryptText`, `decryptText`, `encryptJSON` and `decryptJSON`, plus the
  end-to-end theorems.

The main result is `Vault.TextRoundTrip`: for a Latin-1 text, decrypting with the
same password gives back what was encrypted. `Vault.JsonRoundTrip` lifts this to
objects, given that `parse` inverts `stringify`.

The round trip depends on three facts:

- Removing every `=` from the padded text leaves exactly the Base64 text without its
  own padding (`TextCodec.StripPadEncode`).
- The length of that text is never 1 modulo 4 (`Base64.SextetsMod4`), so the
  forgiving decoder accepts it.
- Base64 alphabet and hex characters are never `=` or `:`.

`encryptText` throws exactly when the text has a character above U+00FF
(`Vault.EncryptTextFailsIffNotLatin1`). So `encryptJSON` rejects any object whose
JSON text has such a character. The round trip holds for Latin-1 JSON text only.

The code validates nothing itself:

- The code does not validate the cipher text. It splits on every `:` and ignores
  fields after the second. It never checks the number of separators or the IV
  length itself.
- The only failures on malformed input are the exceptions raised by the calls it
  makes. A missing field 1 makes `hex.toBytes` throw a `TypeError` on `undefined`.
  Text that is not hex does not throw in `hex.toBytes` itself. It yields `NaN`
  or out-of-range entries, which aes-js rejects when it builds the CBC object or decrypts (lines 107
  and 110). The model reports this as `MalformedHex` at parsing time. Then come the
  aes-js size checks, the `InvalidCharacterError` of `atob` (line 119) and, for
  `decryptJSON`, the `SyntaxError` of `JSON.parse` (line 131). Non-ASCII decrypted
  bytes are decoded by aes-js as UTF-8. The model reports them as `NotAscii` instead
  (see "Left out").
- Only `writeFile` (lines 30-35) logs its errors and carries on. `readFile` passes a
  callback that `readFileSync` ignores, so read errors are thrown to the caller
  (line 147).

## Model

| member | source | states |
|---|---|---|
| Base64.Btoa | appassets/js/global.js:52 | btoa succeeds exactly on Latin-1 text and otherwise throws InvalidCharacter |
| Base64.Latin1ToBytes | appassets/js/global.js:52 | btoa reads one byte per character, equal to the character code |
| Base64.BytesToLatin1 | appassets/js/global.js:119 | atob's result has one Latin-1 character per decoded byte, with that code |
| Base64.EncodeUnpadded | appassets/js/global.js:52 | the Base64 text without '=' is all alphabet characters, one for each 6-bit value of the RFC 4648 split, and each reads back as that value |
| Base64.SextetsLength | appassets/js/global.js:52 | there are 4 six-bit values, so 4 unpadded characters, per 3-byte group, plus 2 or 3 for a final group of 1 or 2 bytes |
| Base64.SextetsMod4 | appassets/js/global.js:52-119 | the number of 6-bit values, so the unpadded length, is 0, 2 or 3 modulo 4 for a byte count that is 0, 1 or 2 modulo 3, never the 1 that forgiving decode rejects |
| Base64.Encode | appassets/js/global.js:52 | btoa's output has a length that is a multiple of 4, and is the unpadded text followed by at most two '=' |
| Base64.EncodeLength | appassets/js/global.js:52 | btoa's output is 4 characters per started 3-byte group |
| Base64.Combine | appassets/js/global.js:119 | joining 6-bit values gives 3 bytes per 4 values and 1 or 2 for a final group of 2 or 3 |
| Base64.DecodeGroups | appassets/js/global.js:119 | decoding gives 3 bytes per 4 characters and 1 or 2 for a final group of 2 or 3 |
| Base64.SextetChar | appassets/js/global.js:52 | each 6-bit value maps to an alphabet character that SextetValue maps back |
| Base64.RemoveWhitespace | appassets/js/global.js:119 | the decoder's first step leaves no ASCII whitespace, keeps every other character, removes a single whitespace character and keeps a single other one, and changes nothing when there is no whitespace |
| Base64.RemoveWhitespaceConcat | appassets/js/global.js:119 | removing whitespace distributes over concatenation, so with the single-character cases it fixes the result |
| Base64.DropFinalPadding | appassets/js/global.js:119 | the decoder removes only '=' and at most two of them, only when the length is a multiple of 4, and then removes a final '=' (two when the last two are '=') |
| Base64.ForgivingDecode | appassets/js/global.js:119 | atob's decoder fails only with InvalidCharacter, and succeeds exactly when the text left after removing whitespace and final padding is all alphabet characters with a length that is not 1 modulo 4 |
| Base64.RejectsLengthOneMod4 | appassets/js/global.js:119 | whitespace-free text whose length is 1 modulo 4 is rejected with InvalidCharacter |
| Base64.RejectsNonAlphabet | appassets/js/global.js:119 | a character that is neither whitespace, '=' nor in the alphabet makes atob's decoder fail, wherever it stands |
| Base64.Atob | appassets/js/global.js:119 | atob succeeds exactly when the forgiving decoder does, otherwise throws InvalidCharacter, and returns Latin-1 text |
| Base64.CombineSextets | appassets/js/global.js:52-119 | joining the 6-bit values of any byte string gives back exactly those bytes, and their count is never 1 modulo 4 |
| Base64.DecodeEncodeUnpadded | appassets/js/global.js:116-119 | the Base64 text with its '=' removed never has a length of 1 modulo 4, and decoding its groups gives back the encoded bytes |
| Base64.DropEncodePadding | appassets/js/global.js:52-119 | btoa's output has no whitespace, and the decoder's padding step removes exactly the '=' that btoa added |
| Base64.ForgivingDecodeUnpadded | appassets/js/global.js:116-119 | forgiving decode accepts unpadded Base64 and returns the original bytes |
| Base64.ForgivingDecodePadded | appassets/js/global.js:119 | forgiving decode also accepts the padded encoding and returns the original bytes |
| Base64.AtobBtoa | appassets/js/global.js:52-119 | atob(btoa(t)) == t for every Latin-1 text t |
| Base64.AtobUnpaddedBtoa | appassets/js/global.js:52-119 | atob inverts btoa even after btoa's own '=' padding is removed |
| TextCodec.Repeat | appassets/js/global.js:59 | "=".repeat(n) is n copies of the character |
| TextCodec.Pad | appassets/js/global.js:55-60 | the padded text's length is a multiple of 16; it is the input followed only by '=' (0 to 15 of them, none when already aligned) |
| TextCodec.StripPadding | appassets/js/global.js:116 | replace(/=/g, "") leaves no '=' and never lengthens the text |
| TextCodec.StripIdempotent | appassets/js/global.js:116 | stripping twice equals stripping once |
| TextCodec.StripConcat | appassets/js/global.js:116 | stripping distributes over concatenation |
| TextCodec.StripNoPadding | appassets/js/global.js:116 | text without '=' is unchanged by stripping |
| TextCodec.StripAllPadding | appassets/js/global.js:116 | a run of '=' strips to the empty text |
| TextCodec.StripPadEncode | appassets/js/global.js:55-116 | stripping the padded Base64 text gives exactly the Base64 text without its own trailing '=' |
| TextCodec.AsciiToBytes | appassets/js/global.js:63 | utf8.toBytes maps ASCII text to one byte per character, with the character code |
| TextCodec.AsciiFromBytes | appassets/js/global.js:113 | utf8.fromBytes succeeds on ASCII bytes and gives one character per byte; other bytes are an error |
| TextCodec.AsciiBytesRoundTrip | appassets/js/global.js:63-113 | converting ASCII text to bytes and back gives the text |
| TextCodec.PaddedIsAscii | appassets/js/global.js:59-63 | the padded Base64 text is ASCII, so the UTF-8 conversion is byte-per-character |
| TextCodec.EncodeAndPad | appassets/js/global.js:52-63 | the plaintext bytes handed to AES-CBC are a multiple of 16 long, and encoding fails exactly on non-Latin-1 text |
| TextCodec.UnpadAndDecode | appassets/js/global.js:113-119 | the decrypt-side decoding yields Latin-1 text when it succeeds |
| TextCodec.CodecRoundTrip | appassets/js/global.js:52-119 | atob(strip(pad(btoa(t)))) == t for every Latin-1 text t |
| Hex.DigitValue | appassets/js/global.js:103-104 | a hexadecimal digit stands for a value below 16 |
| Hex.DigitChar | appassets/js/global.js:78-81 | each nibble is written as a lowercase digit that reads back as the same value |
| Hex.Encode | appassets/js/global.js:78-81 | hex.fromBytes writes two lowercase hexadecimal digits per byte |
| Hex.Decode | appassets/js/global.js:103-104 | decoding succeeds exactly on even-length text of hexadecimal digits in either case, halves the length, and fails only with MalformedHex |
| Hex.DecodeEncode | appassets/js/global.js:78-104 | hex decode inverts hex encode |
| Hex.EncodeDecode | appassets/js/global.js:103-104 | even-length lowercase hex decodes, and re-encoding the decoded bytes gives the text back |
| Hex.EncodeInjective | appassets/js/global.js:81 | different byte strings have different hex encodings |
| CipherText.Split | appassets/js/global.js:96 | split(":") gives at least one field and no field contains ':' |
| CipherText.JoinSplit | appassets/js/global.js:96 | joining the fields of split(":") with ':' gives back the string |
| CipherText.SplitSingle | appassets/js/global.js:96-100 | split(":") gives a single field exactly when the string has no ':' |
| CipherText.SplitColonFree | appassets/js/global.js:96 | a colon-free string splits into itself alone |
| CipherText.SplitPrefix | appassets/js/global.js:96 | a colon-free prefix followed by ':' becomes the first field, and the rest splits on its own |
| CipherText.NoColonInHex | appassets/js/global.js:83 | hex text never contains ':' |
| CipherText.Serialize | appassets/js/global.js:84 | the cipher text is 2|iv| + 1 + 2|data| long with ':' right after the IV's hex |
| CipherText.Parse | appassets/js/global.js:96-104 | parsing fails with MissingField exactly when there is no ':' and otherwise only with MalformedHex |
| CipherText.SplitSerialize | appassets/js/global.js:84-96 | the produced cipher text splits into exactly the two hex fields, so it has exactly one ':' |
| CipherText.ParseSerialize | appassets/js/global.js:78-104 | splitting and hex-decoding fields 0 and 1 gives back exactly the IV and the encrypted bytes |
| CipherText.SerializeShape | appassets/js/global.js:69-84 | with a 16-byte IV the first 32 characters are its hex, then ':', and there are two fields |
| CipherText.ParseIgnoresExtraFields | appassets/js/global.js:96-100 | fields after the second field do not change what the cipher text parses to |
| CipherText.SerializeDistinctIvs | appassets/js/global.js:69-84 | different IVs give different cipher texts, whatever the encrypted bytes |
| Cipher.CbcEncrypt | appassets/js/global.js:72-75 | the CBC call succeeds exactly on a 16-byte IV, a 16/24/32-byte key and block-aligned data |
| Cipher.CbcDecrypt | appassets/js/global.js:107-110 | the CBC decrypt call succeeds exactly on a 16-byte IV, a 16/24/32-byte key and block-aligned data |
| Cipher.Assumed | appassets/js/global.js:66-110 | the assumed KDF gives 32 bytes for the source's parameters |
| Cipher.DeriveKey | appassets/js/global.js:66 | both directions derive the key with the same call, and under the assumed KDF it is a 32-byte AES-256 key |
| Cipher.DerivedKeyIsAes256 | appassets/js/global.js:66 | the key derived with 256 / 8 as length is 32 bytes, a valid AES-256 key |
| Cipher.CbcRoundTrip | appassets/js/global.js:72-110 | under the assumed cipher contract, encryption succeeds, keeps the length and is inverted by decryption with the same key and IV |
| Cbc.XorBlock | appassets/js/global.js:72 | the block xor keeps the block length |
| Cbc.XorCancel | appassets/js/global.js:72-110 | xoring twice with the same value is the identity, so CBC decryption can undo encryption's chaining |
| Cbc.XorBound | appassets/js/global.js:72 | the xor of two bytes is a byte |
| Cbc.DecryptEncrypt | appassets/js/global.js:72-110 | CBC over an invertible block cipher keeps the length of aligned data, and decryption inverts it |
| Cbc.WithCbcMeetsAssumed | appassets/js/global.js:72-110 | CBC over an invertible block cipher satisfies the assumed cipher contract |
| Cbc.AssumedIsSatisfiable | appassets/js/global.js:66-110 | some KDF and cipher meet the assumed contract, so the theorems that require it are not vacuous |
| Vault.EncryptText | appassets/js/global.js:50-88 | encryptText succeeds exactly on Latin-1 text with a 16-byte IV and a valid derived key, fails with InvalidCharacter on other text, and its output parses back to the IV and to exactly the cipher's output on the padded Base64 bytes, which is block-aligned |
| Vault.DecryptText | appassets/js/global.js:91-123 | decryptText fails with MissingField on text without ':', succeeds only when the text parses and the aes-js size checks pass, and then returns Latin-1 text |
| Vault.JsonAssumed | appassets/js/global.js:128-131 | the assumed JSON library's stringify is injective |
| Vault.EncryptJson | appassets/js/global.js:128 | encryptJSON succeeds exactly when the object's JSON text is Latin-1 and the IV and key sizes are valid, and its output parses back to the IV |
| Vault.DecryptJson | appassets/js/global.js:131 | decryptJSON propagates every failure of decryptText, fails with MissingField on text without ':', and succeeds only when decryptText does |
| Vault.EncryptTextFailsIffNotLatin1 | appassets/js/global.js:50-88 | encryptText succeeds exactly on Latin-1 text, and otherwise throws btoa's InvalidCharacter |
| Vault.EncryptTextValue | appassets/js/global.js:63-84 | encryptText's result is the IV serialised with what the cipher returns for the padded Base64 bytes under the derived key and that IV, and those encrypted bytes are as long as the padded text |
| Vault.EncryptTextShape | appassets/js/global.js:69-84 | the cipher text is 32 hex digits, one ':', then the hex of a multiple of 16 bytes, twice as long as the padded Base64 text |
| Vault.TextRoundTrip | appassets/js/global.js:50-123 | decryptText(p, encryptText(p, t)) == t for every password p and Latin-1 text t, under the assumed primitives |
| Vault.DistinctIvsSameText | appassets/js/global.js:69-123 | two encryptions under different IVs differ as strings but decrypt to the same text |
| Vault.JsonRoundTrip | appassets/js/global.js:128-131 | decryptJSON(p, encryptJSON(p, obj)) == obj when JSON.parse inverts JSON.stringify and the JSON text is Latin-1 |

## Left out

- AES-256-CBC (aes-js) and PBKDF2-HMAC-SHA512 are foreign code. They are the
  function values of `Cipher.Primitives`. Nothing beyond `Cipher.Assumed` is stated
  about them. `Cbc` models the CBC chaining but leaves the AES block cipher abstract.
- `crypto.randomBytes(16)` (line 69) is randomness. The IV is a parameter of
  `Vault.EncryptText`, and the theorems require it to be 16 bytes long.
- `JSON.stringify` and `JSON.parse` are library code, given as `Vault.Json`.
  `Vault.JsonAssumed` is the assumed inverse. Failures of stringify (cycles, BigInt)
  are not modelled.
- Vault.EncryptJson: the model's stringify always returns a string, and
  `Vault.JsonAssumed` requires parse to invert it. In JavaScript,
  `JSON.stringify(undefined)` and `JSON.stringify` of a function return `undefined`.
  `btoa` turns that into the text "undefined", so `encryptJSON` succeeds, and
  `decryptJSON` of the result throws a `SyntaxError`. The model excludes such values.
- `readFile`, `writeFile`, `encryptJSONToFile` and `decryptJSONInFile` (lines 18-36
  and 136-154) are Electron file I/O. `writeFile` logs its errors through a callback.
  `readFile`'s callback is ignored by `readFileSync`, so its errors are thrown. They
  are not modelled.
- The window `load` handler (lines 157-159) is DOM code. It is not modelled.
- Hex.Decode: the aes-js hex reader calls `parseInt` on each pair of characters
  and never throws. That call also accepts text that is not a pair of hex digits: a
  single final digit, a valid first digit followed by junk, a leading sign or
  whitespace. A pair it cannot read becomes `NaN` or a value outside 0-255 (`"-f"`
  reads as -15), which aes-js rejects later, when it builds the CBC object or
  decrypts; `"+f"` reads as 15 and is accepted. The model reports all such text as
  MalformedHex at parsing time. This only matters for cipher text
  that `encryptText` never writes.
- TextCodec.AsciiFromBytes: aes-js decodes non-ASCII bytes as UTF-8 sequences.
  The model reports them as NotAscii. Such bytes appear only after decrypting with
  a wrong password or tampered data.
- TextCodec.AsciiToBytes: general UTF-8 encoding is not modelled. Only ASCII text
  reaches this conversion (`TextCodec.PaddedIsAscii`).
- Cipher.CbcEncrypt and Cipher.CbcDecrypt: aes-js is not part of this model. Their
  IV, key and length checks stand in for the exceptions the library raises. The
  order of those checks is not claimed.
- Base64.ForgivingDecode: the WHATWG decoder fills a bit buffer. The model decodes
  4-character groups and a final group of 2 or 3 characters, which gives the same
  bytes.
- Strings are sequences of Unicode scalar values, not UTF-16 code units. This
  changes nothing for btoa, which rejects every character above U+00FF either way.
- No property is stated about decrypting with a wrong password. Nothing is assumed
  about the cipher under a mismatched key, and the code has no integrity check.
