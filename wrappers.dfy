/** Values shared by every stage of the encryption pipeline: bytes, the
    kinds of failure the model distinguishes, and a Result type that
    carries them (so that `:-` propagates a thrown exception to the caller). */
module Wrappers {

  /** One byte of a Uint8Array / Buffer. */
  type Byte = b: int | 0 <= b < 256

  /** The failures of the pipeline. Most are exceptions the JavaScript
      throws; MalformedHex and NotAscii are the model's stand-ins for inputs
      the libraries accept and mishandle instead. Nothing is caught in
      global.js: each failure reaches the caller of encryptText / decryptText. */
  datatype Error =
    | InvalidCharacter   // btoa / atob DOMException "InvalidCharacterError"
    | MissingField       // `split(":")[1]` is undefined; hex.toBytes(undefined) throws a TypeError
    | MalformedHex       // stand-in: hex.toBytes yields NaN bytes, which aes-js rejects later
    | InvalidIvSize      // aes-js: IV is not 16 bytes
    | InvalidKeySize     // aes-js: key is not 16, 24 or 32 bytes
    | InvalidDataSize    // aes-js: CBC input is not a multiple of 16 bytes
    | NotAscii           // stand-in: non-ASCII decrypted bytes, which utf8.fromBytes decodes as UTF-8
    | JsonSyntax         // JSON.parse SyntaxError

  datatype Result<+T> = Success(value: T) | Failure(error: Error) {
    predicate IsFailure() { Failure? }

    function PropagateFailure<U>(): (r: Result<U>)
      requires Failure?
    {
      Failure(error)
    }

    function Extract(): (v: T)
      requires Success?
    {
      value
    }
  }
}
