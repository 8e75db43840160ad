/** What CTAP commands share: errors, and the cryptography they call. */
module Ctap {
  import opened Prelude
  import opened Bytes
  import Cbor

  datatype CtapError =
    | EmptyResponse
    | StatusCode(code: byte)
    | InvalidResponseShape(what: Shape)
    | BadCbor(error: Cbor.CborError)
    | Transport

  datatype Shape =
    | NotAnArray
    | NotAMap
    | ConfigNotBytes
    | MissingConfig
    | TooLarge
    | ShorterThanChecksum
    | ChecksumMismatch
    | ExtraBytesAfterEnd

  /** What an authenticator's getInfo says, as far as large blobs go. */
  datatype Info = Info(
    largeBlobs: Option<bool>,
    clientPin: Option<bool>,
    maxMsgSize: Option<nat>,
    maxSerializedLargeBlobArray: Option<nat>)

  /**
   The cryptography and decompression the code calls. `left16` is SHA-256
   truncated to 16 bytes; `seal` and `unseal` are AES-256-GCM under the
   published name key with `origSize` in the associated data; `inflateOther`
   is DEFLATE on anything that does not start with one final stored block.
   */
  datatype Crypto = Crypto(
    left16: bytes -> bytes,
    seal: (bytes, bytes, nat) -> bytes,
    unseal: (bytes, bytes, nat) -> Option<bytes>,
    inflateOther: (bytes, nat) -> Option<bytes>)
  {
    /** Digests are 16 bytes; what was sealed opens again under the same nonce and size; the tag is 16 bytes. */
    ghost predicate Lawful() {
      && (forall b: bytes :: |left16(b)| == 16)
      && (forall nonce: bytes, plain: bytes, size: nat :: |nonce| == 12 ==>
            unseal(nonce, seal(nonce, plain, size), size) == Some(plain))
      && (forall nonce: bytes, plain: bytes, size: nat :: |seal(nonce, plain, size)| == |plain| + 16)
    }

    /** AES-GCM open: a nonce that is not 12 bytes opens nothing. */
    function Open(nonce: bytes, ciphertext: bytes, size: nat): Option<bytes> {
      if |nonce| != 12 then None else unseal(nonce, ciphertext, size)
    }
  }
}
