/**
 * The cryptographic operations as uninterpreted functions: any functions of these types. Output sizes are
 * the only facts built in; what else a theorem needs (matching keys, no hash collision) it says itself.
 */
module Crypto {
  import opened Bytes

  type Hash20 = s: seq<byte> | |s| == 20 witness seq(20, _ => 0)
  type Hash32 = s: seq<byte> | |s| == 32 witness seq(32, _ => 0)
  type Signature64 = s: seq<byte> | |s| == 64 witness seq(64, _ => 0)

  datatype Primitives = Primitives(
    hmacSha1: (seq<byte>, seq<byte>) -> Hash20,
    hmacSha256: (seq<byte>, seq<byte>) -> Hash32,
    sha256: seq<byte> -> Hash32,
    sign: (seq<byte>, seq<byte>) -> Signature64,
    checkSignature: (seq<byte>, seq<byte>, Signature64) -> bool)
  {
    /** ed25519.Verify refuses anything that is not 64 bytes long. */
    predicate Verify(publicKey: seq<byte>, message: seq<byte>, signature: seq<byte>) {
      |signature| == 64 && checkSignature(publicKey, message, signature)
    }

    ghost predicate MatchingKeys(privateKey: seq<byte>, publicKey: seq<byte>) {
      forall m: seq<byte> :: Verify(publicKey, m, sign(privateKey, m))
    }
  }
}
