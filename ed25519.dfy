/**
 * The Ed25519 routines of the signing library (RFC 8032, section 5.1), which
 * are foreign code here. They are passed around as a record of functions;
 * what the rest of the model may rely on about them is the predicate
 * `Correct`: the sizes of section 5.1.5 and 5.1.6, and that a signature made
 * with a secret key verifies over the same message against that key's
 * public key (section 5.1.7).
 */
module Ed25519 {
  import opened Common

  const SecretKeyLength := 32
  const PublicKeyLength := 32
  const SignatureLength := 64

  /** What a library call does: returns a value, or throws. */
  datatype Call<+T> = Returned(value: T) | Threw

  datatype Scheme = Scheme(
    /** `ed25519.getPublicKey(secretKey)` */
    getPublicKey: seq<byte> -> seq<byte>,
    /** `ed25519.sign(message, secretKey)` */
    sign: (seq<byte>, seq<byte>) -> seq<byte>,
    /** `ed25519.verify(signature, message, publicKey)`, which throws on malformed sizes */
    verify: (seq<byte>, seq<byte>, seq<byte>) -> Call<bool>)

  /** The properties of RFC 8032 that the guestbook relies on. */
  ghost predicate Correct(scheme: Scheme)
  {
    forall secretKey: seq<byte>, message: seq<byte> | |secretKey| == SecretKeyLength ::
      && |scheme.getPublicKey(secretKey)| == PublicKeyLength
      && |scheme.sign(message, secretKey)| == SignatureLength
      && scheme.verify(scheme.sign(message, secretKey), message, scheme.getPublicKey(secretKey))
         == Returned(true)
  }
}
