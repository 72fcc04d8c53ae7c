/** Proof of possession: signing the gateway's challenge with the key a token is bound to. */
module Authn {
  import opened Common
  import opened Bits
  import opened Tokens
  import opened Signatures
  import opened Gateway

  /** Hexadecimal text and the bytes of a challenge. */
  datatype Codec = Codec(hex: Bytes -> string, unhex: string -> Option<Bytes>, bytes: Challenge -> Bytes)

  ghost predicate RoundTrips(codec: Codec) {
    forall b :: codec.unhex(codec.hex(b)) == Some(b)
  }

  /** The holder proves possession by signing the challenge. */
  ghost function Prove(sk: Bytes, pkHex: string, challenge: Challenge, codec: Codec, hash: Hash): string
    requires SixtyFourBytes(hash) && codec.unhex(pkHex).Some?
  {
    codec.hex(Signature(codec.bytes(challenge), sk, codec.unhex(pkHex).value, hash))
  }

  /** The check against the bound key; text that is not hexadecimal fails it. */
  ghost predicate VerifyPop(pkHex: string, challenge: Challenge, proofHex: string, codec: Codec, hash: Hash)
    requires SixtyFourBytes(hash)
  {
    match (codec.unhex(proofHex), codec.unhex(pkHex))
    case (Some(proof), Some(pk)) => CheckValid(proof, codec.bytes(challenge), pk, hash)
    case _ => false
  }

  /** The gateway's check, done by VerifyPop. */
  ghost function Checking(trust: Trust, codec: Codec, hash: Hash): Trust
    requires SixtyFourBytes(hash)
  {
    trust.(verifyPop := (pkHex, challenge, proof) => VerifyPop(pkHex, challenge, proof, codec, hash))
  }

  /** The invocation, signed with a secret key. */
  ghost function SignedBy(inv: Invocation, sk: Bytes, codec: Codec, hash: Hash): Invocation
    requires SixtyFourBytes(hash) && RoundTrips(codec)
  {
    var pkHex := codec.hex(PublicKey(sk, hash));
    inv.(signer := Some(challenge => Prove(sk, pkHex, challenge, codec, hash)))
  }

  /** An honest holder is never refused: a token bound to a key, presented by the holder of the secret
      key, always passes the possession check, whatever the challenge. */
  lemma {:induction false} HonestHolderPasses(trust: Trust, s: GatewayState, inv: Invocation, c: Claims,
                                             sk: Bytes, codec: Codec, hash: Hash)
    requires CurveFacts() && SixtyFourBytes(hash) && RoundTrips(codec)
    ensures c.holder == Some(codec.hex(PublicKey(sk, hash))) ==>
              PossessionFailure(Checking(trust, codec, hash), s, SignedBy(inv, sk, codec, hash), c).None?
  {
    SignThenCheck(codec.bytes(ChallengeFor(s, inv)), sk, hash);
  }
}
