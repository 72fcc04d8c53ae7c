/** What keys and signatures are made of, read off the secret and the message (sections 5.1.5 and 5.1.6 of
    RFC 8032). */
module SigningMeaning {
  import opened NumberTheory
  import opened Bits
  import opened Ed25519
  import opened Repetition
  import opened Signatures
  import opened ProofReuse

  /** The low 254 bits of v with the three lowest cleared and bit 254 set. */
  function Clamped(v: nat): nat {
    Pow2(254) + v % Pow2(254) / 8 * 8
  }

  lemma DropLowBits(all: nat, low: nat, rest: nat)
    requires all == rest + low && low < 8 && rest % 8 == 0
    ensures all / 8 * 8 == rest
  {}

  lemma {:induction false} SecretScalarMeaning(sk: Bytes, hash: Hash)
    requires SixtyFourBytes(hash)
    ensures SecretScalar(sk, hash) == (Clamped(LittleEndian(hash(sk))), hash(sk))
  {
    ClampedBits(hash(sk), 254);
  }

  lemma {:induction false} ClampedBits(h: Bytes, n: nat)
    requires 3 <= n <= 8 * |h|
    ensures LittleEndian(h) % Pow2(n) / 8 * 8 == BitSum(h, 3, n)
  {
    BitSumIsLittleEndian(h, n);
    ShiftedBitSum(h, n);
    BitSumBound(h, 0, 3);
    Pow2Small(0);
    Pow2Small(3);
    DropLowBits(BitSum(h, 0, n), BitSum(h, 0, 3), BitSum(h, 3, n));
  }

  /** The key is the encoding of the clamped secret's multiple of the base point. */
  lemma {:induction false} PublicKeyMeaning(sk: Bytes, hash: Hash)
    requires CurveFacts() && SixtyFourBytes(hash)
    ensures PublicKey(sk, hash) == EncodePoint(Repeat(Add, Neutral, Base, Clamped(LittleEndian(hash(sk)))))
  {
    SecretScalarMeaning(sk, hash);
    BaseOnCurve();
    ScalarMultIsSum(Base, Clamped(LittleEndian(hash(sk))));
  }

  lemma {:induction false} SignatureHalves(m: Bytes, sk: Bytes, pk: Bytes, hash: Hash)
    requires SixtyFourBytes(hash)
    ensures
      var s, A := Signature(m, sk, pk, hash), Clamped(LittleEndian(hash(sk)));
      var N, K := LittleEndian(hash(hash(sk)[32..64] + m)), LittleEndian(hash(s[..32] + pk + m));
      s[..32] == EncodePoint(ScalarMult(Base, N)) && s[32..] == EncodeInt(Residue(N, K, A))
  {
    var s := Signature(m, sk, pk, hash);
    SecretScalarMeaning(sk, hash);
    WideIsLittleEndian(hash(hash(sk)[32..64] + m));
    WideIsLittleEndian(hash(s[..32] + pk + m));
  }

  lemma {:induction false} WideIsLittleEndian(h: Bytes)
    requires |h| == 64
    ensures DecodeIntWide(h) == LittleEndian(h)
  {
    IntCodecIsLittleEndian(0, h);
  }

  lemma {:induction false} MultipleWritten(n: nat)
    requires CurveFacts()
    ensures ScalarMult(Base, n) == Repeat(Add, Neutral, Base, n)
    ensures DecodePoint(EncodePoint(ScalarMult(Base, n))) == On(Repeat(Add, Neutral, Base, n))
  {
    BaseOnCurve();
    ScalarMultIsSum(Base, n);
    CanonicalRoundTrip(ScalarMult(Base, n));
  }

  /** The first half of a signature is the encoding of N copies of the base point, N being the hash of the
      secret's second half and the message. */
  lemma {:induction false} FirstHalf(m: Bytes, sk: Bytes, pk: Bytes, hash: Hash)
    requires CurveFacts() && SixtyFourBytes(hash)
    ensures
      var r, N := Signature(m, sk, pk, hash)[..32], LittleEndian(hash(hash(sk)[32..64] + m));
      r == EncodePoint(Repeat(Add, Neutral, Base, N)) && DecodePoint(r) == On(Repeat(Add, Neutral, Base, N))
  {
    SignatureHalves(m, sk, pk, hash);
    MultipleWritten(LittleEndian(hash(hash(sk)[32..64] + m)));
  }

  /** The second half is N + K A modulo L, K being the hash of the first half, the key and the message and A
      the clamped secret. */
  lemma {:induction false} SecondHalf(m: Bytes, sk: Bytes, pk: Bytes, hash: Hash)
    requires SixtyFourBytes(hash)
    ensures
      var s, A := Signature(m, sk, pk, hash), Clamped(LittleEndian(hash(sk)));
      var N, K := LittleEndian(hash(hash(sk)[32..64] + m)), LittleEndian(hash(s[..32] + pk + m));
      LittleEndian(s[32..]) == (N + K * A) % L
  {
    var s, A := Signature(m, sk, pk, hash), Clamped(LittleEndian(hash(sk)));
    SignatureHalves(m, sk, pk, hash);
    ResidueWritten(LittleEndian(hash(hash(sk)[32..64] + m)), LittleEndian(hash(s[..32] + pk + m)), A);
  }

  lemma ResidueWritten(N: nat, K: nat, A: nat)
    ensures LittleEndian(EncodeInt(Residue(N, K, A))) == (N + K * A) % L
  {
    var S := Residue(N, K, A);
    IntCodecIsLittleEndian(S, []);
    SmallPowers();
    DivModUnique(S, Pow2(256), 0, S);
  }

  /** Two signatures made from one secret share their first half exactly when their nonces are congruent
      modulo the order of the base point. */
  lemma {:induction false} SharedFirstHalf(m: Bytes, m': Bytes, sk: Bytes, pk: Bytes, pk': Bytes, hash: Hash)
    requires CurveFacts() && IsPrime(L) && SixtyFourBytes(hash)
    ensures Signature(m, sk, pk, hash)[..32] == Signature(m', sk, pk', hash)[..32] <==>
            LittleEndian(hash(hash(sk)[32..64] + m)) % L == LittleEndian(hash(hash(sk)[32..64] + m')) % L
  {
    FirstHalf(m, sk, pk, hash);
    FirstHalf(m', sk, pk', hash);
    EqualMultiples(LittleEndian(hash(hash(sk)[32..64] + m)), LittleEndian(hash(hash(sk)[32..64] + m')));
  }
}
