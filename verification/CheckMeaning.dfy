/** What passing the signature check means, for every key, message and signature: reduced or not, and
    for the same signature under other messages and keys. */
module CheckMeaning {
  import opened NumberTheory
  import opened Bits
  import opened Ed25519
  import opened Repetition
  import opened Signatures
  import EdwardsLaw

  // ----- points and scalars count modulo Q and L -----

  function Reduced(p: Point): Point {
    Point(p.x % Q, p.y % Q)
  }

  lemma SumOfResidues(p: Point, q: Point)
    ensures Edwards(p, q) == Edwards(Reduced(p), Reduced(q))
  {
    var a, b := Reduced(p), Reduced(q);
    CongMod(p.x, Q);
    CongMod(p.y, Q);
    CongMod(q.x, Q);
    CongMod(q.y, Q);
    EdwardsLaw.SumOfCongruent(D, p.x, p.y, q.x, q.y, a.x, a.y, b.x, b.y, Q);
    var k, l := D * p.x * q.x * p.y * q.y, D * a.x * b.x * a.y * b.y;
    SameQuotient(p.x * q.y + q.x * p.y, a.x * b.y + b.x * a.y, 1 + k, 1 + l, Q - 2, Q);
    SameQuotient(p.y * q.y + p.x * q.x, a.y * b.y + a.x * b.x, 1 - k, 1 - l, Q - 2, Q);
  }

  lemma ReducedTwice(p: Point)
    ensures Reduced(Reduced(p)) == Reduced(p) && Reduced(Neutral) == Neutral
  {
    DivModUnique(p.x % Q, Q, 0, p.x % Q);
    DivModUnique(p.y % Q, Q, 0, p.y % Q);
    DivModUnique(0, Q, 0, 0);
    DivModUnique(1, Q, 0, 1);
  }

  lemma {:induction false} ScalarMultOfResidue(p: Point, e: nat)
    ensures ScalarMult(p, e) == ScalarMult(Reduced(p), e)
  {
    ReducedTwice(p);
    SumOfResidues(Neutral, p);
    SumOfResidues(Neutral, Reduced(p));
    SumOfResidues(p, p);
    SumOfResidues(Reduced(p), Reduced(p));
  }

  lemma ScalarModOrder(e: nat)
    requires CurveFacts()
    ensures ScalarMult(Base, e) == ScalarMult(Base, e % L)
  {
    BaseOnCurve();
    CurveIsMonoid();
    assert IsOrder(L);
    ScalarMultIsSum(Base, e);
    ScalarMultIsSum(Base, e % L);
    RepeatMod(Add, Neutral, Canonical, Base, e, L);
  }

  /** What decodes is a curve point, once reduced, and encodes back to the same bytes. */
  lemma DecodedPoint(s: Bytes)
    requires |s| == 32
    ensures DecodePoint(s).On? ==>
              Canonical(Reduced(DecodePoint(s).point)) && EncodePoint(DecodePoint(s).point) == s
  {
    if DecodePoint(s).On? {
      var p := DecodePoint(s).point;
      EdwardsLaw.TermOfResidues(D, p.x, p.y, Q);
      DecodeThenEncode(s);
    }
  }

  // ----- what the check decides -----

  /** The scalar k that the hash of R, the key and the message gives. */
  function HashScalar(s: Bytes, m: Bytes, pk: Bytes, hash: Hash): nat
    requires |s| == 64 && SixtyFourBytes(hash)
  {
    DecodeIntWide(hash(s[..32] + pk + m))
  }

  ghost predicate Decodes(s: Bytes) {
    |s| == 32 && DecodePoint(s).On?
  }

  /** The point a 32-byte string stands for. */
  ghost function PointOf(s: Bytes): Point
    requires Decodes(s)
  {
    Reduced(DecodePoint(s).point)
  }

  /** For every signature, message and key, reduced or not: the check decides whether the lengths are
      right, R and A decode, and [S mod L] B = R + [k] A on the reduced curve points. */
  lemma {:induction false} CheckDecidesEquation(s: Bytes, m: Bytes, pk: Bytes, hash: Hash)
    requires CurveFacts() && SixtyFourBytes(hash)
    ensures CheckValid(s, m, pk, hash) <==>
            && |s| == 64 && Decodes(s[..32]) && Decodes(pk)
            && ScalarMult(Base, DecodeInt(s[32..]) % L)
               == Edwards(PointOf(s[..32]), ScalarMult(PointOf(pk), HashScalar(s, m, pk, hash)))
  {
    if |s| == 64 && Decodes(s[..32]) && Decodes(pk) {
      var R, A, k := DecodePoint(s[..32]).point, DecodePoint(pk).point, HashScalar(s, m, pk, hash);
      DecodedPoint(s[..32]);
      ScalarModOrder(DecodeInt(s[32..]));
      ScalarMultOfResidue(A, k);
      SumOfResidues(R, ScalarMult(A, k));
      DecodedPoint(pk);
      ScalarMultIsSum(PointOf(pk), k);
      SumOfResidues(PointOf(s[..32]), ScalarMult(A, k));
      ReducedTwice(R);
    }
  }

  /** Malleability: only S modulo L matters, so a signature that passes still passes with L added to S. */
  lemma {:induction false} ResponsesModOrder(r: Bytes, S: nat, T: nat, m: Bytes, pk: Bytes, hash: Hash)
    requires CurveFacts() && SixtyFourBytes(hash) && |r| == 32
    requires S < Pow2(256) && T < Pow2(256) && S % L == T % L
    ensures CheckValid(r + EncodeInt(S), m, pk, hash) <==> CheckValid(r + EncodeInt(T), m, pk, hash)
  {
    var s, t := r + EncodeInt(S), r + EncodeInt(T);
    assert s[..32] == r == t[..32] && s[32..] == EncodeInt(S) && t[32..] == EncodeInt(T);
    IntRoundTrip(S, s[32..]);
    IntRoundTrip(T, t[32..]);
    DivModUnique(S, Pow2(256), 0, S);
    DivModUnique(T, Pow2(256), 0, T);
    CheckDecidesEquation(s, m, pk, hash);
    CheckDecidesEquation(t, m, pk, hash);
  }

  lemma {:induction false} AddingOrder(r: Bytes, S: nat, m: Bytes, pk: Bytes, hash: Hash)
    requires CurveFacts() && SixtyFourBytes(hash) && |r| == 32 && S < L
    ensures CheckValid(r + EncodeInt(S + L), m, pk, hash) <==> CheckValid(r + EncodeInt(S), m, pk, hash)
  {
    SmallPowers();
    DivModUnique(S, L, 0, S);
    DivModUnique(S + L, L, 1, S);
    ResponsesModOrder(r, S + L, S, m, pk, hash);
  }

  /** The signature with L added to its second half. */
  function PlusOrder(s: Bytes): Bytes
    requires |s| == 64
  {
    s[..32] + EncodeInt(DecodeInt(s[32..]) + L)
  }

  lemma {:induction false} PlusOrderPasses(s: Bytes, m: Bytes, pk: Bytes, hash: Hash)
    requires CurveFacts() && SixtyFourBytes(hash) && |s| == 64 && DecodeInt(s[32..]) < L
    ensures PlusOrder(s) != s && (CheckValid(PlusOrder(s), m, pk, hash) <==> CheckValid(s, m, pk, hash))
  {
    var S := DecodeInt(s[32..]);
    IntRoundTrip(S, s[32..]);
    assert s == s[..32] + EncodeInt(S);
    AddingOrder(s[..32], S, m, pk, hash);
    AddedOrderDiffers(S, s[32..]);
    assert PlusOrder(s)[32..] == EncodeInt(S + L);
  }

  /** A signature made from a secret still passes with L added to its second half, and is then another one. */
  lemma {:induction false} SignatureHasDouble(m: Bytes, sk: Bytes, hash: Hash)
    requires CurveFacts() && SixtyFourBytes(hash)
    ensures
      var pk := PublicKey(sk, hash);
      var s := Signature(m, sk, pk, hash);
      PlusOrder(s) != s && CheckValid(PlusOrder(s), m, pk, hash)
  {
    var pk := PublicKey(sk, hash);
    SignThenCheck(m, sk, hash);
    ResponseBelowOrder(m, sk, hash);
    PlusOrderPasses(Signature(m, sk, pk, hash), m, pk, hash);
  }

  lemma {:induction false} ResponseBelowOrder(m: Bytes, sk: Bytes, hash: Hash)
    requires SixtyFourBytes(hash)
    ensures DecodeInt(Signature(m, sk, PublicKey(sk, hash), hash)[32..]) < L
  {
    var pk := PublicKey(sk, hash);
    var (a, h) := SecretScalar(sk, hash);
    var r := DecodeIntWide(hash(h[32..64] + m));
    var R := ScalarMult(Base, r);
    var S := Residue(r, DecodeIntWide(hash(EncodePoint(R) + pk + m)), a);
    assert Signature(m, sk, pk, hash)[32..] == EncodeInt(S);
    SmallPowers();
    IntRoundTrip(S, EncodeInt(S));
    DivModUnique(S, Pow2(256), 0, S);
  }

  lemma AddedOrderDiffers(S: nat, s: Bytes)
    requires S < L && |s| == 32 && s == EncodeInt(S)
    ensures EncodeInt(S + L) != s
  {
    SmallPowers();
    IntRoundTrip(S, s);
    IntRoundTrip(S + L, s);
    DivModUnique(S, Pow2(256), 0, S);
    DivModUnique(S + L, Pow2(256), 0, S + L);
  }
}
