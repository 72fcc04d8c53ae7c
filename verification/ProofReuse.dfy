/** When one signature passes for two messages: an exact condition for any keys, what it comes to for
    keys made from a secret, and a key under which one signature passes for every message. */
module ProofReuse {
  import opened NumberTheory
  import opened Bits
  import opened Ed25519
  import opened Repetition
  import opened Signatures
  import opened CheckMeaning
  import EdwardsLaw

  // ----- cancellation -----

  function Mirror(p: Point): Point {
    Point((0 - p.x) % Q, p.y)
  }

  /** The mirror image of a curve point is its inverse. */
  lemma MirrorCancels(p: Point)
    requires IsPrime(Q) && EdwardsLaw.NonSquare(D, Q) && Canonical(p)
    ensures Canonical(Mirror(p)) && Edwards(Mirror(p), p) == Neutral
  {
    var n := Mirror(p);
    CongMod(0 - p.x, Q);
    OnCurveMirror(n.x, p.x, p.y);
    EdwardsLaw.MirrorSum(D, p.x, p.y, n.x, Q);
    var k := D * n.x * p.x * n.y * p.y;
    assert k == D * n.x * p.x * p.y * p.y;
    assert Neutral.x * (1 + k) == 0 && Neutral.y * (1 - k) == 1 - k;
    AdditionLaw(n, p, Neutral);
  }

  lemma OnCurveMirror(n: int, x: int, y: int)
    requires Cong(n, -x, Q) && OnCurve(x, y)
    ensures OnCurve(n, y)
  {
    CongFromWitness(y, y, Q, 0);
    EdwardsLaw.TermOfCongruent(D, n, y, -x, y, Q);
    assert EdwardsLaw.Term(D, -x, y) == EdwardsLaw.Term(D, x, y) by {
      assert D * (-x) * (-x) * y * y == D * x * x * y * y;
    }
    CongTrans(EdwardsLaw.Term(D, n, y), EdwardsLaw.Term(D, x, y), 0, Q);
  }

  lemma Cancellation(r: Point, x: Point, y: Point)
    requires CurveFacts() && Canonical(r) && Canonical(x) && Canonical(y)
    ensures Edwards(r, x) == Edwards(r, y) <==> x == y
  {
    CurveIsMonoid();
    MirrorCancels(r);
    var n := Mirror(r);
    assert Associates(Add, n, r, x) && Associates(Add, n, r, y);
    assert Absorbs(Add, Neutral, x) && Absorbs(Add, Neutral, y);
  }

  // ----- one signature, two messages -----

  /** The key of the second message decodes, and its multiple by the second hash scalar is the first
      key's by the first. */
  ghost predicate SameMultiple(s: Bytes, m: Bytes, pk: Bytes, m': Bytes, pk': Bytes, hash: Hash)
    requires SixtyFourBytes(hash)
  {
    && |s| == 64 && Decodes(pk) && Decodes(pk')
    && ScalarMult(PointOf(pk'), HashScalar(s, m', pk', hash)) == ScalarMult(PointOf(pk), HashScalar(s, m, pk, hash))
  }

  /** A signature that passes for one message and key passes for another exactly when the two keys have
      the same multiples by the two hash scalars. */
  lemma {:induction false} PassesAgain(s: Bytes, m: Bytes, pk: Bytes, m': Bytes, pk': Bytes, hash: Hash)
    requires CurveFacts() && SixtyFourBytes(hash)
    ensures CheckValid(s, m, pk, hash) ==> (CheckValid(s, m', pk', hash) <==> SameMultiple(s, m, pk, m', pk', hash))
  {
    CheckDecidesEquation(s, m, pk, hash);
    CheckDecidesEquation(s, m', pk', hash);
    if CheckValid(s, m, pk, hash) && Decodes(pk') {
      DecodedPoint(s[..32]);
      DecodedPoint(pk);
      DecodedPoint(pk');
      var k, k' := HashScalar(s, m, pk, hash), HashScalar(s, m', pk', hash);
      ScalarMultIsSum(PointOf(pk), k);
      ScalarMultIsSum(PointOf(pk'), k');
      Cancellation(PointOf(s[..32]), ScalarMult(PointOf(pk), k), ScalarMult(PointOf(pk'), k'));
    }
  }

  // ----- keys made from a secret -----

  /** With a prime order, no smaller number of copies of the base point cancels out. */
  lemma {:induction false} OrderExact(r: nat)
    requires CurveFacts() && IsPrime(L) && 0 < r < L
    ensures Repeat(Add, Neutral, Base, r) != Neutral
    decreases r
  {
    BaseOnCurve();
    CurveIsMonoid();
    assert IsOrder(L);
    if Repeat(Add, Neutral, Base, r) == Neutral {
      if r == 1 {
        assert Repeat(Add, Neutral, Base, 1) == Edwards(Repeat(Add, Neutral, Base, 0), Base);
        AddNeutral(Base);
        assert false;
      }
      RepeatMod(Add, Neutral, Canonical, Base, L, r);
      DividesMod(r, L);
      OrderExact(L % r);
    }
  }

  /** The sum of two curve points is the first one only when the second is neutral. */
  lemma SumWithNeutralOnly(p: Point, q: Point)
    requires CurveFacts() && Canonical(p) && Canonical(q)
    ensures Edwards(p, q) == p <==> q == Neutral
  {
    NeutralCanonical();
    AddNeutral(p);
    AddCommutes(p, Neutral);
    Cancellation(p, q, Neutral);
  }

  lemma {:induction false} SmallMultiplesDiffer(x: nat, y: nat)
    requires CurveFacts() && IsPrime(L) && x < y < L
    ensures Repeat(Add, Neutral, Base, x) != Repeat(Add, Neutral, Base, y)
  {
    SumOfMultiples(x, y - x);
    OrderExact(y - x);
  }

  lemma {:induction false} SumOfMultiples(x: nat, d: nat)
    requires CurveFacts()
    ensures Repeat(Add, Neutral, Base, x + d) == Repeat(Add, Neutral, Base, x)
            <==> Repeat(Add, Neutral, Base, d) == Neutral
  {
    BaseOnCurve();
    CurveIsMonoid();
    RepeatAdd(Add, Neutral, Canonical, Base, x, d);
    RepeatOk(Add, Neutral, Canonical, Base, x);
    RepeatOk(Add, Neutral, Canonical, Base, d);
    SumWithNeutralOnly(Repeat(Add, Neutral, Base, x), Repeat(Add, Neutral, Base, d));
  }

  /** Multiples of the base point are equal exactly when the factors are congruent. */
  lemma {:induction false} EqualMultiples(x: nat, y: nat)
    requires CurveFacts() && IsPrime(L)
    ensures Repeat(Add, Neutral, Base, x) == Repeat(Add, Neutral, Base, y) <==> x % L == y % L
  {
    BaseOnCurve();
    CurveIsMonoid();
    assert IsOrder(L);
    RepeatMod(Add, Neutral, Canonical, Base, x, L);
    RepeatMod(Add, Neutral, Canonical, Base, y, L);
    if x % L < y % L {
      SmallMultiplesDiffer(x % L, y % L);
    } else if y % L < x % L {
      SmallMultiplesDiffer(y % L, x % L);
    }
  }

  lemma SecretScalarNotDivisible(sk: Bytes, hash: Hash)
    requires SixtyFourBytes(hash) && IsPrime(L)
    ensures !Divides(L, SecretScalar(sk, hash).0)
  {
    var a := SecretScalar(sk, hash).0;
    ClampedScalar(sk, hash);
    SmallPowers();
    SmallNotDivisible(8, L);
    SmallNotDivisible(a / 8, L);
    assert a == 8 * (a / 8);
    if Divides(L, a) { Euclid(L, 8, a / 8); }
  }

  lemma {:induction false} MultipleOfKey(a: nat, k: nat) returns (t: nat)
    requires CurveFacts()
    ensures t == a * k && ScalarMult(ScalarMult(Base, a), k) == Repeat(Add, Neutral, Base, t)
  {
    t := a * k;
    BaseOnCurve();
    CurveIsMonoid();
    ScalarMultIsSum(Base, a);
    ScalarMultIsSum(ScalarMult(Base, a), k);
    RepeatMul(Add, Neutral, Canonical, Base, a, k);
  }

  /** A key made from a secret stands for the secret scalar's multiple of the base point. */
  lemma {:induction false} PointOfPublicKey(sk: Bytes, hash: Hash)
    requires CurveFacts() && SixtyFourBytes(hash)
    ensures Decodes(PublicKey(sk, hash)) && PointOf(PublicKey(sk, hash)) == ScalarMult(Base, SecretScalar(sk, hash).0)
  {
    var p := ScalarMult(Base, SecretScalar(sk, hash).0);
    BaseOnCurve();
    ScalarMultIsSum(Base, SecretScalar(sk, hash).0);
    CanonicalRoundTrip(p);
    DivModUnique(p.x, Q, 0, p.x);
    DivModUnique(p.y, Q, 0, p.y);
  }

  lemma EqualProducts(a: nat, k: nat, k': nat, t: nat, t': nat)
    requires IsPrime(L) && !Divides(L, a) && t == a * k && t' == a * k'
    ensures t % L == t' % L <==> k % L == k' % L
  {
    CongIffSameMod(t, t', L);
    CongIffSameMod(k, k', L);
    assert t == k * a && t' == k' * a;
    if Cong(t, t', L) { CancelFactor(k, k', a, L); }
    if Cong(k, k', L) {
      CongFromWitness(a, a, L, 0);
      CongMul(k, k', a, a, L);
    }
  }

  /** Under a key made from a secret, a signature that passes for one message passes for another exactly
      when the two hash scalars collide modulo the order of the base point. */
  lemma {:induction false} PassesAgainUnderPublicKey(s: Bytes, m: Bytes, m': Bytes, sk: Bytes, hash: Hash)
    requires CurveFacts() && IsPrime(L) && SixtyFourBytes(hash)
    ensures
      var pk := PublicKey(sk, hash);
      CheckValid(s, m, pk, hash) ==>
        (CheckValid(s, m', pk, hash) <==> HashScalar(s, m, pk, hash) % L == HashScalar(s, m', pk, hash) % L)
  {
    var pk, a := PublicKey(sk, hash), SecretScalar(sk, hash).0;
    PassesAgain(s, m, pk, m', pk, hash);
    if CheckValid(s, m, pk, hash) {
      var k, k' := HashScalar(s, m, pk, hash), HashScalar(s, m', pk, hash);
      PointOfPublicKey(sk, hash);
      SecretScalarNotDivisible(sk, hash);
      var t := MultipleOfKey(a, k);
      var t' := MultipleOfKey(a, k');
      EqualMultiples(t, t');
      EqualProducts(a, k, k', t, t');
    }
  }

  // ----- a key under which everything passes -----

  const NeutralKey: Bytes := EncodePoint(Neutral)
  const NeutralSignature: Bytes := EncodePoint(Neutral) + EncodeInt(0)

  lemma {:induction false} MultiplesOfNeutral(k: nat)
    ensures ScalarMult(Neutral, k) == Neutral
    decreases k
  {
    AddNeutral(Neutral);
    if k > 0 { MultiplesOfNeutral(k / 2); }
  }

  /** The encoding of the neutral element is a key under which one signature passes for every message. */
  lemma {:induction false} NeutralKeyPassesAll(m: Bytes, hash: Hash)
    requires IsPrime(Q) && SixtyFourBytes(hash)
    ensures CheckValid(NeutralSignature, m, NeutralKey, hash)
  {
    NeutralCanonical();
    MultiplesOfNeutral(DecodeIntWide(hash(EncodePoint(Neutral) + EncodePoint(Neutral) + m)));
    AddNeutral(Neutral);
    CheckOnEncodings(Neutral, 0, Neutral, m, hash);
  }
}
