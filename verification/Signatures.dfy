/** Scalar multiplication, key generation, signing and checking (RFC 8032, sections 5.1.5 to 5.1.7).
    The hash is a parameter; the facts about the curve that are assumed are gathered in CurveFacts. */
module Signatures {
  import opened NumberTheory
  import opened Bits
  import opened Ed25519
  import opened Repetition
  import EdwardsLaw

  type Hash = Bytes -> Bytes

  ghost predicate SixtyFourBytes(hash: Hash) {
    forall m :: |hash(m)| == 64
  }

  ghost predicate Canonical(p: Point) {
    p.x < Q && p.y < Q && OnCurve(p.x, p.y)
  }

  const Add := (p: Point, q: Point) => Edwards(p, q)

  function ScalarMult(p: Point, e: nat): Point {
    DoubleAndAdd(Add, Neutral, p, e)
  }

  /** The loop of _scalarmult, with the number of its iterations. */
  method RunScalarMult(p0: Point, e0: nat) returns (q: Point, iterations: nat)
    ensures q == ScalarMult(p0, e0)
    ensures iterations == BitLength(e0)
  {
    q := Neutral;
    var p, e := p0, e0;
    iterations := 0;
    while e > 0
      invariant DoubleAndAdd(Add, q, p, e) == ScalarMult(p0, e0)
      invariant iterations + BitLength(e) == BitLength(e0)
    {
      if e % 2 == 1 {
        q := Edwards(q, p);
      }
      p := Edwards(p, p);
      e := e / 2;
      iterations := iterations + 1;
    }
  }

  // ----- what is assumed about the curve -----

  ghost predicate AdditionAssociative() {
    forall p, q, r {:trigger Associates(Add, p, q, r)} ::
      Canonical(p) && Canonical(q) && Canonical(r) ==> Associates(Add, p, q, r)
  }

  predicate IsOrder(l: nat) {
    l == L
  }

  /** L copies of the base point sum to the neutral element. The quantifier keeps the solver from
      unfolding L copies of its own accord. */
  ghost predicate BaseCancels() {
    forall l {:trigger IsOrder(l)} :: IsOrder(l) ==> Repeat(Add, Neutral, Base, l) == Neutral
  }

  /** Q is prime, D is not a square modulo Q, addition of curve points is associative and L copies
      of the base point sum to the neutral element. */
  ghost predicate CurveFacts() {
    && IsPrime(Q)
    && EdwardsLaw.NonSquare(D, Q)
    && AdditionAssociative()
    && BaseCancels()
  }

  // ----- curve points form a commutative monoid -----

  lemma AddCommutes(p: Point, q: Point)
    ensures Edwards(p, q) == Edwards(q, p)
  {
    assert D * p.x * q.x * p.y * q.y == D * q.x * p.x * q.y * p.y;
  }

  lemma AddNeutral(p: Point)
    requires p.x < Q && p.y < Q
    ensures Edwards(Neutral, p) == p
  {
    PowOne(Q - 2);
    DivModUnique(1, Q, 0, 1);
    DivModUnique(p.x, Q, 0, p.x);
    DivModUnique(p.y, Q, 0, p.y);
  }

  /** The denominators of a sum never vanish, and the sum is again a reduced curve point. */
  lemma AddOnCurve(p: Point, q: Point)
    requires IsPrime(Q) && EdwardsLaw.NonSquare(D, Q) && Canonical(p) && Canonical(q)
    ensures Canonical(Edwards(p, q))
    ensures !Divides(Q, 1 + D * p.x * q.x * p.y * q.y) && !Divides(Q, 1 - D * p.x * q.x * p.y * q.y)
  {
    var k := D * p.x * q.x * p.y * q.y;
    DenominatorsNonzero(p, q, k);
    InverseLaw(1 + k);
    InverseLaw(1 - k);
    var v, u := Inv(1 + k), Inv(1 - k);
    EdwardsLaw.Closure(D, p.x, p.y, q.x, q.y, k, v, u, Q);
    EdwardsLaw.TermOfResidues(D, (p.x * q.y + q.x * p.y) * v, (p.y * q.y + p.x * q.x) * u, Q);
  }

  /** The sum of two curve points is the one reduced point whose coordinates, multiplied by the
      denominators of the addition law, give its numerators (section 5.1.4 of RFC 8032). */
  lemma AdditionLaw(p: Point, q: Point, r: Point)
    requires IsPrime(Q) && EdwardsLaw.NonSquare(D, Q) && Canonical(p) && Canonical(q) && r.x < Q && r.y < Q
    ensures
      var k := D * p.x * q.x * p.y * q.y;
      r == Edwards(p, q) <==>
      Cong(r.x * (1 + k), p.x * q.y + q.x * p.y, Q) && Cong(r.y * (1 - k), p.y * q.y + p.x * q.x, Q)
  {
    var k := D * p.x * q.x * p.y * q.y;
    DenominatorsNonzero(p, q, k);
    QuotientDecided(r.x, p.x * q.y + q.x * p.y, 1 + k);
    QuotientDecided(r.y, p.y * q.y + p.x * q.x, 1 - k);
  }

  /** Multiplying by the inverse and reducing is the one reduced solution of r w = n. */
  lemma QuotientDecided(r: nat, n: int, w: int)
    requires IsPrime(Q) && r < Q && !Divides(Q, w)
    ensures r == n * Inv(w) % Q <==> Cong(r * w, n, Q)
  {
    InverseLaw(w);
    QuotientUnique(r, n, w, Inv(w), Q);
  }

  lemma DenominatorsNonzero(p: Point, q: Point, k: int)
    requires IsPrime(Q) && EdwardsLaw.NonSquare(D, Q) && Canonical(p) && Canonical(q)
    requires k == D * p.x * q.x * p.y * q.y
    ensures !Divides(Q, 1 + k) && !Divides(Q, 1 - k)
  {
    ISquared();
    EdwardsLaw.Completeness(D, I, 1, p.x, p.y, q.x, q.y, Q);
    EdwardsLaw.Completeness(D, I, -1, p.x, p.y, q.x, q.y, Q);
    if Divides(Q, 1 - k) {
      CongSym(1, k, Q);
      assert false;
    }
    assert k - -1 == 1 + k;
  }

  const BASE_X: nat := 15112221349535400772501151409588531511454012693041857206046113283949847762202
  const BASE_Y: nat := 46316835694926478169428394003475163141307993866256225615783033603165251855960

  /** The base point is a reduced point on the curve, with these coordinates. */
  lemma BaseOnCurve()
    requires IsPrime(Q)
    ensures Base == Point(BASE_X, BASE_Y) && Canonical(Base)
  {
    SmallNotDivisible(5, Q);
    CongFromWitness(BASE_Y * 5, 4, Q, (BASE_Y * 5 - 4) / Q);
    QuotientValue(4, 5, BASE_Y, Q);
    ResidueOf(4 * Inv(5), BASE_Y);
    DValue();
    BaseTerm();
    XRecoverCorrect(BASE_X, BASE_Y);
    EvenRootUnique(XRecover(BASE_Y), BASE_X);
    DivModUnique(BASE_X, Q, 0, BASE_X);
    DivModUnique(BASE_Y, Q, 0, BASE_Y);
  }

  lemma BaseTerm()
    ensures Divides(Q, EdwardsLaw.Term(D_VALUE, BASE_X, BASE_Y))
  {
    var t := EdwardsLaw.Term(D_VALUE, BASE_X, BASE_Y);
    CongFromWitness(t, 0, Q, t / Q);
  }

  lemma EvenRootUnique(r: nat, x: nat)
    requires r < Q && 0 < x < Q && r % 2 == 0 && x % 2 == 0
    requires Cong(r, x, Q) || Cong(r, 0 - x, Q)
    ensures r == x
  {
    PickBySign(r, x);
  }

  lemma NeutralCanonical()
    ensures Canonical(Neutral)
  {
    assert EdwardsLaw.Term(D, 0, 1) == 0;
  }

  lemma CurveIsMonoid()
    requires CurveFacts()
    ensures Monoid(Add, Neutral, Canonical)
  {
    NeutralCanonical();
    forall p, q | Canonical(p) && Canonical(q)
      ensures Agrees(Add, Canonical, p, q)
    {
      AddOnCurve(p, q);
      AddCommutes(p, q);
    }
    forall p | Canonical(p)
      ensures Absorbs(Add, Neutral, p)
    {
      AddNeutral(p);
    }
  }

  /** Double-and-add from the neutral element is the e-fold sum, a reduced curve point. */
  lemma {:induction false} ScalarMultIsSum(p: Point, e: nat)
    requires CurveFacts() && Canonical(p)
    ensures ScalarMult(p, e) == Repeat(Add, Neutral, p, e) && Canonical(ScalarMult(p, e))
  {
    CurveIsMonoid();
    DoubleAndAddIsRepeat(Add, Neutral, Canonical, Neutral, p, e);
    RepeatOk(Add, Neutral, Canonical, p, e);
    assert Absorbs(Add, Neutral, Repeat(Add, Neutral, p, e));
  }

  /** Comparing the coordinates of two sums compares the points modulo Q. */
  lemma EqualTuplesEqualPoints(p: Point, q: Point, r: Point, s: Point)
    ensures Edwards(p, q) == Edwards(r, s) <==>
            Cong(Edwards(p, q).x, Edwards(r, s).x, Q) && Cong(Edwards(p, q).y, Edwards(r, s).y, Q)
  {
    SumsReduced(Edwards(p, q), Edwards(r, s));
  }

  lemma SumsReduced(a: Point, b: Point)
    requires a.x < Q && a.y < Q && b.x < Q && b.y < Q
    ensures a == b <==> Cong(a.x, b.x, Q) && Cong(a.y, b.y, Q)
  {
    CongFromWitness(a.x, a.x, Q, 0);
    CongFromWitness(a.y, a.y, Q, 0);
    if Cong(a.x, b.x, Q) && Cong(a.y, b.y, Q) {
      SameResidue(a.x, b.x);
      SameResidue(a.y, b.y);
    }
  }

  // ----- keys, signatures and their check -----

  function SecretScalar(sk: Bytes, hash: Hash): (nat, Bytes)
    requires SixtyFourBytes(hash)
  {
    var h := hash(sk);
    (Pow2(254) + BitSum(h, 3, 254), h)
  }

  ghost function PublicKey(sk: Bytes, hash: Hash): (pk: Bytes)
    requires SixtyFourBytes(hash)
    ensures |pk| == 32
  {
    EncodePoint(ScalarMult(Base, SecretScalar(sk, hash).0))
  }

  ghost function Signature(m: Bytes, sk: Bytes, pk: Bytes, hash: Hash): (s: Bytes)
    requires SixtyFourBytes(hash)
    ensures |s| == 64
  {
    var (a, h) := SecretScalar(sk, hash);
    var r := DecodeIntWide(hash(h[32..64] + m));
    var R := ScalarMult(Base, r);
    var k := DecodeIntWide(hash(EncodePoint(R) + pk + m));
    EncodePoint(R) + EncodeInt(Residue(r, k, a))
  }

  /** (r + k a) mod L */
  function Residue(r: nat, k: nat, a: nat): (s: nat)
    ensures s < L
  {
    assert k * a >= 0;
    (r + k * a) % L
  }

  ghost predicate CheckValid(s: Bytes, m: Bytes, pk: Bytes, hash: Hash)
    requires SixtyFourBytes(hash)
  {
    if |s| != 64 || |pk| != 32 then false
    else
      match (DecodePoint(s[..32]), DecodePoint(pk))
      case (On(R), On(A)) =>
        var S := DecodeInt(s[32..]);
        var k := DecodeIntWide(hash(EncodePoint(R) + pk + m));
        ScalarMult(Base, S) == Edwards(R, ScalarMult(A, k))
      case _ => false
  }

  /** The secret scalar has its three low bits clear, its top bit at 254, and the hash's bits between. */
  lemma ClampedScalar(sk: Bytes, hash: Hash)
    requires SixtyFourBytes(hash)
    ensures
      var (a, h) := SecretScalar(sk, hash);
      a % 8 == 0 && Pow2(254) <= a < Pow2(255) && forall i :: 3 <= i < 254 ==> NatBit(a, i) == Bit(h, i)
  {
    var h := hash(sk);
    ScalarRange(h, 254);
    forall i | 3 <= i < 254
      ensures NatBit(Pow2(254) + BitSum(h, 3, 254), i) == Bit(h, i)
    {
      ScalarBit(h, 254, i);
    }
  }

  lemma ScalarRange(h: Bytes, n: nat)
    requires 3 <= n <= 8 * |h|
    ensures (Pow2(n) + BitSum(h, 3, n)) % 8 == 0 && Pow2(n) + BitSum(h, 3, n) < Pow2(n + 1)
  {
    ShiftedBitSum(h, n);
    BitSumBound(h, 3, n);
    EightDividesPow2(n);
  }

  lemma {:induction false} EightDividesPow2(n: nat)
    requires n >= 3
    ensures Pow2(n) % 8 == 0
  {
    if n == 3 { Pow2Small(3); } else { EightDividesPow2(n - 1); }
  }

  lemma {:induction false} ShiftedBitSum(h: Bytes, n: nat)
    requires 3 <= n <= 8 * |h|
    ensures BitSum(h, 3, n) % 8 == 0
    ensures BitSum(h, 0, n) == BitSum(h, 3, n) + BitSum(h, 0, 3)
  {
    if n > 3 {
      ShiftedBitSum(h, n - 1);
      EightDividesTerm(n - 1, Bit(h, n - 1));
      EightDividesSum(BitSum(h, 3, n - 1), Pow2(n - 1) * Bit(h, n - 1));
    }
  }

  lemma {:induction false} EightDividesTerm(n: nat, b: int)
    requires n >= 3 && 0 <= b <= 1
    ensures Pow2(n) * b % 8 == 0
  {
    EightDividesPow2(n);
    TimesBit(Pow2(n), b);
  }

  lemma EightDividesSum(x: int, y: int)
    requires x % 8 == 0 && y % 8 == 0
    ensures (x + y) % 8 == 0
  {}

  lemma TimesBit(p: nat, b: int)
    requires 0 <= b <= 1
    ensures p * b == if b == 0 then 0 else p
  {}

  lemma {:induction false} ScalarBit(h: Bytes, n: nat, i: nat)
    requires 3 <= i < n <= 8 * |h|
    ensures NatBit(Pow2(n) + BitSum(h, 3, n), i) == Bit(h, i)
  {
    ShiftedBitSum(h, n);
    BitOfBitSum(h, n, i);
    BitSumBound(h, 0, 3);
    Pow2Small(0);
    Pow2Small(3);
    LowBitsIrrelevant(BitSum(h, 3, n), BitSum(h, 0, 3), i);
    HighBitsIrrelevant(BitSum(h, 3, n), n, 1, i);
  }

  /** Adding less than 8 to a multiple of 8 changes no bit from 3 upwards. */
  lemma LowBitsIrrelevant(v: nat, low: nat, i: nat)
    requires v % 8 == 0 && low < 8 && i >= 3
    ensures NatBit(v + low, i) == NatBit(v, i)
  {
    assert (v + low) / 2 / 2 / 2 == v / 2 / 2 / 2;
    forall y: nat
      ensures Shr(y, i) == Shr(y / 2 / 2 / 2, i - 3)
    {
      assert Shr(y, i) == Shr(y / 2, i - 1) == Shr(y / 2 / 2, i - 2);
    }
  }

  lemma {:induction false} SmallPowers()
    ensures Q < Pow2(255) && L < Pow2(256) && Pow2(255) < 8 * L
  {
    Pow2Small(8);
    SquaredPower(8, 0x100);
    SquaredPower(16, 0x1_0000);
    SquaredPower(32, 0x1_0000_0000);
    SquaredPower(64, 0x1_0000_0000_0000_0000);
    SquaredPower(128, 0x1_0000_0000_0000_0000_0000_0000_0000_0000);
    HalfPower(256);
  }

  lemma {:induction false} SquaredPower(e: nat, v: nat)
    requires Pow2(e) == v
    ensures Pow2(2 * e) == v * v
  {
    Pow2Add(e, e);
  }

  lemma HalfPower(e: nat)
    requires e > 0
    ensures 2 * Pow2(e - 1) == Pow2(e)
  {}

  /** A reduced curve point survives encoding and decoding. */
  lemma CanonicalRoundTrip(p: Point)
    requires IsPrime(Q) && Canonical(p)
    ensures DecodePoint(EncodePoint(p)) == On(p)
  {
    SmallPowers();
    EncodeThenDecode(p);
  }

  /** The equation behind the check: [(r + k a) mod L] B = [r] B + [k] [a] B. */
  lemma ResponseEquation(r: nat, k: nat, a: nat, t: nat)
    requires CurveFacts() && t == a * k
    ensures ScalarMult(Base, (r + t) % L) == Edwards(ScalarMult(Base, r), ScalarMult(ScalarMult(Base, a), k))
  {
    BaseOnCurve();
    CurveIsMonoid();
    assert IsOrder(L);
    ScalarMultIsSum(Base, r);
    ScalarMultIsSum(Base, a);
    ScalarMultIsSum(Base, (r + t) % L);
    ScalarMultIsSum(ScalarMult(Base, a), k);
    RepeatLinear(Add, Neutral, Canonical, Base, r, k, a, t, L);
  }

  lemma ResponseHolds(r: nat, k: nat, a: nat)
    requires CurveFacts()
    ensures ScalarMult(Base, Residue(r, k, a)) == Edwards(ScalarMult(Base, r), ScalarMult(ScalarMult(Base, a), k))
  {
    var t := ResidueReduces(r, k, a);
    ResponseEquation(r, k, a, t);
  }

  lemma ResidueReduces(r: nat, k: nat, a: nat) returns (t: nat)
    ensures t == a * k && Residue(r, k, a) == (r + t) % L
  {
    t := k * a;
  }

  /** On the encodings of reduced curve points R and A and of a number below L, the check is the
      equation [S] B = R + [k] A. */
  lemma {:induction false} CheckOnEncodings(R: Point, S: nat, A: Point, m: Bytes, hash: Hash)
    requires IsPrime(Q) && Canonical(R) && Canonical(A) && S < L && SixtyFourBytes(hash)
    ensures
      var k := DecodeIntWide(hash(EncodePoint(R) + EncodePoint(A) + m));
      CheckValid(EncodePoint(R) + EncodeInt(S), m, EncodePoint(A), hash)
      <==> ScalarMult(Base, S) == Edwards(R, ScalarMult(A, k))
  {
    var s := EncodePoint(R) + EncodeInt(S);
    assert s[..32] == EncodePoint(R) && s[32..] == EncodeInt(S);
    CanonicalRoundTrip(A);
    CanonicalRoundTrip(R);
    SmallPowers();
    IntRoundTrip(S, s[32..]);
    DivModUnique(S, Pow2(256), 0, S);
  }

  /** A signature always passes the check, for every secret key and message. */
  lemma {:induction false} SignThenCheck(m: Bytes, sk: Bytes, hash: Hash)
    requires CurveFacts() && SixtyFourBytes(hash)
    ensures CheckValid(Signature(m, sk, PublicKey(sk, hash), hash), m, PublicKey(sk, hash), hash)
  {
    var (a, h) := SecretScalar(sk, hash);
    var A := ScalarMult(Base, a);
    var r := DecodeIntWide(hash(h[32..64] + m));
    var R := ScalarMult(Base, r);
    var k := DecodeIntWide(hash(EncodePoint(R) + EncodePoint(A) + m));
    BaseOnCurve();
    ScalarMultIsSum(Base, a);
    ScalarMultIsSum(Base, r);
    ResponseHolds(r, k, a);
    CheckOnEncodings(R, Residue(r, k, a), A, m, hash);
  }
}
