/** The Ed25519 curve: field inversion, square-root recovery, point addition and the 32-byte point
    encoding (RFC 8032, sections 5.1.2 to 5.1.4). Primality of Q is the only fact assumed here. */
module Ed25519 {
  import opened NumberTheory
  import opened Bits
  import opened EdwardsLaw

  const Q: nat := 0x7fffffffffffffffffffffffffffffffffffffffffffffffffffffffffffffed
  const L: nat := 0x1000000000000000000000000000000014def9dea2f79cd65812631a5cf5d3ed

  function Inv(x: int): (r: nat)
    ensures r < Q
  {
    ModPow(x, Q - 2, Q)
  }

  const D: int := -121665 * Inv(121666) % Q
  const I: int := ModPow(2, (Q - 1) / 4, Q)

  datatype Point = Point(x: nat, y: nat)

  const Neutral := Point(0, 1)

  /** The candidate u^((Q+3)/8), corrected by a root of -1 when it squares to something else. */
  ghost function SquareRoot(u: int): (r: nat)
    ensures r < Q
  {
    var x := ModPow(u, (Q + 3) / 8, Q);
    if !Cong(x * x, u, Q) then x * I % Q else x
  }

  function EvenRoot(x: nat): (r: nat)
    requires x < Q
    ensures r < Q && r % 2 == 0
  {
    if x % 2 != 0 then Q - x else x
  }

  function XSquared(y: nat): int {
    (y * y - 1) * Inv(D * y * y + 1) % Q
  }

  ghost function XRecover(y: nat): (r: nat)
    ensures r < Q && r % 2 == 0
  {
    EvenRoot(SquareRoot(XSquared(y)))
  }

  const BaseY: nat := 4 * Inv(5) % Q
  ghost const BaseX: nat := XRecover(BaseY)
  ghost const Base := Point(BaseX % Q, BaseY % Q)

  ghost predicate OnCurve(x: int, y: int) {
    Divides(Q, Term(D, x, y))
  }

  function Edwards(p: Point, q: Point): (r: Point)
    ensures r.x < Q && r.y < Q
  {
    var k := D * p.x * q.x * p.y * q.y;
    Point((p.x * q.y + q.x * p.y) * Inv(1 + k) % Q, (p.y * q.y + p.x * q.x) * Inv(1 - k) % Q)
  }

  datatype Decoded = OffCurve | On(point: Point)

  function EncodePoint(p: Point): (r: Bytes)
    ensures |r| == 32
  {
    EncodePair(p.x, p.y)
  }

  /** Choose between the even root and its negation by the sign bit. */
  function WithParity(root: nat, bit: int): (x: nat)
    requires root < Q && root % 2 == 0 && 0 <= bit <= 1
    ensures x <= Q && x % 2 == bit
  {
    if root % 2 != bit then Q - root else root
  }

  ghost function CheckedPoint(x: nat, y: nat): Decoded {
    if !OnCurve(x, y) then OffCurve else On(Point(x, y))
  }

  ghost function DecodePoint(s: Bytes): Decoded
    requires |s| == 32
  {
    var y := BitSum(s, 0, 255);
    CheckedPoint(WithParity(XRecover(y), Bit(s, 255)), y)
  }

  // ----- field facts -----

  lemma InverseLaw(x: int)
    requires IsPrime(Q)
    ensures !Divides(Q, x) ==> Cong(x * Inv(x), 1, Q)
    ensures Divides(Q, x) ==> Inv(x) == 0
  {
    FermatInverse(x, Q);
  }

  lemma SameResidue(a: nat, b: nat)
    requires a < Q && b < Q && Cong(a, b, Q)
    ensures a == b
  {
    CongIffSameMod(a, b, Q);
    DivModUnique(a, Q, 0, a);
    DivModUnique(b, Q, 0, b);
  }

  const D_VALUE: nat := 37095705934669439343138083508754565189542113879843219016388785533085940283555
  const I_VALUE: nat := 19681161376707505956807079304988542015446066515923890162744021073123829784752

  /** The curve constant is -121665/121666. */
  lemma DValue()
    requires IsPrime(Q)
    ensures D == D_VALUE
  {
    SmallNotDivisible(121666, Q);
    CongFromWitness(D_VALUE * 121666, -121665, Q, (D_VALUE * 121666 + 121665) / Q);
    QuotientValue(-121665, 121666, D_VALUE, Q);
    ResidueOf(-121665 * Inv(121666), D_VALUE);
  }

  lemma ResidueOf(a: int, b: nat)
    requires Cong(a, b, Q) && b < Q
    ensures a % Q == b
  {
    CongIffSameMod(a, b, Q);
    DivModUnique(b, Q, 0, b);
  }

  /** 2^((Q-1)/4) is a square root of -1. */
  lemma {:induction false} ISquared()
    requires IsPrime(Q)
    ensures Cong(I * I, -1, Q)
  {
    var m := (Q - 5) / 8;
    CongFromWitness(I_VALUE * I_VALUE, -1, Q, (I_VALUE * I_VALUE + 1) / Q);
    TwoGivesRootOfMinusOne(I_VALUE, Q, m);
    var t := Pow(2, 2 * m + 1);
    CongMod(t, Q);
    CongMul(I, t, I, t, Q);
    CongTrans(I * I, t * t, -1, Q);
  }

  // ----- recovering x from y -----

  lemma SquareRootCorrect(u: int, z: int)
    requires IsPrime(Q) && Cong(u, z * z, Q)
    ensures Cong(SquareRoot(u) * SquareRoot(u), u, Q)
  {
    var m := (Q - 5) / 8;
    var t := Pow(u, m + 1);
    var x := ModPow(u, (Q + 3) / 8, Q);
    RootCandidate(u, z, Q, m);
    CongMod(t, Q);
    CongMul(x, t, x, t, Q);
    if !Cong(x * x, u, Q) {
      if Cong(t * t, u, Q) {
        CongTrans(x * x, t * t, u, Q);
        assert false;
      }
      CongTrans(x * x, t * t, -u, Q);
      ISquared();
      CorrectedRoot(x, I, u, Q);
    }
  }

  lemma DNotMinusOne()
    requires IsPrime(Q)
    ensures !Cong(D, -1, Q)
  {
    DValue();
    SmallNotDivisible(D_VALUE + 1, Q);
  }

  lemma DenominatorNonzero(d: int, x: int, y: int, m: int)
    requires m > 0 && Divides(m, Term(d, x, y)) && !Cong(d, -1, m)
    ensures !Divides(m, d * y * y + 1)
  {
    var e := d * y * y + 1;
    if Divides(m, e) {
      TermAsSquare(d, x, y);
      CongFromWitness(x * x, x * x, m, 0);
      CongMul(x * x, x * x, e, 0, m);
      CongAdd(Term(d, x, y), 0, (x * x) * e, 0, m);
      assert Cong(y * y, 1, m);
      CongFromWitness(d, d, m, 0);
      CongMul(d, d, y * y, 1, m);
      assert d * (y * y) == d * y * y;
      CongSym(d * y * y, d, m);
      CongTrans(d, d * y * y, -1, m);
      assert false;
    }
  }

  lemma QuotientOfTerm(d: int, x: int, y: int, p: int)
    requires IsPrime(p) && p > 2 && Divides(p, Term(d, x, y)) && !Cong(d, -1, p)
    ensures Cong((y * y - 1) * ModPow(d * y * y + 1, p - 2, p), x * x, p)
  {
    DenominatorNonzero(d, x, y, p);
    TermAsSquare(d, x, y);
    CongSym(y * y - 1, (x * x) * (d * y * y + 1), p);
    QuotientValue(y * y - 1, d * y * y + 1, x * x, p);
  }

  lemma TermOfSameSquare(d: int, a: int, b: int, y: int, m: int)
    requires m > 0 && Cong(a * a, b * b, m)
    ensures Cong(Term(d, a, y), Term(d, b, y), m)
  {
    TermAsSquare(d, a, y);
    TermAsSquare(d, b, y);
    var e := d * y * y + 1;
    CongFromWitness(e, e, m, 0);
    CongFromWitness(y * y - 1, y * y - 1, m, 0);
    CongMul(a * a, b * b, e, e, m);
    CongAdd(y * y - 1, y * y - 1, (a * a) * e, (b * b) * e, m);
  }

  /** For every curve point, the recovered coordinate is x or -x modulo Q, whichever is even. */
  lemma XRecoverCorrect(x: int, y: nat)
    requires IsPrime(Q) && OnCurve(x, y)
    ensures Cong(XRecover(y), x, Q) || Cong(XRecover(y), -x, Q)
  {
    DNotMinusOne();
    QuotientOfTerm(D, x, y, Q);
    var u := XSquared(y);
    CongMod((y * y - 1) * Inv(D * y * y + 1), Q);
    CongTrans(u, (y * y - 1) * Inv(D * y * y + 1), x * x, Q);
    SquareRootCorrect(u, x);
    var r := SquareRoot(u);
    CongTrans(r * r, u, x * x, Q);
    SameSquare(r, x, Q);
    NegatedRoot(r, x);
  }

  lemma NegatedRoot(r: nat, x: int)
    requires r < Q && (Cong(r, x, Q) || Cong(r, -x, Q))
    ensures Cong(EvenRoot(r), x, Q) || Cong(EvenRoot(r), -x, Q)
  {
    if r % 2 != 0 { NegatedResidue(r, x); }
  }

  lemma OnCurveSign(a: int, x: int, y: int)
    requires (Cong(a, x, Q) || Cong(a, -x, Q)) && OnCurve(x, y)
    ensures OnCurve(a, y)
  {
    if Cong(a, x, Q) { CongMul(a, x, a, x, Q); } else { CongMul(a, -x, a, -x, Q); }
    assert (-x) * (-x) == x * x;
    TermOfSameSquare(D, a, x, y, Q);
    CongTrans(Term(D, a, y), Term(D, x, y), 0, Q);
  }

  // ----- the 32-byte point encoding -----

  ghost predicate HasPoint(y: nat) {
    exists x :: OnCurve(x, y)
  }

  /** Decoding fails exactly when no curve point has the encoded y. */
  lemma {:induction false} DecodeSucceedsIffOnCurve(s: Bytes)
    requires IsPrime(Q) && |s| == 32
    ensures DecodePoint(s).On? <==> HasPoint(BitSum(s, 0, 255))
  {
    CheckSucceeds(BitSum(s, 0, 255), Bit(s, 255));
  }

  lemma CheckSucceeds(y: nat, bit: int)
    requires IsPrime(Q) && 0 <= bit <= 1
    ensures CheckedPoint(WithParity(XRecover(y), bit), y).On? <==> HasPoint(y)
  {
    if HasPoint(y) {
      var x :| OnCurve(x, y);
      RecoveredOnCurve(x, y, bit);
    }
  }

  lemma RecoveredOnCurve(x: int, y: nat, bit: int)
    requires IsPrime(Q) && OnCurve(x, y) && 0 <= bit <= 1
    ensures OnCurve(WithParity(XRecover(y), bit), y)
  {
    XRecoverCorrect(x, y);
    RootStaysOnCurve(XRecover(y), bit, x, y);
  }

  lemma RootStaysOnCurve(r: nat, bit: int, x: int, y: int)
    requires r < Q && r % 2 == 0 && 0 <= bit <= 1
    requires (Cong(r, x, Q) || Cong(r, -x, Q)) && OnCurve(x, y)
    ensures OnCurve(WithParity(r, bit), y)
  {
    var w: int := WithParity(r, bit);
    if w != r { NegatedResidue(r, x); }
    OnCurveSign(w, x, y);
  }

  lemma NegatedResidue(r: int, x: int)
    requires Cong(r, x, Q) || Cong(r, -x, Q)
    ensures Cong(Q - r, x, Q) || Cong(Q - r, -x, Q)
  {
    CongFromWitness(Q, 0, Q, 1);
    if Cong(r, x, Q) { CongAdd(Q, 0, r, x, Q); } else { CongAdd(Q, 0, r, -x, Q); }
  }

  /** Decoding then encoding gives back the very same 32 bytes, canonical or not. */
  lemma DecodeThenEncode(s: Bytes)
    requires |s| == 32
    ensures DecodePoint(s).On? ==> EncodePoint(DecodePoint(s).point) == s
  {
    DecodeFields(s, XRecover(BitSum(s, 0, 255)));
  }

  lemma {:induction false} DecodeFields(s: Bytes, r: nat)
    requires |s| == 32 && r < Q && r % 2 == 0
    ensures EncodePoint(Point(WithParity(r, Bit(s, 255)), BitSum(s, 0, 255))) == s
  {
    PairFromString(s, WithParity(r, Bit(s, 255)));
  }

  /** Encoding then decoding gives back the point exactly when it is on the curve with 0 <= x <= Q
      and y below 2^255; in particular for every canonical curve point. */
  lemma EncodeThenDecode(p: Point)
    requires IsPrime(Q)
    ensures DecodePoint(EncodePoint(p)) == On(p) <==> OnCurve(p.x, p.y) && p.x <= Q && p.y < Pow2(255)
  {
    var s := EncodePoint(p);
    PairRoundTrip(p.x, p.y);
    var y := BitSum(s, 0, 255);
    if OnCurve(p.x, p.y) && p.x <= Q && p.y < Pow2(255) {
      DivModUnique(p.y, Pow2(255), 0, p.y);
      XRecoverCorrect(p.x, y);
      PickBySign(XRecover(y), p.x);
    }
  }

  /** The parity bit tells x from Q - x. */
  lemma PickBySign(r: nat, x: int)
    requires r < Q && r % 2 == 0 && 0 <= x <= Q && (Cong(r, x, Q) || Cong(r, -x, Q))
    ensures WithParity(r, x % 2) == x
  {
    var z := if Cong(r, x, Q) then x else -x;
    var k := CongWitness(r, z, Q);
    assert -1 <= k <= 2;
  }
}
