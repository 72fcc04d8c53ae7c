/** Completeness and closure of the addition law on -x^2 + y^2 = 1 + d x^2 y^2 modulo a prime p,
    for any curve constant d that is not a square. The curve and its modulus are parameters, so
    these are polynomial facts only. */
module EdwardsLaw {
  import opened NumberTheory

  /** Zero exactly on the curve. */
  function Term(d: int, x: int, y: int): int {
    -x * x + y * y - 1 - d * x * x * y * y
  }

  lemma Refl(a: int, m: int)
    requires m > 0
    ensures Cong(a, a, m)
  {
    CongFromWitness(a, a, m, 0);
  }

  lemma TermAsSquare(d: int, x: int, y: int)
    ensures Term(d, x, y) == (y * y - 1) - (x * x) * (d * y * y + 1)
  {
    assert d * x * x * y * y == (x * x) * (d * y * y);
  }

  ghost predicate NonSquare(d: int, p: int)
    requires p > 0
  {
    forall z: int :: !Cong(z * z, d, p)
  }

  // ----- completeness: the denominators 1 + k and 1 - k never vanish -----

  /** If u^2 = d v^2 with v nonzero then d is a square. */
  lemma SquareRatio(u: int, v: int, d: int, p: int)
    requires IsPrime(p) && p > 2 && !Divides(p, v) && Cong(u * u, d * (v * v), p)
    ensures !NonSquare(d, p)
  {
    var w := ModPow(v, p - 2, p);
    FermatInverse(v, p);
    CongMul(v * w, 1, v * w, 1, p);
    Refl(w * w, p);
    CongMul(u * u, d * (v * v), w * w, w * w, p);
    Refl(d, p);
    CongMul(d, d, (v * w) * (v * w), 1, p);
    Grouping(u, w);
    Grouping(v, w);
    assert d * (v * v) * (w * w) == d * ((v * v) * (w * w));
    CongTrans((u * w) * (u * w), d * ((v * w) * (v * w)), d, p);
  }

  lemma Grouping(a: int, b: int)
    ensures (a * b) * (a * b) == (a * a) * (b * b)
  {
    assert (a * b) * (a * b) == a * (b * (a * b));
    assert b * (a * b) == a * (b * b);
  }

  lemma LeftSquare(i: int, e: int, x: int, y: int)
    requires e * e == 1
    ensures (i * x + e * y) * (i * x + e * y) == i * i * (x * x) + 2 * (i * e * (x * y)) + y * y
  {
    assert (e * y) * (e * y) == (e * e) * (y * y);
    var s, t := i * x, e * y;
    assert (s + t) * (s + t) == s * s + 2 * (s * t) + t * t;
  }

  lemma Spread(q: int, a: int, i: int, b: int, c: int)
    ensures q * (a + 2 * (i * b) + c) == q * a + 2 * i * (q * b) + q * c
  {}

  lemma RightSquare(d: int, i: int, x1: int, y1: int, x2: int, y2: int)
    ensures
      var q := d * (x1 * x1) * (y1 * y1);
      d * ((x1 * y1 * (i * x2 + y2)) * (x1 * y1 * (i * x2 + y2)))
      == q * (i * i * (x2 * x2)) + 2 * i * (q * (x2 * y2)) + q * (y2 * y2)
  {
    var z := i * x2 + y2;
    LeftSquare(i, 1, x2, y2);
    assert d * ((x1 * y1 * z) * (x1 * y1 * z)) == d * (x1 * x1) * (y1 * y1) * (z * z);
    Spread(d * (x1 * x1) * (y1 * y1), i * i * (x2 * x2), i, x2 * y2, y2 * y2);
  }

  lemma CrossMonomial(d: int, x1: int, y1: int, x2: int, y2: int)
    ensures d * (x1 * x1) * (y1 * y1) * (x2 * y2) == (x1 * y1) * (d * x1 * x2 * y1 * y2)
  {}

  lemma SquareMonomial(d: int, x1: int, y1: int, x2: int, y2: int)
    ensures d * (x1 * x1) * (y1 * y1) * (d * (x2 * x2) * (y2 * y2)) == (d * x1 * x2 * y1 * y2) * (d * x1 * x2 * y1 * y2)
  {}

  lemma CombineTerms(i: int, e: int, q: int, k: int, a: int, b: int, c: int, g: int, w: int, r: int)
    requires q * r == k * k
    ensures (i * i * a + 2 * (i * e * w) + b) - (q * (i * i * c) + 2 * i * (w * k) + q * g)
         == (i * i + 1) * (a - q * c) + (b - a - 1 - q) - q * (g - c - 1 - r) + (1 - k * k) + 2 * i * w * (e - k)
  {}

  lemma TermInSquares(d: int, x: int, y: int)
    ensures Term(d, x, y) == y * y - x * x - 1 - d * (x * x) * (y * y)
  {}

  /** The polynomial behind completeness: every summand on the right vanishes when both points are
      on the curve, i*i is -1 and k is e. */
  lemma RatioIdentity(d: int, i: int, e: int, x1: int, y1: int, x2: int, y2: int, k: int, q: int)
    requires e * e == 1 && k == d * x1 * x2 * y1 * y2 && q == d * (x1 * x1) * (y1 * y1)
    ensures (i * x1 + e * y1) * (i * x1 + e * y1)
            - d * ((x1 * y1 * (i * x2 + y2)) * (x1 * y1 * (i * x2 + y2)))
         == (i * i + 1) * (x1 * x1 - q * (x2 * x2)) + Term(d, x1, y1) - q * Term(d, x2, y2)
            + (1 - k * k) + 2 * i * (x1 * y1) * (e - k)
  {
    LeftSquare(i, e, x1, y1);
    RightSquare(d, i, x1, y1, x2, y2);
    CrossMonomial(d, x1, y1, x2, y2);
    SquareMonomial(d, x1, y1, x2, y2);
    TermInSquares(d, x1, y1);
    TermInSquares(d, x2, y2);
    CombineTerms(i, e, q, k, x1 * x1, y1 * y1, x2 * x2, y2 * y2, x1 * y1, d * (x2 * x2) * (y2 * y2));
  }

  lemma ZeroTimes(a: int, b: int, m: int)
    requires m > 0 && Cong(a, 0, m)
    ensures Cong(a * b, 0, m) && Cong(b * a, 0, m)
  {
    Refl(b, m);
    CongMul(a, 0, b, b, m);
  }

  lemma SumOfZeros(a: int, b: int, c: int, g: int, h: int, m: int)
    requires m > 0 && Cong(a, 0, m) && Cong(b, 0, m) && Cong(c, 0, m) && Cong(g, 0, m) && Cong(h, 0, m)
    ensures Cong(a + b - c + g + h, 0, m)
  {
    CongAdd(a, 0, b, 0, m);
    CongAdd(a + b, 0, c, 0, m);
    CongAdd(a + b - c, 0, g, 0, m);
    CongAdd(a + b - c + g, 0, h, 0, m);
  }

  /** If k were e (1 or -1), two expressions would have squares in the ratio d. */
  lemma RatioOfSquares(d: int, i: int, e: int, x1: int, y1: int, x2: int, y2: int, m: int)
    requires m > 0 && (e == 1 || e == -1) && Cong(i * i, -1, m)
    requires Cong(Term(d, x1, y1), 0, m) && Cong(Term(d, x2, y2), 0, m) && Cong(d * x1 * x2 * y1 * y2, e, m)
    ensures Cong((i * x1 + e * y1) * (i * x1 + e * y1),
                 d * ((x1 * y1 * (i * x2 + y2)) * (x1 * y1 * (i * x2 + y2))), m)
  {
    var k, q := d * x1 * x2 * y1 * y2, d * (x1 * x1) * (y1 * y1);
    RatioIdentity(d, i, e, x1, y1, x2, y2, k, q);
    ZeroTimes(i * i + 1, x1 * x1 - q * (x2 * x2), m);
    ZeroTimes(Term(d, x2, y2), q, m);
    CongMul(k, e, k, e, m);
    CongSym(k * k, 1, m);
    CongSym(k, e, m);
    ZeroTimes(e - k, 2 * i * (x1 * y1), m);
    SumOfZeros((i * i + 1) * (x1 * x1 - q * (x2 * x2)), Term(d, x1, y1), q * Term(d, x2, y2),
               1 - k * k, 2 * i * (x1 * y1) * (e - k), m);
  }

  lemma NotZeroFactors(d: int, x1: int, y1: int, x2: int, y2: int, e: int, p: int)
    requires p > 2 && (e == 1 || e == -1) && Cong(d * x1 * x2 * y1 * y2, e, p)
    ensures !Divides(p, x1) && !Divides(p, y1) && !Divides(p, x2)
  {
    var k := d * x1 * x2 * y1 * y2;
    if Divides(p, x1) || Divides(p, y1) || Divides(p, x2) {
      if Divides(p, x1) { ZeroTimes(x1, d * x2 * y1 * y2, p); assert x1 * (d * x2 * y1 * y2) == k; }
      else if Divides(p, y1) { ZeroTimes(y1, d * x1 * x2 * y2, p); assert y1 * (d * x1 * x2 * y2) == k; }
      else { ZeroTimes(x2, d * x1 * y1 * y2, p); assert x2 * (d * x1 * y1 * y2) == k; }
      CongSym(k, e, p);
      CongTrans(e, k, 0, p);
      SmallNotDivisible(1, p);
      assert false;
    }
  }

  lemma NegateSecond(d: int, x1: int, y1: int, x2: int, y2: int)
    ensures Term(d, x2, -y2) == Term(d, x2, y2)
    ensures d * x1 * x2 * y1 * (-y2) == -(d * x1 * x2 * y1 * y2)
  {}

  /** Completeness: on the curve, with d not a square and -1 a square, d x1 x2 y1 y2 is neither 1
      nor -1. */
  lemma Completeness(d: int, i: int, e: int, x1: int, y1: int, x2: int, y2: int, p: int)
    requires IsPrime(p) && p > 2 && NonSquare(d, p) && Cong(i * i, -1, p) && (e == 1 || e == -1)
    requires Divides(p, Term(d, x1, y1)) && Divides(p, Term(d, x2, y2))
    ensures !Cong(d * x1 * x2 * y1 * y2, e, p)
  {
    if Cong(d * x1 * x2 * y1 * y2, e, p) {
      NotZeroFactors(d, x1, y1, x2, y2, e, p);
      NoRatio(d, i, e, x1, y1, x2, y2, p);
      NegateSecond(d, x1, y1, x2, y2);
      Negated(d * x1 * x2 * y1 * y2, e, p);
      NoRatio(d, i, -e, x1, y1, x2, -y2, p);
      // i x2 + y2 and i x2 - y2 both vanish, so 2 i x2 does
      CongAdd(i * x2 + y2, 0, i * x2 - y2, 0, p);
      assert (i * x2 + y2) + (i * x2 - y2) == (2 * i) * x2;
      Euclid(p, 2 * i, x2);
      Euclid(p, 2, i);
      SmallNotDivisible(2, p);
      ZeroTimes(i, i, p);
      CongSym(i * i, -1, p);
      CongTrans(-1, i * i, 0, p);
      SmallNotDivisible(1, p);
      assert false;
    }
  }

  lemma Negated(k: int, e: int, m: int)
    requires m > 0 && Cong(k, e, m)
    ensures Cong(-k, -e, m)
  {
    CongAdd(0, 0, k, e, m) by { Refl(0, m); }
  }

  lemma NoRatio(d: int, i: int, e: int, x1: int, y1: int, x2: int, y2: int, p: int)
    requires IsPrime(p) && p > 2 && NonSquare(d, p) && Cong(i * i, -1, p) && (e == 1 || e == -1)
    requires Divides(p, Term(d, x1, y1)) && Divides(p, Term(d, x2, y2))
    requires Cong(d * x1 * x2 * y1 * y2, e, p) && !Divides(p, x1) && !Divides(p, y1)
    ensures Divides(p, i * x2 + y2)
  {
    RatioOfSquares(d, i, e, x1, y1, x2, y2, p);
    var v := x1 * y1 * (i * x2 + y2);
    if !Divides(p, i * x2 + y2) {
      if Divides(p, v) {
        Euclid(p, x1 * y1, i * x2 + y2);
        Euclid(p, x1, y1);
      }
      SquareRatio(i * x1 + e * y1, v, d, p);
    }
  }

  // ----- closure -----

  lemma ProductOfSums(a: int, b: int, c: int, g: int)
    ensures (a * g + c * b) * (b * g + a * c)
         == (a * b) * (g * g) + (a * a) * (c * g) + (b * b) * (c * g) + (a * b) * (c * c)
  {}

  lemma SquaredDifference(a: int, b: int, c: int, g: int)
    ensures (b - a) * (b - a) * (c * g) == (b * b) * (c * g) - 2 * (a * b * c * g) + (a * a) * (c * g)
  {}

  /** The product of the sum's squared numerators, over the squares of the coordinates. */
  lemma NumeratorIdentity(a: int, b: int, c: int, g: int)
    ensures (a * g + c * b) * (b * g + a * c) - 4 * (a * b * c * g)
         == (b - a) * (b - a) * (c * g) + (g - c) * (g - c) * (a * b)
  {
    ProductOfSums(a, b, c, g);
    SquaredDifference(a, b, c, g);
    SquaredDifference(c, g, a, b);
    var p, q, r, s, t := (a * b) * (g * g), (a * a) * (c * g), (b * b) * (c * g), (a * b) * (c * c), a * b * c * g;
    assert c * g * a * b == t && (g * g) * (a * b) == p && (c * c) * (a * b) == s;
  }

  /** The term of the sum with its denominators cleared; xx and yy are the squared numerators. */
  function Cleared(d: int, k: int, xx: int, yy: int): int {
    -xx * ((1 - k) * (1 - k)) + yy * ((1 + k) * (1 + k)) - d * (xx * yy)
  }

  function Factors(u: int, v: int, p: int, r: int): int {
    (u - v * p) * (v - u * r)
  }

  lemma Expand(x: int, y: int, k: int)
    ensures -x * ((1 - k) * (1 - k)) + y * ((1 + k) * (1 + k)) == (y - x) * (1 + k * k) + 2 * (k * x) + 2 * (k * y)
  {}

  lemma ExpandProduct(d: int, m1: int, m2: int, s: int)
    ensures d * ((m1 + 2 * s) * (m2 + 2 * s)) == d * (m1 * m2) + 2 * (d * s * m1) + 2 * (d * s * m2) + 4 * (d * (s * s))
  {}

  lemma ExpandSum(d: int, m: int, s: int)
    ensures (d * s) * (m + 2 * s) == d * s * m + 2 * (d * (s * s))
  {}

  /** Clearing denominators in the term of the sum, with m1 = A^2 + B^2 and m2 = C^2 + E^2 for the
      four cross products and s their common product. */
  lemma ClearedTerm(d: int, m1: int, m2: int, s: int)
    ensures Cleared(d, d * s, m1 + 2 * s, m2 + 2 * s)
         == (m2 - m1) * (1 + (d * s) * (d * s)) - d * (m1 * m2 - 4 * (s * s))
  {
    Expand(m1 + 2 * s, m2 + 2 * s, d * s);
    ExpandProduct(d, m1, m2, s);
    ExpandSum(d, m1, s);
    ExpandSum(d, m2, s);
    assert d * (m1 * m2 - 4 * (s * s)) == d * (m1 * m2) - 4 * (d * (s * s));
  }

  lemma FactorsIdentity(u: int, v: int, p: int, r: int)
    ensures Factors(u, v, p, r) == u * v * (1 + p * r) - (u * u * r + v * v * p)
  {
    assert (u - v * p) * (v - u * r) == u * v - u * (u * r) - (v * p) * v + (v * p) * (u * r);
  }

  /** The cleared term of a sum splits into two factors, one for each point. */
  lemma SumIdentity(d: int, x1: int, y1: int, x2: int, y2: int, k: int, x: int, y: int)
    requires k == d * x1 * x2 * y1 * y2 && x == x1 * y2 + x2 * y1 && y == y1 * y2 + x1 * x2
    ensures Cleared(d, k, x * x, y * y)
         == Factors(y1 * y1 - x1 * x1, y2 * y2 - x2 * x2, d * ((x1 * x1) * (y1 * y1)), d * ((x2 * x2) * (y2 * y2)))
  {
    var s := x1 * x2 * y1 * y2;
    var a, b, c, g := x1 * x1, y1 * y1, x2 * x2, y2 * y2;
    assert k == d * s;
    NumeratorSquares(x1, y1, x2, y2, s, x, y);
    ProductSquared(x1, y1, x2, y2);
    SquaresNumerator(a, b, c, g, s);
    SquaresIdentity(d, b - a, g - c, a * b, c * g, a * g + c * b, b * g + a * c, s);
  }

  lemma NumeratorSquares(x1: int, y1: int, x2: int, y2: int, s: int, x: int, y: int)
    requires s == x1 * x2 * y1 * y2 && x == x1 * y2 + x2 * y1 && y == y1 * y2 + x1 * x2
    ensures x * x == (x1 * x1) * (y2 * y2) + (x2 * x2) * (y1 * y1) + 2 * s
    ensures y * y == (y1 * y1) * (y2 * y2) + (x1 * x1) * (x2 * x2) + 2 * s
  {
    SquareOfPair(x1, y2, x2, y1);
    SquareOfPair(y1, y2, x1, x2);
  }

  lemma ProductSquared(x1: int, y1: int, x2: int, y2: int)
    ensures (x1 * x2 * y1 * y2) * (x1 * x2 * y1 * y2) == (x1 * x1) * (y1 * y1) * ((x2 * x2) * (y2 * y2))
  {}

  lemma SquaresNumerator(a: int, b: int, c: int, g: int, s: int)
    requires s * s == a * b * (c * g)
    ensures (a * g + c * b) * (b * g + a * c) - 4 * (s * s)
         == (b - a) * (b - a) * (c * g) + (g - c) * (g - c) * (a * b)
    ensures (b - a) * (g - c) == (b * g + a * c) - (a * g + c * b)
  {
    NumeratorIdentity(a, b, c, g);
    assert a * b * c * g == a * b * (c * g);
  }

  lemma SquaresIdentity(d: int, u: int, v: int, p: int, r: int, m1: int, m2: int, s: int)
    requires s * s == p * r && u * v == m2 - m1 && m1 * m2 - 4 * (s * s) == u * u * r + v * v * p
    ensures Cleared(d, d * s, m1 + 2 * s, m2 + 2 * s) == Factors(u, v, d * p, d * r)
  {
    ClearedTerm(d, m1, m2, s);
    FactorsIdentity(u, v, d * p, d * r);
    Reorder(d, p, r, s);
    PullOut(d, u, v, p, r);
  }

  lemma SquareOfPair(a: int, b: int, c: int, e: int)
    ensures (a * b + c * e) * (a * b + c * e) == (a * a) * (b * b) + (c * c) * (e * e) + 2 * (a * b * c * e)
  {
    var s, t := a * b, c * e;
    assert (s + t) * (s + t) == s * s + 2 * (s * t) + t * t;
  }

  lemma Reorder(d: int, p: int, r: int, s: int)
    requires p * r == s * s
    ensures (d * p) * (d * r) == (d * s) * (d * s)
  {
    assert (d * p) * (d * r) == d * d * (p * r);
    assert (d * s) * (d * s) == d * d * (s * s);
  }

  lemma PullOut(d: int, u: int, v: int, p: int, r: int)
    ensures u * u * (d * r) + v * v * (d * p) == d * (u * u * r + v * v * p)
  {
    assert d * (u * u * r + v * v * p) == d * (u * u * r) + d * (v * v * p);
  }

  // ----- the sum lies on the curve -----

  /** Each factor of the cleared term is 1 - k^2 up to multiples of the two points' terms. */
  lemma FactorOnCurve(d: int, x1: int, y1: int, x2: int, y2: int, k: int, m: int)
    requires m > 0 && k == d * x1 * x2 * y1 * y2
    requires Cong(Term(d, x1, y1), 0, m) && Cong(Term(d, x2, y2), 0, m)
    ensures Cong((y1 * y1 - x1 * x1) - (y2 * y2 - x2 * x2) * (d * ((x1 * x1) * (y1 * y1))), 1 - k * k, m)
  {
    TermInSquares(d, x1, y1);
    TermInSquares(d, x2, y2);
    SquareMonomial(d, x1, y1, x2, y2);
    var t1, t2 := Term(d, x1, y1), Term(d, x2, y2);
    var q, r := d * (x1 * x1) * (y1 * y1), d * (x2 * x2) * (y2 * y2);
    assert q == d * ((x1 * x1) * (y1 * y1));
    FactorAsTerms(y1 * y1 - x1 * x1, y2 * y2 - x2 * x2, t1, t2, q, r, k);
    ZeroTimes(t2, q, m);
    CongAdd(t1, 0, t2 * q, 0, m);
  }

  lemma FactorAsTerms(u: int, v: int, t1: int, t2: int, q: int, r: int, k: int)
    requires t1 == u - 1 - q && t2 == v - 1 - r && q * r == k * k
    ensures u - v * q - (1 - k * k) == t1 - t2 * q
  {
    assert (v - 1 - r) * q == v * q - q - r * q;
  }

  /** The cleared term of the sum vanishes. */
  lemma ClearedTermVanishes(d: int, x1: int, y1: int, x2: int, y2: int, k: int, x: int, y: int, m: int)
    requires m > 0 && k == d * x1 * x2 * y1 * y2 && x == x1 * y2 + x2 * y1 && y == y1 * y2 + x1 * x2
    requires Cong(Term(d, x1, y1), 0, m) && Cong(Term(d, x2, y2), 0, m)
    ensures Cong(Cleared(d, k, x * x, y * y), ((1 + k) * (1 - k)) * ((1 + k) * (1 - k)), m)
  {
    SumIdentity(d, x1, y1, x2, y2, k, x, y);
    FactorOnCurve(d, x1, y1, x2, y2, k, m);
    assert k == d * x2 * x1 * y2 * y1;
    FactorOnCurve(d, x2, y2, x1, y1, k, m);
    CongMul((y1 * y1 - x1 * x1) - (y2 * y2 - x2 * x2) * (d * ((x1 * x1) * (y1 * y1))), 1 - k * k,
            (y2 * y2 - x2 * x2) - (y1 * y1 - x1 * x1) * (d * ((x2 * x2) * (y2 * y2))), 1 - k * k, m);
    assert (1 + k) * (1 - k) == 1 - k * k;
  }

  /** With f = v*w and g = u*z both 1, multiplying the term at (x*v, y*u) by (w*z)^2 clears it. */
  lemma TermOfQuotients(d: int, x: int, y: int, v: int, u: int, w: int, z: int, m: int)
    requires m > 0 && Cong(v * w, 1, m) && Cong(u * z, 1, m)
    ensures Cong(Term(d, x * v, y * u) * ((w * z) * (w * z)),
                 -(x * x) * (z * z) + (y * y) * (w * w) - (w * z) * (w * z) - d * ((x * x) * (y * y)), m)
  {
    var f, g := (v * w) * (v * w), (u * z) * (u * z);
    CongMul(v * w, 1, v * w, 1, m);
    CongMul(u * z, 1, u * z, 1, m);
    CongMul(f, 1, g, 1, m);
    TermInSquares(d, x * v, y * u);
    QuotientMonomials(d, x, y, v, u, w, z);
    var a, b, c := (x * x) * (z * z), (y * y) * (w * w), d * ((x * x) * (y * y));
    Refl(a, m); Refl(b, m); Refl(c, m); Refl((w * z) * (w * z), m);
    CongMul(a, a, f, 1, m);
    CongMul(b, b, g, 1, m);
    CongMul(c, c, f * g, 1, m);
    CongAdd(b * g, b, a * f, a, m);
    CongAdd(b * g - a * f, b - a, (w * z) * (w * z), (w * z) * (w * z), m);
    CongAdd(b * g - a * f - (w * z) * (w * z), b - a - (w * z) * (w * z), c * (f * g), c, m);
    assert -(x * x) * (z * z) == -a;
  }

  lemma QuotientMonomials(d: int, x: int, y: int, v: int, u: int, w: int, z: int)
    ensures
      var f, g := (v * w) * (v * w), (u * z) * (u * z);
      ((y * u) * (y * u) - (x * v) * (x * v) - 1 - d * ((x * v) * (x * v)) * ((y * u) * (y * u))) * ((w * z) * (w * z))
      == ((y * y) * (w * w)) * g - ((x * x) * (z * z)) * f - (w * z) * (w * z) - (d * ((x * x) * (y * y))) * (f * g)
  {
    var s := (w * z) * (w * z);
    FirstMonomial(y, u, w, z);
    FirstMonomial(x, v, z, w);
    LastMonomial(d, x, y, v, u, w, z);
    var p, q, r := (y * u) * (y * u), (x * v) * (x * v), d * ((x * v) * (x * v)) * ((y * u) * (y * u));
    assert (p - q - 1 - r) * s == p * s - q * s - s - r * s;
    assert (z * w) * (z * w) == s;
  }

  lemma FirstMonomial(y: int, u: int, w: int, z: int)
    ensures (y * u) * (y * u) * ((w * z) * (w * z)) == ((y * y) * (w * w)) * ((u * z) * (u * z))
  {}

  lemma LastMonomial(d: int, x: int, y: int, v: int, u: int, w: int, z: int)
    ensures d * ((x * v) * (x * v)) * ((y * u) * (y * u)) * ((w * z) * (w * z))
         == (d * ((x * x) * (y * y))) * (((v * w) * (v * w)) * ((u * z) * (u * z)))
  {
    Grouping(x, v);
    Grouping(y, u);
    Grouping(w, z);
    Grouping(v, w);
    Grouping(u, z);
    SixFactors(d, x * x, v * v, y * y, u * u, w * w, z * z);
  }

  lemma SixFactors(d: int, a: int, b: int, c: int, e: int, f: int, g: int)
    ensures d * (a * b) * (c * e) * (f * g) == (d * (a * c)) * ((b * f) * (e * g))
  {}

  /** Closure: if v inverts 1 + k and u inverts 1 - k, the sum (x*v, y*u) is on the curve. */
  lemma Closure(d: int, x1: int, y1: int, x2: int, y2: int, k: int, v: int, u: int, p: int)
    requires IsPrime(p) && k == d * x1 * x2 * y1 * y2
    requires Divides(p, Term(d, x1, y1)) && Divides(p, Term(d, x2, y2))
    requires Cong((1 + k) * v, 1, p) && Cong((1 - k) * u, 1, p)
    requires !Divides(p, 1 + k) && !Divides(p, 1 - k)
    ensures Divides(p, Term(d, (x1 * y2 + x2 * y1) * v, (y1 * y2 + x1 * x2) * u))
  {
    var x, y, w, z := x1 * y2 + x2 * y1, y1 * y2 + x1 * x2, 1 + k, 1 - k;
    var t, s := Term(d, x * v, y * u), (w * z) * (w * z);
    assert w * v == v * w && z * u == u * z;
    TermOfQuotients(d, x, y, v, u, w, z, p);
    ClearedTermVanishes(d, x1, y1, x2, y2, k, x, y, p);
    var c := Cleared(d, k, x * x, y * y);
    Refl(s, p);
    CongAdd(c, s, s, s, p);
    CongTrans(t * s, c - s, 0, p);
    if !Divides(p, t) {
      Euclid(p, t, s);
      Euclid(p, w * z, w * z);
      Euclid(p, w, z);
    }
  }

  lemma TermOfCongruent(d: int, x: int, y: int, u: int, v: int, m: int)
    requires m > 0 && Cong(x, u, m) && Cong(y, v, m)
    ensures Cong(Term(d, x, y), Term(d, u, v), m)
  {
    CongMul(x, u, x, u, m);
    CongMul(y, v, y, v, m);
    Refl(d, m);
    Refl(1, m);
    CongMul(d, d, x * x, u * u, m);
    CongMul(d * (x * x), d * (u * u), y * y, v * v, m);
    TermInSquares(d, x, y);
    TermInSquares(d, u, v);
    CongAdd(y * y, v * v, x * x, u * u, m);
    CongAdd(y * y - x * x, v * v - u * u, 1, 1, m);
    CongAdd(y * y - x * x - 1, v * v - u * u - 1, d * (x * x) * (y * y), d * (u * u) * (v * v), m);
  }

  /** Reducing the coordinates of a curve point leaves it on the curve. */
  lemma TermOfResidues(d: int, x: int, y: int, m: int)
    requires m > 0 && Divides(m, Term(d, x, y))
    ensures Divides(m, Term(d, x % m, y % m))
  {
    CongMod(x, m);
    CongMod(y, m);
    TermOfCongruent(d, x % m, y % m, x, y, m);
    CongTrans(Term(d, x % m, y % m), Term(d, x, y), 0, m);
  }

  // ----- sums of residues and of opposite points -----

  /** The numerators and denominators of a sum only depend on residues. */
  lemma SumOfCongruent(d: int, x1: int, y1: int, x2: int, y2: int, u1: int, v1: int, u2: int, v2: int, m: int)
    requires m > 0 && Cong(x1, u1, m) && Cong(y1, v1, m) && Cong(x2, u2, m) && Cong(y2, v2, m)
    ensures Cong(x1 * y2 + x2 * y1, u1 * v2 + u2 * v1, m)
    ensures Cong(y1 * y2 + x1 * x2, v1 * v2 + u1 * u2, m)
    ensures Cong(1 + d * x1 * x2 * y1 * y2, 1 + d * u1 * u2 * v1 * v2, m)
    ensures Cong(1 - d * x1 * x2 * y1 * y2, 1 - d * u1 * u2 * v1 * v2, m)
  {
    CongMul(x1, u1, y2, v2, m);
    CongMul(x2, u2, y1, v1, m);
    CongAdd(x1 * y2, u1 * v2, x2 * y1, u2 * v1, m);
    CongMul(y1, v1, y2, v2, m);
    CongMul(x1, u1, x2, u2, m);
    CongAdd(y1 * y2, v1 * v2, x1 * x2, u1 * u2, m);
    Refl(d, m);
    Refl(1, m);
    CongMul(d, d, x1, u1, m);
    CongMul(d * x1, d * u1, x2, u2, m);
    CongMul(d * x1 * x2, d * u1 * u2, y1, v1, m);
    CongMul(d * x1 * x2 * y1, d * u1 * u2 * v1, y2, v2, m);
    CongAdd(1, 1, d * x1 * x2 * y1 * y2, d * u1 * u2 * v1 * v2, m);
  }

  /** A curve point and its mirror image sum to (0, 1): the first numerator vanishes and the second
      equals its denominator. */
  lemma MirrorSum(d: int, x: int, y: int, n: int, m: int)
    requires m > 0 && Cong(n, -x, m) && Divides(m, Term(d, x, y))
    ensures Cong(0, n * y + x * y, m)
    ensures Cong(1 - d * n * x * y * y, y * y + n * x, m)
  {
    Refl(x, m);
    Refl(y, m);
    Refl(d, m);
    SumOfCongruent(d, n, y, x, y, -x, y, x, y, m);
    MirrorIdentity(d, x, y);
    CongSym(n * y + x * y, 0, m);
    CongSym(y * y + n * x, y * y + -x * x, m);
    CongTrans(1 - d * n * x * y * y, 1 - d * (-x) * x * y * y, y * y + -x * x, m) by {
      CongSym(y * y + -x * x, 1 - d * (-x) * x * y * y, m);
    }
    CongTrans(1 - d * n * x * y * y, y * y + -x * x, y * y + n * x, m);
  }

  lemma MirrorIdentity(d: int, x: int, y: int)
    ensures -x * y + x * y == 0
    ensures (y * y + -x * x) - (1 - d * (-x) * x * y * y) == Term(d, x, y)
  {
    assert d * (-x) * x * y * y == -(d * x * x * y * y);
  }
}
