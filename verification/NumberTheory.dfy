/** Powers, divisibility and congruences: Euclid's lemma and Fermat's little theorem, from which
    the inversion and square-root steps of the curve arithmetic are derived. */
module NumberTheory {

  function Pow(b: int, e: nat): int {
    if e == 0 then 1 else b * Pow(b, e - 1)
  }

  predicate Leaves(n: int, m: int, r: int)
    requires m > 0
  {
    r == n % m
  }

  /** n leaves no remainder on division by m. The quantifier keeps the solver from dividing large
      polynomials by large constants of its own accord; DividesMod is asked for where it matters. */
  ghost predicate Divides(m: int, n: int)
    requires m > 0
  {
    forall r :: Leaves(n, m, r) ==> r == 0
  }

  ghost predicate IsPrime(p: int) {
    p >= 2 && forall m :: 1 < m < p ==> !Divides(m, p)
  }

  /** a and b leave the same remainder modulo m. */
  ghost predicate Cong(a: int, b: int, m: int)
    requires m > 0
  {
    Divides(m, a - b)
  }

  // ----- division with remainder -----

  lemma DivModUnique(a: int, m: int, k: int, r: int)
    requires m > 0 && 0 <= r < m && a == k * m + r
    ensures a / m == k && a % m == r
  {
    var k' := a / m;
    assert (k' - k) * m == m * k' - k * m;
    if k' > k {
      MulAtLeast(k' - k, m);
    } else if k' < k {
      MulAtLeast(k - k', m);
      assert false;
    }
  }

  lemma DividesMod(m: int, n: int)
    requires m > 0
    ensures Divides(m, n) <==> n % m == 0
  {
    assert Leaves(n, m, n % m);
  }

  lemma SmallNotDivisible(n: int, m: int)
    requires 0 < n < m
    ensures !Divides(m, n) && !Divides(m, -n)
  {
    DivModUnique(n, m, 0, n);
    DivModUnique(-n, m, -1, m - n);
    DividesMod(m, n);
    DividesMod(m, -n);
  }

  lemma MulAtLeast(k: int, m: int)
    requires k >= 1 && m > 0
    ensures k * m >= m
  {}

  lemma MultipleDivides(k: int, m: int)
    requires m > 0
    ensures Divides(m, k * m)
  {
    DivModUnique(k * m, m, k, 0);
    DividesMod(m, k * m);
  }

  lemma CongFromWitness(a: int, b: int, m: int, k: int)
    requires m > 0 && a == b + k * m
    ensures Cong(a, b, m)
  {
    MultipleDivides(k, m);
  }

  lemma CongWitness(a: int, b: int, m: int) returns (k: int)
    requires m > 0 && Cong(a, b, m)
    ensures a == b + k * m
  {
    DividesMod(m, a - b);
    k := (a - b) / m;
  }

  lemma CongIffSameMod(a: int, b: int, m: int)
    requires m > 0
    ensures Cong(a, b, m) <==> a % m == b % m
  {
    if Cong(a, b, m) {
      var k := CongWitness(a, b, m);
      assert a == (b / m + k) * m + b % m;
      DivModUnique(a, m, b / m + k, b % m);
    }
    if a % m == b % m {
      assert a == b + (a / m - b / m) * m;
      CongFromWitness(a, b, m, a / m - b / m);
    }
  }

  lemma CongMod(a: int, m: int)
    requires m > 0
    ensures Cong(a % m, a, m) && Cong(a, a % m, m)
  {
    assert a % m == a + (-(a / m)) * m;
    CongFromWitness(a % m, a, m, -(a / m));
    CongFromWitness(a, a % m, m, a / m);
  }

  lemma CongSym(a: int, b: int, m: int)
    requires m > 0 && Cong(a, b, m)
    ensures Cong(b, a, m)
  {
    var k := CongWitness(a, b, m);
    CongFromWitness(b, a, m, -k);
  }

  lemma CongTrans(a: int, b: int, c: int, m: int)
    requires m > 0 && Cong(a, b, m) && Cong(b, c, m)
    ensures Cong(a, c, m)
  {
    var k := CongWitness(a, b, m);
    var l := CongWitness(b, c, m);
    assert a == c + (k + l) * m;
    CongFromWitness(a, c, m, k + l);
  }

  lemma CongAdd(a: int, b: int, c: int, d: int, m: int)
    requires m > 0 && Cong(a, b, m) && Cong(c, d, m)
    ensures Cong(a + c, b + d, m) && Cong(a - c, b - d, m)
  {
    var k := CongWitness(a, b, m);
    var l := CongWitness(c, d, m);
    assert a + c == b + d + (k + l) * m && a - c == b - d + (k - l) * m;
    CongFromWitness(a + c, b + d, m, k + l);
    CongFromWitness(a - c, b - d, m, k - l);
  }

  lemma CongMul(a: int, b: int, c: int, d: int, m: int)
    requires m > 0 && Cong(a, b, m) && Cong(c, d, m)
    ensures Cong(a * c, b * d, m)
  {
    var k := CongWitness(a, b, m);
    var l := CongWitness(c, d, m);
    var w := b * l + d * k + k * l * m;
    assert a * c == b * d + w * m by {
      assert a * c == (b + k * m) * (d + l * m);
      assert (b + k * m) * (d + l * m) == b * d + b * (l * m) + (k * m) * d + (k * m) * (l * m);
      assert b * (l * m) == b * l * m && (k * m) * d == d * k * m && (k * m) * (l * m) == k * l * m * m;
      assert w * m == b * l * m + d * k * m + k * l * m * m;
    }
    CongFromWitness(a * c, b * d, m, w);
  }

  lemma {:induction false} CongPow(a: int, b: int, e: nat, m: int)
    requires m > 0 && Cong(a, b, m)
    ensures Cong(Pow(a, e), Pow(b, e), m)
  {
    if e == 0 {
      CongFromWitness(1, 1, m, 0);
    } else {
      CongPow(a, b, e - 1, m);
      CongMul(a, b, Pow(a, e - 1), Pow(b, e - 1), m);
    }
  }

  // ----- powers -----

  lemma PowAdd(b: int, e: nat, f: nat)
    ensures Pow(b, e + f) == Pow(b, e) * Pow(b, f)
  {
    if e != 0 {
      PowAdd(b, e - 1, f);
      assert b * (Pow(b, e - 1) * Pow(b, f)) == b * Pow(b, e - 1) * Pow(b, f);
    }
  }

  lemma {:induction false} PowMul(b: int, e: nat, f: nat)
    ensures e * f >= 0 && Pow(b, e * f) == Pow(Pow(b, e), f)
  {
    if f == 0 {
      assert e * f == 0;
    } else {
      PowMul(b, e, f - 1);
      assert e * f == e + e * (f - 1);
      PowAdd(b, e, e * (f - 1));
    }
  }

  lemma Regroup(a: int, b: int, x: int, y: int)
    ensures a * b * (x * y) == (a * x) * (b * y)
  {
    calc {
      a * b * (x * y);
      a * (b * (x * y));
      { assert b * (x * y) == x * (b * y); }
      a * (x * (b * y));
      (a * x) * (b * y);
    }
  }

  lemma {:induction false} PowOfProduct(a: int, b: int, e: nat)
    ensures Pow(a * b, e) == Pow(a, e) * Pow(b, e)
  {
    if e != 0 {
      PowOfProduct(a, b, e - 1);
      Regroup(a, b, Pow(a, e - 1), Pow(b, e - 1));
    }
  }

  lemma {:induction false} PowOne(e: nat)
    ensures Pow(1, e) == 1
  {
    if e != 0 { PowOne(e - 1); }
  }

  lemma {:induction false} PowZero(e: nat)
    requires e > 0
    ensures Pow(0, e) == 0
  {}

  // ----- primes -----

  /** Euclid's lemma for a factor already reduced below p: descend through p % x. */
  lemma {:induction false} EuclidReduced(p: int, x: int, b: int)
    requires IsPrime(p) && 0 < x < p && Divides(p, x * b)
    ensures Divides(p, b)
    decreases x
  {
    if x > 1 {
      DividesMod(x, p);
      DividesMod(p, x * b);
      var r, k := p % x, x * b / p;
      assert x * b == k * p;
      var w := b - (p / x) * k;
      assert r * b == w * p by {
        assert r == p - (p / x) * x;
        assert r * b == p * b - (p / x) * x * b;
        assert (p / x) * x * b == (p / x) * (x * b) == (p / x) * (k * p);
        assert (p / x) * (k * p) == (p / x) * k * p;
      }
      MultipleDivides(w, p);
      EuclidReduced(p, r, b);
    }
  }

  /** A prime dividing a product divides one of the factors. */
  lemma Euclid(p: int, a: int, b: int)
    requires IsPrime(p) && Divides(p, a * b)
    ensures Divides(p, a) || Divides(p, b)
  {
    if !Divides(p, a) {
      DividesMod(p, a);
      DividesMod(p, a * b);
      DividesMod(p, a % p * b);
      CongMod(a, p);
      CongFromWitness(b, b, p, 0);
      CongMul(a % p, a, b, b, p);
      CongIffSameMod(a % p * b, a * b, p);
      EuclidReduced(p, a % p, b);
    }
  }

  lemma CancelFactor(a: int, b: int, c: int, p: int)
    requires IsPrime(p) && !Divides(p, c) && Cong(a * c, b * c, p)
    ensures Cong(a, b, p)
  {
    assert a * c - b * c == (a - b) * c;
    Euclid(p, a - b, c);
  }

  // ----- Fermat's little theorem -----

  /** The product of the members of s that lie in 1..n. */
  ghost function Product(s: set<int>, n: nat): int {
    if n == 0 then 1 else (if n in s then n else 1) * Product(s, n - 1)
  }

  lemma {:induction false} ProductSplit(s: set<int>, n: nat, x: int)
    requires x !in s && x > 0
    ensures Product(s + {x}, n) == if x <= n then x * Product(s, n) else Product(s, n)
  {
    if n > 0 {
      ProductSplit(s, n - 1, x);
      if n in s && x <= n { SwapFactors(n, x, Product(s, n - 1)); }
    }
  }

  lemma {:induction false} ProductOfNone(n: nat)
    ensures Product({}, n) == 1
  {
    if n > 0 { ProductOfNone(n - 1); }
  }

  lemma SwapFactors(a: int, b: int, r: int)
    ensures a * (b * r) == b * (a * r)
  {}

  /** The residues of a, 2a, .., na modulo p. */
  ghost function Residues(a: int, n: nat, p: int): set<int>
    requires p > 0
  {
    if n == 0 then {} else Residues(a, n - 1, p) + {n * a % p}
  }

  function Factorial(n: nat): int {
    if n == 0 then 1 else n * Factorial(n - 1)
  }

  lemma ResiduesMember(a: int, n: nat, p: int, v: int) returns (i: int)
    requires p > 0 && v in Residues(a, n, p)
    ensures 1 <= i <= n && v == i * a % p
  {
    if v == n * a % p {
      i := n;
    } else {
      i := ResiduesMember(a, n - 1, p, v);
    }
  }

  /** The next residue is neither zero nor an earlier one. */
  lemma NewResidue(a: int, n: nat, p: int)
    requires IsPrime(p) && !Divides(p, a) && 0 < n < p
    ensures 0 < n * a % p < p && n * a % p !in Residues(a, n - 1, p)
  {
    var v := n * a % p;
    if v == 0 {
      DividesMod(p, n * a);
      Euclid(p, n, a);
      SmallNotDivisible(n, p);
      assert false;
    }
    if v in Residues(a, n - 1, p) {
      var i := ResiduesMember(a, n - 1, p, v);
      SameResidueSameFactor(a, n, i, p);
      assert false;
    }
  }

  lemma SameResidueSameFactor(a: int, n: int, i: int, p: int)
    requires IsPrime(p) && !Divides(p, a) && 0 < i < n < p
    ensures n * a % p != i * a % p
  {
    if n * a % p == i * a % p {
      CongIffSameMod(n * a, i * a, p);
      CancelFactor(n, i, a, p);
      SmallNotDivisible(n - i, p);
      assert false;
    }
  }

  lemma ResidueTimesProduct(a: int, n: nat, q: int, p: int)
    requires p > 0 && n > 0 && Cong(q, Pow(a, n - 1) * Factorial(n - 1), p)
    ensures Cong(n * a % p * q, Pow(a, n) * Factorial(n), p)
  {
    CongMod(n * a, p);
    CongMul(n * a % p, n * a, q, Pow(a, n - 1) * Factorial(n - 1), p);
    assert n * a == a * n;
    Regroup(a, n, Pow(a, n - 1), Factorial(n - 1));
  }

  lemma {:induction false} ResiduesProduct(a: int, n: nat, p: int)
    requires IsPrime(p) && !Divides(p, a) && n < p
    ensures |Residues(a, n, p)| == n
    ensures forall v :: v in Residues(a, n, p) ==> 0 < v < p
    ensures Cong(Product(Residues(a, n, p), p - 1), Pow(a, n) * Factorial(n), p)
  {
    if n == 0 {
      ProductOfNone(p - 1);
      CongFromWitness(1, 1, p, 0);
    } else {
      var s, v := Residues(a, n - 1, p), n * a % p;
      ResiduesProduct(a, n - 1, p);
      NewResidue(a, n, p);
      ProductSplit(s, p - 1, v);
      ResidueTimesProduct(a, n, Product(s, p - 1), p);
    }
  }

  lemma {:induction false} FactorialNotDivisible(n: nat, p: int)
    requires IsPrime(p) && n < p
    ensures !Divides(p, Factorial(n))
  {
    if n == 0 {
      SmallNotDivisible(1, p);
    } else {
      FactorialNotDivisible(n - 1, p);
      SmallNotDivisible(n, p);
      if Divides(p, Factorial(n)) { Euclid(p, n, Factorial(n - 1)); }
    }
  }

  lemma SubsetOfSameSize(a: set<int>, b: set<int>)
    requires a <= b && |a| == |b|
    ensures a == b
  {
    assert b == a + (b - a);
    assert |b| == |a| + |b - a|;
  }

  /** a^(p-1) leaves remainder 1 when the prime p does not divide a. */
  lemma {:induction false} Fermat(a: int, p: int)
    requires IsPrime(p) && !Divides(p, a)
    ensures Cong(Pow(a, p - 1), 1, p)
  {
    var n := p - 1;
    SmallNotDivisible(1, p);
    ResiduesProduct(a, n, p);
    ResiduesProduct(1, n, p);
    var all := Residues(1, n, p);
    forall v | v in Residues(a, n, p)
      ensures v in all
    {
      assert 0 < v <= n;
      ResiduesOfOne(n, p);
    }
    SubsetOfSameSize(Residues(a, n, p), all);
    PowOne(n);
    FactorialNotDivisible(n, p);
    CongCancel(Pow(a, n), Product(all, n), Factorial(n), p);
  }

  lemma CongCancel(x: int, y: int, f: int, p: int)
    requires IsPrime(p) && !Divides(p, f) && Cong(y, x * f, p) && Cong(y, 1 * f, p)
    ensures Cong(x, 1, p)
  {
    CongSym(y, x * f, p);
    CongTrans(x * f, y, 1 * f, p);
    CancelFactor(x, 1, f, p);
  }

  lemma {:induction false} ResiduesOfOne(n: nat, p: int)
    requires 0 <= n < p
    ensures forall v :: 0 < v <= n ==> v in Residues(1, n, p)
  {
    if n > 0 {
      ResiduesOfOne(n - 1, p);
      DivModUnique(n, p, 0, n);
    }
  }

  /** A square that is 1 modulo a prime has only the two roots 1 and -1. */
  lemma RootsOfUnity(x: int, p: int)
    requires IsPrime(p) && Cong(x * x, 1, p)
    ensures Cong(x, 1, p) || Cong(x, -1, p)
  {
    assert x * x - 1 == (x - 1) * (x + 1);
    Euclid(p, x - 1, x + 1);
  }

  // ----- inverses and square roots modulo a prime -----

  function ModPow(b: int, e: nat, m: int): (r: int)
    requires m > 0
    ensures 0 <= r < m
  {
    Pow(b, e) % m
  }

  /** x^(p-2) inverts every x that p does not divide, and sends the others to 0. */
  lemma FermatInverse(x: int, p: int)
    requires IsPrime(p) && p > 2
    ensures !Divides(p, x) ==> Cong(x * ModPow(x, p - 2, p), 1, p)
    ensures Divides(p, x) ==> ModPow(x, p - 2, p) == 0
  {
    if Divides(p, x) {
      CongPow(x, 0, p - 2, p);
      PowZero(p - 2);
      DividesMod(p, Pow(x, p - 2));
    } else {
      Fermat(x, p);
      CongMod(Pow(x, p - 2), p);
      CongFromWitness(x, x, p, 0);
      CongMul(x, x, ModPow(x, p - 2, p), Pow(x, p - 2), p);
      CongTrans(x * ModPow(x, p - 2, p), Pow(x, p - 1), 1, p);
    }
  }

  /** A quotient a/b computed with the inverse of b is the v with v*b = a. */
  lemma QuotientValue(a: int, b: int, v: int, p: int)
    requires IsPrime(p) && p > 2 && !Divides(p, b) && Cong(v * b, a, p)
    ensures Cong(a * ModPow(b, p - 2, p), v, p)
  {
    var w := ModPow(b, p - 2, p);
    FermatInverse(b, p);
    CongFromWitness(w, w, p, 0);
    CongFromWitness(v, v, p, 0);
    CongMul(v * b, a, w, w, p);
    CongSym(v * b * w, a * w, p);
    assert v * b * w == v * (b * w);
    CongMul(v, v, b * w, 1, p);
    CongTrans(a * w, v * (b * w), v, p);
  }

  /** With v an inverse of w, n v reduced is the one reduced solution of r w = n. */
  lemma QuotientUnique(r: nat, n: int, w: int, v: int, p: int)
    requires p > 0 && r < p && Cong(w * v, 1, p)
    ensures r == n * v % p <==> Cong(r * w, n, p)
  {
    CongMod(n * v, p);
    CongFromWitness(n, n, p, 0);
    CongFromWitness(r, r, p, 0);
    CongFromWitness(v, v, p, 0);
    CongFromWitness(w, w, p, 0);
    CongMul(n, n, w * v, 1, p);
    CongMul(r, r, w * v, 1, p);
    Reorder(n, v, w);
    Reorder(r, v, w);
    if r == n * v % p {
      CongMul(r, n * v, w, w, p);
      CongTrans(r * w, n * v * w, n, p);
    }
    if Cong(r * w, n, p) {
      CongMul(r * w, n, v, v, p);
      CongSym(r * w * v, r, p);
      CongTrans(r, r * w * v, n * v, p);
      CongIffSameMod(r, n * v, p);
      DivModUnique(r, p, 0, r);
    }
  }

  lemma Reorder(a: int, v: int, w: int)
    ensures a * (w * v) == a * v * w == a * w * v
  {}

  /** Multiplying by a power and reducing only depends on residues. */
  lemma SameQuotient(n: int, n': int, w: int, w': int, e: nat, p: int)
    requires p > 0 && Cong(n, n', p) && Cong(w, w', p)
    ensures n * ModPow(w, e, p) % p == n' * ModPow(w', e, p) % p
  {
    var v := ModPow(w, e, p);
    CongPow(w, w', e, p);
    CongIffSameMod(Pow(w, e), Pow(w', e), p);
    CongFromWitness(v, v, p, 0);
    CongMul(n, n', v, v, p);
    CongIffSameMod(n * v, n' * v, p);
  }

  /** For p = 8m + 5, the candidate u^(m+1) squares to u or to -u whenever u is a square. */
  lemma RootCandidate(u: int, z: int, p: int, m: nat)
    requires IsPrime(p) && p == 8 * m + 5 && Cong(u, z * z, p)
    ensures Cong(Pow(u, m + 1) * Pow(u, m + 1), u, p) || Cong(Pow(u, m + 1) * Pow(u, m + 1), -u, p)
  {
    var w := Pow(u, 2 * m + 1);
    PowAdd(u, m + 1, m + 1);
    assert Pow(u, m + 1) * Pow(u, m + 1) == u * w;
    CongFromWitness(u, u, p, 0);
    if Divides(p, u) {
      CongMul(u, 0, w, w, p) by { CongFromWitness(w, w, p, 0); }
      CongSym(u, 0, p);
      CongTrans(u * w, 0, u, p);
    } else {
      EulerSign(u, z, p, m);
      if Cong(w, 1, p) {
        CongMul(u, u, w, 1, p);
      } else {
        CongMul(u, u, w, -1, p);
      }
    }
  }

  lemma EulerSign(u: int, z: int, p: int, m: nat)
    requires IsPrime(p) && p == 8 * m + 5 && Cong(u, z * z, p) && !Divides(p, u)
    ensures Cong(Pow(u, 2 * m + 1), 1, p) || Cong(Pow(u, 2 * m + 1), -1, p)
  {
    var w := Pow(u, 2 * m + 1);
    PowAdd(u, 2 * m + 1, 2 * m + 1);
    if Divides(p, z) {
      CongFromWitness(z, z, p, 0);
      CongMul(z, 0, z, z, p);
      CongTrans(u, z * z, 0, p);
      assert false;
    }
    Fermat(z, p);
    CongPow(u, z * z, 4 * m + 2, p);
    PowOfProduct(z, z, 4 * m + 2);
    PowAdd(z, 4 * m + 2, 4 * m + 2);
    CongTrans(w * w, Pow(z, p - 1), 1, p);
    RootsOfUnity(w, p);
  }

  /** For p = 8m + 5 with i a root of -1: the element 2^(2m+1) is itself a root of -1. */
  lemma {:induction false} TwoGivesRootOfMinusOne(i: int, p: int, m: nat)
    requires IsPrime(p) && p == 8 * m + 5 && Cong(i * i, -1, p)
    ensures Cong(Pow(2, 2 * m + 1) * Pow(2, 2 * m + 1), -1, p)
  {
    var h := 4 * m + 2;
    var s, t := Pow(2, h), Pow(i, h);
    // (1 + i)^2 = 2i, so 2^h i^h = (1 + i)^(p-1) = 1
    assert Cong((1 + i) * (1 + i), 2 * i, p) by {
      CongFromWitness(1 + 2 * i, 1 + 2 * i, p, 0);
      CongAdd(1 + 2 * i, 1 + 2 * i, i * i, -1, p);
      assert (1 + i) * (1 + i) == 1 + 2 * i + i * i;
    }
    if Divides(p, 1 + i) { OnePlusRootNotZero(i, p); assert false; }
    Fermat(1 + i, p);
    CongPow((1 + i) * (1 + i), 2 * i, h, p);
    PowOfProduct(1 + i, 1 + i, h);
    PowAdd(1 + i, h, h);
    PowOfProduct(2, i, h);
    CongSym(Pow((1 + i) * (1 + i), h), s * t, p);
    CongTrans(s * t, Pow(1 + i, p - 1), 1, p);
    // i^h = (-1)^(2m+1) = -1
    PowAdd(i, 2 * m + 1, 2 * m + 1);
    PowOfProduct(i, i, 2 * m + 1);
    CongPow(i * i, -1, 2 * m + 1, p);
    MinusOneOdd(m);
    CongFromWitness(s, s, p, 0);
    CongMul(s, s, t, -1, p);
    CongSym(s * t, s * -1, p);
    CongTrans(s * -1, s * t, 1, p);
    CongFromWitness(-1, -1, p, 0);
    CongMul(s * -1, 1, -1, -1, p);
    PowAdd(2, 2 * m + 1, 2 * m + 1);
  }

  lemma {:induction false} MinusOneOdd(m: nat)
    ensures Pow(-1, 2 * m + 1) == -1
  {
    if m > 0 {
      MinusOneOdd(m - 1);
      assert Pow(-1, 2 * m + 1) == -1 * (-1 * Pow(-1, 2 * m - 1));
    }
  }

  lemma OnePlusRootNotZero(i: int, p: int)
    requires p > 2 && Cong(i * i, -1, p)
    ensures !Divides(p, 1 + i)
  {
    if Divides(p, 1 + i) {
      CongFromWitness(1 - i, 1 - i, p, 0);
      CongMul(1 + i, 0, 1 - i, 1 - i, p);
      assert (1 + i) * (1 - i) == 1 - i * i;
      CongAdd(1 - i * i, 0, i * i, -1, p);
      SmallNotDivisible(2, p);
      assert false;
    }
  }

  /** Correcting a root of -u by a root of -1 gives a root of u. */
  lemma CorrectedRoot(x: int, i: int, u: int, p: int)
    requires p > 0 && Cong(x * x, -u, p) && Cong(i * i, -1, p)
    ensures Cong((x * i % p) * (x * i % p), u, p)
  {
    var r := x * i;
    CongMod(r, p);
    CongMul(r % p, r, r % p, r, p);
    assert r * r == (x * x) * (i * i);
    CongMul(x * x, -u, i * i, -1, p);
    CongTrans((r % p) * (r % p), r * r, u, p);
  }

  /** Two numbers with the same square agree up to sign. */
  lemma SameSquare(a: int, b: int, p: int)
    requires IsPrime(p) && Cong(a * a, b * b, p)
    ensures Cong(a, b, p) || Cong(a, -b, p)
  {
    assert a * a - b * b == (a - b) * (a + b);
    Euclid(p, a - b, a + b);
  }
}
