/** Repeated application of an associative operation, and the double-and-add form of it. */
module Repetition {

  ghost predicate Agrees<T>(op: (T, T) -> T, ok: T -> bool, a: T, b: T) {
    ok(op(a, b)) && op(a, b) == op(b, a)
  }

  ghost predicate Associates<T>(op: (T, T) -> T, a: T, b: T, c: T) {
    op(op(a, b), c) == op(a, op(b, c))
  }

  ghost predicate Absorbs<T>(op: (T, T) -> T, e: T, a: T) {
    op(e, a) == a
  }

  /** On the elements satisfying ok, op is closed, commutative and associative, with e neutral. */
  ghost predicate Monoid<T(!new)>(op: (T, T) -> T, e: T, ok: T -> bool) {
    && ok(e)
    && (forall a, b {:trigger Agrees(op, ok, a, b)} :: ok(a) && ok(b) ==> Agrees(op, ok, a, b))
    && (forall a {:trigger Absorbs(op, e, a)} :: ok(a) ==> Absorbs(op, e, a))
    && (forall a, b, c {:trigger Associates(op, a, b, c)} ::
          ok(a) && ok(b) && ok(c) ==> Associates(op, a, b, c))
  }

  /** e op p op .. op p, with n copies of p. */
  function Repeat<T>(op: (T, T) -> T, e: T, p: T, n: nat): T {
    if n == 0 then e else op(Repeat(op, e, p, n - 1), p)
  }

  /** Walk the bits of n from the lowest, doubling p and adding it to the accumulator on a 1. */
  function DoubleAndAdd<T>(op: (T, T) -> T, acc: T, p: T, n: nat): T {
    if n == 0 then acc
    else DoubleAndAdd(op, if n % 2 == 1 then op(acc, p) else acc, op(p, p), n / 2)
  }

  lemma {:induction false} RepeatOk<T(!new)>(op: (T, T) -> T, e: T, ok: T -> bool, p: T, n: nat)
    requires Monoid(op, e, ok) && ok(p)
    ensures ok(Repeat(op, e, p, n))
  {
    if n > 0 {
      RepeatOk(op, e, ok, p, n - 1);
      assert Agrees(op, ok, Repeat(op, e, p, n - 1), p);
    }
  }

  lemma {:induction false} RepeatAdd<T(!new)>(op: (T, T) -> T, e: T, ok: T -> bool, p: T, m: nat, n: nat)
    requires Monoid(op, e, ok) && ok(p)
    ensures Repeat(op, e, p, m + n) == op(Repeat(op, e, p, m), Repeat(op, e, p, n))
  {
    var r := Repeat(op, e, p, m);
    RepeatOk(op, e, ok, p, m);
    if n == 0 {
      assert Absorbs(op, e, r) && Agrees(op, ok, e, r);
    } else {
      RepeatAdd(op, e, ok, p, m, n - 1);
      RepeatOk(op, e, ok, p, n - 1);
      assert Associates(op, r, Repeat(op, e, p, n - 1), p);
    }
  }

  lemma {:induction false} RepeatMul<T(!new)>(op: (T, T) -> T, e: T, ok: T -> bool, p: T, m: nat, n: nat)
    requires Monoid(op, e, ok) && ok(p)
    ensures m * n >= 0 && Repeat(op, e, p, m * n) == Repeat(op, e, Repeat(op, e, p, m), n)
  {
    if n == 0 {
      assert m * n == 0;
    } else {
      RepeatMul(op, e, ok, p, m, n - 1);
      assert m * n == m * (n - 1) + m;
      RepeatAdd(op, e, ok, p, m * (n - 1), m);
    }
  }

  lemma {:induction false} RepeatNeutral<T(!new)>(op: (T, T) -> T, e: T, ok: T -> bool, n: nat)
    requires Monoid(op, e, ok)
    ensures Repeat(op, e, e, n) == e
  {
    if n > 0 {
      RepeatNeutral(op, e, ok, n - 1);
      assert Absorbs(op, e, e);
    }
  }

  /** Double-and-add refines repeated application. */
  lemma {:induction false} DoubleAndAddIsRepeat<T(!new)>(op: (T, T) -> T, e: T, ok: T -> bool, acc: T, p: T, n: nat)
    requires Monoid(op, e, ok) && ok(acc) && ok(p)
    ensures DoubleAndAdd(op, acc, p, n) == op(acc, Repeat(op, e, p, n))
    decreases n
  {
    if n == 0 {
      assert Absorbs(op, e, acc) && Agrees(op, ok, e, acc);
    } else {
      var h := n / 2;
      var r := Repeat(op, e, p, 2 * h);
      RepeatOk(op, e, ok, p, 2 * h);
      assert Agrees(op, ok, p, p) && Agrees(op, ok, acc, p) && Agrees(op, ok, r, p);
      Twice(op, e, ok, p);
      RepeatMul(op, e, ok, p, 2, h);
      if n % 2 == 1 {
        assert n == 2 * h + 1;
        DoubleAndAddIsRepeat(op, e, ok, op(acc, p), op(p, p), h);
        assert Associates(op, acc, p, r);
      } else {
        assert n == 2 * h;
        DoubleAndAddIsRepeat(op, e, ok, acc, op(p, p), h);
      }
    }
  }

  lemma Twice<T(!new)>(op: (T, T) -> T, e: T, ok: T -> bool, p: T)
    requires Monoid(op, e, ok) && ok(p)
    ensures Repeat(op, e, p, 2) == op(p, p)
  {
    assert Absorbs(op, e, p);
    assert Repeat(op, e, p, 1) == op(Repeat(op, e, p, 0), p);
    assert Repeat(op, e, p, 2) == op(Repeat(op, e, p, 1), p);
  }

  /** When l copies of p cancel out, only the remainder modulo l matters. */
  lemma {:induction false} RepeatMod<T(!new)>(op: (T, T) -> T, e: T, ok: T -> bool, p: T, n: nat, l: nat)
    requires Monoid(op, e, ok) && ok(p) && l > 0 && Repeat(op, e, p, l) == e
    ensures Repeat(op, e, p, n) == Repeat(op, e, p, n % l)
  {
    var t, r := n / l, n % l;
    RepeatMul(op, e, ok, p, l, t);
    RepeatNeutral(op, e, ok, t);
    RepeatAdd(op, e, ok, p, l * t, r);
    RepeatOk(op, e, ok, p, r);
    assert Absorbs(op, e, Repeat(op, e, p, r));
  }

  /** With l copies of p cancelling out: (r + k a) mod l copies of p are r copies of p and k copies
      of a copies of p. */
  lemma RepeatLinear<T(!new)>(op: (T, T) -> T, e: T, ok: T -> bool, p: T, r: nat, k: nat, a: nat, t: nat, l: nat)
    requires Monoid(op, e, ok) && ok(p) && l > 0 && Repeat(op, e, p, l) == e && t == a * k
    ensures Repeat(op, e, p, (r + t) % l) == op(Repeat(op, e, p, r), Repeat(op, e, Repeat(op, e, p, a), k))
  {
    RepeatMul(op, e, ok, p, a, k);
    RepeatAdd(op, e, ok, p, r, t);
    RepeatMod(op, e, ok, p, r + t, l);
  }
}
