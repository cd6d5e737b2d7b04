/** Multiples of a curve point and their orders. */
module Multiples {
  import opened ModArith
  import opened Curves
  import opened GroupLaw
  import opened Associativity

  /** n times a point, by repeated addition. */
  function Times(c: Curve, n: nat, p: Affine): Affine
    requires c.m > 0
  {
    if n == 0 then ZERO else c.Plus(Times(c, n - 1, p), p)
  }

  /** `n` is the least positive number of times `p` is added to reach infinity. */
  ghost predicate HasOrder(c: Curve, p: Affine, n: nat)
    requires c.m > 0
  {
    n > 0 && Times(c, n, p) == ZERO && forall j :: 0 < j < n ==> Times(c, j, p) != ZERO
  }

  lemma {:induction false} TimesOnCurve(c: Curve, n: nat, p: Affine)
    requires c.Valid() && c.OnCurve(p)
    ensures c.OnCurve(Times(c, n, p))
  {
    if n > 0 {
      TimesOnCurve(c, n - 1, p);
      c.PlusOnCurve(Times(c, n - 1, p), p);
    }
  }

  lemma {:induction false} TimesAdd(c: Curve, a: nat, b: nat, p: Affine)
    requires c.Valid() && c.OnCurve(p)
    ensures Times(c, a + b, p) == c.Plus(Times(c, a, p), Times(c, b, p))
  {
    TimesOnCurve(c, a, p);
    if b > 0 {
      TimesOnCurve(c, b - 1, p);
      TimesAdd(c, a, b - 1, p);
      PlusAssociates(c, Times(c, a, p), Times(c, b - 1, p), p);
      assert a + b - 1 == a + (b - 1);
    }
  }

  lemma TimesTimes(c: Curve, a: nat, b: nat, p: Affine)
    requires c.Valid() && c.OnCurve(p)
    ensures Times(c, a * b, p) == Times(c, a, Times(c, b, p))
  {
    TimesProduct(c, a, b, a * b, p);
  }

  lemma {:induction false} TimesProduct(c: Curve, a: nat, b: nat, n: nat, p: Affine)
    requires c.Valid() && c.OnCurve(p) && n == a * b
    ensures Times(c, n, p) == Times(c, a, Times(c, b, p))
    decreases a
  {
    if a > 0 {
      OneMore(a, b);
      TimesProduct(c, a - 1, b, n - b, p);
      TimesAdd(c, n - b, b, p);
    }
  }

  lemma OneMore(a: nat, b: nat)
    requires a > 0
    ensures a * b - b == (a - 1) * b >= 0
  {
  }

  lemma {:induction false} TimesZero(c: Curve, n: nat)
    requires c.m > 0
    ensures Times(c, n, ZERO) == ZERO
  {
    if n > 0 {
      TimesZero(c, n - 1);
    }
  }

  /** Adding a vanishing multiple any number of times changes nothing. */
  lemma TimesPeriod(c: Curve, i: nat, q: nat, r: nat, p: Affine)
    requires c.Valid() && c.OnCurve(p) && Times(c, q, p) == ZERO
    ensures Times(c, i * q + r, p) == Times(c, r, p)
  {
    var n := i * q;
    TimesAdd(c, n, r, p);
    TimesTimes(c, i, q, p);
    TimesZero(c, i);
  }

  /** Multiples only depend on the factor modulo any multiple that vanishes. */
  lemma TimesMod(c: Curve, n: nat, q: nat, p: Affine)
    requires c.Valid() && c.OnCurve(p) && q > 0 && Times(c, q, p) == ZERO
    ensures Times(c, n % q, p) == Times(c, n, p)
  {
    var i, r := n / q, n % q;
    assert n == i * q + r;
    TimesPeriod(c, i, q, r, p);
  }

  lemma TimesOne(c: Curve, p: Affine)
    requires c.m > 0
    ensures Times(c, 1, p) == p
  {
    assert Times(c, 0, p) == ZERO;
  }

  /** A finite point killed by a prime has that prime as its order. */
  lemma PrimeOrder(c: Curve, q: nat, p: Affine)
    requires c.Valid() && c.OnCurve(p) && p != ZERO && IsPrime(q) && Times(c, q, p) == ZERO
    ensures HasOrder(c, p, q)
  {
    forall j | 0 < j < q
      ensures Times(c, j, p) != ZERO
    {
      ModUnique(q, j, 0, j);
      var i := Inverse(q, j);
      InverseIsInverse(q, j);
      ModUnique(q, 1, 0, 1);
      var n := i * j;
      assert n == j * i;
      TimesMod(c, n, q, p);
      TimesTimes(c, i, j, p);
      TimesZero(c, i);
      TimesOne(c, p);
    }
  }

  /** [q - k] P == -[k] P. */
  lemma TimesComplement(c: Curve, k: nat, q: nat, p: Affine)
    requires c.Valid() && c.OnCurve(p) && k <= q && Times(c, q, p) == ZERO
    ensures Times(c, q - k, p) == c.Negate(Times(c, k, p))
  {
    TimesAdd(c, k, q - k, p);
    TimesOnCurve(c, k, p);
    TimesOnCurve(c, q - k, p);
    NegateUnique(c, Times(c, k, p), Times(c, q - k, p));
  }

  /** Below the order, [n] P == P only for n == 1. */
  lemma OnlyOneFixes(c: Curve, n: nat, p: Affine, order: nat)
    requires c.Valid() && c.OnCurve(p) && HasOrder(c, p, order) && 1 < n <= order
    ensures Times(c, n, p) != p
  {
    TimesOnCurve(c, n - 1, p);
    PlusMinus(c, Times(c, n - 1, p), p);
    PlusNegate(c, p);
  }

  /** A finite point is fixed exactly by the multiples that are 1 modulo its order. */
  lemma TimesFixes(c: Curve, n: nat, p: Affine, order: nat)
    requires c.Valid() && c.OnCurve(p) && p != ZERO && HasOrder(c, p, order)
    ensures order > 1 && (Times(c, n, p) == p <==> n % order == 1)
  {
    TimesOne(c, p);
    TimesMod(c, n, order, p);
    if n % order > 1 {
      OnlyOneFixes(c, n % order, p, order);
    }
  }
}
