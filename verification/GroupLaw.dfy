/** The affine law without associativity: inverses, commutativity and projections. */
module GroupLaw {
  import opened ModArith
  import opened Curves

  lemma NegateOnCurve(c: Curve, p: Affine)
    requires c.Valid() && c.OnCurve(p)
    ensures c.OnCurve(c.Negate(p))
    ensures c.Negate(p) == ZERO <==> p == ZERO
  {
    var m, y := c.m, c.Negate(p).y;
    EqReduce(m, 0 - p.y);
    ModUnique(m, 0, 0, 0);
    EqMul(m, y, 0 - p.y, y, 0 - p.y);
    NegatedSquare(p.y);
    if p != ZERO {
      c.ZeroNotOnEquation();
    }
  }

  lemma NegatedSquare(y: int)
    ensures (0 - y) * (0 - y) == y * y
  {
  }

  /** The negation is the inverse of the law. */
  lemma PlusNegate(c: Curve, p: Affine)
    requires c.Valid() && c.OnCurve(p)
    ensures c.Plus(p, c.Negate(p)) == ZERO
  {
    NegateOnCurve(c, p);
    EqReduce(c.m, 0 - p.y);
    EqAdd(c.m, c.Negate(p).y, 0 - p.y, p.y, p.y);
    ModUnique(c.m, 0, 0, 0);
  }

  lemma Opposite(m: nat, a: int, b: int)
    requires m > 0 && 0 <= b < m && Eq(m, a + b, 0)
    ensures b == (0 - a) % m
  {
    EqAdd(m, a + b, 0, a, a);
    assert a + b - a == b;
    EqReduce(m, 0 - a);
    EqSmall(m, b, (0 - a) % m);
  }

  /** Only the negation is opposite to a point. */
  lemma NegateUnique(c: Curve, p: Affine, q: Affine)
    requires c.Valid() && c.OnCurve(p) && c.OnCurve(q) && c.Plus(p, q) == ZERO
    ensures q == c.Negate(p)
  {
    NegateOnCurve(c, p);
    if p != ZERO && q != ZERO {
      c.PlusOnCurve(p, q);
      ModUnique(c.m, 0, 0, 0);
      Opposite(c.m, p.y, q.y);
    }
  }

  lemma NegateTwice(c: Curve, p: Affine)
    requires c.Valid() && c.OnCurve(p)
    ensures c.Negate(c.Negate(p)) == p
  {
    var m, y := c.m, c.Negate(p).y;
    EqReduce(m, 0 - p.y);
    EqAdd(m, y, 0 - p.y, p.y, p.y);
    Opposite(m, y, p.y);
  }

  lemma PlusCommutes(c: Curve, p: Affine, q: Affine)
    requires c.Valid() && c.OnCurve(p) && c.OnCurve(q)
    ensures c.Plus(p, q) == c.Plus(q, p)
  {
    if p != ZERO && q != ZERO && !(p.x == q.x && (p.y + q.y) % c.m == 0) {
      c.RunNonzero(p, q);
      if p.x != q.x {
        SlopesAgree(c, p, q);
        var l, k := c.Slope(p, q), c.Slope(q, p);
        var m, s := c.m, c.Plus(p, q);
        EqMul(m, l, k, l, k);
        EqAdd(m, l * l, k * k, p.x + q.x, p.x + q.x);
        assert l * l - p.x - q.x == l * l - (p.x + q.x) && k * k - q.x - p.x == k * k - (p.x + q.x);
        assert c.Plus(q, p).x == s.x;
        ChordY(c, l, k, p, q, s.x);
      }
    }
  }

  lemma DifferenceNonzero(m: nat, a: nat, b: nat)
    requires a < m && b < m && a != b
    ensures !Eq(m, a - b, 0)
  {
    if Eq(m, a - b, 0) {
      EqAdd(m, a - b, 0, b, b);
      EqSmall(m, a, b);
    }
  }

  lemma SlopesAgree(c: Curve, p: Affine, q: Affine)
    requires c.Valid() && c.OnCurve(p) && c.OnCurve(q) && p.x != q.x
    ensures Eq(c.m, c.Slope(p, q), c.Slope(q, p))
    ensures Eq(c.m, c.Slope(p, q) * (q.x - p.x), q.y - p.y)
  {
    DifferenceNonzero(c.m, q.x, p.x);
    DifferenceNonzero(c.m, p.x, q.x);
    c.SlopeTimesRun(p, q);
    c.SlopeTimesRun(q, p);
    OppositeSlopes(c.m, c.Slope(p, q), c.Slope(q, p), q.x - p.x, q.y - p.y);
  }

  lemma OppositeSlopes(m: nat, l: int, k: int, h: int, t: int)
    requires IsPrime(m) && !Eq(m, h, 0) && Eq(m, l * h, t) && Eq(m, k * (-h), -t)
    ensures Eq(m, l, k)
  {
    EqAdd(m, 0, 0, k * (-h), -t);
    assert 0 - k * (-h) == k * h;
    Cancel(m, l, k, h);
  }

  lemma ChordY(c: Curve, l: int, k: int, p: Affine, q: Affine, x: int)
    requires c.m > 0 && Eq(c.m, l, k) && Eq(c.m, l * (q.x - p.x), q.y - p.y)
    ensures (l * (p.x - x) - p.y) % c.m == (k * (q.x - x) - q.y) % c.m
  {
    var m := c.m;
    EqMul(m, l, k, q.x - x, q.x - x);
    EqAdd(m, l * (q.x - x), k * (q.x - x), q.y, q.y);
    EqAdd(m, l * (q.x - x), l * (q.x - x), l * (q.x - p.x), q.y - p.y);
    assert l * (q.x - x) - l * (q.x - p.x) == l * (p.x - x);
    EqAdd(m, l * (p.x - x), l * (q.x - x) - (q.y - p.y), p.y, p.y);
  }

  // ---- projections -----------------------------------------------------------

  lemma ToAffineOfToJacobian(c: Curve, p: Affine)
    requires c.Valid() && c.OnCurve(p)
    ensures c.OnCurveJ(c.ToJacobian(p)) && c.ToAffine(c.ToJacobian(p)) == p
  {
    if p != ZERO {
      c.NonzeroResidue(1);
      c.RepresentativeOnCurve(c.ToJacobian(p), p);
    }
  }

  /** Only infinity projects to infinity. */
  lemma FiniteProjects(c: Curve, p: Jacobian)
    requires c.Valid() && c.OnCurveJ(p)
    ensures c.OnCurve(c.ToAffine(p)) && (c.ToAffine(p) == ZERO <==> p.Z == 0)
  {
    if p.Z != 0 {
      c.ProjectOnCurve(p);
    }
  }
}
