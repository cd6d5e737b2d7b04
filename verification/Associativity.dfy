/** Associativity of the chord-and-tangent law.

    Three points of the curve are collinear, with multiplicity, when a line y = l x + n passes through
    them and the coefficients of x^3 + b - (l x + n)^2 are those of the product of their x - x_i. For
    A = P + Q the product of the line through P, Q, -A and the line through A, R, S is (x - x_A) times a
    function x^2 - s y + t x + u. It vanishes at P, Q, R and S, and it is determined by its zeros P, Q, R;
    so grouping the sum the other way gives the same function, hence the same S = -(P + Q + R). */
module Associativity {
  import opened ModArith
  import opened Curves
  import opened GroupLaw

  // ---- collinear triples --------------------------------------------------------------

  ghost predicate Collinear(c: Curve, l: int, n: int, p: Affine, q: Affine, t: Affine)
    requires c.m > 0
  {
    && Eq(c.m, p.y, l * p.x + n) && Eq(c.m, q.y, l * q.x + n) && Eq(c.m, t.y, l * t.x + n)
    && Eq(c.m, p.x + q.x + t.x, l * l)
    && Eq(c.m, p.x * q.x + p.x * t.x + q.x * t.x, -2 * l * n)
    && Eq(c.m, p.x * q.x * t.x, n * n - c.b)
  }

  ghost predicate Finite(c: Curve, p: Affine)
    requires c.m > 0
  {
    c.OnCurve(p) && p != ZERO
  }

  ghost predicate AreOpposite(c: Curve, p: Affine, q: Affine)
    requires c.m > 0
  {
    p.x == q.x && (p.y + q.y) % c.m == 0
  }

  lemma OppositeIsNegate(c: Curve, p: Affine, q: Affine)
    requires c.Valid() && Finite(c, p) && Finite(c, q)
    ensures AreOpposite(c, p, q) <==> q == c.Negate(p)
    ensures AreOpposite(c, p, q) <==> AreOpposite(c, q, p)
    ensures !AreOpposite(c, p, q) <==> Finite(c, c.Plus(p, q))
  {
    c.PlusOnCurve(p, q);
    if AreOpposite(c, p, q) {
      NegateUnique(c, p, q);
    }
    PlusNegate(c, p);
    NegateOnCurve(c, p);
    c.PlusOnCurve(p, c.Negate(p));
  }

  /** The points of an addition: P, Q and -(P + Q). */
  lemma PlusCollinear(c: Curve, p: Affine, q: Affine)
    requires c.Valid() && Finite(c, p) && Finite(c, q) && !AreOpposite(c, p, q)
    ensures var l := c.Slope(p, q);
      Collinear(c, l, p.y - l * p.x, p, q, c.Negate(c.Plus(p, q)))
  {
    var m, l, s := c.m, c.Slope(p, q), c.Plus(p, q);
    var n := p.y - l * p.x;
    c.RunNonzero(p, q);
    c.SlopeTimesRun(p, q);
    EqReduce(m, l * l - p.x - q.x);
    if p.x == q.x {
      c.TangentHasNoLinearTerm(l, p.x, p.y, s.x);
    } else {
      c.ChordHasNoLinearTerm(l, p.x, p.y, q.x, q.y, s.x);
      SecondOnLine(m, l, p.x, p.y, q.x, q.y);
    }
    c.RemainderAtRoot(l, p.x, p.y, q.x, s.x, p.x);
    LineCoefficients(c, l, p.x, p.y, q.x, s.x, n);
    SumOfRoots(m, s.x, l, p.x, q.x);
    ReflectedThird(c, l, p, s);
  }

  lemma SecondOnLine(m: nat, l: int, x1: int, y1: int, x2: int, y2: int)
    requires m > 0 && Eq(m, l * (x2 - x1), y2 - y1)
    ensures Eq(m, y2, l * x2 + (y1 - l * x1))
  {
    EqAdd(m, l * (x2 - x1), y2 - y1, y1, y1);
    assert l * (x2 - x1) + y1 == l * x2 + (y1 - l * x1);
  }

  lemma ReflectedThird(c: Curve, l: int, p: Affine, s: Affine)
    requires c.m > 0 && s.y == (l * (p.x - s.x) - p.y) % c.m
    ensures Eq(c.m, c.Negate(s).y, l * s.x + (p.y - l * p.x))
  {
    var m := c.m;
    EqReduce(m, l * (p.x - s.x) - p.y);
    EqReduce(m, 0 - s.y);
    EqAdd(m, 0, 0, s.y, l * (p.x - s.x) - p.y);
    assert 0 - (l * (p.x - s.x) - p.y) == l * s.x + (p.y - l * p.x);
  }

  lemma SumOfRoots(m: nat, x3: int, l: int, x1: int, x2: int)
    requires m > 0 && Eq(m, x3, l * l - x1 - x2)
    ensures Eq(m, x1 + x2 + x3, l * l)
  {
    EqAdd(m, x1 + x2, x1 + x2, x3, l * l - x1 - x2);
  }

  lemma LineCoefficients(c: Curve, l: int, x1: int, y1: int, x2: int, x3: int, n: int)
    requires c.m > 0 && n == y1 - l * x1
    requires Eq(c.m, c.LineA(l, x1, y1, x2, x3), 0)
    requires Eq(c.m, c.LineA(l, x1, y1, x2, x3) * x1 + c.LineB(l, x1, y1, x2, x3), 0)
    ensures Eq(c.m, x1 * x2 + x1 * x3 + x2 * x3, -2 * l * n)
    ensures Eq(c.m, x1 * x2 * x3, n * n - c.b)
  {
    var sigma, product := x1 * x2 + x1 * x3 + x2 * x3, x1 * x2 * x3;
    LineTerms(c, l, x1, y1, x2, x3, n);
    RootConditions(c.m, c.LineA(l, x1, y1, x2, x3), c.LineB(l, x1, y1, x2, x3), x1,
                   -2 * l * n, sigma, product, n * n - c.b);
  }

  lemma LineTerms(c: Curve, l: int, x1: int, y1: int, x2: int, x3: int, n: int)
    requires n == y1 - l * x1
    ensures c.LineA(l, x1, y1, x2, x3) == -2 * l * n - (x1 * x2 + x1 * x3 + x2 * x3)
    ensures c.LineB(l, x1, y1, x2, x3) == x1 * x2 * x3 - (n * n - c.b)
  {
    var k := l * x1 - y1;
    assert k == -n && 2 * l * k == -2 * l * n;
  }

  lemma RootConditions(m: nat, A: int, B: int, x: int, linear: int, sigma: int, product: int, constant: int)
    requires m > 0 && A == linear - sigma && B == product - constant
    requires Eq(m, A, 0) && Eq(m, A * x + B, 0)
    ensures Eq(m, sigma, linear) && Eq(m, product, constant)
  {
    EqMul(m, A, 0, x, x);
    EqAdd(m, A * x + B, 0, A * x, 0);
    EqAdd(m, linear, linear, A, 0);
    EqAdd(m, B, 0, constant, constant);
  }

  /** At a point of a collinear triple the curve's and the line's derivatives differ by the product
      of the distances to the other two. */
  lemma Derivative(c: Curve, l: int, n: int, p: Affine, q: Affine, t: Affine)
    requires c.m > 0 && Collinear(c, l, n, p, q, t)
    ensures Eq(c.m, 3 * (p.x * p.x) - 2 * l * p.y, (p.x - q.x) * (p.x - t.x))
  {
    var m, x, sigma1, sigma2 := c.m, p.x, p.x + q.x + t.x, p.x * q.x + p.x * t.x + q.x * t.x;
    EqMul(m, 2 * l, 2 * l, p.y, l * x + n);
    EqMul(m, 2 * x, 2 * x, sigma1, l * l);
    EqAdd(m, (2 * x) * sigma1, (2 * x) * (l * l), sigma2, -2 * l * n);
    DerivativeExpand(l, n, x, q.x, t.x);
    EqAdd(m, 3 * (x * x), 3 * (x * x), (2 * l) * p.y, (2 * l) * (l * x + n));
    EqAdd(m, 3 * (x * x), 3 * (x * x), (2 * x) * sigma1 - sigma2, (2 * x) * (l * l) - (-2 * l * n));
  }

  /** A line is tangent where two of its three points agree. */
  lemma DoubleRoot(c: Curve, l: int, n: int, p: Affine, q: Affine, t: Affine)
    requires c.m > 0 && Collinear(c, l, n, p, q, t) && (p.x == q.x || p.x == t.x)
    ensures Eq(c.m, 3 * (p.x * p.x) - 2 * l * p.y, 0)
  {
    Derivative(c, l, n, p, q, t);
    assert (p.x - q.x) * (p.x - t.x) == 0;
  }

  lemma DerivativeExpand(l: int, n: int, x: int, x2: int, x3: int)
    ensures (2 * l) * (l * x + n) == (2 * x) * (l * l) - (-2 * l * n)
    ensures 3 * (x * x) - ((2 * x) * (x + x2 + x3) - (x * x2 + x * x3 + x2 * x3)) == (x - x2) * (x - x3)
  {
  }

  lemma Permute(c: Curve, l: int, n: int, p: Affine, q: Affine, t: Affine)
    requires c.m > 0 && Collinear(c, l, n, p, q, t)
    ensures Collinear(c, l, n, q, p, t) && Collinear(c, l, n, t, q, p) && Collinear(c, l, n, q, t, p)
  {
    PermuteTerms(p.x, q.x, t.x);
  }

  lemma PermuteTerms(x: int, y: int, z: int)
    ensures y * x * z == x * y * z && z * y * x == x * y * z && y * z * x == x * y * z
    ensures y * x == x * y && z * x == x * z && z * y == y * z
  {
  }

  lemma NegateCoordinate(c: Curve, p: Affine, l: int, n: int)
    requires c.m > 0 && Eq(c.m, p.y, l * p.x + n)
    ensures Eq(c.m, c.Negate(p).y, (-l) * c.Negate(p).x + (-n))
  {
    EqReduce(c.m, 0 - p.y);
    EqAdd(c.m, 0, 0, p.y, l * p.x + n);
  }

  lemma NegateCollinear(c: Curve, l: int, n: int, p: Affine, q: Affine, t: Affine)
    requires c.m > 0 && Collinear(c, l, n, p, q, t)
    ensures Collinear(c, -l, -n, c.Negate(p), c.Negate(q), c.Negate(t))
  {
    NegateCoordinate(c, p, l, n);
    NegateCoordinate(c, q, l, n);
    NegateCoordinate(c, t, l, n);
    assert (-l) * (-l) == l * l && -2 * (-l) * (-n) == -2 * l * n && (-n) * (-n) == n * n;
  }

  /** Two points on a line with the same x are equal. */
  lemma SameXOnLine(c: Curve, l: int, n: int, p: Affine, q: Affine)
    requires c.m > 0 && c.OnCurve(p) && c.OnCurve(q) && p.x == q.x
    requires Eq(c.m, p.y, l * p.x + n) && Eq(c.m, q.y, l * q.x + n)
    ensures p == q
  {
    EqSmall(c.m, p.y, q.y);
  }

  /** In a collinear triple, the sum of two points that are not opposite is the negated third. */
  lemma CollinearPlus(c: Curve, l: int, n: int, p: Affine, q: Affine, t: Affine)
    requires c.Valid() && Finite(c, p) && Finite(c, q) && Finite(c, t) && !AreOpposite(c, p, q)
    requires Collinear(c, l, n, p, q, t)
    ensures c.Plus(p, q) == c.Negate(t)
  {
    var m, k, s := c.m, c.Slope(p, q), c.Plus(p, q);
    c.RunNonzero(p, q);
    c.SlopeTimesRun(p, q);
    RunTimesSlope(c, l, n, p, q, t);
    Cancel(m, k, l, c.Run(p, q));
    EqMul(m, k, l, k, l);
    ThirdX(m, k * k, l * l, p.x, q.x, t.x);
    EqReduce(m, k * k - p.x - q.x);
    EqSmall(m, s.x, t.x);
    ThirdY(m, k, l, n, p.x, p.y, t.x, t.y);
  }

  lemma ThirdX(m: nat, k2: int, l2: int, x1: int, x2: int, x3: int)
    requires m > 0 && Eq(m, k2, l2) && Eq(m, x1 + x2 + x3, l2)
    ensures Eq(m, k2 - x1 - x2, x3)
  {
    EqAdd(m, k2, l2, x1 + x2, x1 + x2);
    EqAdd(m, x1 + x2 + x3, l2, x1 + x2, x1 + x2);
  }

  lemma ThirdY(m: nat, k: int, l: int, n: int, x1: int, y1: int, x3: int, y3: int)
    requires m > 0 && Eq(m, k, l) && Eq(m, y1, l * x1 + n) && Eq(m, y3, l * x3 + n)
    ensures Eq(m, k * (x1 - x3) - y1, 0 - y3)
  {
    var d := x1 - x3;
    EqMul(m, k, l, d, d);
    EqAdd(m, k * d, l * d, y1, l * x1 + n);
    assert l * d == l * x1 - l * x3;
    EqAdd(m, 0, 0, y3, l * x3 + n);
  }

  lemma RunTimesSlope(c: Curve, l: int, n: int, p: Affine, q: Affine, t: Affine)
    requires c.Valid() && (p.x == q.x ==> p == q) && Collinear(c, l, n, p, q, t)
    ensures Eq(c.m, l * c.Run(p, q), c.Rise(p, q))
  {
    if p.x == q.x {
      DoubleRoot(c, l, n, p, q, t);
      TangentRun(c.m, l, p.x, p.y);
    } else {
      ChordRun(c.m, l, n, p.x, p.y, q.x, q.y);
    }
  }

  lemma TangentRun(m: nat, l: int, x: int, y: int)
    requires m > 0 && Eq(m, 3 * (x * x) - 2 * l * y, 0)
    ensures Eq(m, l * (2 * y), 3 * (x * x))
  {
    var t := 3 * (x * x);
    EqAdd(m, t, t, t - 2 * l * y, 0);
    assert 2 * l * y == l * (2 * y);
  }

  lemma ChordRun(m: nat, l: int, n: int, x1: int, y1: int, x2: int, y2: int)
    requires m > 0 && Eq(m, y1, l * x1 + n) && Eq(m, y2, l * x2 + n)
    ensures Eq(m, l * (x2 - x1), y2 - y1)
  {
    EqAdd(m, y2, l * x2 + n, y1, l * x1 + n);
    assert l * (x2 - x1) == l * x2 - l * x1;
  }

  // ---- cancellation ---------------------------------------------------------------------

  /** 3 x^2 == 2 l y cannot hold with y == 0 on the curve. */
  lemma NoVerticalTangent(c: Curve, p: Affine, l: int)
    requires c.Valid() && Finite(c, p) && Eq(c.m, 3 * (p.x * p.x) - 2 * l * p.y, 0)
    ensures p.y != 0
  {
    var m := c.m;
    if p.y == 0 {
      assert 2 * l * p.y == 0;
      ModUnique(m, 0, 0, 0);
      c.NonzeroResidue(3);
      c.NonzeroResidue(p.x);
      ZeroProduct(m, 3, p.x * p.x);
      ZeroProduct(m, p.x, p.x);
    }
  }

  /** P + Q is never Q for finite P. */
  lemma SumDiffers(c: Curve, p: Affine, q: Affine)
    requires c.Valid() && Finite(c, p) && Finite(c, q) && !AreOpposite(c, p, q)
    ensures c.Plus(p, q) != q && c.Plus(p, q) != p
  {
    PlusCommutes(c, p, q);
    OppositeIsNegate(c, p, q);
    SumIsNotSecond(c, p, q);
    SumIsNotSecond(c, q, p);
  }

  lemma SelfOpposite(c: Curve, q: Affine)
    requires c.Valid() && c.OnCurve(q) && c.Negate(q) == q
    ensures q.y == 0
  {
    EqReduce(c.m, 0 - q.y);
    EqAdd(c.m, q.y, 0 - q.y, q.y, q.y);
    ModUnique(c.m, 0, 0, 0);
    c.DoubleOfY(q.y);
  }

  lemma SumIsNotSecond(c: Curve, p: Affine, q: Affine)
    requires c.Valid() && Finite(c, p) && Finite(c, q) && !AreOpposite(c, p, q)
    ensures c.Plus(p, q) != q
  {
    var l, t := c.Slope(p, q), c.Negate(c.Plus(p, q));
    var n := p.y - l * p.x;
    PlusCollinear(c, p, q);
    if c.Plus(p, q) == q {
      NegateOnCurve(c, q);
      SameXOnLine(c, l, n, q, t);
      Permute(c, l, n, p, q, t);
      DoubleRoot(c, l, n, q, p, t);
      NoVerticalTangent(c, q, l);
      SelfOpposite(c, q);
    }
  }

  /** (P + Q) - Q == P. */
  lemma PlusMinus(c: Curve, p: Affine, q: Affine)
    requires c.Valid() && c.OnCurve(p) && c.OnCurve(q)
    ensures c.Plus(c.Plus(p, q), c.Negate(q)) == p
  {
    NegateOnCurve(c, q);
    PlusNegate(c, q);
    ModUnique(c.m, 0, 0, 0);
    if p != ZERO && q != ZERO {
      OppositeIsNegate(c, p, q);
      if AreOpposite(c, p, q) {
        NegateTwice(c, p);
      } else {
        FinitePlusMinus(c, p, q);
      }
    }
  }

  lemma FinitePlusMinus(c: Curve, p: Affine, q: Affine)
    requires c.Valid() && Finite(c, p) && Finite(c, q) && !AreOpposite(c, p, q)
    ensures c.Plus(c.Plus(p, q), c.Negate(q)) == p
  {
    var l, a := c.Slope(p, q), c.Plus(p, q);
    var n, t := p.y - l * p.x, c.Negate(a);
    PlusCollinear(c, p, q);
    NegateCollinear(c, l, n, p, q, t);
    c.PlusOnCurve(p, q);
    NegateTwice(c, a);
    NegateTwice(c, q);
    NegateTwice(c, p);
    NegateOnCurve(c, p);
    NegateOnCurve(c, q);
    SumDiffers(c, p, q);
    OppositeIsNegate(c, a, c.Negate(q));
    Permute(c, -l, -n, c.Negate(p), c.Negate(q), a);
    CollinearPlus(c, -l, -n, a, c.Negate(q), c.Negate(p));
  }

  // ---- the function with zeros P, Q, R and -(P + Q + R) ------------------------------------

  /** x^2 - s y + t x + u */
  ghost function Quadratic(s: int, t: int, u: int, x: int, y: int): int {
    x * x - s * y + t * x + u
  }

  /** Its derivative along the curve, where x' = 2 y and y' = 3 x^2. */
  ghost function QuadraticD(s: int, t: int, x: int, y: int): int {
    (2 * x + t) * (2 * y) - s * (3 * (x * x))
  }

  /** Its coefficients, for the line of slope l through -A and the line of slope k through A. */
  ghost function CoeffS(l: int, k: int): int { l + k }

  ghost function CoeffT(a: Affine, l: int, k: int): int { a.x + l * k }

  ghost function CoeffU(a: Affine, l: int, k: int): int { a.x * a.x + (l - k) * a.y - l * k * a.x }

  ghost function AtPoint(a: Affine, l: int, k: int, x: int, y: int): int {
    Quadratic(CoeffS(l, k), CoeffT(a, l, k), CoeffU(a, l, k), x, y)
  }

  ghost function AtPointD(a: Affine, l: int, k: int, x: int, y: int): int {
    QuadraticD(CoeffS(l, k), CoeffT(a, l, k), x, y)
  }

  /** The line of slope l through -A, and the line of slope k through A. */
  ghost function First(a: Affine, l: int, x: int, y: int): int { y + a.y - l * (x - a.x) }

  ghost function Second(a: Affine, k: int, x: int, y: int): int { y - a.y - k * (x - a.x) }

  lemma ProductOfLines(a: Affine, l: int, k: int, x: int, y: int)
    ensures First(a, l, x, y) * Second(a, k, x, y)
         == (x - a.x) * AtPoint(a, l, k, x, y) + ((y * y - x * x * x) - (a.y * a.y - a.x * a.x * a.x))
  {
    var d, e, g := x - a.x, y + a.y, y - a.y;
    ExpandLines(d, e, g, l, k);
    ShiftedQuadratic(x, a.x, y, a.y, l, k);
  }

  lemma ExpandLines(d: int, e: int, g: int, l: int, k: int)
    ensures (e - l * d) * (g - k * d) == e * g - k * (d * e) - l * (d * g) + l * k * (d * d)
  {
  }

  lemma ShiftedQuadratic(x: int, xa: int, y: int, ya: int, l: int, k: int)
    ensures var d := x - xa;
      (y + ya) * (y - ya) - k * (d * (y + ya)) - l * (d * (y - ya)) + l * k * (d * d)
      == d * (x * x - (l + k) * y + (xa + l * k) * x + (xa * xa + (l - k) * ya - l * k * xa))
         + ((y * y - x * x * x) - (ya * ya - xa * xa * xa))
  {
    var d := x - xa;
    assert d * (x * x + xa * x + xa * xa) == x * x * x - xa * xa * xa;
    var w := (l + k) * y - (l - k) * ya;
    assert k * (d * (y + ya)) + l * (d * (y - ya)) == d * w;
    assert l * k * (d * d) == d * (l * k * x - l * k * xa);
    var q := x * x + xa * x + xa * xa;
    var z := l * k * x - l * k * xa;
    assert x * x - (l + k) * y + (xa + l * k) * x + (xa * xa + (l - k) * ya - l * k * xa) == q - w + z;
    assert d * (q - w + z) == d * q - d * w + d * z;
  }

  lemma ProductOfLinesD(a: Affine, l: int, k: int, x: int, y: int)
    ensures (3 * (x * x) - 2 * l * y) * Second(a, k, x, y) + First(a, l, x, y) * (3 * (x * x) - 2 * k * y)
         == (x - a.x) * AtPointD(a, l, k, x, y) + (2 * y) * AtPoint(a, l, k, x, y)
  {
    ShiftedDerivative(x, a.x, y, a.y, l, k);
  }

  lemma ShiftedDerivative(x: int, xa: int, y: int, ya: int, l: int, k: int)
    ensures var d, t := x - xa, 3 * (x * x);
      (t - 2 * l * y) * (y - ya - k * d) + (y + ya - l * d) * (t - 2 * k * y)
      == d * ((2 * x + (xa + l * k)) * (2 * y) - (l + k) * t)
         + (2 * y) * (x * x - (l + k) * y + (xa + l * k) * x + (xa * xa + (l - k) * ya - l * k * xa))
  {
    LeftDerivative(3 * (x * x), x - xa, y, ya, l, k);
    RightDerivative(x, xa, y, ya, l, k);
  }

  lemma LeftDerivative(t: int, d: int, y: int, ya: int, l: int, k: int)
    ensures (t - 2 * l * y) * (y - ya - k * d) + (y + ya - l * d) * (t - 2 * k * y)
         == t * (2 * y) - (2 * y) * (l * (y - ya) + k * (y + ya)) + 2 * ((2 * y) * (l * k * d)) - d * ((l + k) * t)
  {
    var y2 := 2 * y;
    assert 2 * l * y == l * y2 && 2 * k * y == k * y2;
    TwoProducts(t, l * y2, k * y2, y - ya, y + ya, l * d, k * d);
    Gather(l, k, y2, y - ya, y + ya, d);
    TangentTerm(t, l, k, d);
  }

  lemma TangentTerm(t: int, l: int, k: int, d: int)
    ensures t * (l * d + k * d) == d * ((l + k) * t)
  {
    assert l * d + k * d == (l + k) * d;
  }

  lemma RightDerivative(x: int, xa: int, y: int, ya: int, l: int, k: int)
    ensures var d, t := x - xa, 3 * (x * x);
      d * ((2 * x + (xa + l * k)) * (2 * y) - (l + k) * t)
         + (2 * y) * (x * x - (l + k) * y + (xa + l * k) * x + (xa * xa + (l - k) * ya - l * k * xa))
      == t * (2 * y) - (2 * y) * (l * (y - ya) + k * (y + ya)) + 2 * ((2 * y) * (l * k * d)) - d * ((l + k) * t)
  {
    var d, w, z, y2 := x - xa, l * (y - ya) + k * (y + ya), l * k * (x - xa), 2 * y;
    ShiftedTerms(x, xa, y, ya, l, k);
    Regroup(d * (2 * x + xa), x * x + xa * x + xa * xa, w, z, y2);
    Spread(d, 2 * x + (xa + l * k), y2, (l + k) * (3 * (x * x)));
  }

  lemma ShiftedTerms(x: int, xa: int, y: int, ya: int, l: int, k: int)
    ensures var d := x - xa;
      && d * (2 * x + xa) + (x * x + xa * x + xa * xa) == 3 * (x * x)
      && d * (2 * x + (xa + l * k)) == d * (2 * x + xa) + l * k * d
      && x * x - (l + k) * y + (xa + l * k) * x + (xa * xa + (l - k) * ya - l * k * xa)
         == x * x + xa * x + xa * xa - (l * (y - ya) + k * (y + ya)) + l * k * d
  {
  }

  lemma Regroup(v: int, q: int, w: int, z: int, y2: int)
    ensures (v + z) * y2 + y2 * (q - w + z) == (v + q) * y2 - y2 * w + y2 * z + y2 * z
  {
  }

  lemma Spread(d: int, g: int, y2: int, w: int)
    ensures d * (g * y2 - w) == (d * g) * y2 - d * w
  {
  }

  lemma TwoProducts(t: int, u: int, v: int, g: int, e: int, p: int, q: int)
    ensures (t - u) * (g - q) + (e - p) * (t - v) == t * (g + e) - t * (p + q) - u * g - v * e + u * q + p * v
  {
  }

  lemma Gather(l: int, k: int, y2: int, g: int, e: int, d: int)
    ensures (l * y2) * g + (k * y2) * e == y2 * (l * g + k * e)
    ensures (l * y2) * (k * d) == y2 * (l * k * d) && (l * d) * (k * y2) == y2 * (l * k * d)
  {
  }

  // ---- its zeros -------------------------------------------------------------------------

  lemma EqZeroTimes(m: nat, a: int, b: int)
    requires m > 0 && Eq(m, a, 0)
    ensures Eq(m, a * b, 0) && Eq(m, b * a, 0)
  {
    EqMul(m, a, 0, b, b);
    assert 0 * b == 0 && b * a == a * b;
  }

  /** Away from A, the function vanishes where one of the lines meets the curve. */
  lemma ZeroOffA(c: Curve, a: Affine, l: int, k: int, p: Affine)
    requires c.Valid() && Finite(c, a) && Finite(c, p) && p.x != a.x
    requires Eq(c.m, First(a, l, p.x, p.y), 0) || Eq(c.m, Second(a, k, p.x, p.y), 0)
    ensures Eq(c.m, AtPoint(a, l, k, p.x, p.y), 0)
  {
    var m, e, g, f := c.m, First(a, l, p.x, p.y), Second(a, k, p.x, p.y), AtPoint(a, l, k, p.x, p.y);
    ProductOfLines(a, l, k, p.x, p.y);
    if Eq(m, e, 0) {
      EqZeroTimes(m, e, g);
    } else {
      EqZeroTimes(m, g, e);
    }
    Residual(c, p);
    Residual(c, a);
    var d, d' := p.y * p.y - p.x * p.x * p.x, a.y * a.y - a.x * a.x * a.x;
    EqAdd(m, d, c.b, d', c.b);
    EqAdd(m, e * g, 0, d - d', 0);
    DifferenceNonzero(m, p.x, a.x);
    ZeroProduct(m, p.x - a.x, f);
  }

  lemma Residual(c: Curve, p: Affine)
    requires c.m > 0 && c.Equation(p)
    ensures Eq(c.m, p.y * p.y - p.x * p.x * p.x, c.b)
  {
    var w := p.x * p.x * p.x;
    EqAdd(c.m, p.y * p.y, w + c.b, w, w);
  }

  /** The zeros on the line through -A: P and Q with P + Q == A. */
  lemma ZeroOnFirst(c: Curve, l: int, n: int, p: Affine, q: Affine, a: Affine, k: int)
    requires c.Valid() && Finite(c, p) && Finite(c, a)
    requires Collinear(c, l, n, p, q, c.Negate(a))
    ensures Eq(c.m, First(a, l, p.x, p.y), 0)
    ensures Eq(c.m, AtPoint(a, l, k, p.x, p.y), 0)
  {
    var t := c.Negate(a);
    NegateOnCurve(c, a);
    OppositeOrdinate(c, a);
    FirstThroughNegation(c.m, l, n, p.x, p.y, a.x, a.y, t.y);
    if p.x == a.x {
      SameXOnLine(c, l, n, p, t);
      DoubleRoot(c, l, n, p, q, t);
      ZeroAtNegation(c.m, a, l, k, p.x, p.y);
    } else {
      ZeroOffA(c, a, l, k, p);
    }
  }

  lemma OppositeOrdinate(c: Curve, a: Affine)
    requires c.m > 0
    ensures Eq(c.m, c.Negate(a).y + a.y, 0)
  {
    EqReduce(c.m, 0 - a.y);
    EqAdd(c.m, c.Negate(a).y, 0 - a.y, a.y, a.y);
  }

  lemma FirstThroughNegation(m: nat, l: int, n: int, x: int, y: int, xa: int, ya: int, yt: int)
    requires m > 0 && Eq(m, y, l * x + n) && Eq(m, yt, l * xa + n) && Eq(m, yt + ya, 0)
    ensures Eq(m, y + ya - l * (x - xa), 0)
  {
    var d := l * (x - xa);
    ChordRun(m, l, n, xa, yt, x, y);
    EqAdd(m, y - yt, d, yt + ya, 0);
    EqAdd(m, y + ya, d, d, d);
  }

  lemma ZeroAtNegation(m: nat, a: Affine, l: int, k: int, x: int, y: int)
    requires m > 0 && x == a.x && Eq(m, y + a.y, 0) && Eq(m, 3 * (x * x) - 2 * l * y, 0)
    ensures Eq(m, AtPoint(a, l, k, x, y), 0)
  {
    EqZeroTimes(m, y + a.y, l - k);
    EqAdd(m, 3 * (x * x) - 2 * l * y, 0, (l - k) * (y + a.y), 0);
    AtNegatedA(a, l, k, x, y);
  }

  lemma AtNegatedA(a: Affine, l: int, k: int, x: int, y: int)
    requires x == a.x
    ensures AtPoint(a, l, k, x, y) == 3 * (x * x) - 2 * l * y + (l - k) * (y + a.y)
  {
    var z := l * k;
    assert (a.x + z) * x == x * x + z * a.x;
    assert (l - k) * (y + a.y) == l * y - k * y + (l - k) * a.y;
    assert (l + k) * y == l * y + k * y;
    assert 2 * l * y == 2 * (l * y);
  }

  /** The zeros on the line through A: R and S with R + S == -A. */
  lemma ZeroOnSecond(c: Curve, k: int, n: int, p: Affine, q: Affine, a: Affine, l: int)
    requires c.Valid() && Finite(c, p) && Finite(c, a)
    requires Collinear(c, k, n, p, q, a)
    ensures Eq(c.m, Second(a, k, p.x, p.y), 0)
    ensures Eq(c.m, AtPoint(a, l, k, p.x, p.y), 0)
  {
    var m := c.m;
    EqAdd(m, p.y, k * p.x + n, a.y, k * a.x + n);
    assert (k * p.x + n) - (k * a.x + n) == k * (p.x - a.x);
    EqAdd(m, p.y - a.y, k * (p.x - a.x), k * (p.x - a.x), k * (p.x - a.x));
    if p.x == a.x {
      SameXOnLine(c, k, n, p, a);
      DoubleRoot(c, k, n, p, q, a);
      AtA(a, l, k);
    } else {
      ZeroOffA(c, a, l, k, p);
    }
  }

  lemma AtA(a: Affine, l: int, k: int)
    ensures AtPoint(a, l, k, a.x, a.y) == 3 * (a.x * a.x) - 2 * k * a.y
  {
    assert (a.x + l * k) * a.x == a.x * a.x + l * k * a.x;
  }

  // ---- the two groupings of P + Q + R -----------------------------------------------------

  /** The points for which the general argument works. */
  ghost predicate General(c: Curve, p: Affine, q: Affine, r: Affine)
    requires c.m > 0
  {
    && Finite(c, p) && Finite(c, q) && Finite(c, r)
    && !AreOpposite(c, p, q) && !AreOpposite(c, c.Plus(p, q), r)
  }

  /** -((P + Q) + R) */
  ghost function Fourth(c: Curve, p: Affine, q: Affine, r: Affine): Affine
    requires c.m > 0
  {
    c.Negate(c.Plus(c.Plus(p, q), r))
  }

  ghost function S(c: Curve, p: Affine, q: Affine, r: Affine): int
    requires c.m > 0
  {
    CoeffS(c.Slope(p, q), c.Slope(c.Plus(p, q), r))
  }

  ghost function T(c: Curve, p: Affine, q: Affine, r: Affine): int
    requires c.m > 0
  {
    CoeffT(c.Plus(p, q), c.Slope(p, q), c.Slope(c.Plus(p, q), r))
  }

  ghost function U(c: Curve, p: Affine, q: Affine, r: Affine): int
    requires c.m > 0
  {
    CoeffU(c.Plus(p, q), c.Slope(p, q), c.Slope(c.Plus(p, q), r))
  }

  ghost predicate Vanishes(c: Curve, s: int, t: int, u: int, p: Affine)
    requires c.m > 0
  {
    Eq(c.m, Quadratic(s, t, u, p.x, p.y), 0)
  }

  lemma FourthFinite(c: Curve, p: Affine, q: Affine, r: Affine)
    requires c.Valid() && General(c, p, q, r)
    ensures Finite(c, c.Plus(p, q)) && Finite(c, c.Plus(c.Plus(p, q), r)) && Finite(c, Fourth(c, p, q, r))
  {
    OppositeIsNegate(c, p, q);
    OppositeIsNegate(c, c.Plus(p, q), r);
    NegateOnCurve(c, c.Plus(c.Plus(p, q), r));
  }

  /** The function vanishes at P, Q, R and -(P + Q + R). */
  lemma FourZeros(c: Curve, p: Affine, q: Affine, r: Affine)
    requires c.Valid() && General(c, p, q, r)
    ensures var s, t, u := S(c, p, q, r), T(c, p, q, r), U(c, p, q, r);
      && Vanishes(c, s, t, u, p) && Vanishes(c, s, t, u, q) && Vanishes(c, s, t, u, r)
      && Vanishes(c, s, t, u, Fourth(c, p, q, r))
  {
    var a, l := c.Plus(p, q), c.Slope(p, q);
    var k := c.Slope(a, r);
    var n, n', z := p.y - l * p.x, a.y - k * a.x, Fourth(c, p, q, r);
    FourthFinite(c, p, q, r);
    PlusCollinear(c, p, q);
    Permute(c, l, n, p, q, c.Negate(a));
    ZeroOnFirst(c, l, n, p, q, a, k);
    ZeroOnFirst(c, l, n, q, p, a, k);
    PlusCollinear(c, a, r);
    Permute(c, k, n', a, r, z);
    Permute(c, k, n', z, r, a);
    ZeroOnSecond(c, k, n', r, z, a, l);
    ZeroOnSecond(c, k, n', z, r, a, l);
  }

  // ---- the double zero when P == Q ----------------------------------------------------------

  lemma DerivativeOffA(c: Curve, a: Affine, l: int, k: int, p: Affine)
    requires c.Valid() && c.OnCurve(a) && c.OnCurve(p) && p.x != a.x
    requires Eq(c.m, AtPoint(a, l, k, p.x, p.y), 0) && Eq(c.m, First(a, l, p.x, p.y), 0)
    requires Eq(c.m, Second(a, k, p.x, p.y), 0) || Eq(c.m, 3 * (p.x * p.x) - 2 * l * p.y, 0)
    ensures Eq(c.m, AtPointD(a, l, k, p.x, p.y), 0)
  {
    var e, g := First(a, l, p.x, p.y), Second(a, k, p.x, p.y);
    var e', g' := 3 * (p.x * p.x) - 2 * l * p.y, 3 * (p.x * p.x) - 2 * k * p.y;
    var f, f' := AtPoint(a, l, k, p.x, p.y), AtPointD(a, l, k, p.x, p.y);
    ProductOfLinesD(a, l, k, p.x, p.y);
    DifferenceNonzero(c.m, p.x, a.x);
    DoubleZero(c.m, e, g, e', g', p.x - a.x, f, f', 2 * p.y);
  }

  lemma DoubleZero(m: nat, e: int, g: int, e': int, g': int, d: int, f: int, f': int, y2: int)
    requires IsPrime(m) && !Eq(m, d, 0) && Eq(m, f, 0) && Eq(m, e, 0) && (Eq(m, g, 0) || Eq(m, e', 0))
    requires e' * g + e * g' == d * f' + y2 * f
    ensures Eq(m, f', 0)
  {
    if Eq(m, g, 0) {
      EqZeroTimes(m, g, e');
    } else {
      EqZeroTimes(m, e', g);
    }
    EqZeroTimes(m, e, g');
    EqAdd(m, e' * g, 0, e * g', 0);
    EqZeroTimes(m, f, y2);
    EqAdd(m, e' * g + e * g', 0, y2 * f, 0);
    ZeroProduct(m, d, f');
  }

  /** A point that is its own third intersection: 3 P == O. */
  lemma DerivativeAtFlex(c: Curve, a: Affine, l: int, k: int, p: Affine)
    requires c.m > 0 && p.x == a.x && Eq(c.m, 3 * p.x, l * l)
    requires Eq(c.m, 3 * (p.x * p.x) - 2 * l * p.y, 0)
    ensures Eq(c.m, AtPointD(a, l, k, p.x, p.y), 0)
  {
    var m, x, y := c.m, p.x, p.y;
    var e := 3 * (x * x) - 2 * l * y;
    EqZeroTimes(m, e, l + k);
    EqMul(m, 3 * x, l * l, 2 * y, 2 * y);
    EqAdd(m, (3 * x) * (2 * y), (l * l) * (2 * y), (l + k) * e, 0);
    EqAdd(m, (3 * x) * (2 * y) - (l + k) * e, (l * l) * (2 * y), (l * l) * (2 * y), (l * l) * (2 * y));
    FlexExpand(x, y, l, k);
  }

  lemma FlexExpand(x: int, y: int, l: int, k: int)
    ensures (2 * x + (x + l * k)) * (2 * y) - (l + k) * (3 * (x * x))
         == (3 * x) * (2 * y) - (l + k) * (3 * (x * x) - 2 * l * y) - (l * l) * (2 * y)
  {
    assert (2 * x + (x + l * k)) * (2 * y) == (3 * x) * (2 * y) + (l * k) * (2 * y);
    assert (l + k) * (2 * l * y) == (l * l) * (2 * y) + (l * k) * (2 * y);
  }

  lemma DoubleZeroFirst(c: Curve, p: Affine, r: Affine)
    requires c.Valid() && General(c, p, p, r)
    ensures Eq(c.m, QuadraticD(S(c, p, p, r), T(c, p, p, r), p.x, p.y), 0)
  {
    var a, l := c.Plus(p, p), c.Slope(p, p);
    var k, n, t := c.Slope(a, r), p.y - l * p.x, c.Negate(a);
    FourthFinite(c, p, p, r);
    PlusCollinear(c, p, p);
    DoubleRoot(c, l, n, p, p, t);
    ZeroOnFirst(c, l, n, p, p, a, k);
    if p.x == a.x {
      DerivativeAtFlex(c, a, l, k, p);
    } else {
      DerivativeOffA(c, a, l, k, p);
    }
  }

  lemma DoubleZeroBoth(c: Curve, p: Affine, r: Affine)
    requires c.Valid() && General(c, p, r, p)
    ensures Eq(c.m, QuadraticD(S(c, p, r, p), T(c, p, r, p), p.x, p.y), 0)
  {
    var a, l, z := c.Plus(p, r), c.Slope(p, r), Fourth(c, p, r, p);
    var k := c.Slope(a, p);
    var n' := a.y - k * a.x;
    FourthFinite(c, p, r, p);
    PlusCollinear(c, p, r);
    ZeroOnFirst(c, l, p.y - l * p.x, p, r, a, k);
    PlusCollinear(c, a, p);
    Permute(c, k, n', a, p, z);
    ZeroOnSecond(c, k, n', p, z, a, l);
    SumDiffers(c, p, r);
    c.RunNonzero(a, p);
    DerivativeOffA(c, a, l, k, p);
  }

  // ---- the function is determined by P, Q and R ------------------------------------------------

  lemma DifferenceOnLine(c: Curve, s: int, t: int, u: int, s': int, t': int, u': int, p: Affine, q: Affine)
    requires c.m > 0
    requires Vanishes(c, s, t, u, p) && Vanishes(c, s, t, u, q)
    requires Vanishes(c, s', t', u', p) && Vanishes(c, s', t', u', q)
    ensures Eq(c.m, (t - t') * (q.x - p.x), (s - s') * (q.y - p.y))
  {
    var m := c.m;
    EqAdd(m, Quadratic(s, t, u, q.x, q.y), 0, Quadratic(s', t', u', q.x, q.y), 0);
    EqAdd(m, Quadratic(s, t, u, p.x, p.y), 0, Quadratic(s', t', u', p.x, p.y), 0);
    var dq := Quadratic(s, t, u, q.x, q.y) - Quadratic(s', t', u', q.x, q.y);
    var dp := Quadratic(s, t, u, p.x, p.y) - Quadratic(s', t', u', p.x, p.y);
    var h := (s - s') * (q.y - p.y);
    EqAdd(m, dq, 0, dp, 0);
    EqAdd(m, dq - dp, 0, h, h);
    LinearDifference(s, t, u, s', t', u', p.x, p.y);
    LinearDifference(s, t, u, s', t', u', q.x, q.y);
    LinearIncrement(t - t', s - s', u - u', p.x, p.y, q.x, q.y);
  }

  lemma LinearIncrement(w: int, v: int, z: int, x: int, y: int, x': int, y': int)
    ensures (w * x' - v * y' + z) - (w * x - v * y + z) == w * (x' - x) - v * (y' - y)
  {
  }

  lemma LinearDifference(s: int, t: int, u: int, s': int, t': int, u': int, x: int, y: int)
    ensures Quadratic(s, t, u, x, y) - Quadratic(s', t', u', x, y) == (t - t') * x - (s - s') * y + (u - u')
  {
    assert (t - t') * x == t * x - t' * x && (s - s') * y == s * y - s' * y;
  }

  lemma DifferenceTangent(c: Curve, s: int, t: int, s': int, t': int, p: Affine)
    requires c.m > 0
    requires Eq(c.m, QuadraticD(s, t, p.x, p.y), 0) && Eq(c.m, QuadraticD(s', t', p.x, p.y), 0)
    ensures Eq(c.m, (t - t') * (2 * p.y), (s - s') * (3 * (p.x * p.x)))
  {
    var m, v, w := c.m, 2 * p.y, 3 * (p.x * p.x);
    EqAdd(m, QuadraticD(s, t, p.x, p.y), 0, QuadraticD(s', t', p.x, p.y), 0);
    assert (2 * p.x + t) * v - (2 * p.x + t') * v == (t - t') * v;
    assert s * w - s' * w == (s - s') * w;
    EqAdd(m, (t - t') * v - (s - s') * w, 0, (s - s') * w, (s - s') * w);
  }

  /** The line through P and Q meets the curve only in P, Q and -(P + Q). */
  lemma OffLine(c: Curve, p: Affine, q: Affine, r: Affine)
    requires c.Valid() && General(c, p, q, r) && r != p && r != q
    ensures !Eq(c.m, r.y - p.y, c.Slope(p, q) * (r.x - p.x))
  {
    var m, l, a := c.m, c.Slope(p, q), c.Plus(p, q);
    var n, t := p.y - l * p.x, c.Negate(a);
    if Eq(m, r.y - p.y, l * (r.x - p.x)) {
      OnLineThrough(m, l, p.x, p.y, r.x, r.y);
      PlusCollinear(c, p, q);
      FourthFinite(c, p, q, r);
      NegateOnCurve(c, a);
      CubicOnLine(c, l, n, p, q, t, r);
      ThreeOnLine(c, l, n, p, q, t, r);
      OppositeIsNegate(c, a, r);
    }
  }

  lemma OnLineThrough(m: nat, l: int, x1: int, y1: int, x: int, y: int)
    requires m > 0 && Eq(m, y - y1, l * (x - x1))
    ensures Eq(m, y, l * x + (y1 - l * x1))
  {
    EqAdd(m, y - y1, l * (x - x1), y1, y1);
    assert l * (x - x1) == l * x - l * x1;
  }

  lemma ThreeOnLine(c: Curve, l: int, n: int, p: Affine, q: Affine, t: Affine, r: Affine)
    requires c.m > 0 && Collinear(c, l, n, p, q, t) && Eq(c.m, r.y, l * r.x + n)
    requires c.OnCurve(p) && c.OnCurve(q) && c.OnCurve(t) && c.OnCurve(r)
    requires r.x == p.x || r.x == q.x || r.x == t.x
    ensures r == p || r == q || r == t
  {
    if r.x == p.x {
      SameXOnLine(c, l, n, r, p);
    } else if r.x == q.x {
      SameXOnLine(c, l, n, r, q);
    } else {
      SameXOnLine(c, l, n, r, t);
    }
  }

  lemma CubicOnLine(c: Curve, l: int, n: int, p: Affine, q: Affine, t: Affine, r: Affine)
    requires c.Valid() && Collinear(c, l, n, p, q, t) && Finite(c, r) && Eq(c.m, r.y, l * r.x + n)
    requires c.Reduced(p) && c.Reduced(q) && c.Reduced(t)
    ensures r.x == p.x || r.x == q.x || r.x == t.x
  {
    var m, x := c.m, r.x;
    var g1, g2, g3 := x - p.x, x - q.x, x - t.x;
    var s1, s2, s3 := p.x + q.x + t.x, p.x * q.x + p.x * t.x + q.x * t.x, p.x * q.x * t.x;
    var w := l * x + n;
    EqMul(m, s1, l * l, x * x, x * x);
    EqMul(m, s2, -2 * l * n, x, x);
    EqMul(m, r.y, w, r.y, w);
    EqAdd(m, s1 * (x * x), (l * l) * (x * x), s2 * x, (-2 * l * n) * x);
    EqAdd(m, s1 * (x * x) - s2 * x, (l * l) * (x * x) - (-2 * l * n) * x, s3, n * n - c.b);
    EqAdd(m, x * x * x + c.b, w * w, w * w, w * w);
    EqAdd(m, x * x * x, x * x * x, s1 * (x * x) - s2 * x + s3, (l * l) * (x * x) - (-2 * l * n) * x + (n * n - c.b));
    SquareOfLine(l, n, x);
    CubicExpand(x, p.x, q.x, t.x);
    assert Eq(m, g1 * g2 * g3, 0);
    ZeroProduct(m, g1 * g2, g3);
    if Eq(m, g1 * g2, 0) {
      ZeroProduct(m, g1, g2);
    }
    if r.x != p.x {
      DifferenceNonzero(m, r.x, p.x);
    }
    if r.x != q.x {
      DifferenceNonzero(m, r.x, q.x);
    }
    if r.x != t.x {
      DifferenceNonzero(m, r.x, t.x);
    }
  }

  lemma SquareOfLine(l: int, n: int, x: int)
    ensures (l * x + n) * (l * x + n) == (l * l) * (x * x) - (-2 * l * n) * x + n * n
  {
    MulSwap(l, x, l, x);
    assert (l * x) * n == (l * n) * x;
  }

  lemma CubicExpand(x: int, a: int, b: int, d: int)
    ensures (x - a) * (x - b) * (x - d)
         == x * x * x - ((a + b + d) * (x * x) - (a * b + a * d + b * d) * x + a * b * d)
  {
    var p, x2, sx, t := (x - a) * (x - b), x * x, (a + b) * x, a * b;
    assert p == x2 - sx + t;
    assert p * (x - d) == p * x - p * d;
    ScaleThree(p, x2, sx, t, x);
    ScaleThree(p, x2, sx, t, d);
    assert sx * x == (a + b) * x2 && sx * d == (a * d + b * d) * x;
  }

  lemma ScaleThree(p: int, u: int, v: int, w: int, k: int)
    requires p == u - v + w
    ensures p * k == u * k - v * k + w * k
  {
  }

  lemma SameCoefficients(c: Curve, s: int, t: int, u: int, s': int, t': int, u': int, p: Affine, q: Affine, r: Affine)
    requires c.Valid() && General(c, p, q, r) && r != p && r != q
    requires Vanishes(c, s, t, u, p) && Vanishes(c, s, t, u, r)
    requires Vanishes(c, s', t', u', p) && Vanishes(c, s', t', u', r)
    requires Eq(c.m, (t - t') * c.Run(p, q), (s - s') * c.Rise(p, q))
    ensures Eq(c.m, s - s', 0) && Eq(c.m, t - t', 0) && Eq(c.m, u - u', 0)
  {
    var m, l, v, w := c.m, c.Slope(p, q), s - s', t - t';
    c.RunNonzero(p, q);
    c.SlopeTimesRun(p, q);
    DifferenceOnLine(c, s, t, u, s', t', u', p, r);
    OffLine(c, p, q, r);
    NoCommonSlope(m, v, w, l, c.Run(p, q), c.Rise(p, q), r.x - p.x, r.y - p.y);
    ConstantCoefficient(c, s, t, u, s', t', u', p);
  }

  /** Two directions that are not proportional: v dy == w dx and v rise == w run force v == w == 0. */
  lemma NoCommonSlope(m: nat, v: int, w: int, l: int, run: int, rise: int, dx: int, dy: int)
    requires IsPrime(m) && !Eq(m, run, 0) && Eq(m, l * run, rise)
    requires Eq(m, w * run, v * rise) && Eq(m, w * dx, v * dy) && !Eq(m, dy, l * dx)
    ensures Eq(m, v, 0) && Eq(m, w, 0)
  {
    EqMul(m, v, v, l * run, rise);
    assert v * (l * run) == (v * l) * run;
    Cancel(m, w, v * l, run);
    EqMul(m, w, v * l, dx, dx);
    assert (v * l) * dx == v * (l * dx);
    EqAdd(m, v * dy, w * dx, v * (l * dx), w * dx);
    assert v * dy - v * (l * dx) == v * (dy - l * dx);
    ZeroProduct(m, v, dy - l * dx);
    if Eq(m, dy - l * dx, 0) {
      EqAdd(m, dy - l * dx, 0, l * dx, l * dx);
    }
    EqZeroTimes(m, v, l);
  }

  lemma ConstantCoefficient(c: Curve, s: int, t: int, u: int, s': int, t': int, u': int, p: Affine)
    requires c.m > 0 && Vanishes(c, s, t, u, p) && Vanishes(c, s', t', u', p)
    requires Eq(c.m, s - s', 0) && Eq(c.m, t - t', 0)
    ensures Eq(c.m, u - u', 0)
  {
    var m := c.m;
    EqAdd(m, Quadratic(s, t, u, p.x, p.y), 0, Quadratic(s', t', u', p.x, p.y), 0);
    LinearDifference(s, t, u, s', t', u', p.x, p.y);
    EqZeroTimes(m, s - s', p.y);
    EqZeroTimes(m, t - t', p.x);
    EqAdd(m, (t - t') * p.x, 0, (s - s') * p.y, 0);
    EqAdd(m, (t - t') * p.x - (s - s') * p.y + (u - u'), 0, (t - t') * p.x - (s - s') * p.y, 0);
  }

  // ---- the fourth zero ---------------------------------------------------------------------------

  lemma SumOfZeros(c: Curve, p: Affine, q: Affine, r: Affine)
    requires c.Valid() && General(c, p, q, r)
    ensures Eq(c.m, p.x + q.x + r.x + Fourth(c, p, q, r).x, S(c, p, q, r) * S(c, p, q, r) - 2 * T(c, p, q, r))
  {
    var m, a, l := c.m, c.Plus(p, q), c.Slope(p, q);
    var k, z := c.Slope(a, r), Fourth(c, p, q, r);
    FourthFinite(c, p, q, r);
    PlusCollinear(c, p, q);
    PlusCollinear(c, a, r);
    SumOfSquares(m, p.x + q.x, r.x + z.x, a.x, l, k);
  }

  lemma SumOfSquares(m: nat, x: int, x': int, xa: int, l: int, k: int)
    requires m > 0 && Eq(m, x + xa, l * l) && Eq(m, xa + x', k * k)
    ensures Eq(m, x + x', (l + k) * (l + k) - 2 * (xa + l * k))
  {
    EqAdd(m, x + xa, l * l, xa + x', k * k);
    EqAdd(m, (x + xa) + (xa + x'), l * l + k * k, 2 * xa, 2 * xa);
    assert (l + k) * (l + k) == l * l + k * k + 2 * (l * k);
  }

  lemma SameFourthX(c: Curve, p: Affine, q: Affine, r: Affine)
    requires c.Valid() && General(c, p, q, r) && General(c, q, r, p)
    requires Eq(c.m, S(c, p, q, r) - S(c, q, r, p), 0) && Eq(c.m, T(c, p, q, r) - T(c, q, r, p), 0)
    ensures Fourth(c, p, q, r).x == Fourth(c, q, r, p).x
  {
    var m, s, s', t, t' := c.m, S(c, p, q, r), S(c, q, r, p), T(c, p, q, r), T(c, q, r, p);
    var z, z', w := Fourth(c, p, q, r), Fourth(c, q, r, p), p.x + q.x + r.x;
    SumOfZeros(c, p, q, r);
    SumOfZeros(c, q, r, p);
    EqAdd(m, s - s', 0, s', s');
    EqAdd(m, t - t', 0, t', t');
    EqMul(m, s, s', s, s');
    EqAdd(m, t, t', t, t');
    EqAdd(m, s * s, s' * s', t + t, t' + t');
    EqAdd(m, w + z.x, s * s - 2 * t, w, w);
    EqAdd(m, w + z'.x, s * s - 2 * t, w, w);
    FourthFinite(c, p, q, r);
    FourthFinite(c, q, r, p);
    EqSmall(m, z.x, z'.x);
  }

  /** s x_P - like terms cannot vanish: the quadratic x^2 + t x + u has only two roots. */
  lemma LeadingNonzero(c: Curve, s: int, t: int, u: int, p: Affine, q: Affine, r: Affine)
    requires c.Valid() && Finite(c, p) && Finite(c, q) && Finite(c, r) && !AreOpposite(c, p, q)
    requires p.x != r.x && q.x != r.x
    requires Vanishes(c, s, t, u, p) && Vanishes(c, s, t, u, q) && Vanishes(c, s, t, u, r)
    requires p == q ==> Eq(c.m, QuadraticD(s, t, p.x, p.y), 0)
    ensures !Eq(c.m, s, 0)
  {
    var m := c.m;
    if Eq(m, s, 0) {
      TwoRoots(c, s, t, u, p, r);
      TwoRoots(c, s, t, u, q, r);
      EqAdd(m, p.x + r.x + t, 0, q.x + r.x + t, 0);
      if p.x != q.x {
        DifferenceNonzero(m, p.x, q.x);
      } else {
        c.RunNonzero(p, q);
        EqZeroTimes(m, s, 3 * (p.x * p.x));
        EqAdd(m, QuadraticD(s, t, p.x, p.y), 0, s * (3 * (p.x * p.x)), 0);
        ZeroProduct(m, 2 * p.x + t, 2 * p.y);
        EqAdd(m, 2 * p.x + t, 0, p.x + r.x + t, 0);
        DifferenceNonzero(m, p.x, r.x);
      }
    }
  }

  lemma TwoRoots(c: Curve, s: int, t: int, u: int, p: Affine, r: Affine)
    requires c.Valid() && c.Reduced(p) && c.Reduced(r) && p.x != r.x && Eq(c.m, s, 0)
    requires Vanishes(c, s, t, u, p) && Vanishes(c, s, t, u, r)
    ensures Eq(c.m, p.x + r.x + t, 0)
  {
    var m, f, f', h := c.m, Quadratic(s, t, u, p.x, p.y), Quadratic(s, t, u, r.x, r.y), s * (p.y - r.y);
    EqAdd(m, f, 0, f', 0);
    EqZeroTimes(m, s, p.y - r.y);
    EqAdd(m, f - f', 0, h, 0);
    QuadraticIncrement(s, t, u, p.x, p.y, r.x, r.y);
    DifferenceNonzero(m, p.x, r.x);
    ZeroProduct(m, p.x - r.x, p.x + r.x + t);
  }

  lemma QuadraticIncrement(s: int, t: int, u: int, x: int, y: int, x': int, y': int)
    ensures Quadratic(s, t, u, x, y) - Quadratic(s, t, u, x', y') + s * (y - y') == (x - x') * (x + x' + t)
  {
    assert s * (y - y') == s * y - s * y';
    assert (x - x') * (x + x' + t) == x * x - x' * x' + t * x - t * x';
  }

  lemma SameY(c: Curve, s: int, t: int, u: int, s': int, t': int, u': int, z: Affine, z': Affine)
    requires c.Valid() && c.Reduced(z) && c.Reduced(z') && z.x == z'.x && !Eq(c.m, s, 0)
    requires Eq(c.m, s - s', 0) && Eq(c.m, t - t', 0) && Eq(c.m, u - u', 0)
    requires Vanishes(c, s, t, u, z) && Vanishes(c, s', t', u', z')
    ensures z == z'
  {
    var f, g := Quadratic(s, t, u, z.x, z.y), Quadratic(s, t, u, z.x, z'.y);
    SameValue(c.m, s, t, u, s', t', u', z.x, z'.y);
    VerticalIncrement(s, t, u, z.x, z.y, z'.y);
    EqualFactor(c.m, s, z.y, z'.y, g, f);
  }

  lemma EqualFactor(m: nat, s: int, y: nat, y': nat, f: int, g: int)
    requires IsPrime(m) && y < m && y' < m && !Eq(m, s, 0) && Eq(m, f, 0) && Eq(m, g, 0) && f - g == s * (y - y')
    ensures y == y'
  {
    EqAdd(m, f, 0, g, 0);
    ZeroProduct(m, s, y - y');
    if y != y' {
      DifferenceNonzero(m, y, y');
    }
  }

  lemma VerticalIncrement(s: int, t: int, u: int, x: int, y: int, y': int)
    ensures Quadratic(s, t, u, x, y') - Quadratic(s, t, u, x, y) == s * (y - y')
  {
  }

  lemma SameValue(m: nat, s: int, t: int, u: int, s': int, t': int, u': int, x: int, y: int)
    requires m > 0 && Eq(m, s - s', 0) && Eq(m, t - t', 0) && Eq(m, u - u', 0)
    ensures Eq(m, Quadratic(s, t, u, x, y), Quadratic(s', t', u', x, y))
  {
    var f, f', w, v := Quadratic(s, t, u, x, y), Quadratic(s', t', u', x, y), (t - t') * x, (s - s') * y;
    LinearDifference(s, t, u, s', t', u', x, y);
    EqZeroTimes(m, s - s', y);
    EqZeroTimes(m, t - t', x);
    EqAdd(m, w, 0, v, 0);
    EqAdd(m, w - v, 0, u - u', 0);
    EqAdd(m, f - f', 0, f', f');
  }

  // ---- associativity --------------------------------------------------------------------------

  lemma TangentCondition(c: Curve, p: Affine, q: Affine, r: Affine)
    requires c.Valid() && General(c, p, q, r) && General(c, q, r, p)
    ensures Eq(c.m, (T(c, p, q, r) - T(c, q, r, p)) * c.Run(p, q), (S(c, p, q, r) - S(c, q, r, p)) * c.Rise(p, q))
  {
    c.RunNonzero(p, q);
    if p == q {
      DoubleZeroFirst(c, p, r);
      DoubleZeroBoth(c, p, r);
      DifferenceTangent(c, S(c, p, q, r), T(c, p, q, r), S(c, q, r, p), T(c, q, r, p), p);
    } else {
      FourZeros(c, p, q, r);
      FourZeros(c, q, r, p);
      DifferenceOnLine(c, S(c, p, q, r), T(c, p, q, r), U(c, p, q, r),
                       S(c, q, r, p), T(c, q, r, p), U(c, q, r, p), p, q);
    }
  }

  lemma AssociativeGeneral(c: Curve, p: Affine, q: Affine, r: Affine)
    requires c.Valid() && General(c, p, q, r) && General(c, q, r, p)
    requires r != p && r != q && !AreOpposite(c, p, r)
    ensures c.Plus(c.Plus(p, q), r) == c.Plus(p, c.Plus(q, r))
  {
    var s, t, u := S(c, p, q, r), T(c, p, q, r), U(c, p, q, r);
    var s', t', u' := S(c, q, r, p), T(c, q, r, p), U(c, q, r, p);
    var z, z' := Fourth(c, p, q, r), Fourth(c, q, r, p);
    FourZeros(c, p, q, r);
    FourZeros(c, q, r, p);
    TangentCondition(c, p, q, r);
    SameCoefficients(c, s, t, u, s', t', u', p, q, r);
    SameFourthX(c, p, q, r);
    c.RunNonzero(p, r);
    c.RunNonzero(q, r);
    if p == q {
      DoubleZeroFirst(c, p, r);
    }
    LeadingNonzero(c, s, t, u, p, q, r);
    FourthFinite(c, p, q, r);
    FourthFinite(c, q, r, p);
    SameY(c, s, t, u, s', t', u', z, z');
    NegateTwice(c, c.Plus(c.Plus(p, q), r));
    NegateTwice(c, c.Plus(c.Plus(q, r), p));
    PlusCommutes(c, c.Plus(q, r), p);
  }

  /** If P + Q == -R then Q + R == -P. */
  lemma AssociativeToZero(c: Curve, p: Affine, q: Affine, r: Affine)
    requires c.Valid() && Finite(c, p) && Finite(c, q) && Finite(c, r)
    requires !AreOpposite(c, p, q) && !AreOpposite(c, q, r) && AreOpposite(c, c.Plus(p, q), r)
    ensures c.Plus(q, r) == c.Negate(p)
  {
    var l, a := c.Slope(p, q), c.Plus(p, q);
    PlusCollinear(c, p, q);
    OppositeIsNegate(c, p, q);
    OppositeIsNegate(c, a, r);
    Permute(c, l, p.y - l * p.x, p, q, r);
    CollinearPlus(c, l, p.y - l * p.x, q, r, p);
  }

  /** (P + Q) - P == Q, in either order of the outer sum. */
  lemma MinusFirst(c: Curve, p: Affine, q: Affine)
    requires c.Valid() && c.OnCurve(p) && c.OnCurve(q)
    ensures c.Plus(c.Plus(p, q), c.Negate(p)) == q
    ensures c.Plus(c.Negate(p), c.Plus(p, q)) == q
  {
    PlusCommutes(c, p, q);
    PlusMinus(c, q, p);
    NegateOnCurve(c, p);
    c.PlusOnCurve(p, q);
    PlusCommutes(c, c.Plus(p, q), c.Negate(p));
  }

  /** Sums in which two of the points are opposite or the outer points are equal. */
  lemma AssociativeOpposite(c: Curve, p: Affine, q: Affine, r: Affine)
    requires c.Valid() && Finite(c, p) && Finite(c, q) && Finite(c, r)
    requires p == r || AreOpposite(c, p, q) || AreOpposite(c, q, r) || AreOpposite(c, p, r)
    ensures c.Plus(c.Plus(p, q), r) == c.Plus(p, c.Plus(q, r))
  {
    c.PlusOnCurve(p, q);
    c.PlusOnCurve(q, r);
    if p == r {
      PlusCommutes(c, p, q);
      PlusCommutes(c, p, c.Plus(q, p));
    } else if AreOpposite(c, p, q) {
      OppositeIsNegate(c, p, q);
      NegateTwice(c, p);
      PlusNegate(c, p);
      MinusFirst(c, q, r);
    } else if AreOpposite(c, q, r) {
      OppositeIsNegate(c, q, r);
      PlusNegate(c, q);
      PlusMinus(c, p, q);
    } else {
      OppositeIsNegate(c, p, r);
      MinusFirst(c, p, q);
      NegateTwice(c, p);
      PlusMinus(c, q, r);
      PlusCommutes(c, p, c.Plus(q, r));
    }
  }

  /** Sums in which an inner sum is opposite to the remaining point. */
  lemma AssociativeZeroSum(c: Curve, p: Affine, q: Affine, r: Affine)
    requires c.Valid() && Finite(c, p) && Finite(c, q) && Finite(c, r)
    requires !AreOpposite(c, p, q) && !AreOpposite(c, q, r)
    requires AreOpposite(c, c.Plus(p, q), r) || AreOpposite(c, c.Plus(q, r), p)
    ensures c.Plus(c.Plus(p, q), r) == c.Plus(p, c.Plus(q, r))
  {
    OppositeIsNegate(c, p, q);
    OppositeIsNegate(c, q, r);
    PlusNegate(c, p);
    if AreOpposite(c, c.Plus(p, q), r) {
      AssociativeToZero(c, p, q, r);
      OppositeIsNegate(c, c.Plus(p, q), r);
      PlusNegate(c, c.Plus(p, q));
    } else {
      AssociativeFromZero(c, p, q, r);
      OppositeIsNegate(c, c.Plus(q, r), p);
      PlusNegate(c, r);
      NegateOnCurve(c, r);
      PlusCommutes(c, c.Negate(r), r);
      PlusNegate(c, c.Plus(q, r));
      PlusCommutes(c, c.Plus(q, r), p);
    }
  }

  lemma AssociativeFromZero(c: Curve, p: Affine, q: Affine, r: Affine)
    requires c.Valid() && Finite(c, p) && Finite(c, q) && Finite(c, r)
    requires !AreOpposite(c, p, q) && !AreOpposite(c, q, r) && AreOpposite(c, c.Plus(q, r), p)
    ensures c.Plus(p, q) == c.Negate(r)
  {
    PlusCommutes(c, r, q);
    OppositeIsNegate(c, q, r);
    OppositeIsNegate(c, p, q);
    AssociativeToZero(c, r, q, p);
    PlusCommutes(c, p, q);
  }

  /** The chord-and-tangent law is associative. */
  lemma PlusAssociates(c: Curve, p: Affine, q: Affine, r: Affine)
    requires c.Valid() && c.OnCurve(p) && c.OnCurve(q) && c.OnCurve(r)
    ensures c.Plus(c.Plus(p, q), r) == c.Plus(p, c.Plus(q, r))
  {
    if p != ZERO && q != ZERO && r != ZERO {
      FinitePlusAssociates(c, p, q, r);
    }
  }

  lemma FinitePlusAssociates(c: Curve, p: Affine, q: Affine, r: Affine)
    requires c.Valid() && Finite(c, p) && Finite(c, q) && Finite(c, r)
    ensures c.Plus(c.Plus(p, q), r) == c.Plus(p, c.Plus(q, r))
  {
    if p == r || AreOpposite(c, p, q) || AreOpposite(c, q, r) || AreOpposite(c, p, r) {
      AssociativeOpposite(c, p, q, r);
    } else if AreOpposite(c, c.Plus(p, q), r) || AreOpposite(c, c.Plus(q, r), p) {
      AssociativeZeroSum(c, p, q, r);
    } else if q == r {
      AssociativeReversed(c, p, q);
    } else {
      AssociativeGeneral(c, p, q, r);
    }
  }

  /** The remaining case Q == R, by reading the sum from the right. */
  lemma AssociativeReversed(c: Curve, p: Affine, q: Affine)
    requires c.Valid() && Finite(c, p) && Finite(c, q) && p != q && !AreOpposite(c, p, q)
    requires !AreOpposite(c, q, q)
    requires !AreOpposite(c, c.Plus(p, q), q) && !AreOpposite(c, c.Plus(q, q), p)
    ensures c.Plus(c.Plus(p, q), q) == c.Plus(p, c.Plus(q, q))
  {
    PlusCommutes(c, p, q);
    OppositeIsNegate(c, p, q);
    OppositeIsNegate(c, q, q);
    AssociativeGeneral(c, q, q, p);
    PlusCommutes(c, p, c.Plus(q, q));
    PlusCommutes(c, c.Plus(p, q), q);
  }
}
