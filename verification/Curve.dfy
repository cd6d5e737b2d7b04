/** The short Weierstrass curve y^2 = x^3 + b over a prime field: the affine chord-and-tangent law
    and the Jacobian formulas dbl-1986-cc and add-1986-cc. */
module Curves {
  import opened ModArith

  /** An affine point; (0, 0), which is never on the curve, stands for the point at infinity. */
  datatype Affine = Affine(x: nat, y: nat)

  const ZERO := Affine(0, 0)

  /** Jacobian coordinates: Z == 0 is the point at infinity, otherwise (X/Z^2, Y/Z^3). */
  datatype Jacobian = Jacobian(X: nat, Y: nat, Z: nat)

  const GROUP_ZERO := Jacobian(0, 1, 0)

  lemma MulSwap(a: int, b: int, c: int, d: int)
    ensures (a * b) * (c * d) == (a * c) * (b * d)
  {
  }

  lemma MulRotate(a: int, b: int, c: int)
    ensures (a * b) * c == a * (c * b)
  {
  }

  lemma SixthPower(z: int)
    ensures (z * z * z) * (z * z * z) == z * z * z * z * z * z
    ensures ((z * z) * (z * z)) * (z * z) == z * z * z * z * z * z
  {
  }

  datatype Curve = Curve(m: nat, b: nat) {

    ghost predicate Valid() {
      IsPrime(m) && m > 3 && b % m != 0
    }

    // ---- field operations -------------------------------------------------

    function FieldAdd(a: nat, c: nat): nat requires m > 0 { (a + c) % m }

    function FieldSub(a: nat, c: nat): nat requires m > 0 { (a - c) % m }

    function FieldMul(a: nat, c: nat): nat requires m > 0 { (a * c) % m }

    function FieldInv(a: nat): nat requires m > 0 { Inverse(m, a) }

    // ---- the affine law ---------------------------------------------------

    predicate Reduced(a: Affine) { a.x < m && a.y < m }

    predicate Equation(a: Affine)
      requires m > 0
    {
      (a.y * a.y) % m == (a.x * a.x * a.x + b) % m
    }

    predicate OnCurve(a: Affine)
      requires m > 0
    {
      Reduced(a) && (a == ZERO || Equation(a))
    }

    function Negate(a: Affine): Affine
      requires m > 0
    {
      Affine(a.x, FieldSub(0, a.y))
    }

    /** Slope numerator and denominator of the line through two points. */
    function Rise(a: Affine, c: Affine): int {
      if a.x == c.x then 3 * (a.x * a.x) else c.y - a.y
    }

    function Run(a: Affine, c: Affine): int {
      if a.x == c.x then 2 * a.y else c.x - a.x
    }

    function Slope(a: Affine, c: Affine): int
      requires m > 0
    {
      Rise(a, c) * Inverse(m, Run(a, c))
    }

    /** The chord-and-tangent law, in its textbook form. */
    function Plus(a: Affine, c: Affine): Affine
      requires m > 0
    {
      if a == ZERO then c
      else if c == ZERO then a
      else if a.x == c.x && (a.y + c.y) % m == 0 then ZERO
      else
        var slope := Slope(a, c);
        var x := (slope * slope - a.x - c.x) % m;
        Affine(x, (slope * (a.x - x) - a.y) % m)
    }

    // ---- Jacobian formulas ------------------------------------------------

    predicate ReducedJ(p: Jacobian) { p.X < m && p.Y < m && p.Z < m }

    predicate OnCurveJ(p: Jacobian)
      requires m > 0
    {
      ReducedJ(p) && (p.Z == 0 || EquationJ(p))
    }

    predicate EquationJ(p: Jacobian)
      requires m > 0
    {
      (p.Y * p.Y) % m == (p.X * p.X * p.X + b * (p.Z * p.Z * p.Z * p.Z * p.Z * p.Z)) % m
    }

    function ToJacobian(a: Affine): Jacobian {
      if a == ZERO then GROUP_ZERO else Jacobian(a.x, a.y, 1)
    }

    function ToAffine(p: Jacobian): Affine
      requires m > 0
    {
      if p.Z == 0 then ZERO
      else
        var zi := FieldInv(p.Z);
        var zi2 := FieldMul(zi, zi);
        Affine(FieldMul(p.X, zi2), FieldMul(p.Y, FieldMul(zi2, zi)))
    }

    function Dbl(p: Jacobian): Jacobian
      requires m > 0
    {
      if p.Z == 0 then p
      else
        var t0 := FieldMul(p.Y, p.Y);
        var s := FieldMul(4, FieldMul(p.X, t0));
        var t3 := FieldMul(3, FieldMul(p.X, p.X));
        var x := FieldSub(FieldMul(t3, t3), FieldMul(2, s));
        var t8 := FieldMul(8, FieldMul(t0, t0));
        Jacobian(
          x,
          FieldSub(FieldMul(t3, FieldSub(s, x)), t8),
          FieldMul(2, FieldMul(p.Y, p.Z)))
    }

    /** The general addition formula, without the special cases. */
    function AddFormula(p: Jacobian, q: Jacobian): Jacobian
      requires m > 0
    {
      var zz2 := FieldMul(q.Z, q.Z);
      var zz1 := FieldMul(p.Z, p.Z);
      var u1 := FieldMul(p.X, zz2);
      var u2 := FieldMul(q.X, zz1);
      var s1 := FieldMul(p.Y, FieldMul(zz2, q.Z));
      var s2 := FieldMul(q.Y, FieldMul(zz1, p.Z));
      AddScaled(u1, u2, s1, s2, p.Z, q.Z)
    }

    /** Its second half, on coordinates brought to a common scale. */
    function AddScaled(u1: nat, u2: nat, s1: nat, s2: nat, z1: nat, z2: nat): Jacobian
      requires m > 0
    {
      var d := FieldSub(u2, u1);
      var r := FieldSub(s2, s1);
      var d2 := FieldMul(d, d);
      var x := FieldSub(FieldMul(r, r), FieldMul(FieldAdd(u1, u2), d2));
      Jacobian(
        x,
        FieldSub(FieldMul(r, FieldSub(FieldMul(u1, d2), x)), FieldMul(s1, FieldMul(d2, d))),
        FieldMul(z1, FieldMul(z2, d)))
    }

    function Add(p: Jacobian, q: Jacobian): Jacobian
      requires m > 0
    {
      if p.Z == 0 then q
      else if q.Z == 0 then p
      else if p == q then Dbl(p)
      else AddFormula(p, q)
    }

    // ---- representation ---------------------------------------------------

    /** `p` is a finite Jacobian representative of the affine pair `a`. */
    ghost predicate Represents(p: Jacobian, a: Affine)
      requires m > 0
    {
      && !Eq(m, p.Z, 0)
      && Eq(m, p.X, a.x * (p.Z * p.Z))
      && Eq(m, p.Y, a.y * (p.Z * p.Z * p.Z))
    }

    lemma NonzeroResidue(a: nat)
      requires m > 0 && a < m
      ensures Eq(m, a, 0) <==> a == 0
    {
      ModUnique(m, a, 0, a);
      ModUnique(m, 0, 0, 0);
    }

    lemma ToAffineRepresents(p: Jacobian)
      requires Valid() && ReducedJ(p) && p.Z != 0
      ensures Reduced(ToAffine(p)) && Represents(p, ToAffine(p))
    {
      var zi := FieldInv(p.Z);
      var zi2 := FieldMul(zi, zi);
      InverseScales(p.Z);
      Descale(p.X, zi2, p.Z * p.Z);
      Descale(p.Y, FieldMul(zi2, zi), p.Z * p.Z * p.Z);
    }

    lemma InverseScales(z: nat)
      requires Valid() && 0 < z < m
      ensures !Eq(m, z, 0)
      ensures var zi := FieldInv(z);
        Eq(m, FieldMul(zi, zi) * (z * z), 1) && Eq(m, FieldMul(FieldMul(zi, zi), zi) * (z * z * z), 1)
    {
      NonzeroResidue(z);
      var zi := FieldInv(z);
      InverseIsInverse(m, z);
      InversePowers(z, zi);
      ReducedSquare(zi, z * z);
      ReducedCube(zi, z * z * z);
    }

    lemma ReducedSquare(i: nat, s: int)
      requires m > 0
      ensures Eq(m, FieldMul(i, i) * s, (i * i) * s)
    {
      Ops(m, i, i, i, i);
      EqMul(m, FieldMul(i, i), i * i, s, s);
    }

    lemma ReducedCube(i: nat, s: int)
      requires m > 0
      ensures Eq(m, FieldMul(FieldMul(i, i), i) * s, ((i * i) * i) * s)
    {
      Ops(m, i, i, i, i);
      Ops(m, FieldMul(i, i), i * i, i, i);
      EqMul(m, FieldMul(FieldMul(i, i), i), (i * i) * i, s, s);
    }

    lemma InversePowers(z: int, i: int)
      requires m > 0 && Eq(m, z * i, 1)
      ensures Eq(m, (i * i) * (z * z), 1) && Eq(m, ((i * i) * i) * ((z * z) * z), 1)
    {
      var u := i * z;
      assert u == z * i;
      EqMul(m, u, 1, u, 1);
      EqMul(m, u * u, 1, u, 1);
      MulSwap(i, i, z, z);
      MulSwap(i * i, i, z * z, z);
    }

    /** Multiplying by a scale undoes multiplying by its inverse. */
    lemma Descale(a: nat, i: nat, s: int)
      requires m > 0 && Eq(m, i * s, 1)
      ensures FieldMul(a, i) < m && Eq(m, a, FieldMul(a, i) * s)
    {
      EqReduce(m, a * i);
      EqMul(m, FieldMul(a, i), a * i, s, s);
      Assoc(a, i, s);
      EqMul(m, a, a, i * s, 1);
    }

    lemma RepresentsUnique(p: Jacobian, a: Affine)
      requires Valid() && ReducedJ(p) && Reduced(a) && Represents(p, a)
      ensures ToAffine(p) == a && p.Z != 0
    {
      var c := ToAffine(p);
      NonzeroResidue(p.Z);
      ToAffineRepresents(p);
      NonzeroProduct(m, p.Z, p.Z);
      NonzeroProduct(m, p.Z * p.Z, p.Z);
      Cancel(m, a.x, c.x, p.Z * p.Z);
      Cancel(m, a.y, c.y, p.Z * p.Z * p.Z);
      EqSmall(m, a.x, c.x);
      EqSmall(m, a.y, c.y);
    }

    /** The affine and the Jacobian curve equation agree on every representative. */
    lemma EquationsAgree(p: Jacobian, a: Affine)
      requires Valid() && Represents(p, a)
      ensures EquationJ(p) <==> Equation(a)
    {
      var z := p.Z;
      var z2, z3, z6 := z * z, z * z * z, z * z * z * z * z * z;
      assert z3 * z3 == z6 && (z2 * z2) * z2 == z6 by { SixthPower(z); }
      var y2, x3 := a.y * a.y, (a.x * a.x) * a.x;
      EqMul(m, p.Y, a.y * z3, p.Y, a.y * z3);
      MulSwap(a.y, z3, a.y, z3);
      EqMul(m, p.X, a.x * z2, p.X, a.x * z2);
      EqMul(m, p.X * p.X, (a.x * z2) * (a.x * z2), p.X, a.x * z2);
      MulSwap(a.x, z2, a.x, z2);
      MulSwap(a.x * a.x, z2 * z2, a.x, z2);
      EqAdd(m, p.X * p.X * p.X, x3 * z6, b * z6, b * z6);
      assert x3 * z6 + b * z6 == (x3 + b) * z6;
      NonzeroSixth(z);
      if Equation(a) {
        EqMul(m, y2, x3 + b, z6, z6);
      }
      if EquationJ(p) {
        Cancel(m, y2, x3 + b, z6);
      }
    }

    lemma NonzeroSixth(z: nat)
      requires Valid() && !Eq(m, z, 0)
      ensures !Eq(m, z * z * z * z * z * z, 0)
    {
      NonzeroProduct(m, z, z);
      NonzeroProduct(m, z * z, z);
      NonzeroProduct(m, z * z * z, z);
      NonzeroProduct(m, z * z * z * z, z);
      NonzeroProduct(m, z * z * z * z * z, z);
    }

    // ---- the line through two points, scaled by its denominator -------------

    ghost function LineX(t: int, h2: int, x1: int, x2: int): int { t * t - (x1 + x2) * h2 }

    ghost function LineY(t: int, h: int, x1: int, x2: int, y1: int): int {
      t * (x1 * (h * h) - LineX(t, h * h, x1, x2)) - y1 * ((h * h) * h)
    }

    lemma LineXScaled(x: int, t: int, h: int, l: int, x1: int, x2: int)
      requires m > 0 && Eq(m, l * h, t) && Eq(m, x, l * l - x1 - x2)
      ensures Eq(m, x * (h * h), LineX(t, h * h, x1, x2))
    {
      var h2 := h * h;
      EqMul(m, l * h, t, l * h, t);
      MulSwap(l, h, l, h);
      EqMul(m, x, l * l - x1 - x2, h2, h2);
      assert (l * l - x1 - x2) * h2 == (l * l) * h2 - (x1 + x2) * h2;
      EqAdd(m, (l * l) * h2, t * t, (x1 + x2) * h2, (x1 + x2) * h2);
    }

    lemma LineYScaled(x: int, y: int, t: int, h: int, l: int, x1: int, x2: int, y1: int)
      requires m > 0 && Eq(m, l * h, t) && Eq(m, x, l * l - x1 - x2) && Eq(m, y, l * (x1 - x) - y1)
      ensures Eq(m, y * ((h * h) * h), LineY(t, h, x1, x2, y1))
    {
      var n, h2, h3 := LineX(t, h * h, x1, x2), h * h, (h * h) * h;
      LineXScaled(x, t, h, l, x1, x2);
      EqMul(m, y, l * (x1 - x) - y1, h3, h3);
      LineYExpand(l, h, x1, x, y1);
      EqAdd(m, x1 * h2, x1 * h2, x * h2, n);
      EqMul(m, l * h, t, x1 * h2 - x * h2, x1 * h2 - n);
      EqAdd(m, (l * h) * (x1 * h2 - x * h2), t * (x1 * h2 - n), y1 * h3, y1 * h3);
    }

    /** A result whose coordinates are those of the line of slope t / h, scaled by Z = h * w,
        represents the third point of that line, reflected. */
    lemma LineRepresents(r: Jacobian, c: Affine, t: int, h: int, w: int, l: int, x1: int, x2: int, y1: int)
      requires Valid() && !Eq(m, h, 0) && !Eq(m, w, 0)
      requires Eq(m, l * h, t)
      requires Eq(m, c.x, l * l - x1 - x2) && Eq(m, c.y, l * (x1 - c.x) - y1)
      requires Eq(m, r.X, LineX(t, h * h, x1, x2) * (w * w))
      requires Eq(m, r.Y, LineY(t, h, x1, x2, y1) * ((w * w) * w))
      requires Eq(m, r.Z, h * w)
      ensures Represents(r, c)
    {
      NonzeroProduct(m, h, w);
      LineXScaled(c.x, t, h, l, x1, x2);
      LineYScaled(c.x, c.y, t, h, l, x1, x2, y1);
      MulSwap(h, w, h, w);
      MulSwap(h * h, w * w, h, w);
      EqMul(m, r.Z, h * w, r.Z, h * w);
      Rescaled(r.X, c.x, LineX(t, h * h, x1, x2), h * h, w * w, h * w, h * w, r.Z, r.Z);
      Rescaled(r.Y, c.y, LineY(t, h, x1, x2, y1), (h * h) * h, (w * w) * w,
               (h * w) * (h * w), h * w, r.Z * r.Z, r.Z);
    }

    lemma LineYExpand(l: int, h: int, x1: int, x: int, y1: int)
      ensures (l * (x1 - x) - y1) * ((h * h) * h)
           == (l * h) * (x1 * (h * h) - x * (h * h)) - y1 * ((h * h) * h)
    {
      MulSwap(l, x1 - x, h, h * h);
      assert (x1 - x) * (h * h) == x1 * (h * h) - x * (h * h);
    }

    /** Moves a scaled coordinate from the scale `h * w` to the congruent scale `z`. */
    lemma Rescaled(r: int, c: int, n: int, h: int, w: int, s1: int, s2: int, z1: int, z2: int)
      requires m > 0 && Eq(m, r, n * w) && Eq(m, c * h, n)
      requires s1 * s2 == h * w && Eq(m, z1, s1) && Eq(m, z2, s2)
      ensures Eq(m, r, c * (z1 * z2))
    {
      EqMul(m, z1, s1, z2, s2);
      EqMul(m, c, c, z1 * z2, h * w);
      assert c * (h * w) == (c * h) * w;
      EqMul(m, c * h, n, w, w);
    }

    // ---- the affine law stays on the curve ----------------------------------

    lemma SlopeTimesRun(a: Affine, c: Affine)
      requires Valid() && !Eq(m, Run(a, c), 0)
      ensures Eq(m, Slope(a, c) * Run(a, c), Rise(a, c))
    {
      var i, h, t := Inverse(m, Run(a, c)), Run(a, c), Rise(a, c);
      InverseIsInverse(m, h);
      EqMul(m, t, t, h * i, 1);
      MulRotate(t, i, h);
    }

    /** Two points with the same x on the curve are equal or opposite, so the run of a line the
        law uses is never zero. */
    lemma RunNonzero(a: Affine, c: Affine)
      requires Valid() && OnCurve(a) && OnCurve(c) && a != ZERO && c != ZERO
      requires !(a.x == c.x && (a.y + c.y) % m == 0)
      ensures !Eq(m, Run(a, c), 0)
      ensures a.x == c.x ==> a == c
    {
      ModUnique(m, 0, 0, 0);
      if a.x == c.x {
        SquareRoots(m, a.y, c.y);
        if Eq(m, a.y, c.y) {
          EqSmall(m, a.y, c.y);
        }
        assert a.y + c.y == 2 * a.y;
      } else {
        if Eq(m, c.x - a.x, 0) {
          EqAdd(m, c.x - a.x, 0, a.x, a.x);
          assert c.x - a.x + a.x == c.x;
          EqSmall(m, c.x, a.x);
        }
      }
    }

    /** g(x) = x^3 + b - (l (x - x1) + y1)^2, the curve restricted to a line. */
    ghost function OnLine(l: int, x1: int, y1: int, x: int): int {
      x * x * x + b - (l * (x - x1) + y1) * (l * (x - x1) + y1)
    }

    /** The curve restricted to a line is a monic cubic whose roots sum to l^2, up to a linear
        remainder A x + B. */
    lemma LineCubic(l: int, x1: int, y1: int, x2: int, x3: int, x: int)
      ensures var e := l * l - x1 - x2 - x3;
        OnLine(l, x1, y1, x)
        == (x - x1) * (x - x2) * (x - x3)
         + (LineA(l, x1, y1, x2, x3) * x + LineB(l, x1, y1, x2, x3)) - e * (x * x)
    {
    }

    ghost function LineA(l: int, x1: int, y1: int, x2: int, x3: int): int {
      2 * l * (l * x1 - y1) - (x1 * x2 + x1 * x3 + x2 * x3)
    }

    ghost function LineB(l: int, x1: int, y1: int, x2: int, x3: int): int {
      b - (y1 - l * x1) * (y1 - l * x1) + x1 * x2 * x3
    }

    lemma ZeroFactor(a: int, c: int, d: int)
      requires a == 0 || c == 0
      ensures a * c * d == 0
    {
    }

    /** At a root of the line cubic the linear remainder vanishes. */
    lemma RemainderAtRoot(l: int, x1: int, y1: int, x2: int, x3: int, x: int)
      requires m > 0 && Eq(m, x3, l * l - x1 - x2)
      requires Eq(m, OnLine(l, x1, y1, x), 0) && (x == x1 || x == x2)
      ensures Eq(m, LineA(l, x1, y1, x2, x3) * x + LineB(l, x1, y1, x2, x3), 0)
    {
      var e := l * l - x1 - x2 - x3;
      EqAdd(m, l * l - x1 - x2, x3, x3, x3);
      EqMul(m, e, 0, x * x, x * x);
      LineCubic(l, x1, y1, x2, x3, x);
      ZeroFactor(x - x1, x - x2, x - x3);
      EqAdd(m, OnLine(l, x1, y1, x), 0, e * (x * x), 0);
    }

    /** If the line meets the curve at x1 and the remainder has no linear term, the line also meets
        the curve at x3 = l^2 - x1 - x2. */
    lemma ThirdRoot(l: int, x1: int, y1: int, x2: int, x3: int)
      requires m > 0 && Eq(m, x3, l * l - x1 - x2)
      requires Eq(m, OnLine(l, x1, y1, x1), 0) && Eq(m, LineA(l, x1, y1, x2, x3), 0)
      ensures Eq(m, OnLine(l, x1, y1, x3), 0)
    {
      var A, B, e := LineA(l, x1, y1, x2, x3), LineB(l, x1, y1, x2, x3), l * l - x1 - x2 - x3;
      RemainderAtRoot(l, x1, y1, x2, x3, x1);
      EqMul(m, A, 0, x1, x1);
      EqAdd(m, A * x1 + B, 0, A * x1, 0);
      EqMul(m, A, 0, x3, x3);
      EqAdd(m, A * x3, 0, B, 0);
      EqAdd(m, l * l - x1 - x2, x3, x3, x3);
      EqMul(m, e, 0, x3 * x3, x3 * x3);
      LineCubic(l, x1, y1, x2, x3, x3);
      EqAdd(m, A * x3 + B, 0, e * (x3 * x3), 0);
    }

    lemma ChordHasNoLinearTerm(l: int, x1: int, y1: int, x2: int, y2: int, x3: int)
      requires Valid() && Eq(m, x3, l * l - x1 - x2) && !Eq(m, x2 - x1, 0)
      requires Eq(m, l * (x2 - x1), y2 - y1)
      requires Eq(m, y1 * y1, x1 * x1 * x1 + b) && Eq(m, y2 * y2, x2 * x2 * x2 + b)
      ensures Eq(m, OnLine(l, x1, y1, x1), 0) && Eq(m, LineA(l, x1, y1, x2, x3), 0)
    {
      var A, B := LineA(l, x1, y1, x2, x3), LineB(l, x1, y1, x2, x3);
      EqAdd(m, x1 * x1 * x1 + b, y1 * y1, y1 * y1, y1 * y1);
      RemainderAtRoot(l, x1, y1, x2, x3, x1);
      EqAdd(m, l * (x2 - x1), y2 - y1, y1, y1);
      var v := l * (x2 - x1) + y1;
      EqMul(m, v, y2, v, y2);
      EqAdd(m, x2 * x2 * x2 + b, y2 * y2, v * v, y2 * y2);
      RemainderAtRoot(l, x1, y1, x2, x3, x2);
      EqAdd(m, A * x2 + B, 0, A * x1 + B, 0);
      assert (A * x2 + B) - (A * x1 + B) == A * (x2 - x1);
      ZeroProduct(m, A, x2 - x1);
    }

    lemma TangentHasNoLinearTerm(l: int, x1: int, y1: int, x3: int)
      requires Valid() && Eq(m, x3, l * l - x1 - x1)
      requires Eq(m, l * (2 * y1), 3 * (x1 * x1)) && Eq(m, y1 * y1, x1 * x1 * x1 + b)
      ensures Eq(m, OnLine(l, x1, y1, x1), 0) && Eq(m, LineA(l, x1, y1, x1, x3), 0)
    {
      var e := l * l - x1 - x1 - x3;
      EqAdd(m, x1 * x1 * x1 + b, y1 * y1, y1 * y1, y1 * y1);
      EqAdd(m, l * l - x1 - x1, x3, x3, x3);
      EqMul(m, 2 * x1, 2 * x1, e, 0);
      EqAdd(m, 3 * (x1 * x1), 3 * (x1 * x1), l * (2 * y1), 3 * (x1 * x1));
      EqAdd(m, (2 * x1) * e, 0, 3 * (x1 * x1) - l * (2 * y1), 0);
      assert LineA(l, x1, y1, x1, x3) == (2 * x1) * e + (3 * (x1 * x1) - l * (2 * y1));
    }

    lemma ZeroNotOnEquation()
      requires Valid()
      ensures !Equation(ZERO)
    {
      ModUnique(m, 0, 0, 0);
    }

    /** The third point of a line through two points of the curve is on the curve. */
    lemma ThirdPointOnCurve(a: Affine, c: Affine)
      requires Valid() && OnCurve(a) && OnCurve(c) && a != ZERO && c != ZERO
      requires !(a.x == c.x && (a.y + c.y) % m == 0)
      ensures Equation(Plus(a, c)) && Reduced(Plus(a, c))
    {
      var l, s := Slope(a, c), Plus(a, c);
      RunNonzero(a, c);
      SlopeTimesRun(a, c);
      EqReduce(m, l * l - a.x - c.x);
      if a.x == c.x {
        TangentHasNoLinearTerm(l, a.x, a.y, s.x);
      } else {
        ChordHasNoLinearTerm(l, a.x, a.y, c.x, c.y, s.x);
      }
      ThirdRoot(l, a.x, a.y, c.x, s.x);
      EqReduce(m, l * (a.x - s.x) - a.y);
      ReflectOnLine(l, a.x, a.y, s.x, s.y);
    }

    lemma ReflectOnLine(l: int, x1: int, y1: int, x: int, y: int)
      requires m > 0 && Eq(m, OnLine(l, x1, y1, x), 0) && Eq(m, y, l * (x1 - x) - y1)
      ensures Eq(m, y * y, x * x * x + b)
    {
      var v := l * (x - x1) + y1;
      assert l * (x1 - x) - y1 == -v;
      EqMul(m, y, -v, y, -v);
      assert (-v) * (-v) == v * v;
      EqAdd(m, OnLine(l, x1, y1, x), 0, v * v, v * v);
    }

    /** The affine law is closed on the curve, and yields infinity exactly for opposite points. */
    lemma PlusOnCurve(a: Affine, c: Affine)
      requires Valid() && OnCurve(a) && OnCurve(c)
      ensures OnCurve(Plus(a, c))
      ensures a != ZERO && c != ZERO ==> (Plus(a, c) == ZERO <==> a.x == c.x && (a.y + c.y) % m == 0)
    {
      if a != ZERO && c != ZERO && !(a.x == c.x && (a.y + c.y) % m == 0) {
        ThirdPointOnCurve(a, c);
        ZeroNotOnEquation();
      }
    }

    // ---- the Jacobian formulas refine the affine law -------------------------

    /** For a finite point with y != 0 the doubling formula represents the tangent's result. */
    lemma DblRepresents(p: Jacobian, a: Affine)
      requires Valid() && ReducedJ(p) && OnCurve(a) && a != ZERO && Represents(p, a) && p.Z != 0
      requires (a.y + a.y) % m != 0
      ensures Represents(Dbl(p), Plus(a, a))
    {
      ModUnique(m, 0, 0, 0);
      RunNonzero(a, a);
      SlopeTimesRun(a, a);
      var l, c := Slope(a, a), Plus(a, a);
      EqReduce(m, l * l - a.x - a.x);
      EqReduce(m, l * (a.x - c.x) - a.y);
      var z2 := p.Z * p.Z;
      var h, t, w := 2 * a.y, 3 * (a.x * a.x), z2 * z2;
      DblCoordinates(p, a.x, a.y);
      NonzeroProduct(m, p.Z, p.Z);
      NonzeroProduct(m, z2, z2);
      LineRepresents(Dbl(p), c, t, h, w, l, a.x, a.x, a.y);
    }

    lemma DblCoordinates(p: Jacobian, x: int, y: int)
      requires m > 0 && p.Z != 0
      requires Eq(m, p.X, x * (p.Z * p.Z)) && Eq(m, p.Y, y * (p.Z * p.Z * p.Z))
      ensures var r, h, t, w := Dbl(p), 2 * y, 3 * (x * x), (p.Z * p.Z) * (p.Z * p.Z);
        && Eq(m, r.X, LineX(t, h * h, x, x) * (w * w))
        && Eq(m, r.Y, LineY(t, h, x, x, y) * ((w * w) * w))
        && Eq(m, r.Z, h * w)
    {
      var z, z2, z3 := p.Z, p.Z * p.Z, p.Z * p.Z * p.Z;
      var w := z2 * z2;
      var w2, w3 := w * w, (w * w) * w;
      var t, h := 3 * (x * x), 2 * y;
      var k, e := x * (h * h), y * ((h * h) * h);
      var t0 := FieldMul(p.Y, p.Y);
      var s, t3 := FieldMul(4, FieldMul(p.X, t0)), FieldMul(3, FieldMul(p.X, p.X));
      var x3 := FieldSub(FieldMul(t3, t3), FieldMul(2, s));
      DblPowers(z);
      DblT0(p.Y, y, z3, w * z2);
      DblS(p.X, t0, x, y, z2, w * z2, w2);
      DblM(p.X, x, z2, w);
      DblX(t3, s, t, k, w, w2);
      assert t * t - 2 * k == LineX(t, h * h, x, x);
      DblT8(t0, y, w, z2, w2, w3);
      DblY(t3, s, x3, FieldMul(8, FieldMul(t0, t0)), t, k, LineX(t, h * h, x, x), e, w, w2, w3);
      DblZ(p.Y, y, z, z3, w);
    }

    lemma DblT0(Y: nat, y: int, z3: int, z6: int)
      requires m > 0 && Eq(m, Y, y * z3) && z3 * z3 == z6
      ensures Eq(m, FieldMul(Y, Y), (y * y) * z6)
    {
      Ops(m, Y, y * z3, Y, y * z3);
      MulSwap(y, z3, y, z3);
    }

    lemma DblS(X: nat, t0: nat, x: int, y: int, z2: int, z6: int, w2: int)
      requires m > 0 && Eq(m, X, x * z2) && Eq(m, t0, (y * y) * z6) && z2 * z6 == w2
      ensures Eq(m, FieldMul(4, FieldMul(X, t0)), (x * ((2 * y) * (2 * y))) * w2)
    {
      Ops(m, X, x * z2, t0, (y * y) * z6);
      MulSwap(x, z2, y * y, z6);
      var k := x * (y * y);
      Ops(m, 4, 4, FieldMul(X, t0), k * w2);
      assert x * ((2 * y) * (2 * y)) == 4 * k;
      assert (4 * k) * w2 == 4 * (k * w2);
    }

    lemma DblM(X: nat, x: int, z2: int, w: int)
      requires m > 0 && Eq(m, X, x * z2) && z2 * z2 == w
      ensures Eq(m, FieldMul(3, FieldMul(X, X)), (3 * (x * x)) * w)
    {
      Ops(m, X, x * z2, X, x * z2);
      MulSwap(x, z2, x, z2);
      Ops(m, 3, 3, FieldMul(X, X), (x * x) * w);
      assert (3 * (x * x)) * w == 3 * ((x * x) * w);
    }

    lemma DblZ(Y: nat, y: int, z: nat, z3: int, w: int)
      requires m > 0 && Eq(m, Y, y * z3) && z3 * z == w
      ensures Eq(m, FieldMul(2, FieldMul(Y, z)), (2 * y) * w)
    {
      Ops(m, Y, y * z3, z, z);
      assert (y * z3) * z == y * w;
      Ops(m, 2, 2, FieldMul(Y, z), y * w);
      assert (2 * y) * w == 2 * (y * w);
    }

    lemma DblPowers(z: int)
      ensures (z * z * z) * (z * z * z) == ((z * z) * (z * z)) * (z * z)
      ensures (z * z) * (((z * z) * (z * z)) * (z * z)) == ((z * z) * (z * z)) * ((z * z) * (z * z))
      ensures (z * z * z) * z == (z * z) * (z * z)
    {
    }

    lemma DblX(t3: nat, s: nat, t: int, k: int, w: int, w2: int)
      requires m > 0 && Eq(m, t3, t * w) && Eq(m, s, k * w2) && w * w == w2
      ensures Eq(m, FieldSub(FieldMul(t3, t3), FieldMul(2, s)), (t * t - 2 * k) * w2)
    {
      Ops(m, t3, t * w, t3, t * w);
      MulSwap(t, w, t, w);
      Ops(m, 2, 2, s, k * w2);
      Ops(m, FieldMul(t3, t3), (t * t) * w2, FieldMul(2, s), 2 * (k * w2));
      Assoc(2, k, w2);
      Factor(t * t, 2 * k, w2);
    }

    lemma DblT8(t0: nat, y: int, w: int, z2: int, w2: int, w3: int)
      requires m > 0 && Eq(m, t0, (y * y) * (w * z2)) && w == z2 * z2 && w2 == w * w && w3 == w2 * w
      ensures Eq(m, FieldMul(8, FieldMul(t0, t0)), (y * (((2 * y) * (2 * y)) * (2 * y))) * w3)
    {
      Ops(m, t0, (y * y) * (w * z2), t0, (y * y) * (w * z2));
      MulSwap(y * y, w * z2, y * y, w * z2);
      MulSwap(w, z2, w, z2);
      var y4 := (y * y) * (y * y);
      Ops(m, 8, 8, FieldMul(t0, t0), y4 * w3);
      EightFourth(y);
      assert (8 * y4) * w3 == 8 * (y4 * w3);
    }

    lemma EightFourth(y: int)
      ensures y * (((2 * y) * (2 * y)) * (2 * y)) == 8 * ((y * y) * (y * y))
    {
    }

    lemma DblY(t3: nat, s: nat, x: nat, t8: nat, t: int, k: int, n: int, e: int, w: int, w2: int, w3: int)
      requires m > 0 && Eq(m, t3, t * w) && Eq(m, s, k * w2) && w * w2 == w3
      requires Eq(m, x, n * w2) && Eq(m, t8, e * w3)
      ensures Eq(m, FieldSub(FieldMul(t3, FieldSub(s, x)), t8), (t * (k - n) - e) * w3)
    {
      Ops(m, s, k * w2, x, n * w2);
      assert k * w2 - n * w2 == (k - n) * w2;
      Ops(m, t3, t * w, FieldSub(s, x), (k - n) * w2);
      MulSwap(t, w, k - n, w2);
      Ops(m, FieldMul(t3, FieldSub(s, x)), (t * (k - n)) * w3, t8, e * w3);
      Factor(t * (k - n), e, w3);
    }

    lemma Factor(a: int, c: int, w: int)
      ensures a * w - c * w == (a - c) * w
    {
    }

    lemma AddFormulaCoordinates(p: Jacobian, q: Jacobian, a: Affine, c: Affine)
      requires m > 0
      requires Eq(m, p.X, a.x * (p.Z * p.Z)) && Eq(m, p.Y, a.y * (p.Z * p.Z * p.Z))
      requires Eq(m, q.X, c.x * (q.Z * q.Z)) && Eq(m, q.Y, c.y * (q.Z * q.Z * q.Z))
      ensures var r, h, t := AddFormula(p, q), c.x - a.x, c.y - a.y;
        var v := p.Z * q.Z;
        var w := (v * v) * v;
        && Eq(m, r.X, LineX(t, h * h, a.x, c.x) * (w * w))
        && Eq(m, r.Y, LineY(t, h, a.x, c.x, a.y) * ((w * w) * w))
        && Eq(m, r.Z, h * w)
      ensures Eq(m, c.x - a.x, 0) ==> AddFormula(p, q).Z == 0
    {
      var v := p.Z * q.Z;
      CommonScale(p.X, p.Y, a.x, a.y, p.Z, q.Z);
      CommonScale(q.X, q.Y, c.x, c.y, q.Z, p.Z);
      assert q.Z * p.Z == v;
      var zz2, zz1 := FieldMul(q.Z, q.Z), FieldMul(p.Z, p.Z);
      AddScaledCoordinates(FieldMul(p.X, zz2), FieldMul(q.X, zz1), FieldMul(p.Y, FieldMul(zz2, q.Z)),
                           FieldMul(q.Y, FieldMul(zz1, p.Z)), p.Z, q.Z, a.x, c.x, a.y, c.y, v);
    }

    lemma AddScaledCoordinates(u1: nat, u2: nat, s1: nat, s2: nat, z1: nat, z2: nat,
                               x1: int, x2: int, y1: int, y2: int, v: int)
      requires m > 0 && v == z1 * z2
      requires Eq(m, u1, x1 * (v * v)) && Eq(m, u2, x2 * (v * v))
      requires Eq(m, s1, y1 * ((v * v) * v)) && Eq(m, s2, y2 * ((v * v) * v))
      ensures var r, h, t := AddScaled(u1, u2, s1, s2, z1, z2), x2 - x1, y2 - y1;
        var w := (v * v) * v;
        && Eq(m, r.X, LineX(t, h * h, x1, x2) * (w * w))
        && Eq(m, r.Y, LineY(t, h, x1, x2, y1) * ((w * w) * w))
        && Eq(m, r.Z, h * w)
      ensures Eq(m, x2 - x1, 0) ==> AddScaled(u1, u2, s1, s2, z1, z2).Z == 0
    {
      var v2 := v * v;
      var w := v2 * v;
      var w2, w3 := w * w, (w * w) * w;
      var h, t := x2 - x1, y2 - y1;
      var h2 := h * h;
      var d, r := FieldSub(u2, u1), FieldSub(s2, s1);
      var d2 := FieldMul(d, d);
      var x := FieldSub(FieldMul(r, r), FieldMul(FieldAdd(u1, u2), d2));
      Ops(m, u2, x2 * v2, u1, x1 * v2);
      Factor(x2, x1, v2);
      Ops(m, s2, y2 * w, s1, y1 * w);
      Factor(y2, y1, w);
      AddD2(d, h, v2);
      ScalePowers(v);
      AddX(r, u1, u2, d2, t, h2, x1, x2, w, v2, v2 * v2, w2);
      Ops(m, u1, x1 * v2, d2, h2 * (v2 * v2));
      MulSwap(x1, v2, h2, v2 * v2);
      AddS(s1, d, d2, y1, h, v2, w, w3);
      DblY(r, FieldMul(u1, d2), x, FieldMul(s1, FieldMul(d2, d)),
           t, x1 * h2, LineX(t, h2, x1, x2), y1 * (h2 * h), w, w2, w3);
      AddZ(z1, z2, d, h, v2, w);
      ZeroScaled(z1 * FieldMul(z2, d), h, w);
    }

    lemma ZeroScaled(z: int, h: int, w: int)
      requires m > 0 && Eq(m, z % m, h * w)
      ensures Eq(m, h, 0) ==> z % m == 0
    {
      if Eq(m, h, 0) {
        EqMul(m, h, 0, w, w);
        ModUnique(m, 0, 0, 0);
        EqReduce(m, z);
      }
    }

    /** Both operands brought to the common scale Z1 * Z2. */
    lemma CommonScale(X: nat, Y: nat, x: int, y: int, z1: nat, z2: nat)
      requires m > 0 && Eq(m, X, x * (z1 * z1)) && Eq(m, Y, y * (z1 * z1 * z1))
      ensures var v := z1 * z2;
        && Eq(m, FieldMul(X, FieldMul(z2, z2)), x * (v * v))
        && Eq(m, FieldMul(Y, FieldMul(FieldMul(z2, z2), z2)), y * ((v * v) * v))
    {
      Ops(m, z2, z2, z2, z2);
      var zz := FieldMul(z2, z2);
      Ops(m, zz, z2 * z2, z2, z2);
      Ops(m, X, x * (z1 * z1), zz, z2 * z2);
      Ops(m, Y, y * (z1 * z1 * z1), FieldMul(zz, z2), (z2 * z2) * z2);
      MulSwap(z1, z1, z2, z2);
      MulSwap(z1 * z1, z1, z2 * z2, z2);
      Assoc(x, z1 * z1, z2 * z2);
      Assoc(y, z1 * z1 * z1, (z2 * z2) * z2);
    }

    lemma Assoc(a: int, c: int, d: int)
      ensures (a * c) * d == a * (c * d)
    {
    }

    lemma ScalePowers(v: int)
      ensures var v2, w := v * v, (v * v) * v; w * w == v2 * (v2 * v2)
    {
      MulSwap(v * v, v, v * v, v);
      Assoc(v * v, v * v, v * v);
    }

    lemma AddD2(d: nat, h: int, v2: int)
      requires m > 0 && Eq(m, d, h * v2)
      ensures Eq(m, FieldMul(d, d), (h * h) * (v2 * v2))
    {
      Ops(m, d, h * v2, d, h * v2);
      MulSwap(h, v2, h, v2);
    }

    lemma AddX(r: nat, u1: nat, u2: nat, d2: nat, t: int, h2: int, x1: int, x2: int,
               w: int, v2: int, v4: int, w2: int)
      requires m > 0 && Eq(m, r, t * w) && Eq(m, u1, x1 * v2) && Eq(m, u2, x2 * v2)
      requires Eq(m, d2, h2 * v4) && w * w == w2 && v2 * v4 == w2
      ensures Eq(m, FieldSub(FieldMul(r, r), FieldMul(FieldAdd(u1, u2), d2)), LineX(t, h2, x1, x2) * w2)
    {
      Ops(m, r, t * w, r, t * w);
      MulSwap(t, w, t, w);
      Ops(m, u1, x1 * v2, u2, x2 * v2);
      assert x1 * v2 + x2 * v2 == (x1 + x2) * v2;
      Ops(m, FieldAdd(u1, u2), (x1 + x2) * v2, d2, h2 * v4);
      MulSwap(x1 + x2, v2, h2, v4);
      Ops(m, FieldMul(r, r), (t * t) * w2, FieldMul(FieldAdd(u1, u2), d2), ((x1 + x2) * h2) * w2);
      Factor(t * t, (x1 + x2) * h2, w2);
    }

    lemma AddS(s1: nat, d: nat, d2: nat, y: int, h: int, v2: int, w: int, w3: int)
      requires m > 0 && Eq(m, s1, y * w) && Eq(m, d, h * v2) && Eq(m, d2, (h * h) * (v2 * v2))
      requires w * w == v2 * (v2 * v2) && w3 == (w * w) * w
      ensures Eq(m, FieldMul(s1, FieldMul(d2, d)), (y * ((h * h) * h)) * w3)
    {
      Ops(m, d2, (h * h) * (v2 * v2), d, h * v2);
      MulSwap(h * h, v2 * v2, h, v2);
      Ops(m, s1, y * w, FieldMul(d2, d), ((h * h) * h) * (w * w));
      MulSwap(y, w, (h * h) * h, w * w);
    }

    lemma AddZ(z1: nat, z2: nat, d: nat, h: int, v2: int, w: int)
      requires m > 0 && Eq(m, d, h * v2) && w == v2 * (z1 * z2)
      ensures Eq(m, FieldMul(z1, FieldMul(z2, d)), h * w)
    {
      Ops(m, z2, z2, d, h * v2);
      Ops(m, z1, z1, FieldMul(z2, d), z2 * (h * v2));
      Assoc(z1, z2, h * v2);
      Assoc(h, v2, z1 * z2);
    }

    /** For finite points with different x the general formula represents the chord's result. */
    lemma AddFormulaRepresents(p: Jacobian, q: Jacobian, a: Affine, c: Affine)
      requires Valid() && ReducedJ(p) && ReducedJ(q)
      requires OnCurve(a) && OnCurve(c) && a != ZERO && c != ZERO && a.x != c.x
      requires Represents(p, a) && Represents(q, c)
      ensures Represents(AddFormula(p, q), Plus(a, c))
    {
      RunNonzero(a, c);
      SlopeTimesRun(a, c);
      var l, s := Slope(a, c), Plus(a, c);
      EqReduce(m, l * l - a.x - c.x);
      EqReduce(m, l * (a.x - s.x) - a.y);
      AddFormulaCoordinates(p, q, a, c);
      var v := p.Z * q.Z;
      NonzeroProduct(m, p.Z, q.Z);
      NonzeroProduct(m, v, v);
      NonzeroProduct(m, v * v, v);
      LineRepresents(AddFormula(p, q), s, c.y - a.y, c.x - a.x, (v * v) * v, l, a.x, c.x, a.y);
    }

    // ---- main results on the point operations ---------------------------------

    /** A finite reduced point on the curve projects to a finite affine point on the curve, which
        it represents. */
    lemma ProjectOnCurve(p: Jacobian)
      requires Valid() && OnCurveJ(p) && p.Z != 0
      ensures ToAffine(p) != ZERO && OnCurve(ToAffine(p)) && Represents(p, ToAffine(p))
    {
      ToAffineRepresents(p);
      EquationsAgree(p, ToAffine(p));
      ModUnique(m, 0, 0, 0);
      assert Equation(ToAffine(p));
    }

    lemma RepresentativeOnCurve(r: Jacobian, a: Affine)
      requires Valid() && ReducedJ(r) && OnCurve(a) && a != ZERO && Represents(r, a)
      ensures OnCurveJ(r) && ToAffine(r) == a
    {
      EquationsAgree(r, a);
      RepresentsUnique(r, a);
    }

    lemma ReducedResults(p: Jacobian, q: Jacobian)
      requires m > 0
      ensures p.Z != 0 ==> ReducedJ(Dbl(p))
      ensures ReducedJ(AddFormula(p, q))
    {
    }

    /** `group_dbl` stays on the curve and is the affine doubling, for every representative. */
    lemma DblRefinesPlus(p: Jacobian)
      requires Valid() && OnCurveJ(p)
      ensures OnCurveJ(Dbl(p))
      ensures ToAffine(Dbl(p)) == Plus(ToAffine(p), ToAffine(p))
    {
      if p.Z != 0 {
        var a := ToAffine(p);
        ProjectOnCurve(p);
        ReducedResults(p, p);
        ModUnique(m, 0, 0, 0);
        if (a.y + a.y) % m == 0 {
          DblCoordinates(p, a.x, a.y);
          var z2 := p.Z * p.Z;
          EqMul(m, 2 * a.y, 0, z2 * z2, z2 * z2);
          NonzeroResidue(Dbl(p).Z);
        } else {
          PlusOnCurve(a, a);
          DblRepresents(p, a);
          RepresentativeOnCurve(Dbl(p), Plus(a, a));
        }
      }
    }

    lemma DoubleOfY(y: nat)
      requires Valid() && y < m
      ensures (y + y) % m == 0 <==> y == 0
    {
      ModUnique(m, 0, 0, 0);
      NonzeroResidue(2);
      NonzeroResidue(y);
      if (y + y) % m == 0 {
        ZeroProduct(m, 2, y);
      }
    }

    /** The inputs on which comparing raw coordinates misses a doubling. */
    predicate MissedDoubling(p: Jacobian, q: Jacobian)
      requires m > 0
    {
      p.Z != 0 && q.Z != 0 && p != q && ToAffine(p) == ToAffine(q)
    }

    /** `group_add` stays on the curve; a missed doubling yields Z == 0; and the result is the
        affine sum exactly when there is no missed doubling (of a point of order above two). */
    lemma AddRefinesPlus(p: Jacobian, q: Jacobian)
      requires Valid() && OnCurveJ(p) && OnCurveJ(q)
      ensures OnCurveJ(Add(p, q))
      ensures MissedDoubling(p, q) ==> Add(p, q).Z == 0
      ensures ToAffine(Add(p, q)) == Plus(ToAffine(p), ToAffine(q))
         <==> !(MissedDoubling(p, q) && ToAffine(p).y != 0)
    {
      var a, c := ToAffine(p), ToAffine(q);
      if p.Z != 0 && q.Z != 0 {
        ProjectOnCurve(p);
        ProjectOnCurve(q);
        PlusOnCurve(a, c);
        DoubleOfY(a.y);
        if p == q {
          DblRefinesPlus(p);
        } else {
          ReducedResults(p, q);
          if a.x == c.x {
            ModUnique(m, 0, 0, 0);
            AddFormulaCoordinates(p, q, a, c);
            if (a.y + c.y) % m != 0 {
              RunNonzero(a, c);
            }
          } else {
            AddFormulaRepresents(p, q, a, c);
            RepresentativeOnCurve(AddFormula(p, q), Plus(a, c));
          }
        }
      } else if p.Z != 0 {
        ProjectOnCurve(p);
      } else if q.Z != 0 {
        ProjectOnCurve(q);
      }
    }
  }
}
