/** The point operations of the signer on mutable Jacobian coordinates, and what they compute. */
module Groups {
  import opened ModArith
  import opened Curves
  import opened GroupLaw

  /** `group_t` */
  class Group {
    var X: nat
    var Y: nat
    var Z: nat

    constructor (p: Jacobian)
      ensures Value() == p
    {
      X, Y, Z := p.X, p.Y, p.Z;
    }

    function Value(): Jacobian
      reads this
    {
      Jacobian(X, Y, Z)
    }

    /** `group_copy` into this object. */
    method Assign(p: Group)
      modifies this
      ensures Value() == old(p.Value())
    {
      X, Y, Z := p.X, p.Y, p.Z;
    }
  }

  /** `group_dbl` writes r->X before it reads p->Y and p->Z, so r and p must differ. */
  method GroupDbl(c: Curve, r: Group, p: Group)
    requires c.m > 0 && r != p
    modifies r
    ensures r.Value() == c.Dbl(p.Value())
  {
    if p.Z == 0 {
      r.Assign(p);
      return;
    }
    var t0 := c.FieldMul(p.Y, p.Y);
    var t1 := c.FieldMul(p.X, t0);
    var S := c.FieldMul(4, t1);
    var t2 := c.FieldMul(p.X, p.X);
    var t3 := c.FieldMul(3, t2);
    var t4 := c.FieldMul(t3, t3);
    var t5 := c.FieldMul(2, S);
    r.X := c.FieldSub(t4, t5);
    var t6 := c.FieldSub(S, r.X);
    var t7 := c.FieldMul(t0, t0);
    var t8 := c.FieldMul(8, t7);
    var t9 := c.FieldMul(t3, t6);
    r.Y := c.FieldSub(t9, t8);
    var t10 := c.FieldMul(p.Y, p.Z);
    r.Z := c.FieldMul(2, t10);
  }

  /** `group_add`, which doubles only when the raw coordinates agree. */
  method GroupAdd(c: Curve, r: Group, p: Group, q: Group)
    requires c.m > 0 && r != p && r != q
    modifies r
    ensures r.Value() == c.Add(p.Value(), q.Value())
  {
    if p.Z == 0 {
      r.Assign(q);
      return;
    }
    if q.Z == 0 {
      r.Assign(p);
      return;
    }
    if p.X == q.X && p.Y == q.Y && p.Z == q.Z {
      GroupDbl(c, r, p);
      return;
    }
    var t0 := c.FieldMul(q.Z, q.Z);
    var U1 := c.FieldMul(p.X, t0);
    var t1 := c.FieldMul(p.Z, p.Z);
    var U2 := c.FieldMul(q.X, t1);
    var t2 := c.FieldMul(t0, q.Z);
    var S1 := c.FieldMul(p.Y, t2);
    t0 := c.FieldMul(t1, p.Z);
    var S2 := c.FieldMul(q.Y, t0);
    var P := c.FieldSub(U2, U1);
    var R := c.FieldSub(S2, S1);
    t1 := c.FieldAdd(U1, U2);
    t2 := c.FieldMul(R, R);
    U2 := c.FieldMul(P, P);
    S2 := c.FieldMul(t1, U2);
    r.X := c.FieldSub(t2, S2);
    t1 := c.FieldMul(U1, U2);
    t2 := c.FieldSub(t1, r.X);
    t0 := c.FieldMul(U2, P);
    S2 := c.FieldMul(S1, t0);
    U1 := c.FieldMul(R, t2);
    r.Y := c.FieldSub(U1, S2);
    U2 := c.FieldMul(q.Z, P);
    r.Z := c.FieldMul(p.Z, U2);
  }

  /** `group_is_on_curve`: the Z == 1 shortcut and the general branch decide the same equation. */
  method GroupIsOnCurve(c: Curve, p: Group) returns (ok: bool)
    requires c.m > 1 && c.ReducedJ(p.Value())
    ensures ok <==> c.OnCurveJ(p.Value())
  {
    if p.Z == 0 {
      return true;
    }
    var lhs, rhs;
    ghost var v := p.Value();
    if p.Z == 1 {
      lhs := c.FieldMul(p.Y, p.Y);
      rhs := c.FieldMul(p.X, p.X);
      rhs := c.FieldMul(rhs, p.X);
      rhs := c.FieldAdd(rhs, c.b);
      ShortEquation(c, p.X);
      assert p.Z * p.Z * p.Z * p.Z * p.Z * p.Z == 1;
    } else {
      var x3 := c.FieldMul(p.X, p.X);
      x3 := c.FieldMul(x3, p.X);
      lhs := c.FieldMul(p.Y, p.Y);
      var z6 := c.FieldMul(p.Z, p.Z);
      z6 := c.FieldMul(z6, z6);
      z6 := c.FieldMul(z6, p.Z);
      z6 := c.FieldMul(z6, p.Z);
      rhs := c.FieldMul(z6, c.b);
      rhs := c.FieldAdd(x3, rhs);
      GeneralEquation(c, p.X, p.Z);
    }
    return lhs == rhs;
  }

  lemma CubeIs(c: Curve, x: nat)
    requires c.m > 0
    ensures Eq(c.m, c.FieldMul(c.FieldMul(x, x), x), x * x * x)
  {
    Ops(c.m, x, x, x, x);
    Ops(c.m, c.FieldMul(x, x), x * x, x, x);
  }

  lemma ShortEquation(c: Curve, x: nat)
    requires c.m > 0
    ensures c.FieldAdd(c.FieldMul(c.FieldMul(x, x), x), c.b) == (x * x * x + c.b) % c.m
  {
    CubeIs(c, x);
    EqAdd(c.m, c.FieldMul(c.FieldMul(x, x), x), x * x * x, c.b, c.b);
  }

  lemma GeneralEquation(c: Curve, x: nat, z: nat)
    requires c.m > 0
    ensures
      var z2 := c.FieldMul(z, z);
      var z6 := c.FieldMul(c.FieldMul(c.FieldMul(z2, z2), z), z);
      c.FieldAdd(c.FieldMul(c.FieldMul(x, x), x), c.FieldMul(z6, c.b))
      == (x * x * x + c.b * (z * z * z * z * z * z)) % c.m
  {
    var m := c.m;
    CubeIs(c, x);
    Ops(m, z, z, z, z);
    var z2 := c.FieldMul(z, z);
    Ops(m, z2, z * z, z2, z * z);
    var z4 := c.FieldMul(z2, z2);
    Ops(m, z4, (z * z) * (z * z), z, z);
    var z5 := c.FieldMul(z4, z);
    Ops(m, z5, ((z * z) * (z * z)) * z, z, z);
    var z6 := c.FieldMul(z5, z);
    SixFactors(z);
    Ops(m, z6, z * z * z * z * z * z, c.b, c.b);
    var t := c.FieldMul(z6, c.b);
    EqAdd(m, c.FieldMul(c.FieldMul(x, x), x), x * x * x, t, (z * z * z * z * z * z) * c.b);
  }

  lemma SixFactors(z: nat)
    ensures (((z * z) * (z * z)) * z) * z == z * z * z * z * z * z
  {
  }

  // ---- representation independence ---------------------------------------------------

  /** Another representative of the same point. */
  function Rescale(c: Curve, l: nat, p: Jacobian): Jacobian
    requires c.m > 0
  {
    Jacobian((l * l * p.X) % c.m, (l * l * l * p.Y) % c.m, (l * p.Z) % c.m)
  }

  lemma RescaledRepresents(c: Curve, l: nat, p: Jacobian, a: Affine)
    requires c.Valid() && !Eq(c.m, l, 0) && c.Represents(p, a)
    ensures c.Represents(Rescale(c, l, p), a)
  {
    var m, z, r := c.m, p.Z, Rescale(c, l, p);
    var w := l * z;
    EqReduce(m, l * l * p.X);
    EqReduce(m, l * l * l * p.Y);
    EqReduce(m, w);
    NonzeroProduct(m, l, z);
    EqMul(m, l * l, l * l, p.X, a.x * (z * z));
    EqMul(m, l * l * l, l * l * l, p.Y, a.y * (z * z * z));
    EqMul(m, r.Z, w, r.Z, w);
    EqMul(m, r.Z * r.Z, w * w, r.Z, w);
    EqMul(m, a.x, a.x, r.Z * r.Z, w * w);
    EqMul(m, a.y, a.y, r.Z * r.Z * r.Z, w * w * w);
    ScaleX(l, z, a.x);
    ScaleY(l, z, a.y);
  }

  lemma ScaleX(l: nat, z: nat, x: nat)
    ensures (l * l) * (x * (z * z)) == x * ((l * z) * (l * z))
  {
    MulSwap(l, z, l, z);
  }

  lemma ScaleY(l: nat, z: nat, y: nat)
    ensures (l * l * l) * (y * (z * z * z)) == y * ((l * z) * (l * z) * (l * z))
  {
    MulSwap(l, z, l, z);
    MulSwap(l * l, z * z, l, z);
  }

  /** Rescaling changes neither the curve test, nor the projection, nor the projected doubling. */
  lemma RescaleInvariant(c: Curve, l: nat, p: Jacobian)
    requires c.Valid() && 0 < l < c.m && c.ReducedJ(p)
    ensures c.ReducedJ(Rescale(c, l, p))
    ensures c.ToAffine(Rescale(c, l, p)) == c.ToAffine(p)
    ensures c.OnCurveJ(Rescale(c, l, p)) <==> c.OnCurveJ(p)
    ensures c.OnCurveJ(p) ==> c.ToAffine(c.Dbl(Rescale(c, l, p))) == c.ToAffine(c.Dbl(p))
  {
    var r := Rescale(c, l, p);
    c.NonzeroResidue(l);
    ModUnique(c.m, 0, 0, 0);
    if p.Z == 0 {
      assert r.Z == 0;
    } else {
      c.ToAffineRepresents(p);
      var a := c.ToAffine(p);
      RescaledRepresents(c, l, p, a);
      c.RepresentsUnique(r, a);
      c.EquationsAgree(p, a);
      c.EquationsAgree(r, a);
    }
    if c.OnCurveJ(p) {
      c.DblRefinesPlus(p);
      c.DblRefinesPlus(r);
    }
  }

  /** Every finite point has a representative on which `group_add` misses the doubling. */
  lemma MissedDoublingExists(c: Curve, p: Jacobian)
    requires c.Valid() && c.OnCurveJ(p) && p.Z != 0
    ensures c.OnCurveJ(Rescale(c, 2, p)) && c.MissedDoubling(p, Rescale(c, 2, p))
    ensures c.Add(p, Rescale(c, 2, p)).Z == 0
  {
    var q := Rescale(c, 2, p);
    RescaleInvariant(c, 2, p);
    FiniteProjects(c, p);
    FiniteProjects(c, q);
    DoubledDiffers(c.m, p.Z);
    c.AddRefinesPlus(p, q);
  }

  lemma DoubledDiffers(m: nat, z: nat)
    requires 0 < z < m
    ensures (2 * z) % m != z
  {
    if (2 * z) % m == z {
      ModUnique(m, z, 0, z);
      EqAdd(m, 2 * z, z, z, z);
      ModUnique(m, 0, 0, 0);
    }
  }

  // ---- affine wrappers ------------------------------------------------------------------

  /** `affine_to_group` */
  method AffineToGroup(c: Curve, p: Affine) returns (q: Group)
    ensures fresh(q) && q.Value() == c.ToJacobian(p)
  {
    q := new Group(GROUP_ZERO);
    if p.x == 0 && p.y == 0 {
      return;
    }
    q.X, q.Y, q.Z := p.x, p.y, 1;
  }

  /** `affine_from_group`: one inversion, then 1/Z^2 and 1/Z^3. */
  method AffineFromGroup(c: Curve, p: Group) returns (q: Affine)
    requires c.m > 0
    ensures q == c.ToAffine(p.Value())
  {
    if p.Z == 0 {
      return ZERO;
    }
    var zi := c.FieldInv(p.Z);
    var y := c.FieldMul(zi, zi);
    var tmp := c.FieldMul(y, zi);
    var x := c.FieldMul(p.X, y);
    y := c.FieldMul(p.Y, tmp);
    return Affine(x, y);
  }

  /** `affine_add` agrees with the affine law on every pair of points: with Z == 1 on both sides no
      doubling is missed. */
  method AffineAdd(c: Curve, p: Affine, q: Affine) returns (r: Affine)
    requires c.Valid() && c.OnCurve(p) && c.OnCurve(q)
    ensures r == c.Plus(p, q)
  {
    var gr := new Group(GROUP_ZERO);
    var gp := AffineToGroup(c, p);
    var gq := AffineToGroup(c, q);
    GroupAdd(c, gr, gp, gq);
    r := AffineFromGroup(c, gr);
    ToAffineOfToJacobian(c, p);
    ToAffineOfToJacobian(c, q);
    c.AddRefinesPlus(c.ToJacobian(p), c.ToJacobian(q));
  }

  /** Addition is total on the curve, commutative, with (0, 0) as identity and the negation as
      inverse. */
  lemma AffineAddLaws(c: Curve, p: Affine, q: Affine)
    requires c.Valid() && c.OnCurve(p) && c.OnCurve(q)
    ensures c.OnCurve(c.Plus(p, q)) && c.Plus(p, q) == c.Plus(q, p)
    ensures c.Plus(p, ZERO) == p == c.Plus(ZERO, p)
    ensures c.OnCurve(c.Negate(p)) && c.Plus(p, c.Negate(p)) == ZERO
    ensures c.Plus(p, q) == ZERO ==> q == c.Negate(p)
  {
    c.PlusOnCurve(p, q);
    PlusCommutes(c, p, q);
    NegateOnCurve(c, p);
    PlusNegate(c, p);
    if c.Plus(p, q) == ZERO {
      NegateUnique(c, p, q);
    }
  }

  /** `affine_negate` */
  method AffineNegate(c: Curve, p: Affine) returns (q: Affine)
    requires c.Valid() && c.OnCurve(p)
    ensures q == c.Negate(p)
  {
    var gq := new Group(GROUP_ZERO);
    var gp := AffineToGroup(c, p);
    gq.X, gq.Y, gq.Z := gp.X, c.FieldSub(0, gp.Y), gp.Z;
    q := AffineFromGroup(c, gq);
    NegateOnCurve(c, p);
    if p != ZERO {
      ToAffineOfToJacobian(c, c.Negate(p));
    } else {
      ModUnique(c.m, 0, 0, 0);
    }
  }
}
