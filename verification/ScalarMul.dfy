/** Double-and-add scalar multiplication, most significant bit first. */
module ScalarMul {
  import opened ModArith
  import opened Positional
  import opened PackedBits
  import opened RandomOracle
  import opened Curves
  import opened GroupLaw
  import opened Multiples
  import opened Groups

  const SCALAR_BITS := 256

  /** (k[i / 8] >> (7 - i % 8)) & 1 */
  function ScalarBit(k: field, i: nat): bool
    requires i < SCALAR_BITS
  {
    GetBit(k[i / 8], 7 - i % 8)
  }

  /** The number the first `i` bits of a scalar form. */
  ghost function Prefix(k: field, i: nat): nat
    requires i <= SCALAR_BITS
  {
    if i == 0 then 0 else 2 * Prefix(k, i - 1) + BitValue(ScalarBit(k, i - 1))
  }

  /** The same number, read from whole bytes and the top of the next one. */
  ghost function Leading(k: field, i: nat): nat
    requires i <= SCALAR_BITS
  {
    if i == SCALAR_BITS then Value(256, k) else LeadingIn(k[..i / 8], k[i / 8], i % 8)
  }

  /** Whole bytes followed by the `t` high bits of one more. */
  ghost function LeadingIn(whole: seq<byte>, b: byte, t: nat): nat
    requires t < 8
  {
    Value(256, whole) * Weight(t) + TopBits(b, t)
  }

  /** The `t` high bits of a byte. */
  ghost function TopBits(b: byte, t: nat): nat
    requires t < 8
  {
    if t == 0 then 0 else b / Weight(8 - t)
  }

  lemma NextTopBit(b: byte, t: nat)
    requires t < 8
    ensures (if t == 7 then b else TopBits(b, t + 1)) == 2 * TopBits(b, t) + BitValue(GetBit(b, 7 - t))
  {
    HalfOfTop(b, t);
    assert TopBits(b, t) == if t == 0 then b / 256 else b / Weight(8 - t);
  }

  lemma HalfOfTop(b: byte, t: nat)
    requires t < 8
    ensures b / Weight(7 - t) == 2 * (if t == 0 then b / 256 else b / Weight(8 - t)) + BitValue(GetBit(b, 7 - t))
  {
    if t < 4 {
      HighHalves(b);
    } else {
      LowHalves(b);
    }
  }

  lemma HighHalves(b: byte)
    ensures b / 128 == (b / 128) % 2 && b / 64 == 2 * (b / 128) + (b / 64) % 2
    ensures b / 32 == 2 * (b / 64) + (b / 32) % 2 && b / 16 == 2 * (b / 32) + (b / 16) % 2
  {
  }

  lemma LowHalves(b: byte)
    ensures b / 8 == 2 * (b / 16) + (b / 8) % 2 && b / 4 == 2 * (b / 8) + (b / 4) % 2
    ensures b / 2 == 2 * (b / 4) + (b / 2) % 2 && b / 1 == 2 * (b / 2) + (b / 1) % 2
  {
  }

  lemma DoubleWeight(v: nat, t: nat)
    requires t < 8
    ensures 2 * (v * Weight(t)) == if t == 7 then v * 256 else v * Weight(t + 1)
  {
  }

  lemma LeadingStep(k: field, i: nat)
    requires i < SCALAR_BITS
    ensures Leading(k, i + 1) == 2 * Leading(k, i) + BitValue(ScalarBit(k, i))
  {
    var j, t := i / 8, i % 8;
    NextTopBit(k[j], t);
    DoubleWeight(Value(256, k[..j]), t);
    if t == 7 {
      assert k[..j + 1][..j] == k[..j];
      assert j == 31 ==> k[..32] == k;
    }
  }

  /** The bits read so far are the leading bits of the scalar. */
  ghost predicate ReadsLeading(k: field, i: nat)
    requires i <= SCALAR_BITS
  {
    Prefix(k, i) == Leading(k, i)
  }

  lemma ReadsNext(k: field, i: nat)
    requires i < SCALAR_BITS && ReadsLeading(k, i)
    ensures ReadsLeading(k, i + 1)
  {
    LeadingStep(k, i);
  }

  lemma {:induction false} AllReadLeading(k: field, i: nat)
    requires i <= SCALAR_BITS
    ensures forall j :: 0 <= j <= i ==> ReadsLeading(k, j)
  {
    if i == 0 {
      LeadingNone(k);
    } else {
      AllReadLeading(k, i - 1);
      ReadsNext(k, i - 1);
    }
  }

  lemma PrefixIsLeading(k: field, i: nat)
    requires i <= SCALAR_BITS
    ensures Prefix(k, i) == Leading(k, i)
  {
    AllReadLeading(k, i);
    assert ReadsLeading(k, i);
  }

  lemma LeadingNone(k: field)
    ensures ReadsLeading(k, 0)
  {
    assert k[..0] == [];
  }

  lemma {:induction false} PrefixGrows(k: field, i: nat, j: nat)
    requires i <= j <= SCALAR_BITS
    ensures Prefix(k, i) <= Prefix(k, j)
  {
    if i < j {
      PrefixGrows(k, i, j - 1);
    }
  }

  lemma PrefixBound(k: field, i: nat)
    requires i <= SCALAR_BITS
    ensures Prefix(k, i) <= Value(256, k) == Prefix(k, SCALAR_BITS)
  {
    PrefixIsLeading(k, SCALAR_BITS);
    PrefixGrows(k, i, SCALAR_BITS);
  }

  // ---- the loop ----------------------------------------------------------------------------

  /** One bit of the loop. */
  function DoubleAndAdd(c: Curve, q: Jacobian, p: Jacobian, bit: bool): Jacobian
    requires c.m > 0
  {
    var d := c.Dbl(q);
    if bit then c.Add(d, p) else d
  }

  /** The accumulator after `i` bits. */
  function Accumulator(c: Curve, k: field, p: Jacobian, i: nat): Jacobian
    requires c.m > 0 && i <= SCALAR_BITS
  {
    if i == 0 then GROUP_ZERO
    else
      DoubleAndAdd(c, Accumulator(c, k, p, i - 1), p, ScalarBit(k, i - 1))
  }

  function ScalarMulJ(c: Curve, k: field, p: Jacobian): Jacobian
    requires c.m > 0
  {
    if p.Z == 0 || k == Zeros(32) then GROUP_ZERO else Accumulator(c, k, p, SCALAR_BITS)
  }

  /** k times an affine point, as the signer computes it. */
  function ScalarTimes(c: Curve, k: field, p: Affine): Affine
    requires c.m > 0
  {
    c.ToAffine(ScalarMulJ(c, k, c.ToJacobian(p)))
  }

  /** `group_scalar_mul` */
  method GroupScalarMul(c: Curve, q: Group, k: field, p: Group)
    requires c.m > 0 && q != p
    modifies q
    ensures q.Value() == ScalarMulJ(c, k, p.Value())
  {
    q.X, q.Y, q.Z := 0, 1, 0;
    if p.Z == 0 {
      return;
    }
    if k == Zeros(32) {
      return;
    }
    var t0 := new Group(GROUP_ZERO);
    ghost var point := p.Value();
    for i := 0 to SCALAR_BITS
      invariant p.Value() == point && q.Value() == Accumulator(c, k, point, i)
    {
      OneBit(c, q, t0, p, ScalarBit(k, i));
    }
  }

  /** The loop's body. */
  method OneBit(c: Curve, q: Group, t0: Group, p: Group, di: bool)
    requires c.m > 0 && q != p && t0 != q && t0 != p
    modifies q, t0
    ensures q.Value() == DoubleAndAdd(c, old(q.Value()), p.Value(), di)
  {
    GroupDbl(c, t0, q);
    q.Assign(t0);
    if di {
      GroupAdd(c, t0, q, p);
      q.Assign(t0);
    }
  }

  /** `affine_scalar_mul` */
  method AffineScalarMul(c: Curve, k: field, p: Affine) returns (q: Affine)
    requires c.m > 0
    ensures q == ScalarTimes(c, k, p)
  {
    var pq := new Group(GROUP_ZERO);
    var pp := AffineToGroup(c, p);
    GroupScalarMul(c, pq, k, pp);
    q := AffineFromGroup(c, pq);
  }

  // ---- correctness ---------------------------------------------------------------------------

  /** Doubling takes a representative of [n] P to one of [2 n] P. */
  lemma DoubleStep(c: Curve, q: Jacobian, p: Affine, n: nat)
    requires c.Valid() && c.OnCurve(p) && c.OnCurveJ(q) && c.ToAffine(q) == Times(c, n, p)
    ensures c.OnCurveJ(c.Dbl(q)) && c.ToAffine(c.Dbl(q)) == Times(c, 2 * n, p)
  {
    c.DblRefinesPlus(q);
    TimesAdd(c, n, n, p);
    assert n + n == 2 * n;
  }

  /** Adding P to a representative of [n] P misses the doubling exactly when n is 1 modulo the order and
      the coordinates differ; otherwise the result represents [n + 1] P. */
  lemma AddStep(c: Curve, d: Jacobian, p: Jacobian, n: nat, order: nat)
    requires c.Valid() && c.OnCurveJ(p) && p.Z != 0 && c.OnCurveJ(d)
    requires HasOrder(c, c.ToAffine(p), order) && c.ToAffine(d) == Times(c, n, c.ToAffine(p))
    ensures c.OnCurveJ(c.Add(d, p))
    ensures c.MissedDoubling(d, p) <==> n % order == 1 && d != p
    ensures c.MissedDoubling(d, p) ==> c.Add(d, p).Z == 0
    ensures !c.MissedDoubling(d, p) ==> c.ToAffine(c.Add(d, p)) == Times(c, n + 1, c.ToAffine(p))
  {
    FiniteProjects(c, p);
    FiniteProjects(c, d);
    TimesFixes(c, n, c.ToAffine(p), order);
    c.AddRefinesPlus(d, p);
  }

  /** The bits before `i` form a number whose double is 1 modulo the order, and bit `i` is set. */
  ghost predicate Returns(k: field, order: nat, i: nat)
    requires order > 0 && i < SCALAR_BITS
  {
    ScalarBit(k, i) && (2 * Prefix(k, i)) % order == 1
  }

  ghost predicate NeverReturns(k: field, order: nat, n: nat)
    requires order > 0 && n <= SCALAR_BITS
  {
    forall i :: 0 <= i < n ==> !Returns(k, order, i)
  }

  /** If 2 n is 1 modulo the order then [2 n + 1] P is finite, as the order is odd. */
  lemma TwiceFinite(c: Curve, p: Affine, n: nat, order: nat)
    requires c.Valid() && c.OnCurve(p) && p != ZERO && HasOrder(c, p, order) && (2 * n) % order == 1
    ensures Times(c, 2 * n + 1, p) != ZERO
  {
    var t := 2 * n;
    TimesFixes(c, t, p, order);
    TimesOne(c, p);
    assert order != 2;
    assert Times(c, 2, p) == c.Plus(Times(c, 1, p), p);
    assert Times(c, t + 1, p) == c.Plus(Times(c, t, p), p);
  }

  /** The step doubles, and then meets the coordinates of P in another guise. */
  predicate MissesDoubling(c: Curve, q: Jacobian, p: Jacobian, bit: bool)
    requires c.m > 0
  {
    bit && c.MissedDoubling(c.Dbl(q), p)
  }

  /** `q` represents [n] P. */
  ghost predicate IsMultiple(c: Curve, q: Jacobian, n: nat, p: Jacobian)
    requires c.m > 0
  {
    c.OnCurveJ(q) && c.ToAffine(q) == Times(c, n, c.ToAffine(p))
  }

  /** One bit: the doubling is missed exactly when [2 n] P is P in other coordinates; then the result is
      infinity, and otherwise it represents the next multiple. */
  lemma AccumulatorStep(c: Curve, q: Jacobian, p: Jacobian, n: nat, bit: bool, order: nat)
    requires c.Valid() && c.OnCurveJ(p) && p.Z != 0
    requires HasOrder(c, c.ToAffine(p), order) && IsMultiple(c, q, n, p)
    ensures MissesDoubling(c, q, p, bit) <==> bit && (2 * n) % order == 1 && c.Dbl(q) != p
    ensures MissesDoubling(c, q, p, bit) ==> DoubleAndAdd(c, q, p, bit).Z == 0
    ensures IsMultiple(c, DoubleAndAdd(c, q, p, bit), 2 * n + BitValue(bit), p) <==> !MissesDoubling(c, q, p, bit)
  {
    FiniteProjects(c, p);
    DoubleStep(c, q, c.ToAffine(p), n);
    if bit {
      AddStep(c, c.Dbl(q), p, 2 * n, order);
      if (2 * n) % order == 1 {
        TwiceFinite(c, c.ToAffine(p), n, order);
      }
    }
  }

  lemma NextBit(c: Curve, k: field, p: Jacobian, i: nat)
    requires c.m > 0 && i < SCALAR_BITS
    ensures Accumulator(c, k, p, i + 1) == DoubleAndAdd(c, Accumulator(c, k, p, i), p, ScalarBit(k, i))
    ensures Prefix(k, i + 1) == 2 * Prefix(k, i) + BitValue(ScalarBit(k, i))
  {
  }

  lemma NoBits(c: Curve, k: field, p: Jacobian)
    requires c.Valid()
    ensures IsMultiple(c, Accumulator(c, k, p, 0), Prefix(k, 0), p)
  {
    c.NonzeroResidue(1);
  }

  /** One round of the loop. */
  lemma RoundStep(c: Curve, k: field, p: Jacobian, i: nat, order: nat)
    requires c.Valid() && c.OnCurveJ(p) && p.Z != 0 && i < SCALAR_BITS && HasOrder(c, c.ToAffine(p), order)
    requires IsMultiple(c, Accumulator(c, k, p, i), Prefix(k, i), p)
    ensures var q := Accumulator(c, k, p, i);
      MissesDoubling(c, q, p, ScalarBit(k, i)) <==> Returns(k, order, i) && c.Dbl(q) != p
    ensures IsMultiple(c, Accumulator(c, k, p, i + 1), Prefix(k, i + 1), p)
      <==> !MissesDoubling(c, Accumulator(c, k, p, i), p, ScalarBit(k, i))
  {
    var q, bit, n := Accumulator(c, k, p, i), ScalarBit(k, i), Prefix(k, i);
    NextBit(c, k, p, i);
    AccumulatorStep(c, q, p, n, bit, order);
    assert IsMultiple(c, DoubleAndAdd(c, q, p, bit), 2 * n + BitValue(bit), p) <==> !MissesDoubling(c, q, p, bit);
  }

  /** The loop invariant: the accumulator represents the multiple by the bits read so far. */
  lemma {:induction false} AccumulatorIsMultiple(c: Curve, k: field, p: Jacobian, i: nat, order: nat)
    requires c.Valid() && c.OnCurveJ(p) && p.Z != 0 && i <= SCALAR_BITS
    requires HasOrder(c, c.ToAffine(p), order) && NeverReturns(k, order, i)
    ensures IsMultiple(c, Accumulator(c, k, p, i), Prefix(k, i), p)
  {
    if i == 0 {
      NoBits(c, k, p);
    } else {
      AccumulatorIsMultiple(c, k, p, i - 1, order);
      RoundStep(c, k, p, i - 1, order);
      assert !Returns(k, order, i - 1);
    }
  }

  /** As long as no earlier prefix returned, the loop misses a doubling at bit `i` exactly when the
      prefix returns there and the doubled accumulator has other coordinates than P; only then does the
      next accumulator not represent its multiple. */
  lemma MissedExactly(c: Curve, k: field, p: Jacobian, i: nat, order: nat)
    requires c.Valid() && c.OnCurveJ(p) && p.Z != 0 && i < SCALAR_BITS
    requires HasOrder(c, c.ToAffine(p), order) && NeverReturns(k, order, i)
    ensures var q := Accumulator(c, k, p, i);
      MissesDoubling(c, q, p, ScalarBit(k, i)) <==> Returns(k, order, i) && c.Dbl(q) != p
    ensures IsMultiple(c, Accumulator(c, k, p, i + 1), Prefix(k, i + 1), p)
      <==> !MissesDoubling(c, Accumulator(c, k, p, i), p, ScalarBit(k, i))
  {
    AccumulatorIsMultiple(c, k, p, i, order);
    RoundStep(c, k, p, i, order);
  }

  /** When no prefix returns, double-and-add returns a Jacobian representative of [k] P. */
  lemma ScalarMulWithoutReturns(c: Curve, k: field, p: Jacobian, order: nat)
    requires c.Valid() && c.OnCurveJ(p)
    requires HasOrder(c, c.ToAffine(p), order) && NeverReturns(k, order, SCALAR_BITS)
    ensures c.OnCurveJ(ScalarMulJ(c, k, p))
    ensures c.ToAffine(ScalarMulJ(c, k, p)) == Times(c, Value(256, k), c.ToAffine(p))
  {
    c.NonzeroResidue(1);
    if p.Z == 0 {
      TimesZero(c, Value(256, k));
    } else if k == Zeros(32) {
      ValueOfZeros(256, 32);
    } else {
      PrefixBound(k, SCALAR_BITS);
      AccumulatorIsMultiple(c, k, p, SCALAR_BITS, order);
    }
  }

  /** No prefix of a scalar below the order returns. */
  lemma BelowOrder(k: field, order: nat)
    requires Value(256, k) < order
    ensures NeverReturns(k, order, SCALAR_BITS)
  {
    forall i | 0 <= i < SCALAR_BITS
      ensures !Returns(k, order, i)
    {
      var n := 2 * Prefix(k, i);
      PrefixBound(k, i + 1);
      ModUnique(order, n, 0, n);
    }
  }

  /** For every curve point and every scalar below its order, double-and-add returns a Jacobian
      representative of [k] P. */
  lemma ScalarMulCorrect(c: Curve, k: field, p: Jacobian, order: nat)
    requires c.Valid() && c.OnCurveJ(p)
    requires HasOrder(c, c.ToAffine(p), order) && Value(256, k) < order
    ensures c.OnCurveJ(ScalarMulJ(c, k, p))
    ensures c.ToAffine(ScalarMulJ(c, k, p)) == Times(c, Value(256, k), c.ToAffine(p))
  {
    BelowOrder(k, order);
    ScalarMulWithoutReturns(c, k, p, order);
  }

  lemma ScalarTimesCorrect(c: Curve, k: field, p: Affine, order: nat)
    requires c.Valid() && c.OnCurve(p) && HasOrder(c, p, order) && Value(256, k) < order
    ensures ScalarTimes(c, k, p) == Times(c, Value(256, k), p)
  {
    ToAffineOfToJacobian(c, p);
    ScalarMulCorrect(c, k, c.ToJacobian(p), order);
  }
}
