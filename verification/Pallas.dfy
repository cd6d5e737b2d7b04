/** The Pallas constants, and the checks on them that are plain arithmetic. */
module Pallas {
  import opened ModArith
  import opened Curves
  import opened Poseidon

  const FIELD_MODULUS: nat := 0x40000000000000000000000000000000224698fc094cf91b992d30ed00000001
  const GROUP_ORDER: nat := 0x40000000000000000000000000000000224698fc0994a8dd8c46eb2100000001

  /** y^2 = x^3 + 5 */
  const PALLAS := Curve(FIELD_MODULUS, 5)

  const AFFINE_ONE := Affine(1, 0x1b74b5a30a12937c53dfa9f06378ee548f655bd4333d477119cf7a23caed2abb)

  lemma GeneratorOnCurve()
    ensures PALLAS.OnCurve(AFFINE_ONE) && AFFINE_ONE != ZERO
  {
  }

  /** The generator scaled by 2: (4, 8 y, 2). */
  const SCALED_ONE := Jacobian(4, 0x1ba5ad1850949be29efd4f831bc772a4145713ad7e03503602f43e57576955d5, 2)

  /** The inverses of 2, 4 and 8. */
  const HALF: nat := 0x2000000000000000000000000000000011234c7e04a67c8dcc96987680000001
  const QUARTER: nat := 0x3000000000000000000000000000000019b4f2bd06f9bad4b2e1e4b1c0000001
  const EIGHTH: nat := 0x380000000000000000000000000000001dfdc5dc882359f826078acf60000001

  lemma InverseOfTwo()
    ensures PALLAS.FieldInv(2) == HALF
  {
  }

  lemma ScaledOnCurve()
    ensures PALLAS.OnCurveJ(SCALED_ONE)
  {
    var m, y := FIELD_MODULUS, SCALED_ONE.Y;
    assert (y * y) % m == 384;
  }

  lemma InversePowers()
    ensures PALLAS.FieldMul(HALF, HALF) == QUARTER && PALLAS.FieldMul(QUARTER, HALF) == EIGHTH
    ensures PALLAS.FieldMul(4, QUARTER) == 1 && PALLAS.FieldMul(SCALED_ONE.Y, EIGHTH) == AFFINE_ONE.y
  {
  }

  lemma ScaledProjects()
    ensures PALLAS.ToAffine(SCALED_ONE) == AFFINE_ONE
  {
    InverseOfTwo();
    InversePowers();
  }

  lemma GeneratorProjects()
    ensures PALLAS.OnCurveJ(PALLAS.ToJacobian(AFFINE_ONE))
    ensures PALLAS.ToAffine(PALLAS.ToJacobian(AFFINE_ONE)) == AFFINE_ONE
  {
    var m, y := FIELD_MODULUS, AFFINE_ONE.y;
    assert (y * y) % m == 6;
    assert PALLAS.FieldInv(1) == 1;
    assert y * 1 % m == y;
  }

  lemma ScaledSum()
    ensures PALLAS.AddFormula(PALLAS.ToJacobian(AFFINE_ONE), SCALED_ONE).Z == 0
  {
    assert PALLAS.FieldMul(1, PALLAS.FieldMul(2, 2)) == 4;
    assert PALLAS.FieldMul(4, PALLAS.FieldMul(1, 1)) == 4;
    assert PALLAS.FieldSub(4, 4) == 0;
    assert PALLAS.FieldMul(1, PALLAS.FieldMul(2, 0)) == 0;
  }

  /** Two representatives of the generator that `group_add` adds to infinity. */
  lemma GeneratorMissed()
    ensures PALLAS.OnCurveJ(PALLAS.ToJacobian(AFFINE_ONE)) && PALLAS.OnCurveJ(SCALED_ONE)
    ensures PALLAS.MissedDoubling(PALLAS.ToJacobian(AFFINE_ONE), SCALED_ONE)
    ensures PALLAS.Add(PALLAS.ToJacobian(AFFINE_ONE), SCALED_ONE).Z == 0
  {
    GeneratorProjects();
    ScaledOnCurve();
    ScaledProjects();
    ScaledSum();
  }

  /** So on this pair the projected result is not the affine sum. */
  lemma GeneratorSumWrong()
    requires IsPrime(FIELD_MODULUS)
    ensures PALLAS.ToAffine(PALLAS.Add(PALLAS.ToJacobian(AFFINE_ONE), SCALED_ONE))
         != PALLAS.Plus(AFFINE_ONE, AFFINE_ONE)
  {
    GeneratorMissed();
    GeneratorProjects();
    ScaledProjects();
    assert 5 % FIELD_MODULUS == 5;
    PALLAS.AddRefinesPlus(PALLAS.ToJacobian(AFFINE_ONE), SCALED_ONE);
  }

  const MDS: seq<state> := [
    [0x0bc7bd43470f271edd561175959cad06bb21d64fa314a778873762e6ffb4a5ca,
     0x21a33ba4ebd3dff40b654a6b390cb28f9eca5e028831b94079ea43b97f1bfffc,
     0x3185adbdc93210522ae0cc0eab26cc7077a14f1263f1714cdce8e4cd293208b1],
    [0x164cd45138652570ac0442e35cde96aa4fb24c86983bb1b2b1620758f5caf318,
     0x25de1627ec1a5754e9c0db6969b0cc16a08f57225c1ffd9db833abc204f5612b,
     0x1f690f9372cca3a645304689367c2e0c823241c68dd5eaeb67be04f351680a4f],
    [0x06c364440aa3b6cf17615d7114a87bdd15917ee6c2d6ec8451336adead4ab5a7,
     0x250b797d72cab6bdcf47520851e6d9e069927ff59ca0038c81fab3c8f2ec2261,
     0x2557460f3563ba3aa6c4a826ba8639377129acef2f2589b1302dcc8b61eea7bf]
  ]

  const MDS_INVERSE: seq<state> := [
    [0x01e562b4d7d471d8518281728b87b8e4b466d9f5b8d0481b1f58adcc44249768,
     0x3011137c26f06a9ec2bac6c13e95399e1c0a6c9e1c1063b898f08b99e475e782,
     0x2bd872fe745e61eefa5c8a81912538eb6569a54a951eef2d0aa60bac1963a64b],
    [0x3a31ffb2ac6c975590b798378a057932e694ad81f32b6aae9ad7dfc230547710,
     0x0d2d95d0e4a83f16ee1a025eabf177c4f536743c6c701c4a561278ae9539eb92,
     0x34ba06e0e5f5152747b4e9aee0cf27d44a0d4f007f3849b6542e885ce9686f63],
    [0x0c119843202949e37a7ccf04891f134104ca922ccac00de85da961cd4fed2d4a,
     0x3b44918da454a7777ddc106f2106480edd4686bf64295a55c2af025b678044c8,
     0x2b4393646ef5ce0b60f12b7590583ed677e324d591bb728473a9c34c4e20eb58]
  ]

  /** 5 d == 1 + 4 (p - 1) */
  const FIFTH_ROOT: nat := 0x333333333333333333333333333333334e9ee0c9a10a60e2e0f0f3f0cccccccd

  ghost predicate IsIdentityRow(a: seq<state>, b: seq<state>, i: nat)
    requires |a| == 3 && |b| == 3 && i < 3
  {
    && Dot(a[i], [b[0][0], b[1][0], b[2][0]]) % FIELD_MODULUS == (if i == 0 then 1 else 0)
    && Dot(a[i], [b[0][1], b[1][1], b[2][1]]) % FIELD_MODULUS == (if i == 1 then 1 else 0)
    && Dot(a[i], [b[0][2], b[1][2], b[2][2]]) % FIELD_MODULUS == (if i == 2 then 1 else 0)
  }

  lemma IdentityRows(a: seq<state>, b: seq<state>)
    requires |a| == 3 && |b| == 3 && IsIdentityRow(a, b, 0) && IsIdentityRow(a, b, 1) && IsIdentityRow(a, b, 2)
    ensures IsIdentityProduct(FIELD_MODULUS, a, b)
  {
  }

  lemma MdsInverseLeft()
    ensures IsIdentityProduct(FIELD_MODULUS, MDS_INVERSE, MDS)
  {
    IdentityRows(MDS_INVERSE, MDS);
  }

  lemma MdsInverseRight()
    ensures IsIdentityProduct(FIELD_MODULUS, MDS, MDS_INVERSE)
  {
    IdentityRows(MDS, MDS_INVERSE);
  }

  /** With the Pallas matrix, any round keys and a prime field modulus, the permutation is
      invertible. */
  lemma PallasPermutationInvertible(roundKeys: seq<state>)
    requires IsPrime(FIELD_MODULUS) && |roundKeys| == ROUNDS
    ensures Invertible(FIELD_MODULUS, Tables(roundKeys, MDS), Inverses(MDS_INVERSE, FIFTH_ROOT, 4))
  {
    MdsInverseLeft();
    MdsInverseRight();
  }
}
