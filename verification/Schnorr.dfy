/** Schnorr signing: the derived nonce, the hashed challenge, and the verification equation. */
module Schnorr {
  import opened ModArith
  import opened Positional
  import opened RandomOracle
  import opened Curves
  import opened Associativity
  import opened Multiples
  import opened ScalarMul
  import opened Poseidon
  import opened Pallas

  datatype Keypair = Keypair(pub: Affine, priv: field)

  /** BLAKE2b-256 as an arbitrary function, the sponge tables, and its two initial states. */
  datatype Hashes = Hashes(blake2b: seq<byte> -> field, tables: Tables, testnetIv: state, mainnetIv: state) {
    predicate Valid() {
      tables.Valid() && Poseidon.Reduced(FIELD_MODULUS, testnetIv) && Poseidon.Reduced(FIELD_MODULUS, mainnetIv)
    }
  }

  // ---- the verification equation, over any group of prime order ---------------------------

  /** The negated nonce is used when the commitment's y is odd. */
  function SignScalar(q: nat, k: nat, r: Affine): nat
    requires q > 0
  {
    if r.y % 2 == 1 then (0 - k) % q else k
  }

  function Response(q: nat, k: nat, e: nat, d: nat): nat
    requires q > 0
  {
    (k + (e * d) % q) % q
  }

  lemma NegatedParity(m: nat, y: nat)
    requires m % 2 == 1 && y < m && y % 2 == 1
    ensures ((0 - y) % m) % 2 == 0
  {
    ModUnique(m, 0 - y, -1, m - y);
  }

  lemma SignScalarPoint(c: Curve, g: Affine, q: nat, k: nat)
    requires c.Valid() && c.m % 2 == 1 && c.OnCurve(g) && k < q && Times(c, q, g) == ZERO
    ensures var r := Times(c, k, g);
      var v := Times(c, SignScalar(q, k, r), g);
      SignScalar(q, k, r) < q && v.x == r.x && v.y % 2 == 0
  {
    var r := Times(c, k, g);
    TimesOnCurve(c, k, g);
    if r.y % 2 == 1 {
      NegatedParity(c.m, r.y);
      NegatedScalar(q, k);
      TimesComplement(c, k, q, g);
    }
  }

  lemma NegatedScalar(q: nat, k: nat)
    requires k < q
    ensures (0 - k) % q == if k == 0 then 0 else q - k
  {
    if k == 0 {
      ModUnique(q, 0, 0, 0);
    } else {
      ModUnique(q, 0 - k, -1, q - k);
    }
  }

  lemma ResponsePoint(c: Curve, g: Affine, q: nat, k: nat, e: nat, d: nat)
    requires c.Valid() && c.OnCurve(g) && q > 0 && Times(c, q, g) == ZERO
    ensures var b := Times(c, e, Times(c, d, g));
      c.Plus(Times(c, Response(q, k, e, d), g), c.Negate(b)) == Times(c, k, g)
  {
    var a, b := Times(c, k, g), Times(c, e, Times(c, d, g));
    TimesMod(c, k + (e * d) % q, q, g);
    TimesAdd(c, k, (e * d) % q, g);
    TimesMod(c, e * d, q, g);
    TimesTimes(c, e, d, g);
    TimesOnCurve(c, k, g);
    TimesOnCurve(c, d, g);
    TimesOnCurve(c, e, Times(c, d, g));
    PlusMinus(c, a, b);
  }

  /** s G - e pub has the commitment's x and an even y, whichever way the nonce was negated. */
  lemma SchnorrEquation(c: Curve, g: Affine, q: nat, k: nat, e: nat, d: nat)
    requires c.Valid() && c.m % 2 == 1 && c.OnCurve(g) && k < q && Times(c, q, g) == ZERO
    ensures var r := Times(c, k, g);
      var s := Response(q, SignScalar(q, k, r), e, d);
      var v := c.Plus(Times(c, s, g), c.Negate(Times(c, e, Times(c, d, g))));
      s < q && v.x == r.x && v.y % 2 == 0
  {
    var r := Times(c, k, g);
    SignScalarPoint(c, g, q, k);
    ResponsePoint(c, g, q, SignScalar(q, k, r), e, d);
    EqReduce(q, SignScalar(q, k, r) + (e * d) % q);
  }

  /** A verifier that runs the signer's own operations. */
  predicate Verifies(c: Curve, g: Affine, pub: Affine, rx: nat, s: field, e: field)
    requires c.m > 0
  {
    var v := c.Plus(ScalarTimes(c, s, g), c.Negate(ScalarTimes(c, e, pub)));
    v.x == rx && v.y % 2 == 0
  }

  /** Scalar multiplication by any scalar below the prime order, of any multiple of the generator. */
  lemma ScalarTimesInSubgroup(c: Curve, g: Affine, q: nat, k: field, d: nat)
    requires c.Valid() && c.OnCurve(g) && IsPrime(q) && Times(c, q, g) == ZERO && Value(256, k) < q
    ensures ScalarTimes(c, k, Times(c, d, g)) == Times(c, Value(256, k), Times(c, d, g))
  {
    var p := Times(c, d, g);
    TimesOnCurve(c, d, g);
    if p == ZERO {
      TimesZero(c, Value(256, k));
    } else {
      TimesTimes(c, q, d, g);
      TimesTimes(c, d, q, g);
      TimesZero(c, d);
      assert q * d == d * q;
      PrimeOrder(c, q, p);
      ScalarTimesCorrect(c, k, p, q);
    }
  }

  lemma GeneratorTimes(c: Curve, g: Affine, q: nat, k: field)
    requires c.Valid() && c.OnCurve(g) && IsPrime(q) && Times(c, q, g) == ZERO && Value(256, k) < q
    ensures ScalarTimes(c, k, g) == Times(c, Value(256, k), g)
  {
    TimesOne(c, g);
    ScalarTimesInSubgroup(c, g, q, k, 1);
  }

  /** The verifier's equation on known points: the commitment k G and the key d G. */
  lemma PointsVerify(c: Curve, g: Affine, q: nat, k: nat, e: field, d: nat, s: field, r: Affine, pub: Affine)
    requires c.Valid() && c.m % 2 == 1 && c.OnCurve(g) && IsPrime(q) && Times(c, q, g) == ZERO
    requires k < q && Value(256, e) < q && r == Times(c, k, g) && pub == Times(c, d, g)
    requires Value(256, s) == Response(q, SignScalar(q, k, r), Value(256, e), d)
    ensures Verifies(c, g, pub, r.x, s, e)
  {
    SchnorrEquation(c, g, q, k, Value(256, e), d);
    GeneratorTimes(c, g, q, s);
    ScalarTimesInSubgroup(c, g, q, e, d);
  }

  /** Schnorr completeness: signatures computed with double-and-add verify. */
  lemma SchnorrComplete(c: Curve, g: Affine, q: nat, k: field, e: field, d: field, s: field, r: Affine, pub: Affine)
    requires c.Valid() && c.m % 2 == 1 && c.OnCurve(g) && IsPrime(q) && Times(c, q, g) == ZERO
    requires Value(256, k) < q && Value(256, e) < q && Value(256, d) < q
    requires r == ScalarTimes(c, k, g) && pub == ScalarTimes(c, d, g)
    requires Value(256, s) == Response(q, SignScalar(q, Value(256, k), r), Value(256, e), Value(256, d))
    ensures Verifies(c, g, pub, r.x, s, e)
  {
    GeneratorTimes(c, g, q, k);
    GeneratorTimes(c, g, q, d);
    PointsVerify(c, g, q, Value(256, k), e, Value(256, d), s, r, pub);
  }
}
