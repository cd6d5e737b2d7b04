/** Fermat's little theorem, and roots of exponents coprime to p - 1. */
module Fermat {
  import opened ModArith
  import opened Positional

  /** The product of a finite set of numbers. */
  ghost function Product(s: set<nat>): nat {
    if s == {} then 1 else
      var x :| x in s;
      x * Product(s - {x})
  }

  lemma {:induction false} ProductRemove(s: set<nat>, x: nat)
    requires x in s
    ensures Product(s) == x * Product(s - {x})
    decreases s
  {
    var y :| y in s && Product(s) == y * Product(s - {y});
    if y != x {
      ProductRemove(s - {y}, x);
      ProductRemove(s - {x}, y);
      assert s - {y} - {x} == s - {x} - {y};
      Rotate(x, y, Product(s - {x} - {y}));
    }
  }

  lemma Rotate(x: nat, y: nat, w: nat)
    ensures y * (x * w) == x * (y * w)
  {
  }

  ghost function Scaled(p: nat, a: nat, s: set<nat>): set<nat>
    requires p > 0
  {
    set x | x in s :: (a * x) % p
  }

  ghost predicate Nonzero(p: nat, s: set<nat>) {
    forall x :: x in s ==> 0 < x < p
  }

  lemma ScaleInjective(p: nat, a: nat, x: nat, y: nat)
    requires IsPrime(p) && a % p != 0 && 0 < x < p && 0 < y < p && (a * x) % p == (a * y) % p
    ensures x == y
  {
    ModUnique(p, 0, 0, 0);
    assert x * a == a * x && y * a == a * y;
    Cancel(p, x, y, a);
    EqSmall(p, x, y);
  }

  lemma ScaleNonzero(p: nat, a: nat, x: nat)
    requires IsPrime(p) && a % p != 0 && 0 < x < p
    ensures 0 < (a * x) % p < p
  {
    ModUnique(p, 0, 0, 0);
    ModUnique(p, x, 0, x);
    NonzeroProduct(p, a, x);
    EqReduce(p, a * x);
  }

  /** Removing one element from a scaled set. */
  lemma ScaledRemove(p: nat, a: nat, s: set<nat>, x: nat)
    requires IsPrime(p) && a % p != 0 && Nonzero(p, s) && x in s
    ensures (a * x) % p in Scaled(p, a, s)
    ensures Scaled(p, a, s) - {(a * x) % p} == Scaled(p, a, s - {x})
  {
    var image, rest, y := Scaled(p, a, s), Scaled(p, a, s - {x}), (a * x) % p;
    forall w | w in image - {y}
      ensures w in rest
    {
      var z :| z in s && (a * z) % p == w;
      assert z in s - {x};
    }
    forall w | w in rest
      ensures w in image - {y}
    {
      var z :| z in s - {x} && (a * z) % p == w;
      if w == y {
        ScaleInjective(p, a, z, x);
      }
    }
  }

  /** Scaling a set of nonzero residues keeps its size and multiplies its product by a^|s|. */
  lemma {:induction false} ScaledProduct(p: nat, a: nat, s: set<nat>)
    requires IsPrime(p) && a % p != 0 && Nonzero(p, s)
    ensures |Scaled(p, a, s)| == |s|
    ensures Eq(p, Product(Scaled(p, a, s)), Pow(a, |s|) * Product(s))
    decreases s
  {
    if s != {} {
      var x :| x in s;
      var t, y, image := s - {x}, (a * x) % p, Scaled(p, a, s);
      ScaledProduct(p, a, t);
      ScaledRemove(p, a, s, x);
      ProductRemove(image, y);
      ProductRemove(s, x);
      ScaledProductStep(p, a, x, y, Product(image - {y}), Pow(a, |t|), Product(t));
      assert |s| == |t| + 1 && |image| == |image - {y}| + 1;
    } else {
      assert Scaled(p, a, s) == {};
    }
  }

  lemma ScaledProductStep(p: nat, a: nat, x: nat, y: nat, scaled: nat, w: nat, v: nat)
    requires p > 0 && y == (a * x) % p && Eq(p, scaled, w * v)
    ensures Eq(p, y * scaled, (a * w) * (x * v))
  {
    EqReduce(p, a * x);
    EqMul(p, y, a * x, scaled, w * v);
    Regroup(a, x, w, v);
  }

  lemma Regroup(a: nat, x: nat, w: nat, v: nat)
    ensures (a * x) * (w * v) == (a * w) * (x * v)
  {
  }

  lemma {:induction false} ProductNonzero(p: nat, s: set<nat>)
    requires IsPrime(p) && Nonzero(p, s)
    ensures !Eq(p, Product(s), 0)
    decreases s
  {
    ModUnique(p, 0, 0, 0);
    if s != {} {
      var x :| x in s;
      ProductNonzero(p, s - {x});
      ModUnique(p, x, 0, x);
      ProductRemove(s, x);
      NonzeroProduct(p, x, Product(s - {x}));
    } else {
      ModUnique(p, 1, 0, 1);
    }
  }

  /** The numbers from 1 to n. */
  ghost function Range(n: nat): set<nat> {
    if n == 0 then {} else Range(n - 1) + {n}
  }

  lemma {:induction false} RangeIs(n: nat)
    ensures forall x :: x in Range(n) <==> 0 < x <= n
    ensures |Range(n)| == n
  {
    if n > 0 {
      RangeIs(n - 1);
    }
  }

  lemma SubsetSameSize(a: set<nat>, b: set<nat>)
    requires a <= b && |a| == |b|
    ensures a == b
  {
    assert b == a + (b - a);
    assert |b| == |a| + |b - a|;
  }

  /** a^(p-1) == 1 modulo a prime p that does not divide a. */
  lemma LittleTheorem(p: nat, a: nat)
    requires IsPrime(p) && a % p != 0
    ensures Eq(p, Pow(a, p - 1), 1)
  {
    var s := Range(p - 1);
    RangeIs(p - 1);
    ScaledProduct(p, a, s);
    forall y | y in Scaled(p, a, s)
      ensures y in s
    {
      var x :| x in s && (a * x) % p == y;
      ScaleNonzero(p, a, x);
    }
    SubsetSameSize(Scaled(p, a, s), s);
    ProductNonzero(p, s);
    assert 1 * Product(s) == Product(s);
    Cancel(p, Pow(a, p - 1), 1, Product(s));
  }

  lemma {:induction false} PowTimes(b: nat, e: nat, f: nat)
    ensures Pow(Pow(b, e), f) == Pow(b, e * f)
  {
    if f > 0 {
      PowTimes(b, e, f - 1);
      assert e * f == e + e * (f - 1);
      PowAdd(b, e, e * (f - 1));
    }
  }

  lemma {:induction false} PowEq(p: nat, a: nat, b: nat, e: nat)
    requires p > 0 && Eq(p, a, b)
    ensures Eq(p, Pow(a, e), Pow(b, e))
  {
    if e > 0 {
      PowEq(p, a, b, e - 1);
      EqMul(p, a, b, Pow(a, e - 1), Pow(b, e - 1));
    }
  }

  lemma {:induction false} PowOne(e: nat)
    ensures Pow(1, e) == 1
  {
    if e > 0 {
      PowOne(e - 1);
    }
  }

  /** x^n == x modulo p whenever n == 1 + k (p - 1). */
  lemma FixedPower(p: nat, x: nat, n: nat, k: nat)
    requires IsPrime(p) && n == 1 + (p - 1) * k
    ensures Eq(p, Pow(x, n), x)
  {
    var w := Pow(x, (p - 1) * k);
    assert Pow(x, n) == x * w;
    if x % p == 0 {
      ModUnique(p, 0, 0, 0);
      EqMul(p, x, 0, w, w);
    } else {
      LittleTheorem(p, x);
      PowTimes(x, p - 1, k);
      PowEq(p, Pow(x, p - 1), 1, k);
      PowOne(k);
      EqMul(p, x, x, w, 1);
    }
  }

  /** Raising to e and then to d is the identity on residues when d e == 1 modulo p - 1. */
  lemma PowerInverse(p: nat, x: nat, e: nat, d: nat, k: nat)
    requires IsPrime(p) && x < p && e * d == 1 + (p - 1) * k
    ensures Pow(Pow(x, e) % p, d) % p == x
  {
    EqReduce(p, Pow(x, e));
    PowEq(p, Pow(x, e) % p, Pow(x, e), d);
    PowTimes(x, e, d);
    FixedPower(p, x, e * d, k);
    ModUnique(p, x, 0, x);
  }
}
