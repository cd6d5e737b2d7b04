/** Arithmetic modulo a prime: congruence, inverses, Euclid's lemma and square roots.
    The `cx_math_*` primitives of the device SDK compute in the residues of a modulus. */
module ModArith {

  /** Congruence modulo `m`. */
  ghost predicate Eq(m: nat, a: int, b: int)
    requires m > 0
  {
    a % m == b % m
  }

  ghost predicate IsPrime(p: nat) {
    p > 1 && forall d :: 1 < d < p ==> p % d != 0
  }

  lemma ModUnique(m: nat, a: int, k: int, r: int)
    requires m > 0 && 0 <= r < m && a == k * m + r
    ensures a % m == r && a / m == k
  {
    var d := a / m - k;
    assert d * m == r - a % m by {
      assert (a / m) * m + a % m == a;
      assert d * m == (a / m) * m - k * m;
    }
    OnlySmallMultiple(m, d);
  }

  lemma OnlySmallMultiple(m: int, d: int)
    requires -m < d * m < m
    ensures d == 0
  {
    assert d >= 1 ==> d * m >= m;
    assert d <= -1 ==> d * m <= -m;
  }

  lemma EqFromMultiple(m: nat, a: int, b: int, k: int)
    requires m > 0 && a == b + k * m
    ensures Eq(m, a, b)
  {
    var q := b / m;
    assert b == q * m + b % m;
    assert (q + k) * m == q * m + k * m;
    ModUnique(m, a, q + k, b % m);
  }

  lemma EqMultiple(m: nat, a: int, b: int) returns (k: int)
    requires m > 0 && Eq(m, a, b)
    ensures a == b + k * m
  {
    k := a / m - b / m;
    assert a == (a / m) * m + a % m && b == (b / m) * m + b % m;
    assert k * m == (a / m) * m - (b / m) * m;
  }

  lemma EqReduce(m: nat, a: int)
    requires m > 0
    ensures 0 <= a % m < m && Eq(m, a % m, a)
  {
    ModUnique(m, a % m, 0, a % m);
  }

  lemma EqSmall(m: nat, a: int, b: int)
    requires 0 <= a < m && 0 <= b < m && Eq(m, a, b)
    ensures a == b
  {
    ModUnique(m, a, 0, a);
    ModUnique(m, b, 0, b);
  }

  lemma EqAdd(m: nat, a: int, a': int, b: int, b': int)
    requires m > 0 && Eq(m, a, a') && Eq(m, b, b')
    ensures Eq(m, a + b, a' + b') && Eq(m, a - b, a' - b')
  {
    var k := EqMultiple(m, a, a');
    var l := EqMultiple(m, b, b');
    assert (k + l) * m == k * m + l * m && (k - l) * m == k * m - l * m;
    EqFromMultiple(m, a + b, a' + b', k + l);
    EqFromMultiple(m, a - b, a' - b', k - l);
  }

  lemma EqMul(m: nat, a: int, a': int, b: int, b': int)
    requires m > 0 && Eq(m, a, a') && Eq(m, b, b')
    ensures Eq(m, a * b, a' * b')
  {
    var k := EqMultiple(m, a, a');
    var l := EqMultiple(m, b, b');
    MultiplesOut(a', b', k, l, m);
    EqFromMultiple(m, a * b, a' * b', a' * l + k * b' + k * (l * m));
  }

  lemma MultiplesOut(a: int, b: int, k: int, l: int, m: int)
    ensures (a + k * m) * (b + l * m) == a * b + (a * l + k * b + k * (l * m)) * m
  {
    assert (a * l + k * b + k * (l * m)) * m == a * (l * m) + (k * m) * b + (k * m) * (l * m);
  }

  /** The reduced result of each SDK operation is congruent to the integer operation on any
      integers congruent to its operands. */
  lemma Ops(m: nat, a: int, a': int, b: int, b': int)
    requires m > 0 && Eq(m, a, a') && Eq(m, b, b')
    ensures Eq(m, (a + b) % m, a' + b')
    ensures Eq(m, (a - b) % m, a' - b')
    ensures Eq(m, (a * b) % m, a' * b')
  {
    EqAdd(m, a, a', b, b');
    EqMul(m, a, a', b, b');
    EqReduce(m, a + b);
    EqReduce(m, a - b);
    EqReduce(m, a * b);
  }

  // ---- inverses -----------------------------------------------------------

  /** Extended Euclid: (g, u, v) with g == u * a + v * b. */
  function Bezout(a: nat, b: nat): (r: (nat, int, int))
    ensures r.0 == r.1 * a + r.2 * b
    ensures a > 0 || b > 0 ==> r.0 > 0 && a % r.0 == 0 && b % r.0 == 0
    decreases b
  {
    if b == 0 then
      assert a > 0 ==> a % a == 0 by { if a > 0 { ModUnique(a, a, 1, 0); } }
      (a, 1, 0)
    else
      var (g, u, v) := Bezout(b, a % b);
      BezoutStep(a, b, g, u, v);
      (g, v, u - v * (a / b))
  }

  lemma BezoutStep(a: nat, b: nat, g: nat, u: int, v: int)
    requires b > 0 && g > 0 && g == u * b + v * (a % b)
    requires b % g == 0 && (a % b) % g == 0
    ensures g == v * a + (u - v * (a / b)) * b
    ensures a % g == 0
  {
    var q, r := a / b, a % b;
    assert a == q * b + r;
    assert v * a == v * (q * b) + v * r;
    assert (u - v * q) * b == u * b - v * (q * b) by {
      assert (v * q) * b == v * (q * b);
    }
    EqMul(g, q, q, b, 0);
    EqAdd(g, q * b, q * 0, r, 0);
  }

  lemma GcdWithPrime(a: int, p: nat) returns (u: int, v: int)
    requires IsPrime(p) && a % p != 0
    ensures u * (a % p) + v * p == 1
    ensures u == Bezout(a % p, p).1
  {
    var (g, u', v') := Bezout(a % p, p);
    u, v := u', v';
    assert g == 1 by {
      assert g <= p by {
        if g > p {
          ModUnique(g, p, 0, p);
        }
      }
      EqReduce(p, a);
    }
  }

  /** `cx_math_invprimem`: the inverse of `a` for a prime modulus. */
  function Inverse(m: nat, a: int): (r: nat)
    requires m > 0
    ensures r < m
  {
    Bezout(a % m, m).1 % m
  }

  lemma CoefficientInverts(p: nat, r: int, u: int, v: int)
    requires p > 0 && u * r + v * p == 1
    ensures Eq(p, r * u, 1)
  {
    assert r * u == u * r && (-v) * p == -(v * p);
    EqFromMultiple(p, r * u, 1, -v);
  }

  lemma InverseIsInverse(p: nat, a: int)
    requires IsPrime(p) && a % p != 0
    ensures Eq(p, a * Inverse(p, a), 1)
  {
    var r := a % p;
    var u, v := GcdWithPrime(a, p);
    CoefficientInverts(p, r, u, v);
    EqReduce(p, u);
    EqReduce(p, a);
    EqMul(p, a, r, Inverse(p, a), u);
  }

  /** A residue ring modulo a prime has no zero divisors. */
  lemma ZeroProduct(p: nat, a: int, b: int)
    requires IsPrime(p) && Eq(p, a * b, 0)
    ensures Eq(p, a, 0) || Eq(p, b, 0)
  {
    ModUnique(p, 0, 0, 0);
    if !Eq(p, a, 0) {
      InverseIsInverse(p, a);
      InvertFactor(p, a, b, Inverse(p, a));
    }
  }

  lemma InvertFactor(p: nat, a: int, b: int, i: int)
    requires p > 0 && Eq(p, a * i, 1) && Eq(p, a * b, 0)
    ensures Eq(p, b, 0)
  {
    EqMul(p, a * i, 1, b, b);
    EqMul(p, i, i, a * b, 0);
    assert (a * i) * b == i * (a * b);
  }

  lemma NonzeroProduct(p: nat, a: int, b: int)
    requires IsPrime(p) && !Eq(p, a, 0) && !Eq(p, b, 0)
    ensures !Eq(p, a * b, 0)
  {
    if Eq(p, a * b, 0) {
      ZeroProduct(p, a, b);
    }
  }

  lemma Cancel(p: nat, a: int, b: int, c: int)
    requires IsPrime(p) && Eq(p, a * c, b * c) && !Eq(p, c, 0)
    ensures Eq(p, a, b)
  {
    EqAdd(p, a * c, b * c, b * c, b * c);
    assert (a - b) * c == a * c - b * c;
    ZeroProduct(p, a - b, c);
    EqAdd(p, a - b, 0, b, b);
    assert a - b + b == a;
  }

  /** Squares have at most two roots. */
  lemma SquareRoots(p: nat, a: int, b: int)
    requires IsPrime(p) && Eq(p, a * a, b * b)
    ensures Eq(p, a, b) || Eq(p, a + b, 0)
  {
    var u, v, d, e := a * a, b * b, a - b, a + b;
    EqAdd(p, u, v, v, v);
    SquareDifference(a, b);
    ZeroProduct(p, d, e);
    if Eq(p, d, 0) {
      EqAdd(p, d, 0, b, b);
    }
  }

  lemma SquareDifference(a: int, b: int)
    ensures a * a - b * b == (a - b) * (a + b)
  {
  }
}
