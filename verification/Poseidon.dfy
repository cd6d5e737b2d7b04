/** The Poseidon sponge with full rounds only, over an arbitrary prime field. */
module Poseidon {
  import opened ModArith
  import opened Positional
  import Fermat

  const ROUNDS := 64
  const FULL_ROUNDS := 63

  /** Three field elements. */
  type state = s: seq<nat> | |s| == 3 witness [0, 0, 0]

  /** The tables: one key per round, and the rows of the mixing matrix. */
  datatype Tables = Tables(roundKeys: seq<state>, mds: seq<state>) {
    predicate Valid() { |roundKeys| == ROUNDS && |mds| == 3 }
  }

  predicate Reduced(m: nat, s: state) { s[0] < m && s[1] < m && s[2] < m }

  // ---- specification ---------------------------------------------------------------

  function Dot(a: state, s: state): nat { s[0] * a[0] + s[1] * a[1] + s[2] * a[2] }

  /** The matrix-vector product. */
  function MatMul(m: nat, rows: seq<state>, s: state): state
    requires m > 0 && |rows| == 3
  {
    [Dot(rows[0], s) % m, Dot(rows[1], s) % m, Dot(rows[2], s) % m]
  }

  function AddKey(m: nat, s: state, k: state): state
    requires m > 0
  {
    [(s[0] + k[0]) % m, (s[1] + k[1]) % m, (s[2] + k[2]) % m]
  }

  function SubKey(m: nat, s: state, k: state): state
    requires m > 0
  {
    [(s[0] - k[0]) % m, (s[1] - k[1]) % m, (s[2] - k[2]) % m]
  }

  /** Each element raised to a power. */
  function PowerAll(m: nat, s: state, e: nat): state
    requires m > 0
  {
    [Pow(s[0], e) % m, Pow(s[1], e) % m, Pow(s[2], e) % m]
  }

  function Round(m: nat, t: Tables, r: nat, s: state): state
    requires m > 0 && t.Valid() && r < FULL_ROUNDS
  {
    MatMul(m, t.mds, PowerAll(m, AddKey(m, s, t.roundKeys[r]), 5))
  }

  /** The state after `n` full rounds. */
  function FullRounds(m: nat, t: Tables, n: nat, s: state): state
    requires m > 0 && t.Valid() && n <= FULL_ROUNDS
  {
    if n == 0 then s else Round(m, t, n - 1, FullRounds(m, t, n - 1, s))
  }

  function Permutation(m: nat, t: Tables, s: state): state
    requires m > 0 && t.Valid()
  {
    AddKey(m, FullRounds(m, t, FULL_ROUNDS, s), t.roundKeys[ROUNDS - 1])
  }

  // ---- the inverse permutation -------------------------------------------------------

  /** Inverse data: the inverse matrix, and an exponent d with 5 d == 1 + k (m - 1). */
  datatype Inverses = Inverses(mds: seq<state>, d: nat, k: nat)

  ghost predicate IsIdentityProduct(m: nat, a: seq<state>, b: seq<state>)
    requires m > 0 && |a| == 3 && |b| == 3
  {
    forall i, j :: 0 <= i < 3 && 0 <= j < 3 ==>
      Dot(a[i], [b[0][j], b[1][j], b[2][j]]) % m == (if i == j then 1 else 0)
  }

  /** What makes the permutation invertible: a prime field in which fifth powers and the matrix can
      be undone. */
  ghost predicate Invertible(m: nat, t: Tables, inv: Inverses) {
    && IsPrime(m) && t.Valid() && |inv.mds| == 3
    && IsIdentityProduct(m, inv.mds, t.mds) && IsIdentityProduct(m, t.mds, inv.mds)
    && 5 * inv.d == 1 + (m - 1) * inv.k
  }

  function InverseRound(m: nat, t: Tables, inv: Inverses, r: nat, s: state): state
    requires m > 0 && t.Valid() && |inv.mds| == 3 && r < FULL_ROUNDS
  {
    SubKey(m, PowerAll(m, MatMul(m, inv.mds, s), inv.d), t.roundKeys[r])
  }

  function InverseRounds(m: nat, t: Tables, inv: Inverses, n: nat, s: state): state
    requires m > 0 && t.Valid() && |inv.mds| == 3 && n <= FULL_ROUNDS
  {
    if n == 0 then s else InverseRounds(m, t, inv, n - 1, InverseRound(m, t, inv, n - 1, s))
  }

  function InversePermutation(m: nat, t: Tables, inv: Inverses, s: state): state
    requires m > 0 && t.Valid() && |inv.mds| == 3
  {
    InverseRounds(m, t, inv, FULL_ROUNDS, SubKey(m, s, t.roundKeys[ROUNDS - 1]))
  }

  lemma UndoAdd(m: nat, x: nat, k: nat, y: nat)
    requires x < m && y == (x + k) % m
    ensures (y - k) % m == x
  {
    EqReduce(m, x + k);
    EqAdd(m, y, x + k, k, k);
    ModUnique(m, x, 0, x);
  }

  lemma UndoSub(m: nat, x: nat, k: nat, y: nat)
    requires x < m && y == (x - k) % m
    ensures (y + k) % m == x
  {
    EqReduce(m, x - k);
    EqAdd(m, y, x - k, k, k);
    ModUnique(m, x, 0, x);
  }

  lemma KeysInvert(m: nat, s: state, k: state)
    requires Reduced(m, s)
    ensures SubKey(m, AddKey(m, s, k), k) == s && AddKey(m, SubKey(m, s, k), k) == s
  {
    var t, u := AddKey(m, s, k), SubKey(m, s, k);
    UndoAdd(m, s[0], k[0], t[0]);
    UndoAdd(m, s[1], k[1], t[1]);
    UndoAdd(m, s[2], k[2], t[2]);
    UndoSub(m, s[0], k[0], u[0]);
    UndoSub(m, s[1], k[1], u[1]);
    UndoSub(m, s[2], k[2], u[2]);
  }

  lemma PowersInvert(m: nat, s: state, e: nat, d: nat, k: nat)
    requires IsPrime(m) && Reduced(m, s) && e * d == 1 + (m - 1) * k
    ensures PowerAll(m, PowerAll(m, s, e), d) == s
  {
    Fermat.PowerInverse(m, s[0], e, d, k);
    Fermat.PowerInverse(m, s[1], e, d, k);
    Fermat.PowerInverse(m, s[2], e, d, k);
  }

  lemma DotEq(m: nat, a: state, s: state, s': seq<int>)
    requires m > 0 && |s'| == 3
    requires Eq(m, s[0], s'[0]) && Eq(m, s[1], s'[1]) && Eq(m, s[2], s'[2])
    ensures Eq(m, Dot(a, s), s'[0] * a[0] + s'[1] * a[1] + s'[2] * a[2])
  {
    EqMul(m, s[0], s'[0], a[0], a[0]);
    EqMul(m, s[1], s'[1], a[1], a[1]);
    EqMul(m, s[2], s'[2], a[2], a[2]);
    EqAdd(m, s[0] * a[0], s'[0] * a[0], s[1] * a[1], s'[1] * a[1]);
    EqAdd(m, s[0] * a[0] + s[1] * a[1], s'[0] * a[0] + s'[1] * a[1], s[2] * a[2], s'[2] * a[2]);
  }

  function Column(b: seq<state>, j: nat): state
    requires |b| == 3 && j < 3
  {
    [b[0][j], b[1][j], b[2][j]]
  }

  /** Exchanging the two summations of a product of matrices. */
  lemma Exchange(a: state, b: seq<state>, s: state)
    requires |b| == 3
    ensures Dot(b[0], s) * a[0] + Dot(b[1], s) * a[1] + Dot(b[2], s) * a[2]
         == s[0] * Dot(a, Column(b, 0)) + s[1] * Dot(a, Column(b, 1)) + s[2] * Dot(a, Column(b, 2))
  {
    Distribute(s[0] * b[0][0], s[1] * b[0][1], s[2] * b[0][2], a[0]);
    Distribute(s[0] * b[1][0], s[1] * b[1][1], s[2] * b[1][2], a[1]);
    Distribute(s[0] * b[2][0], s[1] * b[2][1], s[2] * b[2][2], a[2]);
    Factor3(s[0], b[0][0], b[1][0], b[2][0], a);
    Factor3(s[1], b[0][1], b[1][1], b[2][1], a);
    Factor3(s[2], b[0][2], b[1][2], b[2][2], a);
  }

  lemma Distribute(x: nat, y: nat, z: nat, a: nat)
    ensures (x + y + z) * a == x * a + y * a + z * a
  {
  }

  lemma Factor3(s: nat, x: nat, y: nat, z: nat, a: state)
    ensures s * (x * a[0] + y * a[1] + z * a[2]) == (s * x) * a[0] + (s * y) * a[1] + (s * z) * a[2]
  {
  }

  lemma RowInverts(m: nat, a: seq<state>, b: seq<state>, s: state, i: nat)
    requires m > 1 && |a| == 3 && |b| == 3 && i < 3 && IsIdentityProduct(m, a, b) && Reduced(m, s)
    ensures Dot(a[i], MatMul(m, b, s)) % m == s[i]
  {
    var t := MatMul(m, b, s);
    EqReduce(m, Dot(b[0], s));
    EqReduce(m, Dot(b[1], s));
    EqReduce(m, Dot(b[2], s));
    DotEq(m, a[i], t, [Dot(b[0], s), Dot(b[1], s), Dot(b[2], s)]);
    Exchange(a[i], b, s);
    ModUnique(m, 1, 0, 1);
    ModUnique(m, 0, 0, 0);
    var e0, e1, e2 := (if i == 0 then 1 else 0), (if i == 1 then 1 else 0), (if i == 2 then 1 else 0);
    assert Column(b, 0) == [b[0][0], b[1][0], b[2][0]];
    assert Column(b, 1) == [b[0][1], b[1][1], b[2][1]];
    assert Column(b, 2) == [b[0][2], b[1][2], b[2][2]];
    EqMul(m, s[0], s[0], Dot(a[i], Column(b, 0)), e0);
    EqMul(m, s[1], s[1], Dot(a[i], Column(b, 1)), e1);
    EqMul(m, s[2], s[2], Dot(a[i], Column(b, 2)), e2);
    EqAdd(m, s[0] * Dot(a[i], Column(b, 0)), s[0] * e0, s[1] * Dot(a[i], Column(b, 1)), s[1] * e1);
    EqAdd(m, s[0] * Dot(a[i], Column(b, 0)) + s[1] * Dot(a[i], Column(b, 1)), s[0] * e0 + s[1] * e1,
          s[2] * Dot(a[i], Column(b, 2)), s[2] * e2);
    ModUnique(m, s[i], 0, s[i]);
  }

  lemma MatricesInvert(m: nat, a: seq<state>, b: seq<state>, s: state)
    requires m > 1 && |a| == 3 && |b| == 3 && IsIdentityProduct(m, a, b) && Reduced(m, s)
    ensures MatMul(m, a, MatMul(m, b, s)) == s
  {
    RowInverts(m, a, b, s, 0);
    RowInverts(m, a, b, s, 1);
    RowInverts(m, a, b, s, 2);
  }

  lemma Reduces(m: nat, s: state, k: state, e: nat, rows: seq<state>)
    requires m > 0 && |rows| == 3
    ensures Reduced(m, AddKey(m, s, k)) && Reduced(m, SubKey(m, s, k))
    ensures Reduced(m, PowerAll(m, s, e)) && Reduced(m, MatMul(m, rows, s))
  {
  }

  lemma RoundInverts(m: nat, t: Tables, inv: Inverses, r: nat, s: state)
    requires Invertible(m, t, inv) && r < FULL_ROUNDS && Reduced(m, s)
    ensures Reduced(m, Round(m, t, r, s)) && InverseRound(m, t, inv, r, Round(m, t, r, s)) == s
    ensures Reduced(m, InverseRound(m, t, inv, r, s)) && Round(m, t, r, InverseRound(m, t, inv, r, s)) == s
  {
    var k := t.roundKeys[r];
    var keyed := AddKey(m, s, k);
    var boxed := PowerAll(m, keyed, 5);
    var mixed := MatMul(m, inv.mds, s);
    var rooted := PowerAll(m, mixed, inv.d);
    Reduces(m, s, k, 5, inv.mds);
    Reduces(m, keyed, k, 5, t.mds);
    Reduces(m, boxed, k, 5, t.mds);
    Reduces(m, mixed, k, inv.d, t.mds);
    Reduces(m, rooted, k, 5, t.mds);
    MatricesInvert(m, inv.mds, t.mds, boxed);
    PowersInvert(m, keyed, 5, inv.d, inv.k);
    KeysInvert(m, s, k);
    KeysInvert(m, rooted, k);
    assert inv.d * 5 == 5 * inv.d;
    PowersInvert(m, mixed, inv.d, 5, inv.k);
    MatricesInvert(m, t.mds, inv.mds, s);
  }

  lemma {:induction false} RoundsInvert(m: nat, t: Tables, inv: Inverses, n: nat, s: state)
    requires Invertible(m, t, inv) && n <= FULL_ROUNDS && Reduced(m, s)
    ensures Reduced(m, FullRounds(m, t, n, s)) && InverseRounds(m, t, inv, n, FullRounds(m, t, n, s)) == s
    ensures Reduced(m, InverseRounds(m, t, inv, n, s)) && FullRounds(m, t, n, InverseRounds(m, t, inv, n, s)) == s
  {
    if n > 0 {
      RoundsInvert(m, t, inv, n - 1, s);
      RoundInverts(m, t, inv, n - 1, FullRounds(m, t, n - 1, s));
      RoundInverts(m, t, inv, n - 1, s);
      RoundsInvert(m, t, inv, n - 1, InverseRound(m, t, inv, n - 1, s));
    }
  }

  /** The permutation is a bijection on reduced states: it has a two-sided inverse there. */
  lemma PermutationIsBijection(m: nat, t: Tables, inv: Inverses, s: state)
    requires Invertible(m, t, inv) && Reduced(m, s)
    ensures Reduced(m, Permutation(m, t, s)) && InversePermutation(m, t, inv, Permutation(m, t, s)) == s
    ensures Reduced(m, InversePermutation(m, t, inv, s)) && Permutation(m, t, InversePermutation(m, t, inv, s)) == s
  {
    var k := t.roundKeys[ROUNDS - 1];
    var f := FullRounds(m, t, FULL_ROUNDS, s);
    RoundsInvert(m, t, inv, FULL_ROUNDS, s);
    Reduces(m, f, k, 5, t.mds);
    KeysInvert(m, f, k);
    Reduces(m, s, k, 5, t.mds);
    RoundsInvert(m, t, inv, FULL_ROUNDS, SubKey(m, s, k));
    KeysInvert(m, s, k);
  }

  // ---- absorption ------------------------------------------------------------------------

  /** Adds two elements into the first two places. */
  function AddPair(m: nat, s: state, x: nat, y: nat): state
    requires m > 0
  {
    [(s[0] + x) % m, (s[1] + y) % m, s[2]]
  }

  /** Absorbs elements in pairs; a last odd one alone. */
  function Absorb(m: nat, t: Tables, s: state, input: seq<nat>): state
    requires m > 0 && t.Valid()
    decreases input
  {
    if input == [] then s
    else if |input| == 1 then Permutation(m, t, [(s[0] + input[0]) % m, s[1], s[2]])
    else Absorb(m, t, Permutation(m, t, AddPair(m, s, input[0], input[1])), input[2..])
  }

  /** Absorbing is compositional at even positions. */
  lemma {:induction false} AbsorbConcat(m: nat, t: Tables, s: state, a: seq<nat>, b: seq<nat>)
    requires m > 0 && t.Valid() && |a| % 2 == 0
    ensures Absorb(m, t, s, a + b) == Absorb(m, t, Absorb(m, t, s, a), b)
    decreases a
  {
    if a == [] {
      assert a + b == b;
    } else {
      AbsorbConcat(m, t, Permutation(m, t, AddPair(m, s, a[0], a[1])), a[2..], b);
      assert (a + b)[2..] == a[2..] + b;
      assert (a + b)[0] == a[0] && (a + b)[1] == a[1];
    }
  }

  /** An odd-length input behaves as if one zero element were appended. */
  lemma AbsorbOdd(m: nat, t: Tables, s: state, input: seq<nat>)
    requires m > 0 && t.Valid() && Reduced(m, s) && |input| % 2 == 1
    ensures Absorb(m, t, s, input) == Absorb(m, t, s, input + [0])
  {
    var a, x := input[..|input| - 1], input[|input| - 1];
    var u := Absorb(m, t, s, a);
    assert input == a + [x] && input + [0] == a + [x, 0];
    AbsorbConcat(m, t, s, a, [x]);
    AbsorbConcat(m, t, s, a, [x, 0]);
    AbsorbReduced(m, t, s, a);
    AbsorbLast(m, t, u, x);
  }

  lemma AbsorbLast(m: nat, t: Tables, s: state, x: nat)
    requires m > 0 && t.Valid() && Reduced(m, s)
    ensures Absorb(m, t, s, [x]) == Absorb(m, t, s, [x, 0])
  {
    ModUnique(m, s[1], 0, s[1]);
    var u := AddPair(m, s, x, 0);
    assert [x, 0][2..] == [];
    assert Absorb(m, t, s, [x, 0]) == Absorb(m, t, Permutation(m, t, u), []);
  }

  lemma {:induction false} AbsorbReduced(m: nat, t: Tables, s: state, input: seq<nat>)
    requires m > 0 && t.Valid() && Reduced(m, s)
    ensures Reduced(m, Absorb(m, t, s, input))
    decreases input
  {
    if |input| >= 2 {
      var u := AddPair(m, s, input[0], input[1]);
      Reduces(m, FullRounds(m, t, FULL_ROUNDS, u), t.roundKeys[ROUNDS - 1], 5, t.mds);
      AbsorbReduced(m, t, Permutation(m, t, u), input[2..]);
    } else if |input| == 1 {
      var u := [(s[0] + input[0]) % m, s[1], s[2]];
      Reduces(m, FullRounds(m, t, FULL_ROUNDS, u), t.roundKeys[ROUNDS - 1], 5, t.mds);
    }
  }

  /** Absorbing the same input never merges two states. */
  lemma {:induction false} AbsorbInjective(m: nat, t: Tables, inv: Inverses, s: state, s': state, input: seq<nat>)
    requires Invertible(m, t, inv) && Reduced(m, s) && Reduced(m, s')
    requires Absorb(m, t, s, input) == Absorb(m, t, s', input)
    ensures s == s'
    decreases input
  {
    if input != [] {
      var y := if |input| == 1 then 0 else input[1];
      var u, u' := AddPair(m, s, input[0], y), AddPair(m, s', input[0], y);
      ModUnique(m, s[1], 0, s[1]);
      ModUnique(m, s'[1], 0, s'[1]);
      PermutationIsBijection(m, t, inv, u);
      PermutationIsBijection(m, t, inv, u');
      if |input| >= 2 {
        AbsorbInjective(m, t, inv, Permutation(m, t, u), Permutation(m, t, u'), input[2..]);
      }
      AddPairInjective(m, s, s', input[0], y);
    }
  }

  lemma AddPairInjective(m: nat, s: state, s': state, x: nat, y: nat)
    requires Reduced(m, s) && Reduced(m, s') && AddPair(m, s, x, y) == AddPair(m, s', x, y)
    ensures s == s'
  {
    var u, u' := AddPair(m, s, x, y), AddPair(m, s', x, y);
    UndoAdd(m, s[0], x, u[0]);
    UndoAdd(m, s'[0], x, u'[0]);
    UndoAdd(m, s[1], y, u[1]);
    UndoAdd(m, s'[1], y, u'[1]);
    assert s[2] == u[2] && s'[2] == u'[2];
  }

  /** Permuting never merges two states. */
  lemma PermutationInjective(m: nat, t: Tables, inv: Inverses, u: state, u': state)
    requires Invertible(m, t, inv) && Reduced(m, u) && Reduced(m, u')
    ensures Permutation(m, t, u) == Permutation(m, t, u') <==> u == u'
  {
    PermutationIsBijection(m, t, inv, u);
    PermutationIsBijection(m, t, inv, u');
  }

  lemma AbsorbPair(m: nat, t: Tables, s: state, x: nat, y: nat)
    requires m > 0 && t.Valid()
    ensures Absorb(m, t, s, [x, y]) == Permutation(m, t, AddPair(m, s, x, y))
  {
    assert [x, y][2..] == [];
  }

  /** A pair adds its first element to the first place and its second to the second: two absorptions end in
      the same state exactly when both sums and the third places agree. */
  lemma AbsorbPairExact(m: nat, t: Tables, inv: Inverses, s: state, x: nat, y: nat, s': state, x': nat, y': nat)
    requires Invertible(m, t, inv) && Reduced(m, s) && Reduced(m, s')
    ensures Absorb(m, t, s, [x, y]) == Absorb(m, t, s', [x', y'])
      <==> (s[0] + x) % m == (s'[0] + x') % m && (s[1] + y) % m == (s'[1] + y') % m && s[2] == s'[2]
  {
    var u, u' := AddPair(m, s, x, y), AddPair(m, s', x', y');
    AbsorbPair(m, t, s, x, y);
    AbsorbPair(m, t, s', x', y');
    PermutationInjective(m, t, inv, u, u');
    assert u == u' <==> u[0] == u'[0] && u[1] == u'[1] && u[2] == u'[2];
  }

  lemma SameAddend(m: nat, s: nat, x: nat, x': nat)
    requires m > 0
    ensures (s + x) % m == (s + x') % m <==> x % m == x' % m
  {
    if (s + x) % m == (s + x') % m {
      EqAdd(m, s + x, s + x', s, s);
    } else if x % m == x' % m {
      EqAdd(m, s, s, x, x');
    }
  }

  lemma AbsorbKeepsDifferent(m: nat, t: Tables, inv: Inverses, v: state, v': state, b: seq<nat>)
    requires Invertible(m, t, inv) && Reduced(m, v) && Reduced(m, v')
    ensures Absorb(m, t, v, b) == Absorb(m, t, v', b) <==> v == v'
  {
    if Absorb(m, t, v, b) == Absorb(m, t, v', b) {
      AbsorbInjective(m, t, inv, v, v', b);
    }
  }

  lemma SamePairs(m: nat, t: Tables, inv: Inverses, u: state, x: nat, y: nat, x': nat, y': nat)
    requires Invertible(m, t, inv) && Reduced(m, u)
    ensures Absorb(m, t, u, [x, y]) == Absorb(m, t, u, [x', y']) <==> x % m == x' % m && y % m == y' % m
  {
    AbsorbPairExact(m, t, inv, u, x, y, u, x', y');
    SameAddend(m, u[0], x, x');
    SameAddend(m, u[1], y, y');
  }

  /** Inputs that differ in one aligned pair end in the same state exactly when the pairs agree modulo m. */
  lemma AbsorbPairAt(m: nat, t: Tables, inv: Inverses, s: state,
                     a: seq<nat>, x: nat, y: nat, x': nat, y': nat, b: seq<nat>)
    requires Invertible(m, t, inv) && Reduced(m, s) && |a| % 2 == 0
    ensures Absorb(m, t, s, a + [x, y] + b) == Absorb(m, t, s, a + [x', y'] + b) <==> x % m == x' % m && y % m == y' % m
  {
    var u := Absorb(m, t, s, a);
    AbsorbReduced(m, t, s, a);
    AbsorbThree(m, t, s, a, [x, y], b);
    AbsorbThree(m, t, s, a, [x', y'], b);
    AbsorbReduced(m, t, u, [x, y]);
    AbsorbReduced(m, t, u, [x', y']);
    AbsorbKeepsDifferent(m, t, inv, Absorb(m, t, u, [x, y]), Absorb(m, t, u, [x', y']), b);
    SamePairs(m, t, inv, u, x, y, x', y');
  }

  lemma AbsorbThree(m: nat, t: Tables, s: state, a: seq<nat>, p: seq<nat>, b: seq<nat>)
    requires m > 0 && t.Valid() && |a| % 2 == 0 && |p| == 2
    ensures Absorb(m, t, s, a + p + b) == Absorb(m, t, Absorb(m, t, Absorb(m, t, s, a), p), b)
  {
    AbsorbConcat(m, t, s, a + p, b);
    AbsorbConcat(m, t, s, a, p);
  }

  /** No element of the input is lost: changing any one of them modulo m changes the final state. */
  lemma AbsorbElement(m: nat, t: Tables, inv: Inverses, s: state, vs: seq<nat>, i: nat, v: nat)
    requires Invertible(m, t, inv) && Reduced(m, s) && i < |vs|
    ensures Absorb(m, t, s, vs) == Absorb(m, t, s, vs[i := v]) <==> vs[i] % m == v % m
  {
    if |vs| % 2 == 0 {
      AbsorbElementEven(m, t, inv, s, vs, vs[i := v], i, v);
    } else {
      AbsorbElementOdd(m, t, inv, s, vs, vs[i := v], i, v);
    }
  }

  lemma UpdateAppend(vs: seq<nat>, ws: seq<nat>, z: nat, i: nat, v: nat)
    requires i < |vs| && ws == vs[i := v]
    ensures (vs + [z])[i] == vs[i] && (vs + [z])[i := v] == ws + [z]
  {
  }

  lemma AbsorbElementOdd(m: nat, t: Tables, inv: Inverses, s: state, vs: seq<nat>, ws: seq<nat>, i: nat, v: nat)
    requires Invertible(m, t, inv) && Reduced(m, s) && i < |vs| && |vs| % 2 == 1 && ws == vs[i := v]
    ensures Absorb(m, t, s, vs) == Absorb(m, t, s, ws) <==> vs[i] % m == v % m
  {
    UpdateAppend(vs, ws, 0, i, v);
    var xs, ys := vs + [0], ws + [0];
    AbsorbElementEven(m, t, inv, s, xs, ys, i, v);
    AbsorbOdd(m, t, s, vs);
    AbsorbOdd(m, t, s, ws);
  }

  lemma AbsorbElementEven(m: nat, t: Tables, inv: Inverses, s: state, vs: seq<nat>, ws: seq<nat>, i: nat, v: nat)
    requires Invertible(m, t, inv) && Reduced(m, s) && i < |vs| && |vs| % 2 == 0 && ws == vs[i := v]
    ensures Absorb(m, t, s, vs) == Absorb(m, t, s, ws) <==> vs[i] % m == v % m
  {
    var k, x, y, x', y' := PairOf(vs, ws, i, v);
    AbsorbPairAt(m, t, inv, s, vs[..k], x, y, x', y', vs[k + 2..]);
  }

  /** The aligned pair that holds element `i`, before and after a change of that element. */
  lemma PairOf(vs: seq<nat>, ws: seq<nat>, i: nat, v: nat) returns (k: nat, x: nat, y: nat, x': nat, y': nat)
    requires i < |vs| && |vs| % 2 == 0 && ws == vs[i := v]
    ensures k % 2 == 0 && k + 2 <= |vs| && |vs[..k]| % 2 == 0
    ensures vs == vs[..k] + [x, y] + vs[k + 2..] && ws == vs[..k] + [x', y'] + vs[k + 2..]
    ensures (x == vs[i] && x' == v && y == y') || (x == x' && y == vs[i] && y' == v)
  {
    k := i - i % 2;
    x, y, x', y' := vs[k], vs[k + 1], ws[k], ws[k + 1];
  }

  // ---- independent descriptions ---------------------------------------------------------------

  function Fifth(x: nat): nat { x * x * x * x * x }

  /** A full round, element by element: keys added, fifth powers, and a row of the matrix. */
  predicate IsRound(m: nat, k: state, rows: seq<state>, s: state, s': state)
    requires m > 0 && |rows| == 3
  {
    var a, b, c := Fifth(s[0] + k[0]), Fifth(s[1] + k[1]), Fifth(s[2] + k[2]);
    && s'[0] == (rows[0][0] * a + rows[0][1] * b + rows[0][2] * c) % m
    && s'[1] == (rows[1][0] * a + rows[1][1] * b + rows[1][2] * c) % m
    && s'[2] == (rows[2][0] * a + rows[2][1] * b + rows[2][2] * c) % m
  }

  lemma FifthPower(m: nat, x: nat)
    requires m > 0
    ensures Eq(m, Pow(x % m, 5), Fifth(x))
  {
    var y := x % m;
    EqReduce(m, x);
    EqMul(m, y, x, y, x);
    EqMul(m, y * y, x * x, y, x);
    EqMul(m, y * y * y, x * x * x, y, x);
    EqMul(m, y * y * y * y, x * x * x * x, y, x);
    PowFive(y);
  }

  lemma PowFive(y: nat)
    ensures Pow(y, 5) == Fifth(y)
  {
    assert Pow(y, 1) == y;
    assert Pow(y, 2) == y * y;
    assert Pow(y, 3) == y * (y * y) == (y * y) * y;
    assert Pow(y, 4) == y * ((y * y) * y) == ((y * y) * y) * y;
    assert Pow(y, 5) == y * (((y * y) * y) * y) == (((y * y) * y) * y) * y;
  }

  lemma SboxResidue(m: nat, x: nat, y: nat)
    requires m > 0 && y == Pow(x % m, 5) % m
    ensures Eq(m, y, Fifth(x))
  {
    FifthPower(m, x);
    EqReduce(m, Pow(x % m, 5));
  }

  lemma RoundIs(m: nat, t: Tables, r: nat, s: state)
    requires m > 0 && t.Valid() && r < 63
    ensures IsRound(m, t.roundKeys[r], t.mds, s, Round(m, t, r, s))
  {
    var k := t.roundKeys[r];
    var u := PowerAll(m, AddKey(m, s, k), 5);
    SboxResidue(m, s[0] + k[0], u[0]);
    SboxResidue(m, s[1] + k[1], u[1]);
    SboxResidue(m, s[2] + k[2], u[2]);
    RowResidue(m, t.mds[0], u, s, k);
    RowResidue(m, t.mds[1], u, s, k);
    RowResidue(m, t.mds[2], u, s, k);
  }

  lemma RowResidue(m: nat, row: state, u: state, s: state, k: state)
    requires m > 0
    requires Eq(m, u[0], Fifth(s[0] + k[0])) && Eq(m, u[1], Fifth(s[1] + k[1])) && Eq(m, u[2], Fifth(s[2] + k[2]))
    ensures Dot(row, u) % m
         == (row[0] * Fifth(s[0] + k[0]) + row[1] * Fifth(s[1] + k[1]) + row[2] * Fifth(s[2] + k[2])) % m
  {
    var a, b, c := Fifth(s[0] + k[0]), Fifth(s[1] + k[1]), Fifth(s[2] + k[2]);
    DotEq(m, row, u, [a, b, c]);
    Commute(a, row[0]);
    Commute(b, row[1]);
    Commute(c, row[2]);
  }

  lemma Commute(x: nat, y: nat)
    ensures x * y == y * x
  {
  }

  /** A run of the permutation: 63 rounds with the keys 0 to 62, and key 63 added at the end. */
  ghost predicate IsRun(m: nat, t: Tables, trace: seq<state>, r: state)
    requires m > 0 && t.Valid()
  {
    && |trace| == 64
    && (forall i :: 0 <= i < 63 ==> IsRound(m, t.roundKeys[i], t.mds, trace[i], trace[i + 1]))
    && r == [(trace[63][0] + t.roundKeys[63][0]) % m, (trace[63][1] + t.roundKeys[63][1]) % m,
             (trace[63][2] + t.roundKeys[63][2]) % m]
  }

  lemma {:induction false} RunIsRounds(m: nat, t: Tables, trace: seq<state>, n: nat)
    requires m > 0 && t.Valid() && n < |trace| <= 64
    requires forall i :: 0 <= i < |trace| - 1 ==> IsRound(m, t.roundKeys[i], t.mds, trace[i], trace[i + 1])
    ensures trace[n] == FullRounds(m, t, n, trace[0])
  {
    if n > 0 {
      RunIsRounds(m, t, trace, n - 1);
      RoundIs(m, t, n - 1, trace[n - 1]);
      assert IsRound(m, t.roundKeys[n - 1], t.mds, trace[n - 1], trace[n]);
    }
  }

  lemma RunOf(m: nat, t: Tables, s: state) returns (trace: seq<state>)
    requires m > 0 && t.Valid()
    ensures IsRun(m, t, trace, Permutation(m, t, s)) && trace[0] == s
  {
    trace := seq(64, i requires 0 <= i < 64 => FullRounds(m, t, i, s));
    forall i | 0 <= i < 63
      ensures IsRound(m, t.roundKeys[i], t.mds, trace[i], trace[i + 1])
    {
      RoundIs(m, t, i, FullRounds(m, t, i, s));
    }
  }

  lemma RunEnds(m: nat, t: Tables, trace: seq<state>, r: state)
    requires m > 0 && t.Valid() && IsRun(m, t, trace, r)
    ensures r == Permutation(m, t, trace[0])
  {
    RunIsRounds(m, t, trace, 63);
  }

  /** The permutation is what its runs compute. */
  lemma PermutationIsRun(m: nat, t: Tables, s: state, r: state)
    requires m > 0 && t.Valid()
    ensures r == Permutation(m, t, s) <==> exists trace :: IsRun(m, t, trace, r) && trace[0] == s
  {
    var run := RunOf(m, t, s);
    if trace :| IsRun(m, t, trace, r) && trace[0] == s {
      RunEnds(m, t, trace, r);
    }
  }

  /** A run of the sponge: state i + 1 is the permutation of state i with element 2 i added to its first
      place and element 2 i + 1, if there is one, to its second. */
  ghost predicate IsAbsorption(m: nat, t: Tables, input: seq<nat>, states: seq<state>)
    requires m > 0 && t.Valid()
  {
    && |states| == (|input| + 1) / 2 + 1
    && forall i :: 0 <= i < |states| - 1 ==> IsBlock(m, t, input, i, states[i], states[i + 1])
  }

  predicate IsBlock(m: nat, t: Tables, input: seq<nat>, i: nat, s: state, s': state)
    requires m > 0 && t.Valid() && 2 * i < |input|
  {
    s' == Permutation(m, t, [(s[0] + input[2 * i]) % m,
                             if 2 * i + 1 < |input| then (s[1] + input[2 * i + 1]) % m else s[1], s[2]])
  }

  lemma FirstBlock(m: nat, t: Tables, input: seq<nat>, s: state, s': state)
    requires m > 0 && t.Valid() && input != [] && IsBlock(m, t, input, 0, s, s')
    ensures Absorb(m, t, s, input) == Absorb(m, t, s', if |input| == 1 then [] else input[2..])
  {
  }

  lemma LaterBlocks(m: nat, t: Tables, input: seq<nat>, states: seq<state>)
    requires m > 0 && t.Valid() && IsAbsorption(m, t, input, states) && input != []
    ensures IsAbsorption(m, t, if |input| == 1 then [] else input[2..], states[1..])
  {
    var rest := if |input| == 1 then [] else input[2..];
    forall i | 0 <= i < |states| - 2
      ensures IsBlock(m, t, rest, i, states[1..][i], states[1..][i + 1])
    {
      assert IsBlock(m, t, input, i + 1, states[i + 1], states[i + 2]);
    }
  }

  /** Absorption ends in the last state of such a run. */
  lemma {:induction false} AbsorptionEnds(m: nat, t: Tables, input: seq<nat>, states: seq<state>)
    requires m > 0 && t.Valid() && IsAbsorption(m, t, input, states)
    ensures states[|states| - 1] == Absorb(m, t, states[0], input)
    decreases |input|
  {
    if input != [] {
      assert IsBlock(m, t, input, 0, states[0], states[1]);
      FirstBlock(m, t, input, states[0], states[1]);
      LaterBlocks(m, t, input, states);
      AbsorptionEnds(m, t, if |input| == 1 then [] else input[2..], states[1..]);
    }
  }

  // ---- the in-place operations ---------------------------------------------------------------

  /** `matrix_mul`: accumulates into a scratch state, then copies it back. */
  method MatrixMul(m: nat, s1: array<nat>, rows: seq<state>)
    requires m > 0 && s1.Length == 3 && |rows| == 3
    modifies s1
    ensures s1[..] == MatMul(m, rows, old(s1[..]))
  {
    ghost var s := s1[..];
    var s2 := new nat[3](_ => 0);
    for row := 0 to 3
      invariant s1[..] == s
      invariant forall r :: 0 <= r < row ==> s2[r] == Dot(rows[r], s) % m
      invariant forall r :: row <= r < 3 ==> s2[r] == 0
    {
      for col := 0 to 3
        invariant s1[..] == s
        invariant forall r :: 0 <= r < row ==> s2[r] == Dot(rows[r], s) % m
        invariant forall r :: row < r < 3 ==> s2[r] == 0
        invariant s2[row] == PartialDot(rows[row], s, col) % m
      {
        var t0 := (s1[col] * rows[row][col]) % m;
        var t1 := s2[row];
        assert s1[col] == s[col];
        AccumulateDot(m, rows[row], s, col);
        s2[row] := (t1 + t0) % m;
      }
      WholeDot(rows[row], s);
    }
    for col := 0 to 3
      invariant forall r :: 0 <= r < col ==> s1[r] == s2[r]
      invariant forall r :: 0 <= r < 3 ==> s2[r] == Dot(rows[r], s) % m
    {
      s1[col] := s2[col];
    }
    assert s1[..] == [s1[0], s1[1], s1[2]];
  }

  ghost function PartialDot(a: state, s: state, n: nat): nat
    requires n <= 3
  {
    if n == 0 then 0 else PartialDot(a, s, n - 1) + s[n - 1] * a[n - 1]
  }

  lemma WholeDot(a: state, s: state)
    ensures PartialDot(a, s, 3) == Dot(a, s)
  {
    assert PartialDot(a, s, 1) == s[0] * a[0];
    assert PartialDot(a, s, 2) == s[0] * a[0] + s[1] * a[1];
  }

  lemma AccumulateDot(m: nat, a: state, s: state, n: nat)
    requires m > 0 && n < 3
    ensures (PartialDot(a, s, n) % m + (s[n] * a[n]) % m) % m == PartialDot(a, s, n + 1) % m
  {
    EqReduce(m, PartialDot(a, s, n));
    EqReduce(m, s[n] * a[n]);
    EqAdd(m, PartialDot(a, s, n) % m, PartialDot(a, s, n), (s[n] * a[n]) % m, s[n] * a[n]);
  }

  /** The ark step in place. */
  method AddKeyInPlace(m: nat, s: array<nat>, k: state)
    requires m > 0 && s.Length == 3
    modifies s
    ensures s[..] == AddKey(m, old(s[..]), k)
  {
    for i := 0 to 3
      invariant forall r :: 0 <= r < i ==> s[r] == (old(s[r]) + k[r]) % m
      invariant forall r :: i <= r < 3 ==> s[r] == old(s[r])
    {
      s[i] := (s[i] + k[i]) % m;
    }
    assert s[..] == [s[0], s[1], s[2]];
  }

  /** The sbox step in place. */
  method SboxInPlace(m: nat, s: array<nat>)
    requires m > 0 && s.Length == 3
    modifies s
    ensures s[..] == PowerAll(m, old(s[..]), 5)
  {
    for i := 0 to 3
      invariant forall r :: 0 <= r < i ==> s[r] == Pow(old(s[r]), 5) % m
      invariant forall r :: i <= r < 3 ==> s[r] == old(s[r])
    {
      s[i] := Pow(s[i], 5) % m;
    }
    assert s[..] == [s[0], s[1], s[2]];
  }

  /** `poseidon_permutation` */
  method PoseidonPermutation(m: nat, t: Tables, s: array<nat>)
    requires m > 0 && t.Valid() && s.Length == 3
    modifies s
    ensures s[..] == Permutation(m, t, old(s[..]))
  {
    for r := 0 to FULL_ROUNDS
      invariant s[..] == FullRounds(m, t, r, old(s[..]))
    {
      AddKeyInPlace(m, s, t.roundKeys[r]);
      SboxInPlace(m, s);
      MatrixMul(m, s, t.mds);
    }
    AddKeyInPlace(m, s, t.roundKeys[ROUNDS - 1]);
  }

  /** `poseidon_update` */
  method PoseidonUpdate(m: nat, t: Tables, s: array<nat>, input: seq<nat>)
    requires m > 0 && t.Valid() && s.Length == 3
    modifies s
    ensures s[..] == Absorb(m, t, old(s[..]), input)
  {
    var pairs := |input| / 2;
    for i := 0 to pairs
      invariant Absorb(m, t, old(s[..]), input) == Absorb(m, t, s[..], input[2 * i..])
    {
      assert input[2 * i..][2..] == input[2 * (i + 1)..];
      assert input[2 * i..][0] == input[2 * i] && input[2 * i..][1] == input[2 * i + 1];
      ghost var u := AddPair(m, s[..], input[2 * i], input[2 * i + 1]);
      s[0] := (s[0] + input[2 * i]) % m;
      s[1] := (s[1] + input[2 * i + 1]) % m;
      assert s[..] == u;
      PoseidonPermutation(m, t, s);
    }
    if 2 * pairs < |input| {
      assert input[2 * pairs..] == [input[2 * pairs]];
      ghost var u := [(s[0] + input[2 * pairs]) % m, s[1], s[2]];
      s[0] := (s[0] + input[2 * pairs]) % m;
      assert s[..] == u;
      PoseidonPermutation(m, t, s);
    }
  }

  /** `poseidon_digest` */
  function Digest(s: state): nat { s[0] }
}
