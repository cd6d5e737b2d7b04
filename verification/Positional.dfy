/** Positional notation, most significant digit first. */
module Positional {
  import opened ModArith

  type byte = x: nat | x < 256

  function Pow(b: nat, e: nat): nat {
    if e == 0 then 1 else b * Pow(b, e - 1)
  }

  function Value(base: nat, ds: seq<nat>): nat {
    if ds == [] then 0 else Value(base, ds[..|ds| - 1]) * base + ds[|ds| - 1]
  }

  ghost predicate AllBelow(base: nat, ds: seq<nat>) {
    forall i :: 0 <= i < |ds| ==> ds[i] < base
  }

  /** The `n` least significant digits of `v`. */
  function Digits(base: nat, v: nat, n: nat): (ds: seq<nat>)
    requires base > 0
    ensures |ds| == n
    decreases n, v, base
  {
    if n == 0 then [] else (DivNat(v, base); Digits(base, v / base, n - 1) + [v % base])
  }

  /** `n` big-endian bytes. */
  function Bytes(v: nat, n: nat): (bs: seq<byte>)
    ensures |bs| == n
    decreases n, v
  {
    if n == 0 then [] else Bytes(v / 256, n - 1) + [v % 256]
  }

  lemma ConcatAssociative<T>(a: seq<T>, c: seq<T>, d: seq<T>)
    ensures a + (c + d) == (a + c) + d
  {
  }

  /** Reads the last part of a prefix, and leaves a shorter prefix. */
  lemma Peel<T>(whole: seq<T>, prefix: seq<T>, part: seq<T>)
    requires prefix + part <= whole
    ensures prefix <= whole && whole[|prefix|..|prefix| + |part|] == part
  {
    assert (prefix + part)[|prefix|..] == part;
  }

  lemma PowPositive(b: nat, e: nat)
    requires b > 0
    ensures Pow(b, e) > 0
  {
    if e > 0 {
      PowPositive(b, e - 1);
    }
  }

  lemma TimesAssociative(x: nat, y: nat, z: nat)
    ensures (x * y) * z == x * (y * z)
  {
  }

  lemma {:induction false} PowAdd(b: nat, e: nat, f: nat)
    ensures Pow(b, e + f) == Pow(b, e) * Pow(b, f)
  {
    if e > 0 {
      PowAdd(b, e - 1, f);
      TimesAssociative(b, Pow(b, e - 1), Pow(b, f));
    }
  }

  lemma {:induction false} PowMonotone(b: nat, e: nat, f: nat)
    requires b > 0 && e <= f
    ensures Pow(b, e) <= Pow(b, f)
  {
    PowAdd(b, f - e, e);
    PowPositive(b, f - e);
    ScaleGrows(Pow(b, f - e), Pow(b, e));
  }

  lemma ScaleGrows(k: nat, v: nat)
    requires k > 0
    ensures k * v >= v
  {
  }

  lemma ValueAppend(base: nat, ds: seq<nat>, d: nat, all: seq<nat>)
    requires all == ds + [d]
    ensures Value(base, all) == Value(base, ds) * base + d
  {
    assert all[..|ds|] == ds;
  }

  lemma {:induction false} ValueConcat(base: nat, a: seq<nat>, c: seq<nat>)
    ensures Value(base, a + c) == Value(base, a) * Pow(base, |c|) + Value(base, c)
  {
    if c == [] {
      assert a + c == a;
    } else {
      var n := |c| - 1;
      assert a + c == (a + c[..n]) + [c[n]] && c == c[..n] + [c[n]];
      ValueConcat(base, a, c[..n]);
      ValueAppend(base, a + c[..n], c[n], a + c);
      ValueAppend(base, c[..n], c[n], c);
      ShiftSum(Value(base, a), Pow(base, n), Value(base, c[..n]), base, c[n]);
    }
  }

  lemma ShiftSum(v: nat, w: nat, u: nat, base: nat, d: nat)
    ensures (v * w + u) * base + d == v * (base * w) + (u * base + d)
  {
  }

  lemma {:induction false} ValueBound(base: nat, ds: seq<nat>)
    requires AllBelow(base, ds)
    ensures Value(base, ds) < Pow(base, |ds|)
  {
    if ds != [] {
      var n := |ds| - 1;
      ValueBound(base, ds[..n]);
      BoundStep(base, Value(base, ds[..n]), Pow(base, n), ds[n]);
    }
  }

  lemma BoundStep(base: nat, v: nat, p: nat, d: nat)
    requires v < p && d < base
    ensures v * base + d < base * p
  {
    assert (v + 1) * base <= p * base;
  }

  lemma DivNat(v: nat, base: nat)
    requires base > 0
    ensures v / base >= 0 && v == (v / base) * base + v % base
  {
    var q := v / base;
    assert q < 0 ==> q * base <= -1 * base;
  }

  lemma DivBelow(v: nat, base: nat, k: nat)
    requires base > 0 && v < k * base
    ensures v / base < k
  {
    var q := v / base;
    assert q >= k ==> q * base >= k * base;
  }

  /** Digit strings of the same length are determined by their value. */
  lemma {:induction false} DigitsOfValue(base: nat, ds: seq<nat>)
    requires base > 0 && AllBelow(base, ds)
    ensures Digits(base, Value(base, ds), |ds|) == ds
  {
    if ds != [] {
      var n := |ds| - 1;
      assert ds[n] < base;
      ModUnique(base, Value(base, ds), Value(base, ds[..n]), ds[n]);
      DigitsOfValue(base, ds[..n]);
      assert ds[..n] + [ds[n]] == ds;
    }
  }

  lemma {:induction false} ValueOfDigits(base: nat, v: nat, n: nat)
    requires base > 0 && v < Pow(base, n)
    ensures Value(base, Digits(base, v, n)) == v && AllBelow(base, Digits(base, v, n))
    decreases n
  {
    if n > 0 {
      DivNat(v, base);
      DivBelow(v, base, Pow(base, n - 1));
      ValueOfDigits(base, v / base, n - 1);
    }
  }

  lemma {:induction false} BytesAreDigits(v: nat, n: nat)
    ensures Bytes(v, n) == Digits(256, v, n)
  {
    if n > 0 {
      BytesAreDigits(v / 256, n - 1);
    }
  }

  lemma ValueOfBytes(v: nat, n: nat)
    requires v < Pow(256, n)
    ensures Value(256, Bytes(v, n)) == v
  {
    BytesAreDigits(v, n);
    ValueOfDigits(256, v, n);
  }

  lemma BytesOfValue(bs: seq<byte>)
    ensures Value(256, bs) < Pow(256, |bs|) && Bytes(Value(256, bs), |bs|) == bs
  {
    BytesAreDigits(Value(256, bs), |bs|);
    ValueBound(256, bs);
    DigitsOfValue(256, bs);
  }

  function Zeros(n: nat): (zs: seq<nat>)
    ensures |zs| == n && forall i :: 0 <= i < n ==> zs[i] == 0
  {
    seq(n, i => 0)
  }

  /** The number of leading zero digits. */
  function LeadingZeros(ds: seq<nat>): (n: nat)
    ensures n <= |ds| && (forall i :: 0 <= i < n ==> ds[i] == 0) && (n < |ds| ==> ds[n] != 0)
  {
    if ds == [] || ds[0] != 0 then 0 else 1 + LeadingZeros(ds[1..])
  }

  lemma LeadingZerosUnique(ds: seq<nat>, n: nat)
    requires n <= |ds| && (forall i :: 0 <= i < n ==> ds[i] == 0) && (n < |ds| ==> ds[n] != 0)
    ensures LeadingZeros(ds) == n
  {
    var k := LeadingZeros(ds);
    assert k < |ds| ==> ds[k] != 0;
    assert n < |ds| ==> ds[n] != 0;
  }

  lemma {:induction false} ValueOfZeros(base: nat, n: nat)
    ensures Value(base, Zeros(n)) == 0
  {
    if n > 0 {
      ValueOfZeros(base, n - 1);
      assert Zeros(n)[..n - 1] == Zeros(n - 1);
    }
  }

  /** Leading zeros do not change the value. */
  lemma ValueStrip(base: nat, ds: seq<nat>, n: nat)
    requires n <= |ds| && forall i :: 0 <= i < n ==> ds[i] == 0
    ensures Value(base, ds) == Value(base, ds[n..])
  {
    assert ds == ds[..n] + ds[n..];
    assert ds[..n] == Zeros(n);
    ValueConcat(base, ds[..n], ds[n..]);
    ValueOfZeros(base, n);
  }

  lemma LeadFits(a: nat, v: nat, w: nat, top: nat)
    requires v < w
    ensures a < top <==> a * w + v < top * w
  {
    if a < top {
      assert (a + 1) * w <= top * w;
    } else {
      assert a * w >= top * w;
    }
  }

  /** A big-endian number is bounded through its first byte. */
  lemma FirstByteBounds(bs: seq<byte>, limit: nat)
    requires bs != []
    ensures bs[0] < limit <==> Value(256, bs) < limit * Pow(256, |bs| - 1)
  {
    var low := bs[1..];
    assert bs == [bs[0]] + low;
    ValueConcat(256, [bs[0]], low);
    assert Value(256, [bs[0]]) == bs[0];
    BytesOfValue(low);
    LeadFits(bs[0], Value(256, low), Pow(256, |low|), limit);
  }
}
