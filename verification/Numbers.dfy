/** What bit strings and byte strings denote as little-endian numbers. */
module Numbers {
  import opened ModArith
  import opened Positional
  import opened PackedBits
  import opened RandomOracle

  /** The number of a bit string, least significant bit first. */
  function Number(bits: seq<bool>): nat {
    if bits == [] then 0 else (if bits[0] then 1 else 0) + 2 * Number(bits[1..])
  }

  /** The number of a byte string, least significant byte first. */
  function LittleValue(bs: seq<byte>): nat {
    if bs == [] then 0 else bs[0] + 256 * LittleValue(bs[1..])
  }

  lemma {:induction false} NumberConcat(a: seq<bool>, b: seq<bool>)
    ensures Number(a + b) == Number(a) + Pow(2, |a|) * Number(b)
  {
    if a == [] {
      assert a + b == b;
    } else {
      NumberConcat(a[1..], b);
      assert (a + b)[1..] == a[1..] + b && (a + b)[0] == a[0];
      TimesAssociative(2, Pow(2, |a| - 1), Number(b));
    }
  }

  lemma {:induction false} NumberBound(bits: seq<bool>)
    ensures Number(bits) < Pow(2, |bits|)
  {
    if bits != [] {
      NumberBound(bits[1..]);
    }
  }

  lemma {:induction false} NumberFalses(n: nat)
    ensures Number(Falses(n)) == 0
  {
    if n > 0 {
      NumberFalses(n - 1);
      assert Falses(n)[1..] == Falses(n - 1);
    }
  }

  lemma NumberPadded(bits: seq<bool>, n: nat)
    ensures Number(bits + Falses(n)) == Number(bits)
  {
    NumberConcat(bits, Falses(n));
    NumberFalses(n);
  }

  lemma NumberSplit(bits: seq<bool>, k: nat)
    requires k <= |bits|
    ensures Number(bits) == Number(bits[..k]) + Pow(2, k) * Number(bits[k..]) && Number(bits[..k]) < Pow(2, k)
  {
    assert bits == bits[..k] + bits[k..];
    NumberConcat(bits[..k], bits[k..]);
    NumberBound(bits[..k]);
  }

  lemma SplitMod(n: nat, w: nat, high: nat, low: nat)
    requires n == low + w * high && low < w
    ensures n % w == low && n / w == high
  {
    ModUnique(w, n, high, low);
  }

  /** The low bits of a number. */
  lemma NumberLow(bits: seq<bool>, k: nat)
    requires k <= |bits|
    ensures Pow(2, k) > 0 && Number(bits[..k]) == Number(bits) % Pow(2, k)
  {
    NumberSplit(bits, k);
    SplitMod(Number(bits), Pow(2, k), Number(bits[k..]), Number(bits[..k]));
  }

  /** Bit `i` of a number. */
  lemma NumberBit(bits: seq<bool>, i: nat)
    requires i < |bits|
    ensures Pow(2, i) > 0 && (bits[i] <==> (Number(bits) / Pow(2, i)) % 2 == 1)
  {
    NumberSplit(bits, i);
    SplitMod(Number(bits), Pow(2, i), Number(bits[i..]), Number(bits[..i]));
    LowestBit(bits[i..]);
  }

  lemma LowestBit(bits: seq<bool>)
    requires bits != []
    ensures bits[0] <==> Number(bits) % 2 == 1
  {
    Parity(BitValue(bits[0]), Number(bits[1..]));
  }

  lemma Parity(b: nat, n: nat)
    requires b < 2
    ensures (b + 2 * n) % 2 == b
  {
  }

  lemma NumberFour(v: seq<bool>)
    requires |v| == 4
    ensures Number(v) == BitValue(v[0]) + 2 * BitValue(v[1]) + 4 * BitValue(v[2]) + 8 * BitValue(v[3])
  {
    var w := v[1..];
    assert Number(w[1..]) == BitValue(v[2]) + 2 * Number([v[3]]) by { assert w[1..][1..] == [v[3]]; }
    assert Number([v[3]]) == BitValue(v[3]);
  }

  lemma NumberEight(v: seq<bool>)
    requires |v| == 8
    ensures Number(v) == FromBits(v)
  {
    var low, high := v[..4], v[4..];
    NumberSplit(v, 4);
    NumberFour(low);
    NumberFour(high);
    assert Pow(2, 4) == 16;
  }

  lemma NumberOfByte(b: byte)
    ensures Number(ByteBits(b)) == b
  {
    NumberEight(ByteBits(b));
    FromByteBits(b);
  }

  lemma {:induction false} NumberOfBits(bs: seq<byte>)
    ensures Number(Bits(bs)) == LittleValue(bs)
  {
    if bs != [] {
      assert bs == [bs[0]] + bs[1..];
      BitsConcat([bs[0]], bs[1..]);
      assert Bits([bs[0]]) == ByteBits(bs[0]);
      NumberConcat(Bits([bs[0]]), Bits(bs[1..]));
      NumberOfByte(bs[0]);
      NumberOfBits(bs[1..]);
      PowEight();
    }
  }

  lemma PowEight()
    ensures Pow(2, 8) == 256
  {
    assert Pow(2, 4) == 16;
    PowAdd(2, 4, 4);
  }

  lemma {:induction false} LittleValueReversed(bs: seq<byte>)
    ensures LittleValue(bs) == Value(256, Reversed(bs))
  {
    if bs != [] {
      LittleValueReversed(bs[1..]);
      ValueAppend(256, Reversed(bs[1..]), bs[0], Reversed(bs));
    }
  }

  /** A big-endian word and the bits of its reversal. */
  lemma NumberOfWord(x: seq<byte>)
    ensures Number(Bits(Reversed(x))) == Value(256, x)
  {
    NumberOfBits(Reversed(x));
    LittleValueReversed(Reversed(x));
    ReversedTwice(x);
  }

  lemma NumberOfLittleEndian(v: nat, n: nat)
    requires v < Pow(256, n)
    ensures Number(Bits(LittleEndian(v, n))) == v
  {
    NumberOfWord(Bytes(v, n));
    ValueOfBytes(v, n);
  }

  /** The number of a packed bit string, read as a big-endian word. */
  lemma PackedNumber(bits: seq<bool>, n: nat)
    requires |bits| <= 8 * n
    ensures Value(256, Reversed(Pack(bits, n))) == Number(bits)
  {
    NumberOfWord(Reversed(Pack(bits, n)));
    ReversedTwice(Pack(bits, n));
    BitsOfPack(bits, n);
    NumberPadded(bits, 8 * n - |bits|);
  }
}
