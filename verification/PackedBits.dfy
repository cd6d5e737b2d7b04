/** Bit strings packed into bytes, least significant bit first. */
module PackedBits {
  import opened Positional

  function Weight(i: nat): nat
    requires i < 8
  {
    if i == 0 then 1 else if i == 1 then 2 else if i == 2 then 4 else if i == 3 then 8
    else if i == 4 then 16 else if i == 5 then 32 else if i == 6 then 64 else 128
  }

  /** (b >> i) & 1 */
  function GetBit(b: byte, i: nat): bool
    requires i < 8
  {
    (b / Weight(i)) % 2 == 1
  }

  /** The eight bits of a byte, and the byte of eight bits. */
  function ByteBits(b: byte): (bits: seq<bool>)
    ensures |bits| == 8
  {
    seq(8, i requires 0 <= i < 8 => GetBit(b, i))
  }

  function FromBits(bits: seq<bool>): byte
    requires |bits| == 8
  {
    BitValue(bits[0]) + 2 * BitValue(bits[1]) + 4 * BitValue(bits[2]) + 8 * BitValue(bits[3])
    + 16 * BitValue(bits[4]) + 32 * BitValue(bits[5]) + 64 * BitValue(bits[6]) + 128 * BitValue(bits[7])
  }

  function BitValue(v: bool): (n: nat)
    ensures n <= 1
  {
    if v then 1 else 0
  }

  /** b | (1 << i) or b & ~(1 << i): the byte with bit `i` set to `v`. */
  function SetBit(b: byte, i: nat, v: bool): byte
    requires i < 8
  {
    FromBits(ByteBits(b)[i := v])
  }

  lemma SumHalves(b: nat, v0: nat, v1: nat, v2: nat, v3: nat, v4: nat, v5: nat, v6: nat, v7: nat)
    requires v0 <= 1 && v1 <= 1 && v2 <= 1 && v3 <= 1 && v4 <= 1 && v5 <= 1 && v6 <= 1 && v7 <= 1
    requires b == v0 + 2 * v1 + 4 * v2 + 8 * v3 + 16 * v4 + 32 * v5 + 64 * v6 + 128 * v7
    ensures b % 2 == v0 && (b / 2) % 2 == v1 && (b / 4) % 2 == v2 && (b / 8) % 2 == v3
      && (b / 16) % 2 == v4 && (b / 32) % 2 == v5 && (b / 64) % 2 == v6 && (b / 128) % 2 == v7
  {
    assert b / 2 == v1 + 2 * v2 + 4 * v3 + 8 * v4 + 16 * v5 + 32 * v6 + 64 * v7;
    assert b / 4 == v2 + 2 * v3 + 4 * v4 + 8 * v5 + 16 * v6 + 32 * v7;
    assert b / 8 == v3 + 2 * v4 + 4 * v5 + 8 * v6 + 16 * v7;
    assert b / 16 == v4 + 2 * v5 + 4 * v6 + 8 * v7;
    assert b / 32 == v5 + 2 * v6 + 4 * v7;
    assert b / 64 == v6 + 2 * v7;
  }

  lemma BitOfFromBits(bits: seq<bool>, i: nat)
    requires |bits| == 8 && i < 8
    ensures GetBit(FromBits(bits), i) == bits[i]
  {
    var b := FromBits(bits);
    SumHalves(b, BitValue(bits[0]), BitValue(bits[1]), BitValue(bits[2]), BitValue(bits[3]),
              BitValue(bits[4]), BitValue(bits[5]), BitValue(bits[6]), BitValue(bits[7]));
    WeightCases(b, i, bits);
  }

  lemma WeightCases(b: nat, i: nat, bits: seq<bool>)
    requires |bits| == 8 && i < 8
    requires b % 2 == BitValue(bits[0]) && (b / 2) % 2 == BitValue(bits[1])
    requires (b / 4) % 2 == BitValue(bits[2]) && (b / 8) % 2 == BitValue(bits[3])
    requires (b / 16) % 2 == BitValue(bits[4]) && (b / 32) % 2 == BitValue(bits[5])
    requires (b / 64) % 2 == BitValue(bits[6]) && (b / 128) % 2 == BitValue(bits[7])
    ensures (b / Weight(i)) % 2 == BitValue(bits[i])
  {
  }

  lemma BitIsMod(b: byte, i: nat)
    requires i < 8
    ensures BitValue(ByteBits(b)[i]) == (b / Weight(i)) % 2
  {
  }

  lemma HalvesSum(b: byte)
    ensures b == b % 2 + 2 * ((b / 2) % 2) + 4 * ((b / 4) % 2) + 8 * ((b / 8) % 2)
               + 16 * ((b / 16) % 2) + 32 * ((b / 32) % 2) + 64 * ((b / 64) % 2) + 128 * ((b / 128) % 2)
  {
    var s1, s2, s3, s4, s5, s6, s7 := b / 2, b / 4, b / 8, b / 16, b / 32, b / 64, b / 128;
    assert s2 == s1 / 2;
    assert s3 == s2 / 2;
    assert s4 == s3 / 2;
    assert s5 == s4 / 2;
    assert s6 == s5 / 2;
    assert s7 == s6 / 2 <= 1;
  }

  /** A byte is the sum of the weights of its bits. */
  lemma FromByteBits(b: byte)
    ensures FromBits(ByteBits(b)) == b
  {
    HalvesSum(b);
    BitIsMod(b, 0);
    BitIsMod(b, 1);
    BitIsMod(b, 2);
    BitIsMod(b, 3);
    BitIsMod(b, 4);
    BitIsMod(b, 5);
    BitIsMod(b, 6);
    BitIsMod(b, 7);
  }

  lemma GetSetBit(b: byte, i: nat, v: bool, j: nat)
    requires i < 8 && j < 8
    ensures GetBit(SetBit(b, i, v), j) == if i == j then v else GetBit(b, j)
  {
    BitOfFromBits(ByteBits(b)[i := v], j);
  }

  lemma SameBitsSameByte(a: byte, b: byte)
    requires forall i :: 0 <= i < 8 ==> GetBit(a, i) == GetBit(b, i)
    ensures a == b
  {
    assert ByteBits(a) == ByteBits(b);
    FromByteBits(a);
    FromByteBits(b);
  }

  /** The bits of a byte string. */
  function Bits(bs: seq<byte>): (bits: seq<bool>)
    ensures |bits| == 8 * |bs|
  {
    seq(8 * |bs|, i requires 0 <= i < 8 * |bs| => GetBit(bs[i / 8], i % 8))
  }

  lemma BitsInjective(a: seq<byte>, b: seq<byte>)
    requires Bits(a) == Bits(b)
    ensures a == b
  {
    forall k | 0 <= k < |a|
      ensures a[k] == b[k]
    {
      forall i | 0 <= i < 8
        ensures GetBit(a[k], i) == GetBit(b[k], i)
      {
        assert Bits(a)[8 * k + i] == Bits(b)[8 * k + i];
      }
      SameBitsSameByte(a[k], b[k]);
    }
  }

  lemma BitsConcat(a: seq<byte>, b: seq<byte>)
    ensures Bits(a + b) == Bits(a) + Bits(b)
  {
  }

  lemma BitsPrefix(a: seq<byte>, n: nat)
    requires n <= |a|
    ensures Bits(a[..n]) == Bits(a)[..8 * n]
  {
  }

  /** `packed_bit_array_get` */
  function PackedBitArrayGet(bits: seq<byte>, i: nat): bool
    requires i < 8 * |bits|
  {
    GetBit(bits[i / 8], i % 8)
  }

  /** `packed_bit_array_set` changes exactly bit `i`. */
  method PackedBitArraySet(bits: array<byte>, i: nat, b: bool)
    requires i < 8 * bits.Length
    modifies bits
    ensures Bits(bits[..]) == Bits(old(bits[..]))[i := b]
    ensures forall k :: 0 <= k < bits.Length && k != i / 8 ==> bits[k] == old(bits[k])
  {
    ghost var before := bits[..];
    bits[i / 8] := SetBit(bits[i / 8], i % 8, b);
    forall k | 0 <= k < 8 * bits.Length
      ensures Bits(bits[..])[k] == Bits(before)[i := b][k]
    {
      GetSetBit(before[i / 8], i % 8, b, k % 8);
    }
  }

  /** The bytes of a bit string, padded with zero bits to a whole number `n` of bytes. */
  function Pack(bits: seq<bool>, n: nat): (bs: seq<byte>)
    requires |bits| <= 8 * n
    ensures |bs| == n
  {
    seq(n, k requires 0 <= k < n => FromBits(Eight(bits, 8 * k)))
  }

  function Eight(bits: seq<bool>, at: nat): (r: seq<bool>)
    ensures |r| == 8
  {
    seq(8, i requires 0 <= i < 8 => at + i < |bits| && bits[at + i])
  }

  function Falses(n: nat): (bits: seq<bool>)
    ensures |bits| == n
  {
    seq(n, i => false)
  }

  lemma BitsOfPack(bits: seq<bool>, n: nat)
    requires |bits| <= 8 * n
    ensures Bits(Pack(bits, n)) == bits + Falses(8 * n - |bits|)
  {
    forall i | 0 <= i < 8 * n
      ensures Bits(Pack(bits, n))[i] == (bits + Falses(8 * n - |bits|))[i]
    {
      BitOfFromBits(Eight(bits, 8 * (i / 8)), i % 8);
    }
  }
}
