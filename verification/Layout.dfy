/** Where everything is: the transaction's words and bits, the derivation message, and the sponge input,
    read back at literal offsets as numbers. */
module Layout {
  import opened ModArith
  import opened Positional
  import opened PackedBits
  import opened RandomOracle
  import opened Numbers
  import opened Messages
  import opened Transactions
  import opened Curves
  import Poseidon
  import opened Pallas
  import opened Schnorr
  import opened Signing
  import opened Binding

  // ---- the transaction ----------------------------------------------------------------

  lemma NumberOfUint64(v: uint64)
    ensures Number(Uint64Bits(v)) == v
  {
    Powers();
    NumberOfLittleEndian(v, 8);
  }

  lemma NumberOfUint32(v: uint32)
    ensures Number(Uint32Bits(v)) == v
  {
    Powers();
    NumberOfLittleEndian(v, 4);
  }

  function Parities(tx: Transaction): seq<bool> {
    [tx.tag0, tx.tag1, tx.tag2, tx.sourcePk.isOdd, tx.receiverPk.isOdd]
  }

  lemma BodyPart(tx: Transaction)
    ensures var bits, c := TxBits(tx), CommonBits(tx);
      && c <= bits && |c| == 465 && bits[465..470] == Parities(tx) && bits[598..599] == [tx.tokenLocked]
      && bits[470..534] == Uint64Bits(tx.tokenId) && bits[534..598] == Uint64Bits(tx.amount)
  {
    var bits, c, head := TxBits(tx), CommonBits(tx), Parities(tx);
    var token, amount, lock := Uint64Bits(tx.tokenId), Uint64Bits(tx.amount), [tx.tokenLocked];
    ConcatAssociative(c, head, token);
    ConcatAssociative(c, head + token, amount);
    ConcatAssociative(c, head + token + amount, lock);
    Peel(bits, c + head + token + amount, lock);
    Peel(bits, c + head + token, amount);
    Peel(bits, c + head, token);
    Peel(bits, c, head);
  }

  lemma CommonPart(tx: Transaction)
    ensures var bits := TxBits(tx);
      && |bits| == 599 && bits[0..64] == Uint64Bits(tx.fee) && bits[64..128] == Uint64Bits(tx.feeToken)
      && bits[128..129] == [tx.feePayerPk.isOdd]
      && bits[129..161] == Uint32Bits(tx.nonce) && bits[161..193] == Uint32Bits(tx.validUntil)
      && bits[193..465] == Bits(tx.memo)
  {
    var bits, fee, token := TxBits(tx), Uint64Bits(tx.fee), Uint64Bits(tx.feeToken);
    var odd, nonce, until := [tx.feePayerPk.isOdd], Uint32Bits(tx.nonce), Uint32Bits(tx.validUntil);
    Peel(bits, fee + token + odd + nonce + until, Bits(tx.memo));
    Peel(bits, fee + token + odd + nonce, until);
    Peel(bits, fee + token + odd, nonce);
    Peel(bits, fee + token, odd);
    Peel(bits, fee, token);
  }

  /** Bits read as a transaction: where each field is, and in which order its bits are. */
  predicate ReadsAsTransaction(bits: seq<bool>, tx: Transaction) {
    && |bits| == 599
    && Number(bits[0..64]) == tx.fee && Number(bits[64..128]) == tx.feeToken && bits[128] == tx.feePayerPk.isOdd
    && Number(bits[129..161]) == tx.nonce && Number(bits[161..193]) == tx.validUntil
    && (forall i :: 0 <= i < 34 ==> Number(bits[193 + 8 * i..201 + 8 * i]) == tx.memo[i])
    && bits[465..468] == [tx.tag0, tx.tag1, tx.tag2] && bits[468] == tx.sourcePk.isOdd
    && bits[469] == tx.receiverPk.isOdd && Number(bits[470..534]) == tx.tokenId
    && Number(bits[534..598]) == tx.amount && bits[598] == tx.tokenLocked
  }

  lemma ByteOfBits(bs: seq<byte>, i: nat)
    requires i < |bs|
    ensures Number(Bits(bs)[8 * i..8 * i + 8]) == bs[i]
  {
    assert Bits(bs)[8 * i..8 * i + 8] == ByteBits(bs[i]);
    NumberOfByte(bs[i]);
  }

  lemma MemoPart(bits: seq<bool>, m: memo, i: nat)
    requires |bits| == 599 && bits[193..465] == Bits(m) && i < 34
    ensures Number(bits[193 + 8 * i..201 + 8 * i]) == m[i]
  {
    SliceOfSlice(bits, 193, 465, 8 * i, 8 * i + 8);
    ByteOfBits(m, i);
  }

  lemma SliceOfSlice<T>(s: seq<T>, a: nat, b: nat, i: nat, j: nat)
    requires a + j <= b <= |s| && i <= j
    ensures s[a..b][i..j] == s[a + i..a + j]
  {
    var t := s[a..b];
    forall k | 0 <= k < j - i
      ensures t[i..j][k] == s[a + i..a + j][k]
    {
      assert t[i..j][k] == t[i + k] == s[a + (i + k)];
      assert a + (i + k) == (a + i) + k;
    }
  }

  lemma SmallParts(tx: Transaction)
    ensures var bits := TxBits(tx);
      && bits[128] == tx.feePayerPk.isOdd && bits[465..468] == [tx.tag0, tx.tag1, tx.tag2]
      && bits[468] == tx.sourcePk.isOdd && bits[469] == tx.receiverPk.isOdd && bits[598] == tx.tokenLocked
  {
    var bits := TxBits(tx);
    BodyPart(tx);
    CommonPart(tx);
    assert bits[128] == bits[128..129][0] && bits[598] == bits[598..599][0];
    assert bits[468] == bits[465..470][3] && bits[469] == bits[465..470][4];
    SliceOfSlice(bits, 465, 470, 0, 3);
  }

  /** The bits of a transaction read as that transaction. */
  lemma TransactionLayout(tx: Transaction)
    ensures ReadsAsTransaction(TxBits(tx), tx)
  {
    BodyPart(tx);
    CommonPart(tx);
    SmallParts(tx);
    NumberOfUint64(tx.fee);
    NumberOfUint64(tx.feeToken);
    NumberOfUint32(tx.nonce);
    NumberOfUint32(tx.validUntil);
    NumberOfUint64(tx.tokenId);
    NumberOfUint64(tx.amount);
    forall i | 0 <= i < 34
      ensures Number(TxBits(tx)[193 + 8 * i..201 + 8 * i]) == tx.memo[i]
    {
      MemoPart(TxBits(tx), tx.memo, i);
    }
  }

  /** The words: fee payer, source, receiver, each x-coordinate as a little-endian number. */
  lemma WordLayout(tx: Transaction)
    ensures |TxFields(tx)| == 3
    ensures LittleValue(TxFields(tx)[0]) == Value(256, tx.feePayerPk.x)
    ensures LittleValue(TxFields(tx)[1]) == Value(256, tx.sourcePk.x)
    ensures LittleValue(TxFields(tx)[2]) == Value(256, tx.receiverPk.x)
  {
    LittleValueOfReversed(tx.feePayerPk.x);
    LittleValueOfReversed(tx.sourcePk.x);
    LittleValueOfReversed(tx.receiverPk.x);
  }

  lemma LittleValueOfReversed(x: field)
    ensures LittleValue(Reversed(x)) == Value(256, x)
  {
    LittleValueReversed(Reversed(x));
    ReversedTwice(x);
  }

  // ---- the sponge input ---------------------------------------------------------------

  /** Elements are the fields and then the bits in chunks of 254, each as a number. */
  lemma ElementLayout(fs: seq<field>, bits: seq<bool>)
    ensures var es := PackedFields(fs, bits);
      && |es| == |fs| + (|bits| + 253) / 254
      && (forall i :: 0 <= i < |fs| ==> Value(256, es[i]) == LittleValue(fs[i]))
      && forall k :: 0 <= k < (|bits| + 253) / 254 ==> Value(256, es[|fs| + k]) == Number(ChunkOf(bits, k))
  {
    var es := PackedFields(fs, bits);
    forall i | 0 <= i < |fs|
      ensures Value(256, es[i]) == LittleValue(fs[i])
    {
      LittleValueReversed(fs[i]);
    }
    forall k | 0 <= k < (|bits| + 253) / 254
      ensures Value(256, es[|fs| + k]) == Number(ChunkOf(bits, k))
    {
      PackedChunk(fs, bits, k);
      PackedNumber(Chunk(bits, k), 32);
      assert Chunk(bits, k) == ChunkOf(bits, k);
    }
  }

  /** Bits 254 k up to 254 (k + 1), or up to the end. */
  function ChunkOf(bits: seq<bool>, k: nat): seq<bool>
    requires k < (|bits| + 253) / 254
  {
    bits[254 * k..if 254 * (k + 1) <= |bits| then 254 * (k + 1) else |bits|]
  }

  /** Bit `i` is bit i % 254 of element i / 254 after the fields. */
  lemma ElementBit(fs: seq<field>, bits: seq<bool>, i: nat)
    requires i < |bits|
    ensures |PackedFields(fs, bits)| > |fs| + i / 254 && Pow(2, i % 254) > 0
    ensures bits[i] <==> (Value(256, PackedFields(fs, bits)[|fs| + i / 254]) / Pow(2, i % 254)) % 2 == 1
  {
    var k, j := i / 254, i % 254;
    ElementLayout(fs, bits);
    ChunkHolds(bits, i, k, j);
    NumberBit(ChunkOf(bits, k), j);
  }

  lemma ChunkHolds(bits: seq<bool>, i: nat, k: nat, j: nat)
    requires i < |bits| && i == 254 * k + j && j < 254
    ensures k < (|bits| + 253) / 254 && j < |ChunkOf(bits, k)| && ChunkOf(bits, k)[j] == bits[i]
  {
  }

  /** The nine elements that the sponge absorbs for a transaction. */
  function NineElements(tx: Transaction, x: nat, y: nat, rx: nat): seq<nat> {
    var bits := TxBits(tx);
    [Value(256, tx.feePayerPk.x), Value(256, tx.sourcePk.x), Value(256, tx.receiverPk.x), x, y, rx,
     Number(bits[0..254]), Number(bits[254..508]), Number(bits[508..599])]
  }

  lemma SixNumbers(tx: Transaction, x: field, y: field, rx: field, i: nat)
    requires i < 6
    ensures LittleValue(SixFields(tx, x, y, rx)[i]) == Value(256, SixWords(tx, x, y, rx)[i])
  {
    SixReversed(tx, x, y, rx, i);
    LittleValueReversed(SixFields(tx, x, y, rx)[i]);
  }

  function SixWords(tx: Transaction, x: field, y: field, rx: field): seq<field> {
    [tx.feePayerPk.x, tx.sourcePk.x, tx.receiverPk.x, x, y, rx]
  }

  lemma ThreeChunks(bits: seq<bool>)
    requires |bits| == 599
    ensures (|bits| + 253) / 254 == 3
    ensures ChunkOf(bits, 0) == bits[0..254] && ChunkOf(bits, 1) == bits[254..508] && ChunkOf(bits, 2) == bits[508..599]
  {
  }

  lemma WordElement(tx: Transaction, x: field, y: field, rx: field, i: nat)
    requires i < 6
    ensures |SpongeInput(tx, x, y, rx)| == 9
    ensures SpongeInput(tx, x, y, rx)[i] == Value(256, SixWords(tx, x, y, rx)[i])
  {
    var es := PackedFields(SixFields(tx, x, y, rx), TxBits(tx));
    ElementLayout(SixFields(tx, x, y, rx), TxBits(tx));
    assert SpongeInput(tx, x, y, rx)[i] == Value(256, es[i]);
    SixNumbers(tx, x, y, rx, i);
  }

  lemma ChunkElement(tx: Transaction, x: field, y: field, rx: field, k: nat)
    requires k < 3
    ensures |SpongeInput(tx, x, y, rx)| == 9
    ensures SpongeInput(tx, x, y, rx)[6 + k] == Number(ChunkOf(TxBits(tx), k))
  {
    var es := PackedFields(SixFields(tx, x, y, rx), TxBits(tx));
    ElementLayout(SixFields(tx, x, y, rx), TxBits(tx));
    assert SpongeInput(tx, x, y, rx)[6 + k] == Value(256, es[6 + k]);
  }

  lemma NineOf(s: seq<nat>, a: nat, b: nat, c: nat, x: nat, y: nat, r: nat, u: nat, v: nat, w: nat)
    requires |s| == 9 && s[0] == a && s[1] == b && s[2] == c && s[3] == x && s[4] == y && s[5] == r
    requires s[6] == u && s[7] == v && s[8] == w
    ensures s == [a, b, c, x, y, r, u, v, w]
  {
  }

  lemma NineChunks(tx: Transaction, x: nat, y: nat, rx: nat, u: nat, v: nat, w: nat)
    requires u == Number(ChunkOf(TxBits(tx), 0)) && v == Number(ChunkOf(TxBits(tx), 1))
    requires w == Number(ChunkOf(TxBits(tx), 2))
    ensures NineElements(tx, x, y, rx)
         == [Value(256, tx.feePayerPk.x), Value(256, tx.sourcePk.x), Value(256, tx.receiverPk.x), x, y, rx, u, v, w]
  {
    ThreeChunks(TxBits(tx));
  }

  /** The sponge absorbs exactly these elements. */
  lemma SpongeLayout(tx: Transaction, x: field, y: field, rx: field)
    ensures SpongeInput(tx, x, y, rx) == NineElements(tx, Value(256, x), Value(256, y), Value(256, rx))
  {
    var s := SpongeInput(tx, x, y, rx);
    WordElement(tx, x, y, rx, 0);
    WordElement(tx, x, y, rx, 1);
    WordElement(tx, x, y, rx, 2);
    WordElement(tx, x, y, rx, 3);
    WordElement(tx, x, y, rx, 4);
    WordElement(tx, x, y, rx, 5);
    ChunkElement(tx, x, y, rx, 0);
    ChunkElement(tx, x, y, rx, 1);
    ChunkElement(tx, x, y, rx, 2);
    NineOf(s, Value(256, tx.feePayerPk.x), Value(256, tx.sourcePk.x), Value(256, tx.receiverPk.x),
           Value(256, x), Value(256, y), Value(256, rx), s[6], s[7], s[8]);
    NineChunks(tx, Value(256, x), Value(256, y), Value(256, rx), s[6], s[7], s[8]);
  }

  /** The challenge on the two networks: the first place of the sponge after the nine elements. */
  lemma ChallengeLayout(h: Hashes, tx: Transaction, pub: Affine, rx: nat)
    requires h.Valid() && pub.x < FIELD_MODULUS && pub.y < FIELD_MODULUS && rx < FIELD_MODULUS
    ensures var input := NineElements(tx, pub.x, pub.y, rx);
      && Challenge(h, TxFields(tx), TxBits(tx), pub, rx, 0)
         == Poseidon.Absorb(FIELD_MODULUS, h.tables, h.testnetIv, input)[0]
      && Challenge(h, TxFields(tx), TxBits(tx), pub, rx, 1)
         == Poseidon.Absorb(FIELD_MODULUS, h.tables, h.mainnetIv, input)[0]
  {
    WordValue(pub.x);
    WordValue(pub.y);
    WordValue(rx);
    SpongeLayout(tx, FieldBytes(pub.x), FieldBytes(pub.y), FieldBytes(rx));
  }

  lemma WordValue(v: nat)
    requires v < FIELD_MODULUS
    ensures Value(256, FieldBytes(v)) == v
  {
    PowersOf256();
    ValueOfBytes(v, 32);
  }

  /** The state whose first place is the challenge. */
  ghost function SpongeState(h: Hashes, tx: Transaction, pub: Affine, rx: nat, networkId: byte): Poseidon.state
    requires h.Valid()
  {
    Poseidon.Absorb(FIELD_MODULUS, h.tables, InitialState(h, networkId), NineElements(tx, pub.x, pub.y, rx))
  }

  /** The commitment reaches the sponge: another rx gives another final state. */
  lemma SpongeSeesCommitment(h: Hashes, inv: Poseidon.Inverses, tx: Transaction, pub: Affine, rx: nat, rx': nat,
                             id: byte)
    requires h.Valid() && Poseidon.Invertible(FIELD_MODULUS, h.tables, inv)
    requires pub.x < FIELD_MODULUS && pub.y < FIELD_MODULUS && rx < FIELD_MODULUS && rx' < FIELD_MODULUS
    ensures Challenge(h, TxFields(tx), TxBits(tx), pub, rx, id) == SpongeState(h, tx, pub, rx, id)[0]
    ensures SpongeState(h, tx, pub, rx, id) == SpongeState(h, tx, pub, rx', id) <==> rx == rx'
  {
    SpongeFirst(h, tx, pub, rx, id);
    var vs := NineElements(tx, pub.x, pub.y, rx);
    assert vs[5 := rx'] == NineElements(tx, pub.x, pub.y, rx');
    Poseidon.AbsorbElement(FIELD_MODULUS, h.tables, inv, InitialState(h, id), vs, 5, rx');
    ModUnique(FIELD_MODULUS, rx, 0, rx);
    ModUnique(FIELD_MODULUS, rx', 0, rx');
  }

  lemma SpongeFirst(h: Hashes, tx: Transaction, pub: Affine, rx: nat, id: byte)
    requires h.Valid() && pub.x < FIELD_MODULUS && pub.y < FIELD_MODULUS && rx < FIELD_MODULUS
    ensures Challenge(h, TxFields(tx), TxBits(tx), pub, rx, id) == SpongeState(h, tx, pub, rx, id)[0]
  {
    WordValue(pub.x);
    WordValue(pub.y);
    WordValue(rx);
    SpongeLayout(tx, FieldBytes(pub.x), FieldBytes(pub.y), FieldBytes(rx));
  }

  /** Every element reaches it: two transactions, keys or commitments whose nine elements differ in exactly
      one place modulo the field modulus have different final states. */
  lemma SpongeSeesElement(h: Hashes, inv: Poseidon.Inverses, tx: Transaction, pub: Affine, rx: nat,
                          tx': Transaction, pub': Affine, rx': nat, id: byte, i: nat)
    requires h.Valid() && Poseidon.Invertible(FIELD_MODULUS, h.tables, inv) && i < 9
    requires var vs, vs' := NineElements(tx, pub.x, pub.y, rx), NineElements(tx', pub'.x, pub'.y, rx');
      vs' == vs[i := vs'[i]] && vs[i] % FIELD_MODULUS != vs'[i] % FIELD_MODULUS
    ensures SpongeState(h, tx, pub, rx, id) != SpongeState(h, tx', pub', rx', id)
  {
    var vs, vs' := NineElements(tx, pub.x, pub.y, rx), NineElements(tx', pub'.x, pub'.y, rx');
    Poseidon.AbsorbElement(FIELD_MODULUS, h.tables, inv, InitialState(h, id), vs, i, vs'[i]);
  }

  // ---- the derivation message -------------------------------------------------------

  /** 2^255. */
  const TWO255 := 2 * TWO254

  lemma {:induction false} PowBytes(n: nat)
    ensures Pow(256, n) == Pow(2, 8 * n)
  {
    if n > 0 {
      PowBytes(n - 1);
      PowAdd(2, 8, 8 * (n - 1));
      PowEight();
      assert 8 + 8 * (n - 1) == 8 * n;
    }
  }

  lemma PowTwo255()
    ensures Pow(2, 255) == TWO255
  {
    PowersOf256();
    PowBytes(32);
    assert Pow(2, 256) == 2 * Pow(2, 255);
  }

  lemma LowNumber(x: field)
    ensures Number(Bits(Reversed(x))[..255]) == Value(256, x) % TWO255
  {
    NumberLow(Bits(Reversed(x)), 255);
    NumberOfWord(x);
    PowTwo255();
  }

  /** The message bits: five words of 255 bits, the transaction's bits, the key, and the network. */
  predicate ReadsAsDerivation(bits: seq<bool>, tx: Transaction, kp: Keypair, id: byte) {
    && |bits| == 2144
    && Number(bits[0..255]) == Value(256, tx.feePayerPk.x) % TWO255
    && Number(bits[255..510]) == Value(256, tx.sourcePk.x) % TWO255
    && Number(bits[510..765]) == Value(256, tx.receiverPk.x) % TWO255
    && Number(bits[765..1020]) == kp.pub.x && Number(bits[1020..1275]) == kp.pub.y
    && bits[1275..1874] == TxBits(tx)
    && Number(bits[1874..2129]) == Value(256, kp.priv) % TWO255 && Number(bits[2129..2137]) == id
    && bits[2137..2144] == Falses(7)
  }

  function LowWord(x: field): (bits: seq<bool>)
    ensures |bits| == 255
  {
    Bits(Reversed(x))[..255]
  }

  lemma FiveWords(a: field, b: field, c: field, d: field, e: field)
    ensures FieldBits([Reversed(a), Reversed(b), Reversed(c)] + [Reversed(d)] + [Reversed(e)])
         == LowWord(a) + LowWord(b) + LowWord(c) + LowWord(d) + LowWord(e)
  {
    var fs := [Reversed(a), Reversed(b), Reversed(c)];
    ThreeWords(a, b, c);
    FieldBitsAppend(fs, Reversed(d));
    FieldBitsAppend(fs + [Reversed(d)], Reversed(e));
  }

  lemma ThreeWords(a: field, b: field, c: field)
    ensures FieldBits([Reversed(a), Reversed(b), Reversed(c)]) == LowWord(a) + LowWord(b) + LowWord(c)
  {
    var one, two, three := [Reversed(a)], [Reversed(a), Reversed(b)], [Reversed(a), Reversed(b), Reversed(c)];
    assert one == [] + [Reversed(a)] && two == one + [Reversed(b)] && three == two + [Reversed(c)];
    FieldBitsAppend([], Reversed(a));
    FieldBitsAppend(one, Reversed(b));
    FieldBitsAppend(two, Reversed(c));
  }

  lemma FieldBitsAppend(fs: seq<field>, f: field)
    ensures FieldBits(fs + [f]) == FieldBits(fs) + Bits(f)[..255]
  {
    assert (fs + [f])[..|fs|] == fs;
  }

  /** The message bits, concatenated. */
  lemma MessageIs(tx: Transaction, kp: Keypair, id: byte)
    ensures Bits(NonceMessage(tx, kp, id))
         == MessageWords(tx, kp) + TxBits(tx) + LowWord(kp.priv) + Bits([id]) + Falses(7)
  {
    var x, y, t, k := FieldBytes(kp.pub.x), FieldBytes(kp.pub.y), TxBits(tx), LowWord(kp.priv);
    var d := DeriveBits(TxFields(tx), t, x, y, kp.priv, id);
    BitsOfPack(d, 268);
    FiveWords(tx.feePayerPk.x, tx.sourcePk.x, tx.receiverPk.x, x, y);
    var words := MessageWords(tx, kp);
    ConcatAssociative(words, t + k, Bits([id]));
    ConcatAssociative(words, t, k);
  }

  function MessageWords(tx: Transaction, kp: Keypair): (bits: seq<bool>)
    ensures |bits| == 1275
  {
    LowWord(tx.feePayerPk.x) + LowWord(tx.sourcePk.x) + LowWord(tx.receiverPk.x)
    + LowWord(FieldBytes(kp.pub.x)) + LowWord(FieldBytes(kp.pub.y))
  }

  lemma MessageTail(words: seq<bool>, t: seq<bool>, k: seq<bool>, n: seq<bool>, z: seq<bool>)
    requires |words| == 1275 && |t| == 599 && |k| == 255 && |n| == 8 && |z| == 7
    ensures var bits := words + t + k + n + z;
      && |bits| == 2144 && words <= bits && bits[1275..1874] == t && bits[1874..2129] == k && bits[2129..2137] == n
      && bits[2137..2144] == z
  {
    var bits := words + t + k + n + z;
    Peel(bits, words + t + k + n, z);
    Peel(bits, words + t + k, n);
    Peel(bits, words + t, k);
    Peel(bits, words, t);
  }

  lemma WordsPart(bits: seq<bool>, tx: Transaction, kp: Keypair)
    requires MessageWords(tx, kp) <= bits
    ensures bits[0..255] == LowWord(tx.feePayerPk.x) && bits[255..510] == LowWord(tx.sourcePk.x)
    ensures bits[510..765] == LowWord(tx.receiverPk.x) && bits[765..1020] == LowWord(FieldBytes(kp.pub.x))
    ensures bits[1020..1275] == LowWord(FieldBytes(kp.pub.y))
  {
    var a, b, c := LowWord(tx.feePayerPk.x), LowWord(tx.sourcePk.x), LowWord(tx.receiverPk.x);
    var x, y := LowWord(FieldBytes(kp.pub.x)), LowWord(FieldBytes(kp.pub.y));
    Peel(bits, a + b + c + x, y);
    Peel(bits, a + b + c, x);
    Peel(bits, a + b, c);
    Peel(bits, a, b);
  }

  lemma WordNumbers(bits: seq<bool>, tx: Transaction, kp: Keypair)
    requires MessageWords(tx, kp) <= bits && kp.pub.x < FIELD_MODULUS && kp.pub.y < FIELD_MODULUS
    ensures Number(bits[0..255]) == Value(256, tx.feePayerPk.x) % TWO255
    ensures Number(bits[255..510]) == Value(256, tx.sourcePk.x) % TWO255
    ensures Number(bits[510..765]) == Value(256, tx.receiverPk.x) % TWO255
    ensures Number(bits[765..1020]) == kp.pub.x && Number(bits[1020..1275]) == kp.pub.y
  {
    WordsPart(bits, tx, kp);
    LowNumber(tx.feePayerPk.x);
    LowNumber(tx.sourcePk.x);
    LowNumber(tx.receiverPk.x);
    ReducedNumber(kp.pub.x);
    ReducedNumber(kp.pub.y);
  }

  lemma ReducedNumber(v: nat)
    requires v < FIELD_MODULUS
    ensures Number(LowWord(FieldBytes(v))) == v
  {
    LowNumber(FieldBytes(v));
    WordValue(v);
    ModUnique(TWO255, v, 0, v);
  }

  /** The bytes hashed to the nonce read as transaction, key and network, for a key of reduced coordinates. */
  lemma DerivationLayout(tx: Transaction, kp: Keypair, id: byte)
    requires kp.pub.x < FIELD_MODULUS && kp.pub.y < FIELD_MODULUS
    ensures |NonceMessage(tx, kp, id)| == 268 && ReadsAsDerivation(Bits(NonceMessage(tx, kp, id)), tx, kp, id)
  {
    var bits := Bits(NonceMessage(tx, kp, id));
    MessageIs(tx, kp, id);
    MessageTail(MessageWords(tx, kp), TxBits(tx), LowWord(kp.priv), Bits([id]), Falses(7));
    WordNumbers(bits, tx, kp);
    LowNumber(kp.priv);
    NetworkNumber(id);
  }

  lemma NetworkNumber(id: byte)
    ensures Number(Bits([id])) == id
  {
    NumberOfBits([id]);
  }

  /** The nonce of a transaction: the low 254 bits of the little-endian hash of those bytes. */
  lemma NonceLayout(h: Hashes, tx: Transaction, kp: Keypair, id: byte)
    requires kp.pub.x < FIELD_MODULUS && kp.pub.y < FIELD_MODULUS
    ensures var message := NonceMessage(tx, kp, id);
      && ReadsAsDerivation(Bits(message), tx, kp, id)
      && Value(256, Nonce(h, TxFields(tx), TxBits(tx), kp, id)) == LittleValue(h.blake2b(message)) % TWO254
  {
    DerivationLayout(tx, kp, id);
    NonceValue(h, TxFields(tx), TxBits(tx), kp, id);
  }
}
