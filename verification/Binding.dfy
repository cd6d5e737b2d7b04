/** What the challenge and the nonce determine of a transaction. The sponge sees x-coordinates modulo
    the field modulus, and the derivation message drops their top bit; packets may carry any 32 bytes. */
module Binding {
  import opened ModArith
  import opened Positional
  import opened PackedBits
  import opened RandomOracle
  import opened Messages
  import opened Transactions
  import opened Curves
  import Poseidon
  import opened Pallas
  import opened Schnorr
  import opened Signing

  /** A transaction with the x-coordinates of another. */
  function WithCoordinates(a: Transaction, b: Transaction): Transaction {
    a.(feePayerPk := a.feePayerPk.(x := b.feePayerPk.x), sourcePk := a.sourcePk.(x := b.sourcePk.x),
       receiverPk := a.receiverPk.(x := b.receiverPk.x))
  }

  /** The bits hold exactly what is not an x-coordinate. */
  lemma BitsButCoordinates(a: Transaction, b: Transaction)
    ensures TxBits(a) == TxBits(b) <==> WithCoordinates(a, b) == b
  {
    if TxBits(a) == TxBits(b) {
      SplitConcat(CommonBits(a), BodyBits(a), CommonBits(b), BodyBits(b));
      CommonInjective(a, b);
      BodyInjective(a, b);
    }
    if WithCoordinates(a, b) == b {
      assert CommonBits(a) == CommonBits(b) && BodyBits(a) == BodyBits(b);
    }
  }

  /** Coordinates below the field modulus, as those of curve points are. */
  predicate CoordinatesReduced(a: Transaction) {
    Value(256, a.feePayerPk.x) < FIELD_MODULUS && Value(256, a.sourcePk.x) < FIELD_MODULUS
    && Value(256, a.receiverPk.x) < FIELD_MODULUS
  }

  lemma WordInjective(x: field, y: field)
    requires Value(256, x) == Value(256, y)
    ensures x == y
  {
    BytesOfValue(x);
    BytesOfValue(y);
  }

  // ---- the challenge ------------------------------------------------------------------

  predicate SameResidue(x: field, y: field) {
    Value(256, x) % FIELD_MODULUS == Value(256, y) % FIELD_MODULUS
  }

  ghost predicate SameResidues(m: nat, vs: seq<nat>, ws: seq<nat>)
    requires m > 0
  {
    |vs| == |ws| && forall i :: 0 <= i < |vs| ==> vs[i] % m == ws[i] % m
  }

  /** The sponge sees its input modulo the field modulus. */
  lemma {:induction false} AbsorbResidues(m: nat, t: Poseidon.Tables, s: Poseidon.state, vs: seq<nat>, ws: seq<nat>)
    requires m > 0 && t.Valid() && SameResidues(m, vs, ws)
    ensures Poseidon.Absorb(m, t, s, vs) == Poseidon.Absorb(m, t, s, ws)
    decreases vs
  {
    if vs != [] {
      EqAdd(m, s[0], s[0], vs[0], ws[0]);
      if |vs| > 1 {
        EqAdd(m, s[1], s[1], vs[1], ws[1]);
        var u := Poseidon.AddPair(m, s, vs[0], vs[1]);
        assert u == Poseidon.AddPair(m, s, ws[0], ws[1]);
        AbsorbResidues(m, t, Poseidon.Permutation(m, t, u), vs[2..], ws[2..]);
      }
    }
  }

  lemma SmallResidue(x: field, y: field)
    requires Value(256, x) < FIELD_MODULUS && Value(256, y) < FIELD_MODULUS
    ensures SameResidue(x, y) <==> x == y
  {
    ModUnique(FIELD_MODULUS, Value(256, x), 0, Value(256, x));
    ModUnique(FIELD_MODULUS, Value(256, y), 0, Value(256, y));
    if SameResidue(x, y) {
      WordInjective(x, y);
    }
  }

  lemma PackedTail(fs: seq<field>, bits: seq<bool>, k: nat)
    requires k < ChunkCount(|bits|)
    ensures |PackedFields(fs, bits)| > |fs| + k && |PackedFields([], bits)| > k
    ensures PackedFields(fs, bits)[|fs| + k] == PackedFields([], bits)[k]
  {
  }

  /** Packed chunks have the same residues only if the bits agree. */
  lemma ChunkResidues(bits: seq<bool>, bits': seq<bool>)
    requires |bits| == |bits'|
    requires SameResidues(FIELD_MODULUS, Values(PackedFields([], bits)), Values(PackedFields([], bits')))
    ensures bits == bits'
  {
    var p, p' := PackedFields([], bits), PackedFields([], bits');
    forall k | 0 <= k < |p|
      ensures p[k] == p'[k]
    {
      ChunksAreReduced([], bits, k);
      ChunksAreReduced([], bits', k);
      assert Values(p)[k] % FIELD_MODULUS == Values(p')[k] % FIELD_MODULUS;
      SmallResidue(p[k], p'[k]);
    }
    assert p == p';
    PackingIsLossless([], bits);
    PackingIsLossless([], bits');
  }

  /** The i-th fields agree modulo the field modulus. */
  predicate FieldCongruent(fs: seq<field>, fs': seq<field>, i: nat)
    requires i < |fs| == |fs'|
  {
    SameResidue(Reversed(fs[i]), Reversed(fs'[i]))
  }

  ghost predicate FieldsCongruent(fs: seq<field>, fs': seq<field>)
    requires |fs| == |fs'|
  {
    forall i :: 0 <= i < |fs| ==> FieldCongruent(fs, fs', i)
  }

  /** For fixed lengths, the sponge input agrees modulo the field modulus exactly when the bits agree
      and the fields agree modulo the field modulus. */
  lemma PackedResidues(fs: seq<field>, bits: seq<bool>, fs': seq<field>, bits': seq<bool>)
    requires |fs| == |fs'| && |bits| == |bits'|
    ensures SameResidues(FIELD_MODULUS, Values(PackedFields(fs, bits)), Values(PackedFields(fs', bits')))
      <==> bits == bits' && FieldsCongruent(fs, fs')
  {
    if SameResidues(FIELD_MODULUS, Values(PackedFields(fs, bits)), Values(PackedFields(fs', bits'))) {
      ResiduesOfFields(fs, bits, fs', bits');
      ResiduesOfBits(fs, bits, fs', bits');
    }
    if bits == bits' && FieldsCongruent(fs, fs') {
      ResiduesFollow(fs, fs', bits);
    }
  }

  lemma ResiduesOfFields(fs: seq<field>, bits: seq<bool>, fs': seq<field>, bits': seq<bool>)
    requires |fs| == |fs'| && |bits| == |bits'|
    requires SameResidues(FIELD_MODULUS, Values(PackedFields(fs, bits)), Values(PackedFields(fs', bits')))
    ensures FieldsCongruent(fs, fs')
  {
    var vs, ws := Values(PackedFields(fs, bits)), Values(PackedFields(fs', bits'));
    forall i | 0 <= i < |fs|
      ensures FieldCongruent(fs, fs', i)
    {
      assert vs[i] % FIELD_MODULUS == ws[i] % FIELD_MODULUS;
    }
  }

  lemma ResiduesOfBits(fs: seq<field>, bits: seq<bool>, fs': seq<field>, bits': seq<bool>)
    requires |fs| == |fs'| && |bits| == |bits'|
    requires SameResidues(FIELD_MODULUS, Values(PackedFields(fs, bits)), Values(PackedFields(fs', bits')))
    ensures bits == bits'
  {
    var m, n, vs, ws := FIELD_MODULUS, |fs|, Values(PackedFields(fs, bits)), Values(PackedFields(fs', bits'));
    var us, us' := Values(PackedFields([], bits)), Values(PackedFields([], bits'));
    forall k | 0 <= k < |us|
      ensures us[k] % m == us'[k] % m
    {
      PackedTail(fs, bits, k);
      PackedTail(fs', bits', k);
      assert vs[n + k] % m == ws[n + k] % m;
    }
    ChunkResidues(bits, bits');
  }

  lemma ResiduesFollow(fs: seq<field>, fs': seq<field>, bits: seq<bool>)
    requires |fs| == |fs'| && FieldsCongruent(fs, fs')
    ensures SameResidues(FIELD_MODULUS, Values(PackedFields(fs, bits)), Values(PackedFields(fs', bits)))
  {
    var vs, ws := Values(PackedFields(fs, bits)), Values(PackedFields(fs', bits));
    forall i | 0 <= i < |vs|
      ensures vs[i] % FIELD_MODULUS == ws[i] % FIELD_MODULUS
    {
      if i < |fs| {
        assert FieldCongruent(fs, fs', i);
      }
    }
  }

  /** The sponge input of a transaction under a key and a commitment. */
  function SpongeInput(a: Transaction, x: field, y: field, rx: field): seq<nat> {
    Values(HashFields(TxFields(a), TxBits(a), x, y, rx))
  }

  ghost predicate CoordinatesCongruent(a: Transaction, b: Transaction) {
    SameResidue(a.feePayerPk.x, b.feePayerPk.x) && SameResidue(a.sourcePk.x, b.sourcePk.x)
    && SameResidue(a.receiverPk.x, b.receiverPk.x)
  }

  /** What the challenge binds: everything but the x-coordinates, and these modulo the field modulus. */
  lemma ChallengeBinding(a: Transaction, x: field, y: field, rx: field,
                         b: Transaction, x': field, y': field, rx': field)
    ensures SameResidues(FIELD_MODULUS, SpongeInput(a, x, y, rx), SpongeInput(b, x', y', rx'))
      <==> (&& WithCoordinates(a, b) == b && CoordinatesCongruent(a, b)
            && SameResidue(x, x') && SameResidue(y, y') && SameResidue(rx, rx'))
  {
    var fs, fs' := SixFields(a, x, y, rx), SixFields(b, x', y', rx');
    PackedResidues(fs, TxBits(a), fs', TxBits(b));
    BitsButCoordinates(a, b);
    SixResidues(a, x, y, rx, b, x', y', rx');
  }

  /** The six fields of the sponge input. */
  function SixFields(a: Transaction, x: field, y: field, rx: field): seq<field> {
    TxFields(a) + [Reversed(x)] + [Reversed(y)] + [Reversed(rx)]
  }

  lemma SixReversed(a: Transaction, x: field, y: field, rx: field, i: nat)
    requires i < 6
    ensures Reversed(SixFields(a, x, y, rx)[i])
         == [a.feePayerPk.x, a.sourcePk.x, a.receiverPk.x, x, y, rx][i]
  {
    var words := [a.feePayerPk.x, a.sourcePk.x, a.receiverPk.x, x, y, rx];
    assert SixFields(a, x, y, rx)[i] == Reversed(words[i]);
    ReversedTwice(words[i]);
  }

  lemma SixResidues(a: Transaction, x: field, y: field, rx: field,
                    b: Transaction, x': field, y': field, rx': field)
    ensures FieldsCongruent(SixFields(a, x, y, rx), SixFields(b, x', y', rx'))
      <==> CoordinatesCongruent(a, b) && SameResidue(x, x') && SameResidue(y, y') && SameResidue(rx, rx')
  {
    var fs, fs' := SixFields(a, x, y, rx), SixFields(b, x', y', rx');
    forall i | 0 <= i < 6
      ensures FieldCongruent(fs, fs', i)
        <==> SameResidue([a.feePayerPk.x, a.sourcePk.x, a.receiverPk.x, x, y, rx][i],
                         [b.feePayerPk.x, b.sourcePk.x, b.receiverPk.x, x', y', rx'][i])
    {
      SixReversed(a, x, y, rx, i);
      SixReversed(b, x', y', rx', i);
    }
    assert FieldCongruent(fs, fs', 0) <==> SameResidue(a.feePayerPk.x, b.feePayerPk.x);
    assert FieldCongruent(fs, fs', 1) <==> SameResidue(a.sourcePk.x, b.sourcePk.x);
    assert FieldCongruent(fs, fs', 2) <==> SameResidue(a.receiverPk.x, b.receiverPk.x);
    assert FieldCongruent(fs, fs', 3) <==> SameResidue(x, x');
    assert FieldCongruent(fs, fs', 4) <==> SameResidue(y, y');
    assert FieldCongruent(fs, fs', 5) <==> SameResidue(rx, rx');
  }

  /** With every coordinate below the field modulus the sponge input determines the transaction, the
      key and the commitment. */
  lemma ChallengeBindsReduced(a: Transaction, x: field, y: field, rx: field,
                              b: Transaction, x': field, y': field, rx': field)
    requires CoordinatesReduced(a) && CoordinatesReduced(b)
    requires Value(256, x) < FIELD_MODULUS && Value(256, y) < FIELD_MODULUS && Value(256, rx) < FIELD_MODULUS
    requires Value(256, x') < FIELD_MODULUS && Value(256, y') < FIELD_MODULUS && Value(256, rx') < FIELD_MODULUS
    ensures SameResidues(FIELD_MODULUS, SpongeInput(a, x, y, rx), SpongeInput(b, x', y', rx'))
      <==> a == b && x == x' && y == y' && rx == rx'
  {
    ChallengeBinding(a, x, y, rx, b, x', y', rx');
    SmallResidue(a.feePayerPk.x, b.feePayerPk.x);
    SmallResidue(a.sourcePk.x, b.sourcePk.x);
    SmallResidue(a.receiverPk.x, b.receiverPk.x);
    SmallResidue(x, x');
    SmallResidue(y, y');
    SmallResidue(rx, rx');
  }

  /** Transactions that agree modulo the field modulus have the same challenge. */
  lemma ChallengeSeesResidues(h: Hashes, a: Transaction, b: Transaction, pub: Affine, rx: nat, networkId: byte)
    requires h.Valid() && WithCoordinates(a, b) == b && CoordinatesCongruent(a, b)
    ensures Challenge(h, TxFields(a), TxBits(a), pub, rx, networkId)
         == Challenge(h, TxFields(b), TxBits(b), pub, rx, networkId)
  {
    var x, y, r := FieldBytes(pub.x), FieldBytes(pub.y), FieldBytes(rx);
    ChallengeBinding(a, x, y, r, b, x, y, r);
    AbsorbResidues(FIELD_MODULUS, h.tables, InitialState(h, networkId),
                   SpongeInput(a, x, y, r), SpongeInput(b, x, y, r));
  }

  /** The receiver with the field modulus added to its x. */
  function RaisedReceiver(a: Transaction): Transaction {
    a.(receiverPk := a.receiverPk.(x := FieldBytes(Value(256, a.receiverPk.x) + FIELD_MODULUS)))
  }

  /** A reduced receiver and the same receiver raised by the modulus: two transactions, one challenge. */
  lemma RaisedReceiverCollides(h: Hashes, a: Transaction, pub: Affine, rx: nat, networkId: byte)
    requires h.Valid() && Value(256, a.receiverPk.x) < FIELD_MODULUS
    ensures RaisedReceiver(a) != a
    ensures Challenge(h, TxFields(RaisedReceiver(a)), TxBits(RaisedReceiver(a)), pub, rx, networkId)
         == Challenge(h, TxFields(a), TxBits(a), pub, rx, networkId)
  {
    RaisedWord(a.receiverPk.x);
    ChallengeSeesResidues(h, a, RaisedReceiver(a), pub, rx, networkId);
  }

  lemma RaisedWord(x: field)
    requires Value(256, x) < FIELD_MODULUS
    ensures var y := FieldBytes(Value(256, x) + FIELD_MODULUS); y != x && SameResidue(x, y)
  {
    var v := Value(256, x);
    PowersOf256();
    ValueOfBytes(v + FIELD_MODULUS, 32);
    EqFromMultiple(FIELD_MODULUS, v + FIELD_MODULUS, v, 1);
  }

  // ---- the nonce ----------------------------------------------------------------------

  /** A big-endian word with its top bit set or cleared. */
  function WithTopBit(x: field, v: bool): field { x[0 := SetBit(x[0], 7, v)] }

  function Low255(x: field): field { WithTopBit(x, false) }

  lemma TopBitTwice(x: field, v: bool)
    ensures Low255(WithTopBit(x, v)) == Low255(x)
  {
    var b, c := SetBit(SetBit(x[0], 7, v), 7, false), SetBit(x[0], 7, false);
    forall j | 0 <= j < 8
      ensures GetBit(b, j) == GetBit(c, j)
    {
      GetSetBit(SetBit(x[0], 7, v), 7, false, j);
      GetSetBit(x[0], 7, v, j);
      GetSetBit(x[0], 7, false, j);
    }
    SameBitsSameByte(b, c);
  }

  lemma TopBitIs(x: field, v: bool)
    ensures (x[0] >= 128) == v <==> WithTopBit(x, v) == x
  {
    LowByte(x[0]);
    GetSetBit(x[0], 7, v, 7);
    forall j | 0 <= j < 7
      ensures GetBit(SetBit(x[0], 7, v), j) == GetBit(x[0], j)
    {
      GetSetBit(x[0], 7, v, j);
    }
    if (x[0] >= 128) == v {
      SameBitsSameByte(SetBit(x[0], 7, v), x[0]);
      assert x[0 := x[0]] == x;
    } else {
      assert WithTopBit(x, v)[0] != x[0];
    }
  }

  /** The first 255 bits of a little-endian field are those of the word without its top bit. */
  lemma LowBits(x: field)
    ensures Bits(Reversed(Low255(x))) == Bits(Reversed(x))[..FIELD_BITS] + [false]
  {
    var f, g := Reversed(x), Reversed(Low255(x));
    forall i | 0 <= i < 256
      ensures Bits(g)[i] <==> i < FIELD_BITS && Bits(f)[i]
    {
      GetSetBit(x[0], 7, false, i % 8);
      assert g[i / 8] == if i / 8 == 31 then SetBit(x[0], 7, false) else f[i / 8];
    }
  }

  lemma LowBitsAgree(x: field, y: field)
    ensures SameLowBits(Reversed(x), Reversed(y)) <==> Low255(x) == Low255(y)
  {
    LowBits(x);
    LowBits(y);
    if SameLowBits(Reversed(x), Reversed(y)) {
      BitsInjective(Reversed(Low255(x)), Reversed(Low255(y)));
      ReversedInjective(Low255(x), Low255(y));
    }
    if Low255(x) == Low255(y) {
      SplitConcat(Bits(Reversed(x))[..FIELD_BITS], [false], Bits(Reversed(y))[..FIELD_BITS], [false]);
    }
  }

  /** The x-coordinates agree but for their top bits. */
  predicate CoordinatesAgreeLow(a: Transaction, b: Transaction) {
    Low255(a.feePayerPk.x) == Low255(b.feePayerPk.x) && Low255(a.sourcePk.x) == Low255(b.sourcePk.x)
    && Low255(a.receiverPk.x) == Low255(b.receiverPk.x)
  }

  /** The bytes that one key hashes to the nonce of a transaction. */
  function NonceMessage(a: Transaction, kp: Keypair, networkId: byte): seq<byte> {
    PackedDerivation(TxFields(a), TxBits(a), FieldBytes(kp.pub.x), FieldBytes(kp.pub.y), kp.priv, networkId)
  }

  lemma NonceHashesMessage(h: Hashes, a: Transaction, kp: Keypair, networkId: byte)
    ensures Nonce(h, TxFields(a), TxBits(a), kp, networkId)
         == Masked(Reversed(h.blake2b(NonceMessage(a, kp, networkId))))
  {
  }

  /** What the nonce binds for one key: everything but the top bits of the x-coordinates. */
  lemma NonceBinding(a: Transaction, b: Transaction, kp: Keypair, id: byte, id': byte)
    ensures NonceMessage(a, kp, id) == NonceMessage(b, kp, id')
      <==> WithCoordinates(a, b) == b && CoordinatesAgreeLow(a, b) && id == id'
  {
    var x, y := FieldBytes(kp.pub.x), FieldBytes(kp.pub.y);
    DeriveAgree(TxFields(a), TxBits(a), x, y, kp.priv, id, TxFields(b), TxBits(b), x, y, kp.priv, id');
    BitsButCoordinates(a, b);
    SameLowFields(a, b);
  }

  lemma SameLowFields(a: Transaction, b: Transaction)
    ensures FieldsSameLowBits(TxFields(a), TxFields(b)) <==> CoordinatesAgreeLow(a, b)
  {
    LowBitsAgree(a.feePayerPk.x, b.feePayerPk.x);
    LowBitsAgree(a.sourcePk.x, b.sourcePk.x);
    LowBitsAgree(a.receiverPk.x, b.receiverPk.x);
    ThreeSameLowBits(Reversed(a.feePayerPk.x), Reversed(a.sourcePk.x), Reversed(a.receiverPk.x),
                     Reversed(b.feePayerPk.x), Reversed(b.sourcePk.x), Reversed(b.receiverPk.x));
  }

  lemma ThreeSameLowBits(f: field, g: field, h: field, f': field, g': field, h': field)
    ensures FieldsSameLowBits([f, g, h], [f', g', h'])
      <==> SameLowBits(f, f') && SameLowBits(g, g') && SameLowBits(h, h')
  {
    var fs, gs := [f, g, h], [f', g', h'];
    assert SameLowBits(fs[0], gs[0]) == SameLowBits(f, f');
    assert SameLowBits(fs[1], gs[1]) == SameLowBits(g, g');
    assert SameLowBits(fs[2], gs[2]) == SameLowBits(h, h');
  }

  lemma ReducedIsLow(x: field)
    requires Value(256, x) < FIELD_MODULUS
    ensures x[0] < 128 && Low255(x) == x
  {
    PowersOf256();
    FirstByteBounds(x, 128);
    TopBitIs(x, false);
  }

  /** With every coordinate below the field modulus the nonce message determines the transaction. */
  lemma NonceBindsReduced(a: Transaction, b: Transaction, kp: Keypair, id: byte, id': byte)
    requires CoordinatesReduced(a) && CoordinatesReduced(b)
    ensures NonceMessage(a, kp, id) == NonceMessage(b, kp, id') <==> a == b && id == id'
  {
    NonceBinding(a, b, kp, id, id');
    ReducedIsLow(a.feePayerPk.x);
    ReducedIsLow(b.feePayerPk.x);
    ReducedIsLow(a.sourcePk.x);
    ReducedIsLow(b.sourcePk.x);
    ReducedIsLow(a.receiverPk.x);
    ReducedIsLow(b.receiverPk.x);
  }

  /** The receiver with the top bit of its x set. */
  function MarkedReceiver(a: Transaction): Transaction {
    a.(receiverPk := a.receiverPk.(x := WithTopBit(a.receiverPk.x, true)))
  }

  /** A receiver below 2^255 and the same receiver with the top bit set: two transactions, one nonce. */
  lemma MarkedReceiverCollides(h: Hashes, a: Transaction, kp: Keypair, networkId: byte)
    requires a.receiverPk.x[0] < 128
    ensures MarkedReceiver(a) != a
    ensures Nonce(h, TxFields(MarkedReceiver(a)), TxBits(MarkedReceiver(a)), kp, networkId)
         == Nonce(h, TxFields(a), TxBits(a), kp, networkId)
  {
    var b := MarkedReceiver(a);
    MarkedAgrees(a);
    NonceBinding(b, a, kp, networkId, networkId);
    NonceHashesMessage(h, a, kp, networkId);
    NonceHashesMessage(h, b, kp, networkId);
  }

  lemma MarkedAgrees(a: Transaction)
    requires a.receiverPk.x[0] < 128
    ensures MarkedReceiver(a) != a
    ensures WithCoordinates(MarkedReceiver(a), a) == a && CoordinatesAgreeLow(MarkedReceiver(a), a)
  {
    TopBitIs(a.receiverPk.x, true);
    TopBitTwice(a.receiverPk.x, true);
  }
}
