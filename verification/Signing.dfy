/** `message_derive`, `message_hash` and `sign`, over Pallas. */
module Signing {
  import opened ModArith
  import opened Positional
  import opened PackedBits
  import opened RandomOracle
  import opened Numbers
  import opened Messages
  import opened Curves
  import opened Multiples
  import opened ScalarMul
  import opened Poseidon
  import opened Pallas
  import opened Schnorr

  const TESTNET_ID := 0
  const MAINNET_ID := 1

  /** Big-endian bytes of a field element. */
  function FieldBytes(x: nat): field { Bytes(x, 32) }

  /** `scalar_from_bytes` drops the top two bits. */
  function Masked(a: field): field { a[0 := a[0] % 64] }

  lemma MaskedBound(a: field)
    ensures Value(256, Masked(a)) < TWO254 < FIELD_MODULUS < GROUP_ORDER
  {
    FirstByteBounds(Masked(a), 64);
    PowersOf256();
  }

  /** How far masked scalars stay below the field modulus; the largest one is 2^254 - 1. */
  lemma MaskMargin(a: field)
    ensures FIELD_MODULUS == 28948022309329048855892746252171976963363056481941560715954676764349967630337
    ensures Value(256, Masked(a)) + 45560315531419706090280762371685220354 <= FIELD_MODULUS
  {
    MaskedBound(a);
  }

  /** Masking keeps exactly the low 254 bits. */
  lemma MaskedValue(a: field)
    ensures Value(256, Masked(a)) == Value(256, a) % TWO254
  {
    var low, w := a[1..], Pow(256, 31);
    assert a == [a[0]] + low && Masked(a) == [a[0] % 64] + low;
    LeadingByte(a[0], low);
    LeadingByte(a[0] % 64, low);
    BytesOfValue(low);
    PowersOf256();
    DropTopBits(a[0], a[0] / 64, a[0] % 64, w, Value(256, low));
  }

  lemma LeadingByte(b: byte, low: seq<byte>)
    ensures Value(256, [b] + low) == b * Pow(256, |low|) + Value(256, low)
  {
    ValueConcat(256, [b], low);
    assert Value(256, [b]) == b;
  }

  lemma DropTopBits(b: nat, q: nat, r: nat, w: nat, v: nat)
    requires v < w && b == q * 64 + r && r < 64
    ensures 64 * w > 0 && (b * w + v) % (64 * w) == r * w + v
  {
    SplitProduct(q, r, w);
    BelowTop(r, w, v);
    ModUnique(64 * w, b * w + v, q, r * w + v);
  }

  lemma BelowTop(r: nat, w: nat, v: nat)
    requires v < w && r < 64
    ensures r * w + v < 64 * w
  {
    assert r * w <= 63 * w;
  }

  lemma SplitProduct(q: nat, r: nat, w: nat)
    ensures (q * 64 + r) * w == q * (64 * w) + r * w
  {
  }

  // ---- message_derive ---------------------------------------------------------------

  function DeriveMessage(fs: seq<field>, bits: seq<bool>, kp: Keypair, networkId: byte): seq<bool> {
    DeriveBits(fs, bits, FieldBytes(kp.pub.x), FieldBytes(kp.pub.y), kp.priv, networkId)
  }

  /** The nonce: the hash of the packed message, read as little-endian, without its top two bits. */
  function Nonce(h: Hashes, fs: seq<field>, bits: seq<bool>, kp: Keypair, networkId: byte): field {
    var d := DeriveMessage(fs, bits, kp, networkId);
    Masked(Reversed(h.blake2b(Pack(d, ByteCount(|d|)))))
  }

  /** The nonce is the low 254 bits of the hash of the packed message, read as a little-endian number. */
  lemma NonceValue(h: Hashes, fs: seq<field>, bits: seq<bool>, kp: Keypair, networkId: byte)
    ensures var message := PackedDerivation(fs, bits, FieldBytes(kp.pub.x), FieldBytes(kp.pub.y), kp.priv, networkId);
      Value(256, Nonce(h, fs, bits, kp, networkId)) == LittleValue(h.blake2b(message)) % TWO254
  {
    var message := PackedDerivation(fs, bits, FieldBytes(kp.pub.x), FieldBytes(kp.pub.y), kp.priv, networkId);
    MaskedValue(Reversed(h.blake2b(message)));
    LittleValueReversed(h.blake2b(message));
  }

  /** Swaps bytes from both ends to the middle. */
  method ReverseInPlace(out: array<byte>)
    requires out.Length == 32
    modifies out
    ensures out[..] == Reversed(old(out[..]))
  {
    var i := 32;
    while i > 16
      invariant 16 <= i <= 32
      invariant forall j :: 0 <= j < 32 - i || i <= j < 32 ==> out[j] == old(out[31 - j])
      invariant forall j :: 32 - i <= j < i ==> out[j] == old(out[j])
    {
      var tmp := out[i - 1];
      out[i - 1] := out[32 - i];
      out[32 - i] := tmp;
      i := i - 1;
    }
  }

  /** Over a zeroed buffer the derivation bits leave exactly their packed bytes. */
  lemma PackedMessage(d: seq<bool>, out: seq<byte>, before: seq<byte>)
    requires |out| == |before| && ByteCount(|d|) <= |out|
    requires before == Zeros(|before|) && Bits(out) == d + Bits(before)[|d|..]
    ensures out[..ByteCount(|d|)] == Pack(d, ByteCount(|d|))
  {
    var n := ByteCount(|d|);
    ZeroBits(before);
    BitsPrefix(out, n);
    BitsOfPack(d, n);
    assert Bits(out)[..8 * n] == d + Falses(8 * n - |d|);
    BitsInjective(out[..n], Pack(d, n));
  }

  /** `message_derive` */
  method MessageDerive(out: array<byte>, kp: Keypair, input: ROInput, networkId: byte, h: Hashes) returns (ok: bool)
    requires out.Length == 32 && input.Valid() && out != input.bits
    modifies out
    ensures ok <==> ByteCount(|DeriveMessage(old(input.Fields()), old(input.BitString()), kp, networkId)|) <= 268
    ensures ok ==> out[..] == Nonce(h, old(input.Fields()), old(input.BitString()), kp, networkId)
  {
    ghost var d := DeriveMessage(input.Fields(), input.BitString(), kp, networkId);
    var deriveMsg := new byte[268](_ => 0);
    ghost var zeros := deriveMsg[..];
    assert zeros == Zeros(268);
    var deriveLen := RoinputDeriveMessage(deriveMsg, 268, FieldBytes(kp.pub.x), FieldBytes(kp.pub.y), kp.priv,
                                          input, networkId);
    if deriveLen < 0 {
      return false;
    }
    PackedMessage(d, deriveMsg[..], zeros);
    HashToScalar(out, deriveMsg[..deriveLen], h);
    return true;
  }

  /** Hashes, swaps to big-endian in place, and masks. */
  method HashToScalar(out: array<byte>, message: seq<byte>, h: Hashes)
    requires out.Length == 32
    modifies out
    ensures out[..] == Masked(Reversed(h.blake2b(message)))
  {
    var hash := h.blake2b(message);
    forall i | 0 <= i < 32 {
      out[i] := hash[i];
    }
    assert out[..] == hash;
    ReverseInPlace(out);
    out[0] := out[0] % 64;
  }

  // ---- message_hash -----------------------------------------------------------------

  function Values(rows: seq<field>): (vs: seq<nat>)
    ensures |vs| == |rows|
  {
    seq(|rows|, i requires 0 <= i < |rows| => Value(256, rows[i]))
  }

  function InitialState(h: Hashes, networkId: byte): state {
    if networkId == TESTNET_ID then h.testnetIv else h.mainnetIv
  }

  /** The challenge: the sponge of the message fields, the key, rx and the packed bits. */
  function Challenge(h: Hashes, fs: seq<field>, bits: seq<bool>, pub: Affine, rx: nat, networkId: byte): nat
    requires h.Valid()
  {
    var input := HashFields(fs, bits, FieldBytes(pub.x), FieldBytes(pub.y), FieldBytes(rx));
    Digest(Absorb(FIELD_MODULUS, h.tables, InitialState(h, networkId), Values(input)))
  }

  lemma ChallengeReduced(h: Hashes, fs: seq<field>, bits: seq<bool>, pub: Affine, rx: nat, networkId: byte)
    requires h.Valid()
    ensures Challenge(h, fs, bits, pub, rx, networkId) < FIELD_MODULUS
  {
    var input := HashFields(fs, bits, FieldBytes(pub.x), FieldBytes(pub.y), FieldBytes(rx));
    AbsorbReduced(FIELD_MODULUS, h.tables, InitialState(h, networkId), Values(input));
  }

  /** `message_hash`, whose buffer holds nine elements although it passes its size in bytes. */
  method MessageHash(pub: Affine, rx: nat, input: ROInput, networkId: byte, h: Hashes) returns (ok: bool, e: nat)
    requires input.Valid() && h.Valid() && (networkId == TESTNET_ID || networkId == MAINNET_ID)
    requires input.fieldsLen + 3 + ChunkCount(input.bitsLen) <= 9
    ensures ok && e == Challenge(h, input.Fields(), input.BitString(), pub, rx, networkId)
  {
    var hashMsg := new byte[9, FIELD_BYTES];
    var hashMsgLen := RoinputHashMessage(hashMsg, 9 * FIELD_BYTES,
                                         FieldBytes(pub.x), FieldBytes(pub.y), FieldBytes(rx), input);
    ok := hashMsgLen >= 0;
    e := 0;
    if ok {
      var elements := ReadElements(hashMsg, hashMsgLen);
      e := Sponge(h, InitialState(h, networkId), elements);
    }
  }

  /** `poseidon_init`, `poseidon_update` and `poseidon_digest`. */
  method Sponge(h: Hashes, iv: state, elements: seq<nat>) returns (digest: nat)
    requires h.Valid() && Poseidon.Reduced(FIELD_MODULUS, iv)
    ensures digest == Digest(Absorb(FIELD_MODULUS, h.tables, iv, elements))
  {
    var pos := new nat[3];
    pos[0], pos[1], pos[2] := iv[0], iv[1], iv[2];
    assert pos[..] == iv;
    PoseidonUpdate(FIELD_MODULUS, h.tables, pos, elements);
    digest := pos[0];
  }

  method ReadElements(rows: array2<byte>, n: nat) returns (vs: seq<nat>)
    requires n <= rows.Length0 && rows.Length1 == FIELD_BYTES
    ensures vs == Values(Rows(rows, n))
  {
    vs := [];
    for i := 0 to n
      invariant |vs| == i && forall k :: 0 <= k < i ==> vs[k] == Value(256, Row(rows, k))
    {
      vs := vs + [Value(256, Row(rows, i))];
    }
  }

  // ---- sign --------------------------------------------------------------------------

  class Signature {
    var rx: nat
    var s: nat

    constructor () {
      rx, s := 0, 0;
    }
  }

  /** The commitment, response and challenge of a signature. */
  function Commitment(h: Hashes, fs: seq<field>, bits: seq<bool>, kp: Keypair, networkId: byte): Affine {
    ScalarTimes(PALLAS, Nonce(h, fs, bits, kp, networkId), AFFINE_ONE)
  }

  function SignatureS(h: Hashes, fs: seq<field>, bits: seq<bool>, kp: Keypair, networkId: byte): nat
    requires h.Valid()
  {
    var k, r := Value(256, Nonce(h, fs, bits, kp, networkId)), Commitment(h, fs, bits, kp, networkId);
    Response(GROUP_ORDER, SignScalar(GROUP_ORDER, k, r),
             Challenge(h, fs, bits, kp.pub, r.x, networkId), Value(256, kp.priv))
  }

  /** `sign`. It fails only when the derivation message outgrows its buffer. */
  method Sign(sig: Signature, kp: Keypair, input: ROInput, networkId: byte, h: Hashes) returns (ok: bool)
    requires input.Valid() && h.Valid() && (networkId == TESTNET_ID || networkId == MAINNET_ID)
    requires input.fieldsLen + 3 + ChunkCount(input.bitsLen) <= 9
    modifies sig
    ensures ok <==> ByteCount(|DeriveMessage(input.Fields(), input.BitString(), kp, networkId)|) <= 268
    ensures ok ==> sig.rx == Commitment(h, input.Fields(), input.BitString(), kp, networkId).x
    ensures ok ==> sig.s == SignatureS(h, input.Fields(), input.BitString(), kp, networkId)
  {
    var bytes := new byte[32];
    ok := MessageDerive(bytes, kp, input, networkId, h);
    if !ok {
      return;
    }
    var k := Value(256, bytes[..]);
    var r := AffineScalarMul(PALLAS, bytes[..], AFFINE_ONE);
    sig.rx := r.x;
    k := ChooseNonce(GROUP_ORDER, k, r);
    // the buffer of message_hash always suffices
    var hashed, e := MessageHash(kp.pub, r.x, input, networkId, h);
    sig.s := Respond(GROUP_ORDER, k, e, Value(256, kp.priv));
  }

  /** k, or -k when the commitment's y is odd. */
  method ChooseNonce(q: nat, k: nat, r: Affine) returns (k': nat)
    requires q > 0
    ensures k' == SignScalar(q, k, r)
  {
    k' := k;
    if r.y % 2 == 1 {
      var tmp := k';
      k' := (0 - tmp) % q;
    }
  }

  /** s = k + e * sk */
  method Respond(q: nat, k: nat, e: nat, d: nat) returns (s: nat)
    requires q > 0
    ensures s == Response(q, k, e, d)
  {
    var tmp := (e * d) % q;
    s := (k + tmp) % q;
  }

  /** What the signer's number theory rests on: two primes, and the order of the generator. */
  ghost predicate PallasGroup() {
    IsPrime(FIELD_MODULUS) && IsPrime(GROUP_ORDER) && Times(PALLAS, GROUP_ORDER, AFFINE_ONE) == ZERO
  }

  /** Every operand of the signing equation is already reduced. */
  lemma OperandsReduced(h: Hashes, fs: seq<field>, bits: seq<bool>, kp: Keypair, networkId: byte, a: field)
    requires h.Valid() && kp.priv == Masked(a)
    ensures Value(256, Nonce(h, fs, bits, kp, networkId)) < GROUP_ORDER && Value(256, kp.priv) < GROUP_ORDER
    ensures Challenge(h, fs, bits, kp.pub, Commitment(h, fs, bits, kp, networkId).x, networkId) < GROUP_ORDER
    ensures SignatureS(h, fs, bits, kp, networkId) < GROUP_ORDER
  {
    var d := DeriveMessage(fs, bits, kp, networkId);
    MaskedBound(Reversed(h.blake2b(Pack(d, ByteCount(|d|)))));
    MaskedBound(a);
    ChallengeReduced(h, fs, bits, kp.pub, Commitment(h, fs, bits, kp, networkId).x, networkId);
  }

  /** Schnorr completeness of `sign`: with pub = priv G, the point s G - e pub has x-coordinate rx
      and an even y, in either nonce branch. */
  lemma SignatureVerifies(h: Hashes, fs: seq<field>, bits: seq<bool>, kp: Keypair, networkId: byte, a: field)
    requires PallasGroup() && h.Valid()
    requires kp.priv == Masked(a) && kp.pub == ScalarTimes(PALLAS, kp.priv, AFFINE_ONE)
    ensures var r := Commitment(h, fs, bits, kp, networkId);
      Verifies(PALLAS, AFFINE_ONE, kp.pub, r.x,
               FieldBytes(SignatureS(h, fs, bits, kp, networkId)),
               FieldBytes(Challenge(h, fs, bits, kp.pub, r.x, networkId)))
  {
    var r := Commitment(h, fs, bits, kp, networkId);
    var s, e := SignatureS(h, fs, bits, kp, networkId), Challenge(h, fs, bits, kp.pub, r.x, networkId);
    OperandsReduced(h, fs, bits, kp, networkId, a);
    PowersOf256();
    ValueOfBytes(s, 32);
    ValueOfBytes(e, 32);
    GeneratorOnCurve();
    SchnorrComplete(PALLAS, AFFINE_ONE, GROUP_ORDER,
                    Nonce(h, fs, bits, kp, networkId), FieldBytes(e), kp.priv, FieldBytes(s), r, kp.pub);
  }
}
