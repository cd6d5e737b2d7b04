/** The two messages built from a random-oracle input: the one nonces are derived from, as bytes,
    and the one that is hashed, as field elements. */
module Messages {
  import opened Positional
  import opened PackedBits
  import opened RandomOracle

  // ---- losslessness of the field packing ------------------------------------------

  /** Reads the fields back. */
  function UnpackedFields(packed: seq<field>, fieldsLen: nat): seq<field>
    requires fieldsLen <= |packed|
  {
    seq(fieldsLen, i requires 0 <= i < fieldsLen => Reversed(packed[i]))
  }

  /** Reads `bitsLen` bits back, 254 from each element after the fields. */
  function UnpackedBits(packed: seq<field>, fieldsLen: nat, bitsLen: nat): seq<bool>
    requires |packed| == fieldsLen + ChunkCount(bitsLen)
  {
    seq(bitsLen, i requires 0 <= i < bitsLen =>
      PackedBitArrayGet(Reversed(packed[fieldsLen + i / 254]), i % 254))
  }

  /** Fields and bits are recovered from the packed elements given the two lengths. */
  lemma PackingIsLossless(fs: seq<field>, bits: seq<bool>)
    ensures UnpackedFields(PackedFields(fs, bits), |fs|) == fs
    ensures UnpackedBits(PackedFields(fs, bits), |fs|, |bits|) == bits
  {
    var packed := PackedFields(fs, bits);
    forall i | 0 <= i < |fs|
      ensures Reversed(packed[i]) == fs[i]
    {
      ReversedTwice(fs[i]);
    }
    forall i | 0 <= i < |bits|
      ensures UnpackedBits(packed, |fs|, |bits|)[i] == bits[i]
    {
      UnpackedBit(fs, bits, i, i / 254, i % 254);
    }
  }

  lemma UnpackedBit(fs: seq<field>, bits: seq<bool>, i: nat, k: nat, j: nat)
    requires i < |bits| && i == 254 * k + j && j < 254
    ensures k < ChunkCount(|bits|)
    ensures PackedBitArrayGet(Reversed(PackedFields(fs, bits)[|fs| + k]), j) == bits[i]
  {
    ChunkBit(bits, k, j);
    PackedChunk(fs, bits, k);
    PackedBit(Chunk(bits, k), j);
  }

  lemma ChunkBit(bits: seq<bool>, k: nat, j: nat)
    requires 254 * k + j < |bits| && j < 254
    ensures k < ChunkCount(|bits|) && j < |Chunk(bits, k)| && Chunk(bits, k)[j] == bits[254 * k + j]
  {
  }

  lemma PackedBit(chunk: seq<bool>, j: nat)
    requires j < |chunk| <= 8 * FIELD_BYTES
    ensures PackedBitArrayGet(Reversed(Reversed(Pack(chunk, FIELD_BYTES))), j) == chunk[j]
  {
    ReversedTwice(Pack(chunk, FIELD_BYTES));
    BitsOfPack(chunk, FIELD_BYTES);
    assert Bits(Pack(chunk, FIELD_BYTES))[j] == chunk[j];
  }

  /** 2^254, below the field modulus. */
  const TWO254 := 0x4000000000000000_0000000000000000_0000000000000000_0000000000000000

  /** Every packed chunk is a reduced field element. */
  lemma ChunksAreReduced(fs: seq<field>, bits: seq<bool>, k: nat)
    requires k < ChunkCount(|bits|)
    ensures Value(256, PackedFields(fs, bits)[|fs| + k]) < TWO254
  {
    var chunk := Chunk(bits, k);
    PackedChunk(fs, bits, k);
    ChunkIsReduced(chunk);
  }

  lemma ChunkIsReduced(chunk: seq<bool>)
    requires |chunk| <= 254
    ensures Value(256, Reversed(Pack(chunk, FIELD_BYTES))) < TWO254
  {
    var le := Pack(chunk, FIELD_BYTES);
    BitsOfPack(chunk, FIELD_BYTES);
    assert !Bits(le)[254] && !Bits(le)[255];
    LowByte(le[31]);
    FirstByteBounds(Reversed(le), 64);
    PowersOf256();
  }

  lemma LowByte(b: byte)
    ensures !GetBit(b, 6) && !GetBit(b, 7) ==> b < 64
    ensures !GetBit(b, 7) <==> b < 128
  {
  }

  lemma PowersOf256()
    ensures 64 * Pow(256, 31) == TWO254 && Pow(256, 32) == 4 * TWO254
  {
    assert Pow(256, 3) == 0x100_0000;
    PowAdd(256, 3, 4);
    PowAdd(256, 7, 8);
    PowAdd(256, 15, 16);
    PowAdd(256, 4, 4);
    PowAdd(256, 8, 8);
    assert Pow(256, 4) == 0x1_0000_0000;
    assert Pow(256, 8) == 0x1_0000_0000_0000_0000;
    assert Pow(256, 16) == 0x1_0000_0000_0000_0000_0000_0000_0000_0000;
    assert Pow(256, 32) == 256 * Pow(256, 31);
  }

  // ---- the derivation message --------------------------------------------------------

  /** Big-endian 32-byte words below 2^255, as all reduced elements and masked scalars are. */
  predicate Below255(a: field) { a[0] < 128 }

  /** What follows the fields in the derivation bits. */
  function DeriveTail(bits: seq<bool>, priv: field, id: byte): seq<bool> {
    bits + Bits(Reversed(priv))[..FIELD_BITS] + Bits([id])
  }

  /** Fields, key coordinates, bits, 255-bit key and network byte, in that order. */
  function DeriveBits(fs: seq<field>, bits: seq<bool>, x: field, y: field, priv: field,
                      networkId: byte): (r: seq<bool>)
    ensures |r| == FIELD_BITS * (|fs| + 3) + |bits| + 8
  {
    FieldBits(fs + [Reversed(x)] + [Reversed(y)]) + DeriveTail(bits, priv, networkId)
  }

  function ByteCount(bits: nat): nat { (bits + 7) / 8 }

  lemma FieldIsItsBits(f: field, g: field)
    requires f[31] < 128 && g[31] < 128
    requires Bits(f)[..FIELD_BITS] == Bits(g)[..FIELD_BITS]
    ensures f == g
  {
    LowByte(f[31]);
    LowByte(g[31]);
    assert Bits(f)[255] == GetBit(f[31], 7) && Bits(g)[255] == GetBit(g[31], 7);
    assert Bits(f) == Bits(f)[..FIELD_BITS] + [Bits(f)[255]];
    assert Bits(g) == Bits(g)[..FIELD_BITS] + [Bits(g)[255]];
    BitsInjective(f, g);
  }

  lemma SplitConcat<T>(a: seq<T>, b: seq<T>, c: seq<T>, d: seq<T>)
    requires |a| == |c| && a + b == c + d
    ensures a == c && b == d
  {
    assert (a + b)[..|a|] == a && (c + d)[..|a|] == c;
    assert (a + b)[|a|..] == b && (c + d)[|a|..] == d;
  }

  /** The 255 bits of a little-endian field that the derivation message keeps. */
  predicate SameLowBits(f: field, g: field) { Bits(f)[..FIELD_BITS] == Bits(g)[..FIELD_BITS] }

  ghost predicate FieldsSameLowBits(fs: seq<field>, gs: seq<field>)
    requires |fs| == |gs|
  {
    forall i :: 0 <= i < |fs| ==> SameLowBits(fs[i], gs[i])
  }

  lemma {:induction false} FieldBitsAgree(fs: seq<field>, gs: seq<field>)
    requires |fs| == |gs|
    ensures FieldBits(fs) == FieldBits(gs) <==> FieldsSameLowBits(fs, gs)
  {
    if fs != [] {
      var n := |fs| - 1;
      FieldBitsAgree(fs[..n], gs[..n]);
      if FieldBits(fs) == FieldBits(gs) {
        SplitConcat(FieldBits(fs[..n]), Bits(fs[n])[..FIELD_BITS], FieldBits(gs[..n]), Bits(gs[n])[..FIELD_BITS]);
        LastSameLowBits(fs, gs);
      }
    }
  }

  lemma LastSameLowBits(fs: seq<field>, gs: seq<field>)
    requires |fs| == |gs| > 0 && SameLowBits(fs[|fs| - 1], gs[|fs| - 1])
    requires FieldsSameLowBits(fs[..|fs| - 1], gs[..|fs| - 1])
    ensures FieldsSameLowBits(fs, gs)
  {
    forall i | 0 <= i < |fs|
      ensures SameLowBits(fs[i], gs[i])
    {
      if i < |fs| - 1 {
        assert SameLowBits(fs[..|fs| - 1][i], gs[..|fs| - 1][i]);
      }
    }
  }

  /** Little-endian fields below 2^255. */
  ghost predicate FieldsBelow255(fs: seq<field>) {
    forall i :: 0 <= i < |fs| ==> fs[i][31] < 128
  }

  lemma PackInjective(a: seq<bool>, b: seq<bool>, n: nat)
    requires |a| == |b| <= 8 * n && Pack(a, n) == Pack(b, n)
    ensures a == b
  {
    BitsOfPack(a, n);
    BitsOfPack(b, n);
    SplitConcat(a, Falses(8 * n - |a|), b, Falses(8 * n - |b|));
  }

  /** The packed derivation message, as bytes. */
  function PackedDerivation(fs: seq<field>, bits: seq<bool>, x: field, y: field, priv: field, id: byte): seq<byte> {
    var d := DeriveBits(fs, bits, x, y, priv, id);
    Pack(d, ByteCount(|d|))
  }

  /** For fixed lengths, derivation messages agree exactly when the bits and the network agree and all
      words agree but for their top bit. */
  lemma DeriveAgree(fs: seq<field>, bits: seq<bool>, x: field, y: field, priv: field, id: byte,
                    fs': seq<field>, bits': seq<bool>, x': field, y': field, priv': field, id': byte)
    requires |fs| == |fs'| && |bits| == |bits'|
    ensures PackedDerivation(fs, bits, x, y, priv, id) == PackedDerivation(fs', bits', x', y', priv', id')
      <==> (&& FieldsSameLowBits(fs, fs') && bits == bits' && id == id' && SameLowBits(Reversed(x), Reversed(x'))
            && SameLowBits(Reversed(y), Reversed(y')) && SameLowBits(Reversed(priv), Reversed(priv')))
  {
    var d, d' := DeriveBits(fs, bits, x, y, priv, id), DeriveBits(fs', bits', x', y', priv', id');
    var gs, gs' := fs + [Reversed(x)] + [Reversed(y)], fs' + [Reversed(x')] + [Reversed(y')];
    FieldBitsAgree(gs, gs');
    AppendedSameLowBits(fs, Reversed(x), Reversed(y), fs', Reversed(x'), Reversed(y'));
    TailAgrees(bits, priv, id, bits', priv', id');
    if PackedDerivation(fs, bits, x, y, priv, id) == PackedDerivation(fs', bits', x', y', priv', id') {
      PackInjective(d, d', ByteCount(|d|));
      SplitConcat(FieldBits(gs), DeriveTail(bits, priv, id), FieldBits(gs'), DeriveTail(bits', priv', id'));
    }
  }

  lemma TailAgrees(bits: seq<bool>, priv: field, id: byte, bits': seq<bool>, priv': field, id': byte)
    requires |bits| == |bits'|
    ensures DeriveTail(bits, priv, id) == DeriveTail(bits', priv', id')
      <==> bits == bits' && id == id' && SameLowBits(Reversed(priv), Reversed(priv'))
  {
    var key, key' := Bits(Reversed(priv))[..FIELD_BITS], Bits(Reversed(priv'))[..FIELD_BITS];
    if DeriveTail(bits, priv, id) == DeriveTail(bits', priv', id') {
      SplitConcat(bits + key, Bits([id]), bits' + key', Bits([id']));
      SplitConcat(bits, key, bits', key');
      BitsInjective([id], [id']);
      assert [id][0] == [id'][0];
    }
  }

  lemma AppendedSameLowBits(fs: seq<field>, x: field, y: field, fs': seq<field>, x': field, y': field)
    requires |fs| == |fs'|
    ensures FieldsSameLowBits(fs + [x] + [y], fs' + [x'] + [y'])
      <==> FieldsSameLowBits(fs, fs') && SameLowBits(x, x') && SameLowBits(y, y')
  {
    var gs, gs', n := fs + [x] + [y], fs' + [x'] + [y'], |fs|;
    if FieldsSameLowBits(gs, gs') {
      assert SameLowBits(gs[n], gs'[n]) && SameLowBits(gs[n + 1], gs'[n + 1]);
      forall i | 0 <= i < n
        ensures SameLowBits(fs[i], fs'[i])
      {
        assert SameLowBits(gs[i], gs'[i]);
      }
    }
  }

  /** For fixed lengths and words below 2^255, the derivation message determines all its inputs. */
  lemma DeriveInjective(fs: seq<field>, bits: seq<bool>, x: field, y: field, priv: field, id: byte,
                        fs': seq<field>, bits': seq<bool>, x': field, y': field, priv': field, id': byte)
    requires |fs| == |fs'| && |bits| == |bits'| && FieldsBelow255(fs) && FieldsBelow255(fs')
    requires Below255(x) && Below255(y) && Below255(priv) && Below255(x') && Below255(y') && Below255(priv')
    requires PackedDerivation(fs, bits, x, y, priv, id) == PackedDerivation(fs', bits', x', y', priv', id')
    ensures fs == fs' && bits == bits' && x == x' && y == y' && priv == priv' && id == id'
  {
    DeriveAgree(fs, bits, x, y, priv, id, fs', bits', x', y', priv', id');
    forall i | 0 <= i < |fs|
      ensures fs[i] == fs'[i]
    {
      assert SameLowBits(fs[i], fs'[i]);
      FieldIsItsBits(fs[i], fs'[i]);
    }
    WordIsItsBits(x, x');
    WordIsItsBits(y, y');
    WordIsItsBits(priv, priv');
  }

  lemma WordIsItsBits(x: field, y: field)
    requires Below255(x) && Below255(y) && SameLowBits(Reversed(x), Reversed(y))
    ensures x == y
  {
    FieldIsItsBits(Reversed(x), Reversed(y));
    ReversedInjective(x, y);
  }

  lemma ReversedInjective(a: field, b: field)
    requires Reversed(a) == Reversed(b)
    ensures a == b
  {
    ReversedTwice(a);
    ReversedTwice(b);
  }

  /** The local copy both message builders work on: room for `extra` more fields and `extraBytes`
      more bytes. */
  method CopyInput(msg: ROInput, extraFields: nat, extraBytes: nat) returns (input: ROInput)
    requires msg.Valid()
    ensures fresh(input) && fresh(input.fields) && fresh(input.bits) && input.Valid()
    ensures input.fieldsCapacity == msg.fieldsCapacity + extraFields
    ensures input.bitsCapacity == msg.bitsCapacity + extraBytes
    ensures input.Fields() == msg.Fields() && input.BitString() == msg.BitString()
  {
    var inputFields := new byte[msg.fieldsCapacity + extraFields, FIELD_BYTES];
    var inputBits := new byte[msg.bitsCapacity + extraBytes];
    input := new ROInput(inputFields, inputBits);
    CopyRows(inputFields, msg.fields, msg.fieldsLen);
    var n := (msg.bitsLen + 7) / 8;
    CopyBytes(inputBits, msg.bits, n);
    SameBits(inputBits[..], msg.bits[..], n, msg.bitsLen);
    input.fieldsLen, input.bitsLen := msg.fieldsLen, msg.bitsLen;
  }

  method CopyRows(out: array2<byte>, source: array2<byte>, n: nat)
    requires n <= out.Length0 && n <= source.Length0 && out.Length1 == source.Length1 == FIELD_BYTES
    modifies out
    ensures Rows(out, n) == old(Rows(source, n))
  {
    forall i, j | 0 <= i < n && 0 <= j < FIELD_BYTES {
      out[i, j] := source[i, j];
    }
    forall i | 0 <= i < n
      ensures Row(out, i) == old(Row(source, i))
    {
    }
  }

  method CopyBytes(out: array<byte>, source: array<byte>, n: nat)
    requires n <= out.Length && n <= source.Length
    modifies out
    ensures out[..n] == old(source[..n])
  {
    forall i | 0 <= i < n {
      out[i] := source[i];
    }
  }

  lemma SameBits(a: seq<byte>, b: seq<byte>, n: nat, bits: nat)
    requires n <= |a| && n <= |b| && a[..n] == b[..n] && bits <= 8 * n
    ensures Bits(a)[..bits] == Bits(b)[..bits]
  {
    BitsPrefix(a, n);
    BitsPrefix(b, n);
    assert Bits(a)[..bits] == Bits(a)[..8 * n][..bits];
    assert Bits(b)[..bits] == Bits(b)[..8 * n][..bits];
  }

  /** `roinput_derive_message`: exactly the derivation bits, over what the buffer held before. */
  method RoinputDeriveMessage(out: array<byte>, len: nat, x: field, y: field, priv: field,
                              msg: ROInput, networkId: byte) returns (size: int)
    requires msg.Valid()
    requires len <= out.Length && out != msg.bits
    modifies out
    ensures var d := DeriveBits(old(msg.Fields()), old(msg.BitString()), x, y, priv, networkId);
      && size == (if ByteCount(|d|) <= len then ByteCount(|d|) else -1)
      && Bits(out[..]) == if size >= 0 then d + Bits(old(out[..]))[|d|..] else Bits(old(out[..]))
  {
    ghost var fs, word := msg.Fields(), msg.BitString();
    var input := DeriveInput(x, y, priv, msg, networkId);
    ghost var head, tail := fs + [Reversed(x)] + [Reversed(y)], DeriveTail(word, priv, networkId);
    assert |FieldBits(head) + tail| == input.bitsLen + FIELD_BITS * input.fieldsLen;
    var inputSize := (input.bitsLen + FIELD_BITS * input.fieldsLen + 7) / 8;
    if inputSize <= len {
      input.ToBytes(out);
    }
    size := if inputSize > len then -1 else inputSize;
  }

  /** The extended copy that `roinput_derive_message` serialises. */
  method DeriveInput(x: field, y: field, priv: field, msg: ROInput, networkId: byte) returns (input: ROInput)
    requires msg.Valid()
    ensures fresh(input) && fresh(input.fields) && fresh(input.bits) && input.Valid()
    ensures input.Fields() == msg.Fields() + [Reversed(x)] + [Reversed(y)]
    ensures input.BitString() == DeriveTail(msg.BitString(), priv, networkId)
  {
    input := CopyInput(msg, 2, FIELD_BYTES + 1);
    input.AddField(x);
    input.AddField(y);
    input.AddScalar(priv);
    assert [networkId][..1] == [networkId];
    input.AddBytes([networkId], 1);
  }

  // ---- the hashed message -------------------------------------------------------------

  /** The field elements the hash absorbs: the message fields, the key, rx, then the packed bits. */
  function HashFields(fs: seq<field>, bits: seq<bool>, x: field, y: field, rx: field): seq<field> {
    PackedFields(fs + [Reversed(x)] + [Reversed(y)] + [Reversed(rx)], bits)
  }

  /** For fixed lengths the hashed elements determine all their inputs. */
  lemma HashInjective(fs: seq<field>, bits: seq<bool>, x: field, y: field, rx: field,
                      fs': seq<field>, bits': seq<bool>, x': field, y': field, rx': field)
    requires |fs| == |fs'| && |bits| == |bits'|
    requires HashFields(fs, bits, x, y, rx) == HashFields(fs', bits', x', y', rx')
    ensures fs == fs' && bits == bits' && x == x' && y == y' && rx == rx'
  {
    var gs := fs + [Reversed(x)] + [Reversed(y)] + [Reversed(rx)];
    var gs' := fs' + [Reversed(x')] + [Reversed(y')] + [Reversed(rx')];
    PackingIsLossless(gs, bits);
    PackingIsLossless(gs', bits');
    SplitConcat(fs + [Reversed(x)] + [Reversed(y)], [Reversed(rx)],
                fs' + [Reversed(x')] + [Reversed(y')], [Reversed(rx')]);
    SplitConcat(fs + [Reversed(x)], [Reversed(y)], fs' + [Reversed(x')], [Reversed(y')]);
    SplitConcat(fs, [Reversed(x)], fs', [Reversed(x')]);
    ReversedInjective(x, x');
    ReversedInjective(y, y');
    ReversedInjective(rx, rx');
  }

  /** `roinput_hash_message`. Its caller passes the size of `out` in bytes as `len`, so the room
      `out` really has is a requirement of its own. */
  method RoinputHashMessage(out: array2<byte>, len: nat, x: field, y: field, rx: field, msg: ROInput)
    returns (size: int)
    requires msg.Valid()
    requires out.Length1 == FIELD_BYTES && out != msg.fields
    requires msg.fieldsLen + 3 + ChunkCount(msg.bitsLen) <= out.Length0
    modifies out
    ensures var h := HashFields(old(msg.Fields()), msg.BitString(), x, y, rx);
      && size == (if len < msg.fieldsLen + 3 then -1 else |h|)
      && (size >= 0 ==> Rows(out, size) == h)
  {
    ghost var fs := msg.Fields();
    var input := CopyInput(msg, 3, 0);
    input.AddField(x);
    input.AddField(y);
    input.AddField(rx);
    assert input.Fields() == fs + [Reversed(x)] + [Reversed(y)] + [Reversed(rx)];
    size := input.ToFields(out, len);
  }
}
