/** The random-oracle input: an accumulator of field elements and bits, and its serialisations. */
module RandomOracle {
  import opened Positional
  import opened PackedBits

  const FIELD_BYTES := 32
  const FIELD_BITS := 255

  /** 32 bytes: a field element or a scalar. */
  type field = f: seq<byte> | |f| == 32
    witness [0, 0, 0, 0, 0, 0, 0, 0, 0, 0, 0, 0, 0, 0, 0, 0, 0, 0, 0, 0, 0, 0, 0, 0, 0, 0, 0, 0, 0, 0, 0, 0]

  function Reversed<T>(s: seq<T>): (r: seq<T>)
    ensures |r| == |s| && forall i :: 0 <= i < |s| ==> r[i] == s[|s| - 1 - i]
  {
    seq(|s|, i requires 0 <= i < |s| => s[|s| - 1 - i])
  }

  lemma ReversedTwice<T>(s: seq<T>)
    ensures Reversed(Reversed(s)) == s
  {
  }

  /** `n` little-endian bytes. */
  function LittleEndian(v: nat, n: nat): (bs: seq<byte>)
    ensures |bs| == n
  {
    Reversed(Bytes(v, n))
  }

  function Row(fields: array2<byte>, i: nat): (r: seq<byte>)
    requires i < fields.Length0
    reads fields
    ensures |r| == fields.Length1 && forall j :: 0 <= j < |r| ==> r[j] == fields[i, j]
  {
    seq(fields.Length1, j requires 0 <= j < fields.Length1 reads fields => fields[i, j])
  }

  function Rows(fields: array2<byte>, n: nat): (rs: seq<field>)
    requires n <= fields.Length0 && fields.Length1 == FIELD_BYTES
    reads fields
    ensures |rs| == n && forall i :: 0 <= i < n ==> rs[i] == Row(fields, i)
  {
    seq(n, i requires 0 <= i < n reads fields => Row(fields, i))
  }

  /** The first 255 bits of each field, in order. */
  function FieldBits(fs: seq<field>): (bits: seq<bool>)
    ensures |bits| == FIELD_BITS * |fs|
  {
    if fs == [] then [] else FieldBits(fs[..|fs| - 1]) + Bits(fs[|fs| - 1])[..FIELD_BITS]
  }

  lemma TakeNext<T>(prefix: seq<T>, word: seq<T>, n: nat)
    requires n < |word|
    ensures (prefix + word[..n]) + [word[n]] == prefix + word[..n + 1]
  {
  }

  /** A bit string with `word` written at position `at`. */
  ghost function Written(base: seq<bool>, at: nat, word: seq<bool>): (r: seq<bool>)
    requires at + |word| <= |base|
    ensures |r| == |base|
  {
    base[..at] + word + base[at + |word|..]
  }

  lemma WriteNext(base: seq<bool>, at: nat, word: seq<bool>, i: nat)
    requires at + |word| <= |base| && i < |word|
    ensures Written(base, at, word[..i])[at + i := word[i]] == Written(base, at, word[..i + 1])
  {
  }

  lemma WriteNone(base: seq<bool>, at: nat, word: seq<bool>)
    requires at + |word| <= |base|
    ensures Written(base, at, word[..0]) == base && word[..|word|] == word
  {
  }

  /** Bit `i` of a big-endian field element, counted from its low end. */
  lemma LittleEndianBit(a: field, i: nat)
    requires i < FIELD_BITS
    ensures Bits(Reversed(a))[i] == GetBit(a[32 - i / 8 - 1], i % 8)
  {
  }

  lemma BitOfByte(bytes: seq<byte>, i: nat, j: nat)
    requires i < |bytes| && j < 8
    ensures 8 * i + j < |Bits(bytes)| && Bits(bytes)[8 * i + j] == GetBit(bytes[i], j)
  {
  }

  lemma WriteMore(base: seq<bool>, at: nat, done: seq<bool>, word: seq<bool>)
    requires at + |done| + |word| <= |base|
    ensures Written(Written(base, at, done), at + |done|, word) == Written(base, at, done + word)
  {
  }

  lemma WrittenTwice(base: seq<bool>, a: seq<bool>, b: seq<bool>, now: seq<bool>)
    requires |a| + |b| <= |base| && now == Written(Written(base, 0, a), |a|, b)
    ensures now == (a + b) + base[|a + b|..]
  {
    WriteMore(base, 0, a, b);
  }

  lemma SliceOfPrefix(s: seq<bool>, n: nat, start: nat, size: nat)
    requires start + size <= n <= |s|
    ensures s[..n][start..start + size] == s[start..start + size]
  {
  }

  lemma WriteMoreBytes(base: seq<bool>, at: nat, bytes: seq<byte>, i: nat, before: seq<bool>)
    requires i < |bytes| && at + 8 * |bytes| <= |base| && before == Written(base, at, Bits(bytes[..i]))
    ensures Written(before, at + 8 * i, Bits([bytes[i]])) == Written(base, at, Bits(bytes[..i + 1]))
  {
    BitsConcat(bytes[..i], [bytes[i]]);
    WriteMore(base, at, Bits(bytes[..i]), Bits([bytes[i]]));
    assert bytes[..i + 1] == bytes[..i] + [bytes[i]];
  }

  /** Eight bits, least significant first. */
  method WriteByte(bits: array<byte>, start: nat, b: byte)
    requires start + 8 <= 8 * bits.Length
    modifies bits
    ensures Bits(bits[..]) == Written(Bits(old(bits[..])), start, Bits([b]))
  {
    ghost var base, word := Bits(bits[..]), Bits([b]);
    WriteNone(base, start, word);
    for j := 0 to 8
      invariant Bits(bits[..]) == Written(base, start, word[..j])
    {
      BitOfByte([b], 0, j);
      PackedBitArraySet(bits, start + j, GetBit(b, j));
      WriteNext(base, start, word, j);
    }
  }

  method WriteNextByte(bits: array<byte>, start: nat, bytes: seq<byte>, i: nat, ghost base: seq<bool>)
    requires i < |bytes| && start + 8 * |bytes| <= 8 * bits.Length == |base|
    requires Bits(bits[..]) == Written(base, start, Bits(bytes[..i]))
    modifies bits
    ensures Bits(bits[..]) == Written(base, start, Bits(bytes[..i + 1]))
  {
    ghost var before := Bits(bits[..]);
    WriteByte(bits, start + 8 * i, bytes[i]);
    WriteMoreBytes(base, start, bytes, i, before);
  }

  method WriteBytes(bits: array<byte>, start: nat, bytes: seq<byte>)
    requires start + 8 * |bytes| <= 8 * bits.Length
    modifies bits
    ensures Bits(bits[..]) == Written(Bits(old(bits[..])), start, Bits(bytes))
  {
    ghost var base := Bits(bits[..]);
    WriteNone(base, start, []);
    assert Bits(bytes[..0]) == [];
    for i := 0 to |bytes|
      invariant Bits(bits[..]) == Written(base, start, Bits(bytes[..i]))
    {
      WriteNextByte(bits, start, bytes, i, base);
    }
    assert bytes[..|bytes|] == bytes;
  }

  lemma FieldBitsNext(base: seq<bool>, fs: seq<field>, i: nat, before: seq<bool>)
    requires i < |fs| && FIELD_BITS * |fs| <= |base| && before == Written(base, 0, FieldBits(fs[..i]))
    ensures Written(before, FIELD_BITS * i, Bits(fs[i])[..FIELD_BITS]) == Written(base, 0, FieldBits(fs[..i + 1]))
  {
    var word := Bits(fs[i])[..FIELD_BITS];
    assert fs[..i + 1][..i] == fs[..i];
    assert FieldBits(fs[..i + 1]) == FieldBits(fs[..i]) + word;
    WriteMore(base, 0, FieldBits(fs[..i]), word);
  }

  lemma ZeroBits(bs: seq<byte>)
    requires forall i :: 0 <= i < |bs| ==> bs[i] == 0
    ensures Bits(bs) == Falses(8 * |bs|)
  {
    assert forall i :: 0 <= i < 8 * |bs| ==> Bits(bs)[i] == GetBit(0, i % 8);
  }

  /** Bits written over zeros are the packed bits. */
  lemma PackedIs(bs: seq<byte>, base: seq<bool>, bits: seq<bool>)
    requires |bits| <= 8 * |bs| == |base| && base == Falses(|base|) && Bits(bs) == Written(base, 0, bits)
    ensures bs == Pack(bits, |bs|)
  {
    BitsOfPack(bits, |bs|);
    assert Written(base, 0, bits) == bits + Falses(|base| - |bits|);
    BitsInjective(bs, Pack(bits, |bs|));
  }

  lemma BitOfSlice(bs: seq<byte>, start: nat, size: nat, i: nat)
    requires start + size <= 8 * |bs| && i < size
    ensures PackedBitArrayGet(bs, start + i) == Bits(bs)[start..start + size][i]
  {
  }

  const MAX_CHUNK_SIZE := 254

  function ChunkCount(n: nat): nat { (n + MAX_CHUNK_SIZE - 1) / MAX_CHUNK_SIZE }

  /** The k-th run of 254 bits; the last one may be shorter. */
  function Chunk(bits: seq<bool>, k: nat): (c: seq<bool>)
    requires k < ChunkCount(|bits|)
    ensures 0 < |c| <= MAX_CHUNK_SIZE
  {
    var at := MAX_CHUNK_SIZE * k;
    if at + MAX_CHUNK_SIZE <= |bits| then bits[at..at + MAX_CHUNK_SIZE] else bits[at..]
  }

  /** The chunk that starts after `k` whole chunks. */
  lemma ChunkAt(bits: seq<bool>, k: nat, at: nat, size: nat)
    requires k < ChunkCount(|bits|) && at == MAX_CHUNK_SIZE * k
    requires size == if |bits| - at >= MAX_CHUNK_SIZE then MAX_CHUNK_SIZE else |bits| - at
    ensures at + size <= |bits| && bits[at..at + size] == Chunk(bits, k)
    ensures at + size == if k + 1 == ChunkCount(|bits|) then |bits| else MAX_CHUNK_SIZE * (k + 1)
  {
  }

  /** The big-endian field elements an input packs into. */
  function PackedFields(fs: seq<field>, bits: seq<bool>): (r: seq<field>)
    ensures |r| == |fs| + ChunkCount(|bits|)
  {
    seq(|fs|, i requires 0 <= i < |fs| => Reversed(fs[i]))
    + seq(ChunkCount(|bits|), k requires 0 <= k < ChunkCount(|bits|) => Reversed(Pack(Chunk(bits, k), FIELD_BYTES)))
  }

  lemma PackedChunk(fs: seq<field>, bits: seq<bool>, k: nat)
    requires k < ChunkCount(|bits|)
    ensures PackedFields(fs, bits)[|fs| + k] == Reversed(Pack(Chunk(bits, k), FIELD_BYTES))
  {
  }

  /** Copies `n` bits of `source`, from position `from`, to position `at` of `out`. */
  method CopyBits(out: array<byte>, at: nat, source: seq<byte>, from: nat, n: nat)
    requires at + n <= 8 * out.Length && from + n <= 8 * |source|
    modifies out
    ensures Bits(out[..]) == Written(Bits(old(out[..])), at, Bits(source)[from..from + n])
  {
    ghost var base, word := Bits(out[..]), Bits(source)[from..from + n];
    WriteNone(base, at, word);
    for i := 0 to n
      invariant Bits(out[..]) == Written(base, at, word[..i])
    {
      BitOfSlice(source, from, n, i);
      PackedBitArraySet(out, at + i, PackedBitArrayGet(source, from + i));
      WriteNext(base, at, word, i);
    }
  }

  /** Writes a field in reversed byte order. */
  method StoreReversed(out: array2<byte>, row: nat, src: field)
    requires row < out.Length0 && out.Length1 == FIELD_BYTES
    modifies out
    ensures Row(out, row) == Reversed(src)
    ensures forall r :: 0 <= r < out.Length0 && r != row ==> Row(out, r) == old(Row(out, r))
  {
    var j := FIELD_BYTES;
    while j > 0
      invariant 0 <= j <= FIELD_BYTES
      invariant forall c :: j <= c < FIELD_BYTES ==> out[row, c] == src[FIELD_BYTES - 1 - c]
      invariant forall r, c :: 0 <= r < out.Length0 && r != row && 0 <= c < FIELD_BYTES ==> out[r, c] == old(out[r, c])
    {
      out[row, j - 1] := src[FIELD_BYTES - j];
      j := j - 1;
    }
    forall r | 0 <= r < out.Length0 && r != row
      ensures Row(out, r) == old(Row(out, r))
    {
    }
  }

  method StoreNext(out: array2<byte>, row: nat, src: field, ghost want: seq<field>)
    requires row < out.Length0 && out.Length1 == FIELD_BYTES && row < |want|
    requires Rows(out, row) == want[..row] && Reversed(src) == want[row]
    modifies out
    ensures Rows(out, row + 1) == want[..row + 1]
  {
    ghost var before := Rows(out, row);
    StoreReversed(out, row, src);
    assert forall r :: 0 <= r < row ==> Row(out, r) == before[r];
  }

  /** `roinput_t`: capacities count fields and bytes, lengths count fields and bits. Fields are
      stored in little-endian byte order. */
  class ROInput {
    var fields: array2<byte>
    var bits: array<byte>
    var fieldsLen: nat
    var fieldsCapacity: nat
    var bitsLen: nat
    var bitsCapacity: nat

    ghost predicate Valid()
      reads this
    {
      && fields.Length1 == FIELD_BYTES
      && fieldsLen <= fieldsCapacity <= fields.Length0
      && bitsLen <= 8 * bitsCapacity && bitsCapacity <= bits.Length
    }

    ghost function Fields(): seq<field>
      requires Valid()
      reads this, fields
    {
      Rows(fields, fieldsLen)
    }

    ghost function BitString(): seq<bool>
      requires Valid()
      reads this, bits
    {
      Bits(bits[..])[..bitsLen]
    }

    /** `roinput_create` */
    constructor (fields: array2<byte>, bits: array<byte>)
      requires fields.Length1 == FIELD_BYTES
      ensures Valid() && this.fields == fields && this.bits == bits
      ensures fieldsCapacity == fields.Length0 && bitsCapacity == bits.Length
      ensures Fields() == [] && BitString() == []
    {
      this.fields, this.bits := fields, bits;
      fieldsLen, fieldsCapacity := 0, fields.Length0;
      bitsLen, bitsCapacity := 0, bits.Length;
    }

    /** The buffers and capacities stay; only the contents change. */
    twostate predicate SameShape()
      reads this
    {
      && fields == old(fields) && bits == old(bits)
      && fieldsCapacity == old(fieldsCapacity) && bitsCapacity == old(bitsCapacity)
    }

    method AddField(a: field)
      requires Valid()
      modifies this`fieldsLen, fields
      ensures Valid() && SameShape()
      ensures Fields() == if old(fieldsLen) < fieldsCapacity then old(Fields()) + [Reversed(a)] else old(Fields())
    {
      if fieldsCapacity - fieldsLen < 1 {
        return;
      }
      var i := FIELD_BYTES;
      while i > 0
        invariant 0 <= i <= FIELD_BYTES && fieldsLen == old(fieldsLen)
        invariant forall j :: 0 <= j < FIELD_BYTES - i ==> fields[fieldsLen, j] == a[FIELD_BYTES - 1 - j]
        invariant forall r, j :: 0 <= r < fieldsLen && 0 <= j < FIELD_BYTES ==> fields[r, j] == old(fields[r, j])
      {
        fields[fieldsLen, FIELD_BYTES - i] := a[i - 1];
        i := i - 1;
      }
      assert Row(fields, fieldsLen) == Reversed(a);
      forall r | 0 <= r < fieldsLen
        ensures Row(fields, r) == old(Row(fields, r))
      {
      }
      fieldsLen := fieldsLen + 1;
    }

    method AddBit(b: bool)
      requires Valid()
      modifies this`bitsLen, bits
      ensures Valid() && SameShape()
      ensures BitString() == if old(bitsLen) < 8 * bitsCapacity then old(BitString()) + [b] else old(BitString())
    {
      if bitsCapacity * 8 - bitsLen < 1 {
        return;
      }
      PackedBitArraySet(bits, bitsLen, b);
      bitsLen := bitsLen + 1;
    }

    /** The 255 low bits of a big-endian scalar, least significant first. */
    method AddScalar(a: field)
      requires Valid()
      modifies this`bitsLen, bits
      ensures Valid() && SameShape()
      ensures BitString() == if old(bitsLen) + FIELD_BITS <= 8 * bitsCapacity
        then old(BitString()) + Bits(Reversed(a))[..FIELD_BITS] else old(BitString())
    {
      if bitsCapacity * 8 - bitsLen < FIELD_BITS {
        return;
      }
      var offset := bitsLen;
      ghost var base, word := Bits(bits[..]), Bits(Reversed(a))[..FIELD_BITS];
      WriteNone(base, offset, word);
      for i := 0 to FIELD_BITS
        invariant bitsLen == old(bitsLen)
        invariant Bits(bits[..]) == Written(base, offset, word[..i])
      {
        var b := GetBit(a[32 - i / 8 - 1], i % 8);
        LittleEndianBit(a, i);
        PackedBitArraySet(bits, offset + i, b);
        WriteNext(base, offset, word, i);
      }
      bitsLen := bitsLen + FIELD_BITS;
    }

    method AddBytes(bytes: seq<byte>, len: nat)
      requires Valid() && len <= |bytes|
      modifies this`bitsLen, bits
      ensures Valid() && SameShape()
      ensures BitString() == if old(bitsLen) + 8 * len <= 8 * bitsCapacity
        then old(BitString()) + Bits(bytes[..len]) else old(BitString())
    {
      if bitsCapacity * 8 - bitsLen < 8 * len {
        return;
      }
      WriteBytes(bits, bitsLen, bytes[..len]);
      bitsLen := bitsLen + 8 * len;
    }

    method AddUint32(x: nat)
      requires Valid() && x < 0x1_0000_0000
      modifies this`bitsLen, bits
      ensures Valid() && SameShape()
      ensures BitString() == if old(bitsLen) + 32 <= 8 * bitsCapacity
        then old(BitString()) + Bits(LittleEndian(x, 4)) else old(BitString())
    {
      var le := LittleEndianBytes(x, 4);
      AddBytes(le, 4);
    }

    method AddUint64(x: nat)
      requires Valid() && x < 0x1_0000_0000_0000_0000
      modifies this`bitsLen, bits
      ensures Valid() && SameShape()
      ensures BitString() == if old(bitsLen) + 64 <= 8 * bitsCapacity
        then old(BitString()) + Bits(LittleEndian(x, 8)) else old(BitString())
    {
      var le := LittleEndianBytes(x, 8);
      AddBytes(le, 8);
    }

    /** `roinput_to_bytes`: the 255-bit fields, then the bits; bits beyond them are kept. */
    method ToBytes(out: array<byte>)
      requires Valid() && out != bits
      requires FIELD_BITS * fieldsLen + bitsLen <= 8 * out.Length
      modifies out
      ensures var flat := FieldBits(Fields()) + BitString();
        Bits(out[..]) == flat + Bits(old(out[..]))[|flat|..]
    {
      ghost var fs, word, before := Fields(), BitString(), Bits(out[..]);
      var bitIdx := WriteFields(out);
      CopyBits(out, bitIdx, bits[..], 0, bitsLen);
      WrittenTwice(before, FieldBits(fs), word, Bits(out[..]));
    }

    method WriteFields(out: array<byte>) returns (bitIdx: nat)
      requires Valid() && out != bits && FIELD_BITS * fieldsLen <= 8 * out.Length
      modifies out
      ensures bitIdx == FIELD_BITS * fieldsLen
      ensures Bits(out[..]) == Written(Bits(old(out[..])), 0, FieldBits(Fields()))
    {
      bitIdx := 0;
      ghost var fs, base := Fields(), Bits(out[..]);
      WriteNone(base, 0, []);
      for i := 0 to fieldsLen
        invariant bitIdx == FIELD_BITS * i && fs == Fields()
        invariant Bits(out[..]) == Written(base, 0, FieldBits(fs[..i]))
      {
        ghost var before := Bits(out[..]);
        CopyBits(out, bitIdx, Row(fields, i), 0, FIELD_BITS);
        FieldBitsNext(base, fs, i, before);
        bitIdx := bitIdx + FIELD_BITS;
      }
      assert fs[..fieldsLen] == fs;
    }

    /** `roinput_to_fields`: the fields in big-endian byte order, then the bits in chunks of 254.
        `len` is only compared with the number of fields; `out` must really have room for all. */
    method ToFields(out: array2<byte>, len: nat) returns (outputLen: int)
      requires Valid() && out != fields && out.Length1 == FIELD_BYTES
      requires len >= fieldsLen ==> fieldsLen + ChunkCount(bitsLen) <= out.Length0
      modifies out
      ensures outputLen == if len < fieldsLen then -1 else fieldsLen + ChunkCount(bitsLen)
      ensures outputLen >= 0 ==> Rows(out, outputLen) == PackedFields(Fields(), BitString())
    {
      outputLen := 0;
      if len < fieldsLen {
        return -1;
      }
      ghost var packed := PackedFields(Fields(), BitString());
      for i := 0 to fieldsLen
        invariant Rows(out, i) == packed[..i]
      {
        StoreNext(out, i, Row(fields, i), packed);
      }
      outputLen := StoreChunks(out);
    }

    /** The bits in chunks of 254, after the fields. */
    method StoreChunks(out: array2<byte>) returns (outputLen: nat)
      requires Valid() && out != fields && out.Length1 == FIELD_BYTES
      requires fieldsLen + ChunkCount(bitsLen) <= out.Length0
      requires Rows(out, fieldsLen) == PackedFields(Fields(), BitString())[..fieldsLen]
      modifies out
      ensures outputLen == fieldsLen + ChunkCount(bitsLen)
      ensures Rows(out, outputLen) == PackedFields(Fields(), BitString())
    {
      ghost var fs, word, k := Fields(), BitString(), 0;
      ghost var packed := PackedFields(fs, word);
      outputLen := fieldsLen;
      var bitsConsumed := 0;
      while bitsConsumed < bitsLen
        invariant outputLen == fieldsLen + k && k <= ChunkCount(bitsLen)
        invariant bitsConsumed == if k == ChunkCount(bitsLen) then bitsLen else MAX_CHUNK_SIZE * k
        invariant Rows(out, outputLen) == packed[..outputLen]
      {
        var remaining := bitsLen - bitsConsumed;
        var size := if remaining >= MAX_CHUNK_SIZE then MAX_CHUNK_SIZE else remaining;
        ChunkAt(word, k, bitsConsumed, size);
        SliceOfPrefix(Bits(bits[..]), bitsLen, bitsConsumed, size);
        var tmp := PackChunk(bits[..], bitsConsumed, size);
        PackedChunk(fs, word, k);
        StoreNext(out, outputLen, tmp, packed);
        outputLen, bitsConsumed, k := outputLen + 1, bitsConsumed + size, k + 1;
      }
    }
  }

  /** Packs `size` bits from `start` into a zeroed field. */
  method PackChunk(bits: seq<byte>, start: nat, size: nat) returns (packed: field)
    requires start + size <= 8 * |bits| && size <= MAX_CHUNK_SIZE
    ensures packed == Pack(Bits(bits)[start..start + size], FIELD_BYTES)
  {
    var tmp := new byte[FIELD_BYTES](_ => 0);
    ghost var base := Bits(tmp[..]);
    ZeroBits(tmp[..]);
    CopyBits(tmp, 0, bits, start, size);
    packed := tmp[..];
    PackedIs(packed, base, Bits(bits)[start..start + size]);
  }

  /** le[i] = (x >> 8 i) & 0xff */
  method LittleEndianBytes(x: nat, n: nat) returns (le: seq<byte>)
    ensures le == LittleEndian(x, n)
  {
    le := [];
    var rest := x;
    for i := 0 to n
      invariant |le| == i
      invariant LittleEndian(x, n) == le + LittleEndian(rest, n - i)
    {
      LittleEndianStep(rest, n - i);
      ConcatAssociative(le, [rest % 256], LittleEndian(rest / 256, n - i - 1));
      le := le + [rest % 256];
      rest := rest / 256;
    }
  }

  lemma LittleEndianStep(v: nat, n: nat)
    requires n > 0
    ensures LittleEndian(v, n) == [v % 256] + LittleEndian(v / 256, n - 1)
  {
  }
}
