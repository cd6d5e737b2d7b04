/** Transactions and their random-oracle input. */
module Transactions {
  import opened Positional
  import opened PackedBits
  import opened RandomOracle
  import opened Messages

  const MEMO_BYTES := 34
  const TX_FIELDS := 3
  const TX_BITSTRINGS_BYTES := 75
  const TX_BITS := 599

  type uint32 = x: nat | x < 0x1_0000_0000
  type uint64 = x: nat | x < 0x1_0000_0000_0000_0000

  type memo = s: seq<byte> | |s| == 34
    witness [0, 0, 0, 0, 0, 0, 0, 0, 0, 0, 0, 0, 0, 0, 0, 0, 0, 0, 0, 0, 0, 0, 0, 0, 0, 0, 0, 0, 0, 0, 0, 0, 0, 0]

  /** A compressed curve point. */
  datatype Compressed = Compressed(x: field, isOdd: bool)

  datatype Transaction = Transaction(
    fee: uint64, feeToken: uint64, feePayerPk: Compressed, nonce: uint32, validUntil: uint32, memo: memo,
    tag0: bool, tag1: bool, tag2: bool, sourcePk: Compressed, receiverPk: Compressed,
    tokenId: uint64, amount: uint64, tokenLocked: bool)

  // ---- specification ------------------------------------------------------------------

  function TxFields(tx: Transaction): seq<field> {
    [Reversed(tx.feePayerPk.x), Reversed(tx.sourcePk.x), Reversed(tx.receiverPk.x)]
  }

  function Uint64Bits(v: nat): (bits: seq<bool>) ensures |bits| == 64 { Bits(LittleEndian(v, 8)) }

  function Uint32Bits(v: nat): (bits: seq<bool>) ensures |bits| == 32 { Bits(LittleEndian(v, 4)) }

  /** The common part: fee, fee token, payer parity, nonce, expiry and memo. */
  function CommonBits(tx: Transaction): (bits: seq<bool>)
    ensures |bits| == 465
  {
    Uint64Bits(tx.fee) + Uint64Bits(tx.feeToken) + [tx.feePayerPk.isOdd]
    + Uint32Bits(tx.nonce) + Uint32Bits(tx.validUntil) + Bits(tx.memo)
  }

  /** The body: tag, parities, token, amount and lock. */
  function BodyBits(tx: Transaction): (bits: seq<bool>)
    ensures |bits| == 134
  {
    [tx.tag0, tx.tag1, tx.tag2, tx.sourcePk.isOdd, tx.receiverPk.isOdd]
    + Uint64Bits(tx.tokenId) + Uint64Bits(tx.amount) + [tx.tokenLocked]
  }

  function TxBits(tx: Transaction): (bits: seq<bool>)
    ensures |bits| == TX_BITS
  {
    CommonBits(tx) + BodyBits(tx)
  }

  lemma {:induction false} BytesInjective(v: nat, w: nat, n: nat)
    requires v < Pow(256, n) && w < Pow(256, n)
    requires Bits(LittleEndian(v, n)) == Bits(LittleEndian(w, n))
    ensures v == w
  {
    BitsInjective(LittleEndian(v, n), LittleEndian(w, n));
    ReversedTwice(Bytes(v, n));
    ReversedTwice(Bytes(w, n));
    ValueOfBytes(v, n);
    ValueOfBytes(w, n);
  }

  lemma Powers()
    ensures Pow(256, 4) == 0x1_0000_0000 && Pow(256, 8) == 0x1_0000_0000_0000_0000
  {
    assert Pow(256, 4) == 0x1_0000_0000;
    PowAdd(256, 4, 4);
  }

  lemma Uint64Injective(v: uint64, w: uint64)
    requires Uint64Bits(v) == Uint64Bits(w)
    ensures v == w
  {
    Powers();
    BytesInjective(v, w, 8);
  }

  lemma Uint32Injective(v: uint32, w: uint32)
    requires Uint32Bits(v) == Uint32Bits(w)
    ensures v == w
  {
    Powers();
    BytesInjective(v, w, 4);
  }

  lemma CommonInjective(a: Transaction, b: Transaction)
    requires CommonBits(a) == CommonBits(b)
    ensures a.fee == b.fee && a.feeToken == b.feeToken && a.feePayerPk.isOdd == b.feePayerPk.isOdd
    ensures a.nonce == b.nonce && a.validUntil == b.validUntil && a.memo == b.memo
  {
    var a1, b1 := Uint64Bits(a.fee) + Uint64Bits(a.feeToken), Uint64Bits(b.fee) + Uint64Bits(b.feeToken);
    var a2, b2 := a1 + [a.feePayerPk.isOdd], b1 + [b.feePayerPk.isOdd];
    var a3, b3 := a2 + Uint32Bits(a.nonce), b2 + Uint32Bits(b.nonce);
    var a4, b4 := a3 + Uint32Bits(a.validUntil), b3 + Uint32Bits(b.validUntil);
    SplitConcat(a4, Bits(a.memo), b4, Bits(b.memo));
    SplitConcat(a3, Uint32Bits(a.validUntil), b3, Uint32Bits(b.validUntil));
    SplitConcat(a2, Uint32Bits(a.nonce), b2, Uint32Bits(b.nonce));
    SplitConcat(a1, [a.feePayerPk.isOdd], b1, [b.feePayerPk.isOdd]);
    SplitConcat(Uint64Bits(a.fee), Uint64Bits(a.feeToken), Uint64Bits(b.fee), Uint64Bits(b.feeToken));
    assert [a.feePayerPk.isOdd][0] == [b.feePayerPk.isOdd][0];
    BitsInjective(a.memo, b.memo);
    Uint32Injective(a.validUntil, b.validUntil);
    Uint32Injective(a.nonce, b.nonce);
    Uint64Injective(a.fee, b.fee);
    Uint64Injective(a.feeToken, b.feeToken);
  }

  lemma BodyInjective(a: Transaction, b: Transaction)
    requires BodyBits(a) == BodyBits(b)
    ensures a.tag0 == b.tag0 && a.tag1 == b.tag1 && a.tag2 == b.tag2
    ensures a.sourcePk.isOdd == b.sourcePk.isOdd && a.receiverPk.isOdd == b.receiverPk.isOdd
    ensures a.tokenId == b.tokenId && a.amount == b.amount && a.tokenLocked == b.tokenLocked
  {
    var a1 := [a.tag0, a.tag1, a.tag2, a.sourcePk.isOdd, a.receiverPk.isOdd];
    var b1 := [b.tag0, b.tag1, b.tag2, b.sourcePk.isOdd, b.receiverPk.isOdd];
    var a2, b2 := a1 + Uint64Bits(a.tokenId), b1 + Uint64Bits(b.tokenId);
    SplitConcat(a2 + Uint64Bits(a.amount), [a.tokenLocked], b2 + Uint64Bits(b.amount), [b.tokenLocked]);
    SplitConcat(a2, Uint64Bits(a.amount), b2, Uint64Bits(b.amount));
    SplitConcat(a1, Uint64Bits(a.tokenId), b1, Uint64Bits(b.tokenId));
    assert a1[0] == b1[0] && a1[1] == b1[1] && a1[2] == b1[2] && a1[3] == b1[3] && a1[4] == b1[4];
    assert [a.tokenLocked][0] == [b.tokenLocked][0];
    Uint64Injective(a.amount, b.amount);
    Uint64Injective(a.tokenId, b.tokenId);
  }

  /** Different transactions have different random-oracle inputs. */
  lemma TransactionInjective(a: Transaction, b: Transaction)
    requires TxFields(a) == TxFields(b) && TxBits(a) == TxBits(b)
    ensures a == b
  {
    SplitConcat(CommonBits(a), BodyBits(a), CommonBits(b), BodyBits(b));
    CommonInjective(a, b);
    BodyInjective(a, b);
    assert TxFields(a)[0] == TxFields(b)[0] && TxFields(a)[1] == TxFields(b)[1] && TxFields(a)[2] == TxFields(b)[2];
    ReversedInjective(a.feePayerPk.x, b.feePayerPk.x);
    ReversedInjective(a.sourcePk.x, b.sourcePk.x);
    ReversedInjective(a.receiverPk.x, b.receiverPk.x);
  }

  /** The sizes downstream: 268 message bytes and 9 hashed elements. */
  lemma DownstreamSizes(tx: Transaction, x: field, y: field, priv: field, rx: field, networkId: byte)
    ensures ByteCount(|DeriveBits(TxFields(tx), TxBits(tx), x, y, priv, networkId)|) == 268
    ensures |HashFields(TxFields(tx), TxBits(tx), x, y, rx)| == 9
  {
  }

  /** Different transactions, keys or commitments give different sponge inputs. */
  lemma HashedTransactionInjective(a: Transaction, x: field, y: field, rx: field,
                                   b: Transaction, x': field, y': field, rx': field)
    requires HashFields(TxFields(a), TxBits(a), x, y, rx) == HashFields(TxFields(b), TxBits(b), x', y', rx')
    ensures a == b && x == x' && y == y' && rx == rx'
  {
    HashInjective(TxFields(a), TxBits(a), x, y, rx, TxFields(b), TxBits(b), x', y', rx');
    TransactionInjective(a, b);
  }

  // ---- operations -------------------------------------------------------------------

  /** `transaction_to_roinput`: with room for 3 fields and 75 bytes nothing is dropped, and the
      input ends at exactly 3 fields and 599 bits. */
  method TransactionToROInput(input: ROInput, tx: Transaction)
    requires input.Valid() && input.fieldsCapacity >= TX_FIELDS && input.bitsCapacity >= TX_BITSTRINGS_BYTES
    modifies input`fieldsLen, input`bitsLen, input.fields, input.bits
    ensures input.Valid() && input.SameShape()
    ensures input.Fields() == TxFields(tx) && input.BitString() == TxBits(tx)
  {
    input.fieldsLen, input.bitsLen := 0, 0;
    input.AddField(tx.feePayerPk.x);
    input.AddField(tx.sourcePk.x);
    input.AddField(tx.receiverPk.x);
    assert input.Fields() == TxFields(tx);
    AddCommon(input, tx);
    AddBody(input, tx);
    assert input.BitString() == TxBits(tx);
  }

  method AddCommon(input: ROInput, tx: Transaction)
    requires input.Valid() && input.bitsCapacity >= TX_BITSTRINGS_BYTES && input.bitsLen == 0
    modifies input`bitsLen, input.bits
    ensures input.Valid() && input.SameShape()
    ensures input.BitString() == CommonBits(tx)
  {
    assert input.BitString() == [];
    input.AddUint64(tx.fee);
    assert input.BitString() == Uint64Bits(tx.fee);
    input.AddUint64(tx.feeToken);
    input.AddBit(tx.feePayerPk.isOdd);
    input.AddUint32(tx.nonce);
    input.AddUint32(tx.validUntil);
    assert tx.memo[..MEMO_BYTES] == tx.memo;
    input.AddBytes(tx.memo, MEMO_BYTES);
  }

  method AddBody(input: ROInput, tx: Transaction)
    requires input.Valid() && input.bitsCapacity >= TX_BITSTRINGS_BYTES && input.bitsLen == 465
    modifies input`bitsLen, input.bits
    ensures input.Valid() && input.SameShape()
    ensures input.BitString() == old(input.BitString()) + BodyBits(tx)
  {
    ghost var before := input.BitString();
    AddTag(input, [tx.tag0, tx.tag1, tx.tag2]);
    input.AddBit(tx.sourcePk.isOdd);
    input.AddBit(tx.receiverPk.isOdd);
    ghost var head := [tx.tag0, tx.tag1, tx.tag2, tx.sourcePk.isOdd, tx.receiverPk.isOdd];
    AppendParities(before, tx.tag0, tx.tag1, tx.tag2, tx.sourcePk.isOdd, tx.receiverPk.isOdd);
    AddAmount(input, tx.tokenId, tx.amount, tx.tokenLocked, before, head);
  }

  lemma AppendParities(bits: seq<bool>, a: bool, b: bool, c: bool, d: bool, e: bool)
    ensures bits + [a, b, c] + [d] + [e] == bits + [a, b, c, d, e]
  {
  }

  method AddAmount(input: ROInput, tokenId: uint64, amount: uint64, locked: bool,
                   ghost before: seq<bool>, ghost head: seq<bool>)
    requires input.Valid() && input.bitsLen + 129 <= 8 * input.bitsCapacity
    requires input.BitString() == before + head
    modifies input`bitsLen, input.bits
    ensures input.Valid() && input.SameShape()
    ensures input.BitString() == before + (head + Uint64Bits(tokenId) + Uint64Bits(amount) + [locked])
  {
    input.AddUint64(tokenId);
    input.AddUint64(amount);
    input.AddBit(locked);
    ConcatAssociative(before, head, Uint64Bits(tokenId));
    ConcatAssociative(before, head + Uint64Bits(tokenId), Uint64Bits(amount));
    ConcatAssociative(before, head + Uint64Bits(tokenId) + Uint64Bits(amount), [locked]);
  }

  method AddTag(input: ROInput, tag: seq<bool>)
    requires input.Valid() && |tag| == 3 && input.bitsLen + 3 <= 8 * input.bitsCapacity
    modifies input`bitsLen, input.bits
    ensures input.Valid() && input.SameShape()
    ensures input.BitString() == old(input.BitString()) + tag
  {
    ghost var before := input.BitString();
    for i := 0 to 3
      invariant input.Valid() && input.SameShape()
      invariant input.BitString() == before + tag[..i] && input.bitsLen == old(input.bitsLen) + i
    {
      input.AddBit(tag[i]);
      TakeNext(before, tag, i);
    }
    assert tag[..3] == tag;
  }

  /** The length of a text of at most `limit` bytes. */
  function StrNLen(s: seq<byte>, limit: nat): (n: nat)
    requires limit <= |s| || 0 in s
    ensures n <= limit && n <= |s| && (forall i :: 0 <= i < n ==> s[i] != 0) && (n < limit ==> n < |s| && s[n] == 0)
  {
    if limit == 0 || s[0] == 0 then 0 else 1 + StrNLen(s[1..], limit - 1)
  }

  /** Version 1, the length, the text, and zeros. */
  function MemoOf(text: seq<byte>): memo
    requires |text| <= MEMO_BYTES - 2
  {
    [1, |text|] + text + Zeros(MEMO_BYTES - 2 - |text|)
  }

  /** The text a memo holds. */
  function MemoText(m: memo): seq<byte> {
    if m[1] <= MEMO_BYTES - 2 then m[2..2 + m[1]] else []
  }

  lemma MemoTextOfMemo(text: seq<byte>)
    requires |text| <= MEMO_BYTES - 2
    ensures MemoText(MemoOf(text)) == text
  {
  }

  /** `transaction_prepare_memo`: at most 32 bytes, up to the terminator. */
  method TransactionPrepareMemo(out: array<byte>, s: seq<byte>)
    requires out.Length == MEMO_BYTES && (MEMO_BYTES - 2 <= |s| || 0 in s)
    modifies out
    ensures out[..] == MemoOf(s[..StrNLen(s, MEMO_BYTES - 2)])
  {
    var len := StrNLen(s, MEMO_BYTES - 2);
    out[0] := 1;
    out[1] := len;
    for i := 0 to len
      invariant out[0] == 1 && out[1] == len && forall k :: 0 <= k < i ==> out[2 + k] == s[k]
    {
      out[2 + i] := s[i];
    }
    for i := 2 + len to MEMO_BYTES
      invariant out[0] == 1 && out[1] == len && forall k :: 0 <= k < len ==> out[2 + k] == s[k]
      invariant forall k :: 2 + len <= k < i ==> out[k] == 0
    {
      out[i] := 0;
    }
  }
}
