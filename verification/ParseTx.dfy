/** `parse_tx`: the fixed-layout parser that fills both the transaction and the displayed texts. */
module ParseTx {
  import opened Positional
  import opened PackedBits
  import opened RandomOracle
  import opened Base58
  import opened Decimal
  import opened Transactions
  import opened Addresses
  import opened Signing

  const TX_LENGTH := 172
  const PAYMENT_TX := 0
  const DELEGATION_TX := 4

  // ---- the layout ---------------------------------------------------------------------

  type packet = d: seq<byte> | |d| == 172 witness Zeros(172)

  function FromAddress(d: packet): seq<byte> { d[4..59] }
  function ToAddress(d: packet): seq<byte> { d[59..114] }
  function AmountField(d: packet): uint64 { Range64(d[114..122]); Value(256, d[114..122]) }
  function FeeField(d: packet): uint64 { Range64(d[122..130]); Value(256, d[122..130]) }
  function NonceField(d: packet): uint32 { Range32(d[130..134]); Value(256, d[130..134]) }
  function ValidUntilField(d: packet): uint32 { Range32(d[134..138]); Value(256, d[134..138]) }
  function TotalField(d: packet): nat { AmountField(d) as nat + FeeField(d) }
  function MemoField(d: packet): seq<byte> { d[138..170] }

  lemma Range64(b: seq<byte>)
    requires |b| == 8
    ensures Value(256, b) < UINT64
  {
    Powers();
    BytesOfValue(b);
  }

  lemma Range32(b: seq<byte>)
    requires |b| == 4
    ensures Value(256, b) < 0x1_0000_0000
  {
    Powers();
    BytesOfValue(b);
  }

  /** Both addresses decode to 40 bytes. */
  predicate HasDecodableAddresses(d: packet) {
    IsDecodable(FromAddress(d)) && IsDecodable(ToAddress(d))
  }

  /** What the uninitialised buffers hold in the five calls that decode an address; only visible when the
      address does not decode. */
  datatype Stacks = Stacks(source: raw, sourceKey: raw, feePayerKey: raw, receiver: raw, receiverKey: raw)

  /** The packets the parser accepts. */
  predicate Accepts(sha: Hash, d: packet, st: Stacks) {
    AcceptsBody(sha, d, st) && AcceptsTail(d)
  }

  predicate AcceptsBody(sha: Hash, d: packet, st: Stacks) {
    AcceptsAddresses(sha, d, st) && AcceptsNumbers(d)
  }

  predicate AcceptsAddresses(sha: Hash, d: packet, st: Stacks) {
    Validates(sha, FromAddress(d), st.source) && Validates(sha, ToAddress(d), st.receiver)
  }

  /** Whether the text of an address field passes `validate_address`. */
  predicate Validates(sha: Hash, address: seq<byte>, stack: raw) {
    0 !in address && ChecksumOk(sha, DecodedOver(address, stack))
  }

  predicate AcceptsNumbers(d: packet) { TotalField(d) < UINT64 }

  predicate AcceptsTail(d: packet) { KnownHeader(HeaderOf(d)) }

  /** A known tag and a known network. */
  predicate KnownHeader(h: Header) {
    (h.tag == PAYMENT_TX || h.tag == DELEGATION_TX) && (h.networkId == TESTNET_ID || h.networkId == MAINNET_ID)
  }

  /** What a terminated buffer displays. */
  function Shown(buffer: seq<byte>): seq<byte> { buffer[..StrLen(buffer)] }

  lemma StrLenUnique(s: seq<byte>, n: nat)
    requires n < |s| && s[n] == 0 && forall i :: 0 <= i < n ==> s[i] != 0
    ensures StrLen(s) == n
  {
    var k := StrLen(s);
    assert k < |s| ==> s[k] == 0;
    assert s[n] == 0;
  }

  /** The displayed memo, at most 32 bytes. */
  function MemoShown(d: packet): (r: seq<byte>)
    ensures |r| <= MEMO_BYTES - 2
  {
    var s := MemoField(d) + [0];
    assert s[32] == 0;
    Shown(s)
  }

  /** The transaction of an accepted packet. */
  function TransactionOver(d: packet, st: Stacks): Transaction {
    Transaction(FeeField(d), 1, KeyOf(DecodedOver(FromAddress(d), st.feePayerKey)), NonceField(d), ValidUntilField(d),
                MemoOf(MemoShown(d)), GetBit(d[170], 0), GetBit(d[170], 1), GetBit(d[170], 2),
                KeyOf(DecodedOver(FromAddress(d), st.sourceKey)), KeyOf(DecodedOver(ToAddress(d), st.receiverKey)),
                1, AmountField(d), false)
  }

  /** The transaction of a packet with decodable addresses. */
  function TransactionOf(d: packet): Transaction
    requires HasDecodableAddresses(d)
  {
    Transaction(FeeField(d), 1, AddressKey(FromAddress(d)), NonceField(d), ValidUntilField(d),
                MemoOf(MemoShown(d)), GetBit(d[170], 0), GetBit(d[170], 1), GetBit(d[170], 2),
                AddressKey(FromAddress(d)), AddressKey(ToAddress(d)), 1, AmountField(d), false)
  }

  lemma NonzeroAddress(a: seq<byte>)
    requires IsDecodable(a)
    ensures 0 !in a
  {
    forall i | 0 <= i < |a|
      ensures a[i] != 0
    {
      assert Digit(a[i]) >= 0;
    }
  }

  /** With decodable addresses, no buffer is used uninitialised: acceptance is two correct checksums, a sum
      that does not wrap and a known tag and network, and the keys are those of the addresses. */
  lemma DecodableIsDetermined(sha: Hash, d: packet, st: Stacks)
    requires HasDecodableAddresses(d)
    ensures Accepts(sha, d, st)
      <==> IsAddress(sha, FromAddress(d)) && IsAddress(sha, ToAddress(d)) && AcceptsNumbers(d) && AcceptsTail(d)
    ensures TransactionOver(d, st) == TransactionOf(d)
  {
    NonzeroAddress(FromAddress(d));
    NonzeroAddress(ToAddress(d));
  }

  // ---- reading ------------------------------------------------------------------------

  /** `read_uint32_be` */
  method ReadUint32Be(d: seq<byte>, at: nat) returns (v: uint32)
    requires at + 4 <= |d|
    ensures v == Value(256, d[at..at + 4])
  {
    FourBytes(d[at..at + 4]);
    v := d[at] as nat * 0x100_0000 + d[at + 1] as nat * 0x1_0000 + d[at + 2] as nat * 0x100 + d[at + 3];
  }

  lemma FourBytes(b: seq<nat>)
    requires |b| == 4
    ensures Value(256, b) == b[0] * 0x100_0000 + b[1] * 0x1_0000 + b[2] * 0x100 + b[3]
  {
    assert b[..3][..2] == b[..2] && b[..2][..1] == b[..1] && b[..1][..0] == [];
    assert Value(256, b[..1]) == b[0];
    assert Value(256, b[..2]) == b[0] * 0x100 + b[1];
    assert Value(256, b[..3]) == b[0] * 0x1_0000 + b[1] * 0x100 + b[2];
  }

  /** `read_uint64_be` */
  method ReadUint64Be(d: seq<byte>, at: nat) returns (v: uint64)
    requires at + 8 <= |d|
    ensures v == Value(256, d[at..at + 8])
  {
    var high := ReadUint32Be(d, at);
    var low := ReadUint32Be(d, at + 4);
    assert d[at..at + 8] == d[at..at + 4] + d[at + 4..at + 8];
    ValueConcat(256, d[at..at + 4], d[at + 4..at + 8]);
    Powers();
    v := high as nat * 0x1_0000_0000 + low;
  }

  // ---- the state it fills -----------------------------------------------------------------

  /** What surrounds the transaction in a packet. */
  datatype Header = Header(account: uint32, tag: byte, networkId: byte)

  function HeaderOf(d: packet): Header { Range32(d[0..4]); Header(Value(256, d[0..4]), d[170], d[171]) }

  /** `tx_t` */
  class TxContext {
    var networkId: byte
    var account: uint32
    var tx: Transaction
    var tag: byte
    const inputFields: array2<byte>
    const inputBits: array<byte>

    constructor (tx: Transaction)
      ensures fresh(inputFields) && fresh(inputBits)
      ensures inputFields.Length0 == TX_FIELDS && inputFields.Length1 == FIELD_BYTES
      ensures inputBits.Length == TX_BITSTRINGS_BYTES
    {
      networkId, account, this.tx, tag := 0, 0, tx, 0;
      inputFields := new byte[TX_FIELDS, FIELD_BYTES];
      inputBits := new byte[TX_BITSTRINGS_BYTES];
    }

    ghost function Context(): Header
      reads this
    {
      Header(account, tag, networkId)
    }

    method Fill(t: Transaction, header: Header)
      modifies this
      ensures tx == t && Context() == header
    {
      tx, account, tag, networkId := t, header.account, header.tag, header.networkId;
    }
  }

  /** The five displayed numbers. */
  datatype Numbers = Numbers(
    amount: seq<byte>, fee: seq<byte>, total: seq<byte>, nonce: seq<byte>, validUntil: seq<byte>)

  /** Everything on display: the addresses with their terminators, the numbers, and the memo. */
  datatype Display = Display(from: seq<byte>, to: seq<byte>, numbers: Numbers, memo: seq<byte>)

  function NumbersOf(d: packet): Numbers {
    Numbers(AmountText(AmountField(d)), AmountText(FeeField(d)), AmountText(TotalField(d)),
            ValueText(NonceField(d)), ValueText(ValidUntilField(d)))
  }

  /** What an accepted packet must display. */
  function DisplayOf(d: packet): Display {
    Display(FromAddress(d) + [0], ToAddress(d) + [0], NumbersOf(d), MemoShown(d))
  }

  /** `ui_t`: the displayed buffers. */
  class Ui {
    const from: array<byte>
    const to: array<byte>
    const amount: array<byte>
    const fee: array<byte>
    const total: array<byte>
    const nonce: array<byte>
    const validUntil: array<byte>
    const memo: array<byte>

    ghost predicate Valid() {
      && from.Length == to.Length == MINA_ADDRESS_LEN
      && amount.Length == fee.Length == total.Length == nonce.Length == validUntil.Length == 32
      && memo.Length == MEMO_BYTES - 1
      && from != to && amount != fee && amount != total && amount != nonce && amount != validUntil
      && fee != total && fee != nonce && fee != validUntil
      && total != nonce && total != validUntil && nonce != validUntil
    }

    ghost function Buffers(): set<object> { {from, to, amount, fee, total, nonce, validUntil, memo} }

    ghost function ShownNumbers(): Numbers
      reads amount, fee, total, nonce, validUntil
    {
      Numbers(Shown(amount[..]), Shown(fee[..]), Shown(total[..]), Shown(nonce[..]), Shown(validUntil[..]))
    }

    ghost function Displayed(): Display
      reads Buffers()
    {
      Display(from[..], to[..], ShownNumbers(), Shown(memo[..]))
    }

    constructor ()
      ensures Valid() && fresh(Buffers())
    {
      from := new byte[MINA_ADDRESS_LEN];
      to := new byte[MINA_ADDRESS_LEN];
      amount := new byte[32];
      fee := new byte[32];
      total := new byte[32];
      nonce := new byte[32];
      validUntil := new byte[32];
      memo := new byte[MEMO_BYTES - 1];
    }
  }

  lemma SameTerminated(a: seq<byte>, b: seq<byte>)
    ensures a + [0] == b + [0] <==> a == b
  {
    if a + [0] == b + [0] {
      assert (a + [0])[..|a|] == a && (b + [0])[..|b|] == b;
    }
  }

  lemma ShownText(text: seq<byte>, rest: seq<byte>)
    requires forall i :: 0 <= i < |text| ==> text[i] != 0
    ensures Shown(text + [0] + rest) == text
  {
    StrLenUnique(text + [0] + rest, |text|);
  }

  lemma AsciiNonzero(ds: seq<digit>)
    ensures forall i :: 0 <= i < |ds| ==> Ascii(ds)[i] != 0
  {
  }

  /** A buffer filled by `amount_to_string` displays the text of the amount. */
  lemma ShownAmount(amount: nat, rest: seq<byte>)
    ensures Shown(AmountText(amount) + [0] + rest) == AmountText(amount)
  {
    AsciiNonzero(DecimalDigits(Shifted(amount, 9)));
    AsciiNonzero(FractionDigits(amount));
    ShownText(AmountText(amount), rest);
  }

  lemma ShownValue(v: nat, rest: seq<byte>)
    ensures Shown(ValueText(v) + [0] + rest) == ValueText(v)
  {
    AsciiNonzero(DecimalDigits(v));
    ShownText(ValueText(v), rest);
  }

  /** Formats an amount into a 32-byte buffer of the display. */
  method ShowAmount(buf: array<byte>, amount: nat)
    requires buf.Length == 32 && amount < UINT64
    modifies buf
    ensures Shown(buf[..]) == AmountText(amount)
  {
    AmountTextLength(amount);
    ghost var rest := buf[|AmountText(amount)| + 1..];
    AmountToString(buf, buf.Length, amount);
    ShownAmount(amount, rest);
  }

  method ShowValue(buf: array<byte>, v: nat)
    requires buf.Length == 32 && v < UINT64
    modifies buf
    ensures Shown(buf[..]) == ValueText(v)
  {
    ValueTextLength(v);
    ghost var rest := buf[|ValueText(v)| + 1..];
    var ok := ValueToString(buf, buf.Length, v);
    ShownValue(v, rest);
  }

  // ---- parse_tx -----------------------------------------------------------------------

  /** Copies an address and its terminator. */
  method CopyAddress(dst: array<byte>, d: seq<byte>, at: nat)
    requires dst.Length == MINA_ADDRESS_LEN && at + 55 <= |d|
    modifies dst
    ensures dst[..] == d[at..at + 55] + [0]
  {
    for i := 0 to 55
      invariant forall j :: 0 <= j < i ==> dst[j] == d[at + j]
    {
      dst[i] := d[at + i];
    }
    dst[55] := 0;
  }

  /** The terminated text of an address has its full length exactly when it has no terminator inside. */
  lemma WholeAddress(a: seq<byte>)
    requires |a| == MINA_ADDRESS_LEN - 1
    ensures StrNLen(a + [0], MINA_ADDRESS_LEN) == MINA_ADDRESS_LEN - 1 <==> 0 !in a
    ensures (a + [0])[..MINA_ADDRESS_LEN - 1] == a
  {
    var n := StrNLen(a + [0], MINA_ADDRESS_LEN);
    if 0 !in a {
      assert forall i :: 0 <= i < |a| ==> (a + [0])[i] != 0;
      assert (a + [0])[MINA_ADDRESS_LEN - 1] == 0;
    } else {
      var i :| 0 <= i < |a| && a[i] == 0;
      assert (a + [0])[i] == 0;
    }
  }

  /** The displayed numbers and memo read back to the transaction's, the total to the unwrapped sum. */
  predicate ReadsNumbers(shown: Display, tx: Transaction) {
    && ReadAmount(shown.numbers.amount) == tx.amount && ReadAmount(shown.numbers.fee) == tx.fee
    && ReadAmount(shown.numbers.total) == tx.amount + tx.fee
    && ReadValue(shown.numbers.nonce) == tx.nonce && ReadValue(shown.numbers.validUntil) == tx.validUntil
    && MemoText(tx.memo) == shown.memo
  }

  /** The displayed addresses decode to the transaction's keys. */
  predicate ReadsAddresses(shown: Display, tx: Transaction) {
    && |shown.from| == |shown.to| == MINA_ADDRESS_LEN
    && IsDecodable(shown.from[..55]) && AddressKey(shown.from[..55]) == tx.sourcePk == tx.feePayerPk
    && IsDecodable(shown.to[..55]) && AddressKey(shown.to[..55]) == tx.receiverPk
  }

  /** Every displayed text reads back to the transaction. */
  predicate ReadsBack(shown: Display, tx: Transaction) { ReadsNumbers(shown, tx) && ReadsAddresses(shown, tx) }

  lemma NumbersRead(d: packet, st: Stacks)
    ensures ReadsNumbers(DisplayOf(d), TransactionOver(d, st))
  {
    ReadAmountText(AmountField(d));
    ReadAmountText(FeeField(d));
    ReadAmountText(TotalField(d));
    ReadValueText(NonceField(d));
    ReadValueText(ValidUntilField(d));
    MemoTextOfMemo(MemoShown(d));
  }

  lemma AddressesRead(d: packet, st: Stacks)
    ensures ReadsAddresses(DisplayOf(d), TransactionOver(d, st)) <==> HasDecodableAddresses(d)
  {
    var shown := DisplayOf(d);
    assert shown.from[..55] == FromAddress(d) && shown.to[..55] == ToAddress(d);
  }

  /** What the buffers hold is what is packed, exactly when both addresses decode. */
  lemma ShownIsSigned(d: packet, st: Stacks)
    ensures ReadsBack(DisplayOf(d), TransactionOver(d, st)) <==> HasDecodableAddresses(d)
  {
    NumbersRead(d, st);
    AddressesRead(d, st);
  }

  lemma OutsideAlphabet(a: seq<byte>)
    requires a == seq(55, i => '0' as int)
    ensures 0 !in a && !Decodable(a, ADDRESS_BYTES)
  {
    assert a[0] == '0' as int && Digit(a[0]) < 0;
  }

  /** A receiver outside the alphabet, and buffers that happen to hold the raw address of some key: the packet
      is accepted, that key is packed, and the display does not read back to it. */
  lemma UndecodableReceiver(sha: Hash, d: packet, st: Stacks, pk: Compressed)
    requires Validates(sha, FromAddress(d), st.source) && AcceptsNumbers(d) && AcceptsTail(d)
    requires ToAddress(d) == seq(55, i => '0' as int) && st.receiver == st.receiverKey == RawAddress(sha, pk)
    ensures Accepts(sha, d, st) && TransactionOver(d, st).receiverPk == pk
    ensures !ReadsBack(DisplayOf(d), TransactionOver(d, st))
  {
    OutsideAlphabet(ToAddress(d));
    RawAddressParts(sha, pk);
    AddressesRead(d, st);
  }

  /** `parse_tx`. It accepts exactly the acceptable packets, and then fills the display, the context and the
      transaction from the packet's bytes. */
  method Parse(d: seq<byte>, tx: TxContext, ui: Ui, sha: Hash, st: Stacks) returns (ok: bool)
    requires |d| < 256 && ui.Valid()
    modifies tx, ui.Buffers()
    ensures ok <==> |d| == TX_LENGTH && Accepts(sha, d, st)
    ensures ok ==> ui.Displayed() == DisplayOf(d) && tx.Context() == HeaderOf(d) && tx.tx == TransactionOver(d, st)
  {
    if |d| != TX_LENGTH {
      return false;
    }
    var t, header;
    ok, t, header := ParsePacket(d, tx.tx, ui, sha, st);
    tx.Fill(t, header);
  }

  method ParsePacket(d: packet, t: Transaction, ui: Ui, sha: Hash, st: Stacks)
    returns (ok: bool, t': Transaction, header: Header)
    requires ui.Valid()
    modifies ui.Buffers()
    ensures ok <==> Accepts(sha, d, st)
    ensures ok ==> ui.Displayed() == DisplayOf(d) && header == HeaderOf(d) && t' == TransactionOver(d, st)
  {
    var account := ReadUint32Be(d, 0);
    header := Header(account, d[170], d[171]);
    assert header == HeaderOf(d);
    ok, t' := ParseBody(d, t, ui, sha, st);
    if !ok {
      return;
    }
    TagCompletes(d, st, t');
    ok, t' := ParseTail(header, t');
  }

  /** The tag and the network byte. */
  method ParseTail(header: Header, t: Transaction) returns (ok: bool, t': Transaction)
    ensures ok <==> KnownHeader(header)
    ensures ok ==> t' == WithTag(t, header.tag)
  {
    if header.tag != PAYMENT_TX && header.tag != DELEGATION_TX {
      return false, t;
    }
    t' := WithTag(t, header.tag);
    ok := header.networkId == TESTNET_ID || header.networkId == MAINNET_ID;
  }

  /** The transaction, but for the tag. */
  ghost predicate BodyParsed(d: packet, st: Stacks, t: Transaction) {
    t == TransactionOver(d, st).(tag0 := t.tag0, tag1 := t.tag1, tag2 := t.tag2)
  }

  /** The transaction with the bits of a tag. */
  function WithTag(t: Transaction, tag: byte): Transaction {
    t.(tag0 := GetBit(tag, 0), tag1 := GetBit(tag, 1), tag2 := GetBit(tag, 2))
  }

  lemma TagCompletes(d: packet, st: Stacks, t: Transaction)
    requires BodyParsed(d, st, t)
    ensures WithTag(t, HeaderOf(d).tag) == TransactionOver(d, st)
  {
  }

  /** Everything between the account and the tag. */
  method ParseBody(d: packet, t: Transaction, ui: Ui, sha: Hash, st: Stacks) returns (ok: bool, t': Transaction)
    requires ui.Valid()
    modifies ui.Buffers()
    ensures ok <==> AcceptsBody(sha, d, st)
    ensures ok ==> ui.Displayed() == DisplayOf(d) && BodyParsed(d, st, t')
  {
    ok, t' := ParseAddresses(d, t, ui, sha, st);
    if !ok {
      return;
    }
    ghost var from, to := ui.from[..], ui.to[..];
    ok, t' := ParseContents(d, t', ui);
    assert ui.from[..] == from && ui.to[..] == to;
    if ok {
      AllShown(d, ui);
    }
  }

  /** The numbers and the memo. */
  method ParseContents(d: packet, t: Transaction, ui: Ui) returns (ok: bool, t': Transaction)
    requires ui.Valid()
    modifies ui.amount, ui.fee, ui.total, ui.nonce, ui.validUntil, ui.memo
    ensures ok <==> AcceptsNumbers(d)
    ensures ok ==> ui.ShownNumbers() == NumbersOf(d) && Shown(ui.memo[..]) == MemoShown(d)
    ensures ok ==> t' == t.(amount := AmountField(d), tokenId := 1, fee := FeeField(d), feeToken := 1,
                            tokenLocked := false,
                            nonce := NonceField(d), validUntil := ValidUntilField(d), memo := MemoOf(MemoShown(d)))
  {
    ok, t' := ParseNumbers(d, t, ui);
    if !ok {
      return;
    }
    var memo := ParseMemo(d, ui.memo);
    t' := t'.(feeToken := 1, tokenLocked := false, memo := memo);
  }

  lemma AllShown(d: packet, ui: Ui)
    requires ui.from[..] == FromAddress(d) + [0] && ui.to[..] == ToAddress(d) + [0]
    requires ui.ShownNumbers() == NumbersOf(d) && Shown(ui.memo[..]) == MemoShown(d)
    ensures ui.Displayed() == DisplayOf(d)
  {
  }

  method ParseNumbers(d: packet, t: Transaction, ui: Ui) returns (ok: bool, t': Transaction)
    requires ui.Valid()
    modifies ui.amount, ui.fee, ui.total, ui.nonce, ui.validUntil
    ensures ok <==> AcceptsNumbers(d)
    ensures ok ==> ui.ShownNumbers() == NumbersOf(d)
    ensures ok ==> t' == t.(amount := AmountField(d), tokenId := 1, fee := FeeField(d),
                            nonce := NonceField(d), validUntil := ValidUntilField(d))
  {
    ok, t' := ParseAmounts(d, t, ui);
    if !ok {
      return;
    }
    ghost var amount, fee, total := ui.amount[..], ui.fee[..], ui.total[..];
    t' := ParseCounters(d, t', ui);
    assert ui.amount[..] == amount && ui.fee[..] == fee && ui.total[..] == total;
  }

  /** Amount, fee and their displayed total; fails if the 64-bit sum wraps. */
  method ParseAmounts(d: packet, t: Transaction, ui: Ui) returns (ok: bool, t': Transaction)
    requires ui.Valid()
    modifies ui.amount, ui.fee, ui.total
    ensures t' == t.(amount := AmountField(d), tokenId := 1, fee := FeeField(d))
    ensures ok <==> AcceptsNumbers(d)
    ensures ok ==> Shown(ui.amount[..]) == AmountText(AmountField(d)) && Shown(ui.fee[..]) == AmountText(FeeField(d))
    ensures ok ==> Shown(ui.total[..]) == AmountText(TotalField(d))
  {
    var amount := ReadUint64Be(d, 114);
    ShowAmount(ui.amount, amount);
    ghost var shownAmount := ui.amount[..];
    var fee := ReadUint64Be(d, 122);
    ShowAmount(ui.fee, fee);
    ghost var shownFee := ui.fee[..];
    t' := t.(amount := amount, tokenId := 1, fee := fee);
    var sum := Add64(amount, fee);
    if sum < amount {
      return false, t';
    }
    assert amount == AmountField(d) && fee == FeeField(d) && sum == TotalField(d);
    ShowAmount(ui.total, sum);
    assert ui.amount[..] == shownAmount && ui.fee[..] == shownFee;
    return true, t';
  }

  /** 64-bit addition: the sum is below an operand exactly when it wraps. */
  method Add64(a: uint64, b: uint64) returns (sum: uint64)
    ensures sum < a <==> a as nat + b >= UINT64
    ensures sum >= a ==> sum == a as nat + b
  {
    sum := (a as nat + b) % UINT64;
  }

  method ParseCounters(d: packet, t: Transaction, ui: Ui) returns (t': Transaction)
    requires ui.Valid()
    modifies ui.nonce, ui.validUntil
    ensures t'.nonce == NonceField(d) && t'.validUntil == ValidUntilField(d)
    ensures t' == t.(nonce := t'.nonce, validUntil := t'.validUntil)
    ensures Shown(ui.nonce[..]) == ValueText(NonceField(d)) && Shown(ui.validUntil[..]) == ValueText(ValidUntilField(d))
  {
    var nonce := ReadUint32Be(d, 130);
    ShowValue(ui.nonce, nonce);
    var validUntil := ReadUint32Be(d, 134);
    ShowValue(ui.validUntil, validUntil);
    t' := t.(nonce := nonce, validUntil := validUntil);
  }

  /** Both addresses: copied for display, validated, and read as keys. */
  method ParseAddresses(d: packet, t: Transaction, ui: Ui, sha: Hash, st: Stacks) returns (ok: bool, t': Transaction)
    requires ui.Valid()
    modifies ui.from, ui.to
    ensures ok <==> AcceptsAddresses(sha, d, st)
    ensures ok ==> ui.from[..] == FromAddress(d) + [0] && ui.to[..] == ToAddress(d) + [0]
    ensures ok ==> t' == t.(sourcePk := KeyOf(DecodedOver(FromAddress(d), st.sourceKey)),
                            feePayerPk := KeyOf(DecodedOver(FromAddress(d), st.feePayerKey)),
                            receiverPk := KeyOf(DecodedOver(ToAddress(d), st.receiverKey)))
  {
    t' := t;
    ok := ParseAddress(d, 4, ui.from, sha, st.source);
    if !ok {
      return;
    }
    var source := ReadKey(FromAddress(d), ui.from, t.sourcePk, st.sourceKey);
    var feePayer := ReadKey(FromAddress(d), ui.from, t.feePayerPk, st.feePayerKey);
    t' := t'.(sourcePk := source, feePayerPk := feePayer);
    ghost var from := ui.from[..];
    ok := ParseAddress(d, 59, ui.to, sha, st.receiver);
    assert ui.from[..] == from;
    if !ok {
      return;
    }
    var receiver := ReadKey(ToAddress(d), ui.to, t.receiverPk, st.receiverKey);
    t' := t'.(receiverPk := receiver);
  }

  /** Copies an address for display and validates it. */
  method ParseAddress(d: packet, at: nat, dst: array<byte>, sha: Hash, stack: raw) returns (ok: bool)
    requires dst.Length == MINA_ADDRESS_LEN && at + 55 <= |d|
    modifies dst
    ensures dst[..] == d[at..at + 55] + [0]
    ensures ok <==> Validates(sha, d[at..at + 55], stack)
  {
    CopyAddress(dst, d, at);
    WholeAddress(d[at..at + 55]);
    ok := ValidateAddress(dst[..], sha, stack);
  }

  /** The key of a displayed address. */
  method ReadKey(address: seq<byte>, shown: array<byte>, out: Compressed, stack: raw) returns (key: Compressed)
    requires |address| == MINA_ADDRESS_LEN - 1 && 0 !in address && shown[..] == address + [0]
    ensures key == KeyOf(DecodedOver(address, stack))
  {
    WholeAddress(address);
    key := ReadPublicKeyCompressed(out, shown[..], stack);
  }

  /** The memo: displayed with a terminator, then prepared for the transaction. */
  method ParseMemo(d: packet, shown: array<byte>) returns (m: memo)
    requires shown.Length == MEMO_BYTES - 1
    modifies shown
    ensures m == MemoOf(MemoShown(d)) && Shown(shown[..]) == MemoShown(d)
  {
    for i := 0 to 32
      invariant forall j :: 0 <= j < i ==> shown[j] == d[138 + j]
    {
      shown[i] := d[138 + i];
    }
    shown[32] := 0;
    assert shown[..] == MemoField(d) + [0];
    var out := new byte[MEMO_BYTES];
    TransactionPrepareMemo(out, shown[..]);
    MemoLength(MemoField(d) + [0]);
    m := out[..];
  }

  lemma MemoLength(s: seq<byte>)
    requires |s| == 33 && s[32] == 0
    ensures StrNLen(s, 32) == StrLen(s)
  {
    var n, k := StrLen(s), StrNLen(s, 32);
    assert n < |s| ==> s[n] == 0;
    assert k < 32 ==> s[k] == 0;
    assert n <= 32 by { assert s[32] == 0; }
  }
}
