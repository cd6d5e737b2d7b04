/** `sign_transaction`: the account check, then packing and signing. */
module SignTx {
  import opened Positional
  import opened PackedBits
  import opened RandomOracle
  import opened Messages
  import opened Transactions
  import opened Addresses
  import opened Curves
  import opened Multiples
  import opened ScalarMul
  import opened Pallas
  import opened Schnorr
  import opened Signing
  import opened ParseTx

  /** BIP32 derivation along the account's path, as an arbitrary function. */
  type Derivation = nat -> field

  function KeypairOf(derive: Derivation, account: nat): Keypair {
    var priv := Masked(derive(account));
    Keypair(ScalarTimes(PALLAS, priv, AFFINE_ONE), priv)
  }

  /** The private key is the derived secret modulo 2^254, and the public key its multiple of the generator. */
  lemma KeypairValue(derive: Derivation, account: nat)
    ensures var kp, d := KeypairOf(derive, account), Value(256, derive(account)) % TWO254;
      Value(256, kp.priv) == d && (PallasGroup() ==> kp.pub == Times(PALLAS, d, AFFINE_ONE))
  {
    MaskedValue(derive(account));
    if PallasGroup() {
      MaskedBound(derive(account));
      GeneratorOnCurve();
      GeneratorTimes(PALLAS, AFFINE_ONE, GROUP_ORDER, KeypairOf(derive, account).priv);
    }
  }

  /** `generate_keypair` */
  method GenerateKeypair(derive: Derivation, account: nat) returns (kp: Keypair)
    ensures kp == KeypairOf(derive, account)
  {
    var priv := Masked(derive(account));
    var pub := AffineScalarMul(PALLAS, priv, AFFINE_ONE);
    kp := Keypair(pub, priv);
  }

  function Compress(p: Affine): Compressed {
    Compressed(FieldBytes(p.x), p.y % 2 == 1)
  }

  lemma LowBit(b: byte)
    ensures GetBit(b, 0) <==> b % 2 == 1
  {
  }

  lemma LowByteParity(y: nat)
    ensures (y % 256) % 2 == y % 2
  {
  }

  lemma ParityOfBytes(y: nat)
    ensures FieldIsOdd(FieldBytes(y)) <==> y % 2 == 1
  {
    LowBit(y % 256);
    LowByteParity(y);
    assert FieldBytes(y)[31] == y % 256;
  }

  /** Whether the displayed source is the address of a key. */
  method MatchesSource(from: array<byte>, pub: Affine, sha: Hash) returns (ok: bool)
    requires from.Length == MINA_ADDRESS_LEN
    ensures ok <==> from[..] == Address(sha, Compress(pub)) + [0]
  {
    var address := new byte[MINA_ADDRESS_LEN];
    ParityOfBytes(pub.y);
    var generated := GenerateAddress(address, MINA_ADDRESS_LEN, FieldBytes(pub.x), FieldBytes(pub.y), sha);
    ok := generated && address[..] == from[..];
  }

  /** The signature of a transaction under a key. */
  ghost predicate SignatureOver(h: Hashes, t: Transaction, kp: Keypair, networkId: byte, rx: nat, s: nat)
    requires h.Valid()
  {
    && rx == Commitment(h, TxFields(t), TxBits(t), kp, networkId).x
    && s == SignatureS(h, TxFields(t), TxBits(t), kp, networkId)
  }

  /** `sign_transaction`. It signs exactly when the displayed source address is the address of the
      account's key, and touches neither the display nor the transaction. */
  method SignTransaction(tx: TxContext, ui: Ui, derive: Derivation, sha: Hash, h: Hashes)
    returns (ok: bool, sig: Signature)
    requires ui.from.Length == MINA_ADDRESS_LEN && tx.inputBits !in ui.Buffers() && h.Valid()
    requires tx.inputFields.Length0 == TX_FIELDS && tx.inputFields.Length1 == FIELD_BYTES
    requires tx.inputBits.Length == TX_BITSTRINGS_BYTES
    requires tx.networkId == TESTNET_ID || tx.networkId == MAINNET_ID
    modifies tx.inputFields, tx.inputBits
    ensures ok <==> ui.from[..] == Address(sha, Compress(KeypairOf(derive, tx.account).pub)) + [0]
    ensures ok ==> SignatureOver(h, tx.tx, KeypairOf(derive, tx.account), tx.networkId, sig.rx, sig.s)
  {
    sig := new Signature();
    var kp := GenerateKeypair(derive, tx.account);
    ok := MatchesSource(ui.from, kp.pub, sha);
    if ok {
      ok := PackAndSign(sig, tx, kp, h);
    }
  }

  /** Packs the transaction into the context's buffers and signs it; this never fails. */
  method PackAndSign(sig: Signature, tx: TxContext, kp: Keypair, h: Hashes) returns (ok: bool)
    requires h.Valid() && (tx.networkId == TESTNET_ID || tx.networkId == MAINNET_ID)
    requires tx.inputFields.Length0 == TX_FIELDS && tx.inputFields.Length1 == FIELD_BYTES
    requires tx.inputBits.Length == TX_BITSTRINGS_BYTES
    modifies sig, tx.inputFields, tx.inputBits
    ensures ok && SignatureOver(h, tx.tx, kp, tx.networkId, sig.rx, sig.s)
  {
    var roinput := new ROInput(tx.inputFields, tx.inputBits);
    TransactionToROInput(roinput, tx.tx);
    DownstreamSizes(tx.tx, FieldBytes(kp.pub.x), FieldBytes(kp.pub.y), kp.priv, FieldBytes(0), tx.networkId);
    assert roinput.fieldsLen == |roinput.Fields()| && roinput.bitsLen == |roinput.BitString()|;
    ok := Sign(sig, kp, roinput, tx.networkId, h);
  }

  /** What a signature over a transaction means. */
  ghost predicate VerifiedSignature(h: Hashes, t: Transaction, kp: Keypair, id: byte, rx: nat, s: nat)
    requires h.Valid()
  {
    && t.sourcePk == t.feePayerPk == Compress(kp.pub)
    && SignatureOver(h, t, kp, id, rx, s)
    && (PallasGroup() ==>
          Verifies(PALLAS, AFFINE_ONE, kp.pub, rx, FieldBytes(s),
                   FieldBytes(Challenge(h, TxFields(t), TxBits(t), kp.pub, rx, id))))
  }

  /** The signature of a packet whose source is the key's address is over the packet's transaction,
      whose source and fee payer are that key, and it verifies. */
  lemma SignedIsShown(d: packet, st: Stacks, derive: Derivation, account: nat, sha: Hash, h: Hashes)
    requires h.Valid() && FromAddress(d) == Address(sha, Compress(KeypairOf(derive, account).pub))
    ensures var kp, t, id := KeypairOf(derive, account), TransactionOver(d, st), d[171];
      VerifiedSignature(h, t, kp, id, Commitment(h, TxFields(t), TxBits(t), kp, id).x,
                        SignatureS(h, TxFields(t), TxBits(t), kp, id))
  {
    var kp, t := KeypairOf(derive, account), TransactionOver(d, st);
    AddressRoundTrip(sha, Compress(kp.pub));
    if PallasGroup() {
      SignatureVerifies(h, TxFields(t), TxBits(t), kp, d[171], derive(account));
    }
  }

  /** The outcome of parsing and signing a packet, with what was packed, displayed and signed. */
  datatype Outcome = Refused | Signed(t: Transaction, shown: Display, rx: nat, s: nat)

  /** A packet that is accepted and whose source is the address of the account's key. */
  predicate FromAccount(d: packet, st: Stacks, derive: Derivation, sha: Hash) {
    Accepts(sha, d, st) && FromAddress(d) == Address(sha, Compress(KeypairOf(derive, HeaderOf(d).account).pub))
  }

  /** Exactly such packets are signed. The signature is over the packet's transaction under the account's key,
      and what is displayed reads back to that transaction, provided the receiver's address decodes. */
  ghost predicate SignedAsShown(d: packet, st: Stacks, derive: Derivation, sha: Hash, h: Hashes, outcome: Outcome)
    requires h.Valid()
  {
    match outcome
    case Refused => !FromAccount(d, st, derive, sha)
    case Signed(t, shown, rx, s) =>
      && FromAccount(d, st, derive, sha) && t == TransactionOver(d, st) && shown == DisplayOf(d)
      && VerifiedSignature(h, t, KeypairOf(derive, HeaderOf(d).account), HeaderOf(d).networkId, rx, s)
      && (ReadsBack(shown, t) <==> IsDecodable(ToAddress(d)))
  }

  lemma SignedOutcome(d: packet, st: Stacks, derive: Derivation, sha: Hash, h: Hashes, ok: bool,
                      t: Transaction, shown: Display, header: Header, rx: nat, s: nat)
    requires h.Valid() && Accepts(sha, d, st)
    requires t == TransactionOver(d, st) && shown == DisplayOf(d) && header == HeaderOf(d)
    requires ok <==> shown.from == Address(sha, Compress(KeypairOf(derive, header.account).pub)) + [0]
    requires ok ==> SignatureOver(h, t, KeypairOf(derive, header.account), header.networkId, rx, s)
    ensures SignedAsShown(d, st, derive, sha, h, if ok then Signed(t, shown, rx, s) else Refused)
  {
    var a := Address(sha, Compress(KeypairOf(derive, header.account).pub));
    SameTerminated(FromAddress(d), a);
    if FromAddress(d) == a {
      AddressRoundTrip(sha, Compress(KeypairOf(derive, header.account).pub));
      SignedIsShown(d, st, derive, header.account, sha, h);
      ShownIsSigned(d, st);
    }
  }

  /** `sign_transaction`, seen from the display. */
  method SignShown(tx: TxContext, ui: Ui, derive: Derivation, sha: Hash, h: Hashes,
                   ghost t: Transaction, ghost shown: Display, ghost header: Header)
    returns (ok: bool, sig: Signature, ghost outcome: Outcome)
    requires ui.Valid() && tx.inputBits !in ui.Buffers() && h.Valid()
    requires tx.inputFields.Length0 == TX_FIELDS && tx.inputFields.Length1 == FIELD_BYTES
    requires tx.inputBits.Length == TX_BITSTRINGS_BYTES
    requires tx.tx == t && ui.Displayed() == shown && tx.Context() == header
    requires header.networkId == TESTNET_ID || header.networkId == MAINNET_ID
    modifies tx.inputFields, tx.inputBits
    ensures outcome == if ok then Signed(tx.tx, ui.Displayed(), sig.rx, sig.s) else Refused
    ensures outcome == if ok then Signed(t, shown, sig.rx, sig.s) else Refused
    ensures ok <==> shown.from == Address(sha, Compress(KeypairOf(derive, header.account).pub)) + [0]
    ensures ok ==> SignatureOver(h, t, KeypairOf(derive, header.account), header.networkId, sig.rx, sig.s)
  {
    assert ui.from[..] == shown.from && tx.account == header.account && tx.networkId == header.networkId;
    ok, sig := SignTransaction(tx, ui, derive, sha, h);
    assert ui.Displayed() == shown;
    outcome := if ok then Signed(t, shown, sig.rx, sig.s) else Refused;
  }

  /** Signs the transaction of a packet that was accepted, if its source is the account's key. */
  method SignParsed(d: packet, st: Stacks, tx: TxContext, ui: Ui, derive: Derivation, sha: Hash, h: Hashes,
                    ghost t: Transaction, ghost shown: Display, ghost header: Header)
    returns (ok: bool, sig: Signature, ghost outcome: Outcome)
    requires ui.Valid() && tx.inputBits !in ui.Buffers() && h.Valid() && Accepts(sha, d, st)
    requires tx.inputFields.Length0 == TX_FIELDS && tx.inputFields.Length1 == FIELD_BYTES
    requires tx.inputBits.Length == TX_BITSTRINGS_BYTES
    requires tx.tx == t && ui.Displayed() == shown && tx.Context() == header
    requires t == TransactionOver(d, st) && shown == DisplayOf(d) && header == HeaderOf(d)
    modifies tx.inputFields, tx.inputBits
    ensures outcome == if ok then Signed(tx.tx, ui.Displayed(), sig.rx, sig.s) else Refused
    ensures SignedAsShown(d, st, derive, sha, h, outcome)
  {
    ok, sig, outcome := SignShown(tx, ui, derive, sha, h, t, shown, header);
    SignedOutcome(d, st, derive, sha, h, ok, t, shown, header, sig.rx, sig.s);
  }

  /** A packet parsed and then, once approved, signed. */
  method ParseAndSign(d: seq<byte>, st: Stacks, tx: TxContext, ui: Ui, derive: Derivation, sha: Hash, h: Hashes)
    returns (ok: bool, sig: Signature, ghost outcome: Outcome)
    requires |d| < 256 && ui.Valid() && tx.inputBits !in ui.Buffers() && h.Valid()
    requires tx.inputFields.Length0 == TX_FIELDS && tx.inputFields.Length1 == FIELD_BYTES
    requires tx.inputBits.Length == TX_BITSTRINGS_BYTES
    modifies tx, ui.Buffers(), tx.inputFields, tx.inputBits
    ensures outcome == if ok then Signed(tx.tx, ui.Displayed(), sig.rx, sig.s) else Refused
    ensures if |d| == TX_LENGTH then SignedAsShown(d, st, derive, sha, h, outcome) else !ok
  {
    sig := new Signature();
    outcome := Refused;
    ok := Parse(d, tx, ui, sha, st);
    if ok {
      ok, sig, outcome := SignParsed(d, st, tx, ui, derive, sha, h, tx.tx, ui.Displayed(), tx.Context());
    }
  }
}
