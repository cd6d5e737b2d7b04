/** Packets built from their contents, independently of the parser: what each byte range means. */
module Packets {
  import opened Positional
  import opened PackedBits
  import opened Base58
  import opened Decimal
  import opened Transactions
  import opened Addresses
  import opened ParseTx
  import opened Flows

  type addressText = s: seq<byte> | |s| == 55 witness Zeros(55)
  type memoText = s: seq<byte> | |s| == 32 witness Zeros(32)

  /** What a sender puts into a packet. */
  datatype Content = Content(
    account: uint32, from: addressText, to: addressText, amount: uint64, fee: uint64, nonce: uint32,
    validUntil: uint32, memo: memoText, tag: byte, networkId: byte)

  /** The 172 bytes of a packet, all numbers big-endian. */
  function PacketOf(c: Content): packet {
    Bytes(c.account, 4) + c.from + c.to + Bytes(c.amount, 8) + Bytes(c.fee, 8) + Bytes(c.nonce, 4)
    + Bytes(c.validUntil, 4) + c.memo + [c.tag] + [c.networkId]
  }

  /** The contents that the parser sees. */
  function ContentOf(d: packet): Content {
    Content(HeaderOf(d).account, FromAddress(d), ToAddress(d), AmountField(d), FeeField(d), NonceField(d),
            ValidUntilField(d), MemoField(d), HeaderOf(d).tag, HeaderOf(d).networkId)
  }

  /** The parts of ten concatenated pieces. */
  lemma Ranges(a: seq<byte>, f: seq<byte>, t: seq<byte>, x: seq<byte>, y: seq<byte>, n: seq<byte>, v: seq<byte>,
               m: seq<byte>, g: seq<byte>, w: seq<byte>)
    requires |a| == 4 && |f| == 55 && |t| == 55 && |x| == 8 && |y| == 8 && |n| == 4 && |v| == 4 && |m| == 32
    requires |g| == |w| == 1
    ensures var d := a + f + t + x + y + n + v + m + g + w;
      && |d| == 172 && d[0..4] == a && d[4..59] == f && d[59..114] == t && d[114..122] == x && d[122..130] == y
      && d[130..134] == n && d[134..138] == v && d[138..170] == m && d[170..171] == g && d[171..172] == w
  {
    var d := a + f + t + x + y + n + v + m + g + w;
    Peel(d, a + f + t + x + y + n + v + m + g, w);
    Peel(d, a + f + t + x + y + n + v + m, g);
    Peel(d, a + f + t + x + y + n + v, m);
    Peel(d, a + f + t + x + y + n, v);
    Peel(d, a + f + t + x + y, n);
    Peel(d, a + f + t + x, y);
    Peel(d, a + f + t, x);
    Peel(d, a + f, t);
    Peel(d, a, f);
  }

  lemma PacketRanges(c: Content)
    ensures var d := PacketOf(c);
      && d[0..4] == Bytes(c.account, 4) && d[4..59] == c.from && d[59..114] == c.to
      && d[114..122] == Bytes(c.amount, 8) && d[122..130] == Bytes(c.fee, 8) && d[130..134] == Bytes(c.nonce, 4)
      && d[134..138] == Bytes(c.validUntil, 4) && d[138..170] == c.memo && d[170] == c.tag && d[171] == c.networkId
  {
    var d := PacketOf(c);
    Ranges(Bytes(c.account, 4), c.from, c.to, Bytes(c.amount, 8), Bytes(c.fee, 8), Bytes(c.nonce, 4),
           Bytes(c.validUntil, 4), c.memo, [c.tag], [c.networkId]);
    assert d[170] == d[170..171][0] && d[171] == d[171..172][0];
  }

  lemma Uint32Bytes(v: uint32)
    ensures Value(256, Bytes(v, 4)) == v
  {
    Powers();
    ValueOfBytes(v, 4);
  }

  lemma Uint64Bytes(v: uint64)
    ensures Value(256, Bytes(v, 8)) == v
  {
    Powers();
    ValueOfBytes(v, 8);
  }

  /** The parser sees what was put in. */
  lemma ContentOfPacket(c: Content)
    ensures ContentOf(PacketOf(c)) == c
  {
    PacketRanges(c);
    Uint32Bytes(c.account);
    Uint64Bytes(c.amount);
    Uint64Bytes(c.fee);
    Uint32Bytes(c.nonce);
    Uint32Bytes(c.validUntil);
  }

  lemma Glue(d: packet)
    ensures d == d[0..4] + d[4..59] + d[59..114] + d[114..122] + d[122..130] + d[130..134] + d[134..138] + d[138..170]
                 + d[170..171] + d[171..172]
  {
  }

  /** Every packet is built from what the parser sees. */
  lemma PacketOfContent(d: packet)
    ensures PacketOf(ContentOf(d)) == d
  {
    Glue(d);
    BytesOfValue(d[0..4]);
    BytesOfValue(d[114..122]);
    BytesOfValue(d[122..130]);
    BytesOfValue(d[130..134]);
    BytesOfValue(d[134..138]);
  }

  /** A displayed or packed memo: the text up to the first zero byte. */
  predicate IsMemoText(text: seq<byte>, memo: memoText) {
    text <= memo && 0 !in text && (|text| < 32 ==> memo[|text|] == 0)
  }

  lemma MemoShownIs(d: packet)
    ensures IsMemoText(MemoShown(d), MemoField(d))
  {
    var memo, s := MemoField(d), MemoField(d) + [0];
    var n := StrLen(s);
    assert s[32] == 0;
    assert s[..n] == memo[..n];
    assert n < 32 ==> memo[n] == s[n];
  }

  lemma DisplayOfContent(d: packet, c: Content)
    requires c == ContentOf(d)
    ensures var shown := DisplayOf(d);
      && shown.from == c.from + [0] && shown.to == c.to + [0]
      && shown.numbers == Numbers(AmountText(c.amount), AmountText(c.fee), AmountText(c.amount as nat + c.fee),
                                  ValueText(c.nonce), ValueText(c.validUntil))
      && IsMemoText(shown.memo, c.memo)
  {
    MemoShownIs(d);
  }

  /** What is displayed of a packet's contents. */
  lemma DisplayOfPacket(c: Content)
    ensures var shown := DisplayOf(PacketOf(c));
      && shown.from == c.from + [0] && shown.to == c.to + [0]
      && shown.numbers == Numbers(AmountText(c.amount), AmountText(c.fee), AmountText(c.amount as nat + c.fee),
                                  ValueText(c.nonce), ValueText(c.validUntil))
      && IsMemoText(shown.memo, c.memo)
  {
    ContentOfPacket(c);
    DisplayOfContent(PacketOf(c), c);
  }

  /** A packed memo: version 1, the length, the text, and zeros. */
  predicate HoldsMemo(m: memo, text: seq<byte>) {
    && |text| <= 32 && m[0] == 1 && m[1] == |text| && m[2..2 + |text|] == text
    && forall i :: 2 + |text| <= i < 34 ==> m[i] == 0
  }

  lemma MemoHolds(text: seq<byte>)
    requires |text| <= 32
    ensures HoldsMemo(MemoOf(text), text)
  {
  }

  lemma TagBits(tag: byte)
    requires tag == 0 || tag == 4
    ensures !GetBit(tag, 0) && !GetBit(tag, 1) && (GetBit(tag, 2) <==> tag == 4)
  {
  }

  /** What is packed of a payment or a delegation. */
  lemma TransactionOfPacket(c: Content, st: Stacks)
    requires c.tag == 0 || c.tag == 4
    ensures var t := TransactionOver(PacketOf(c), st);
      && t.fee == c.fee && t.feeToken == 1 && t.nonce == c.nonce && t.validUntil == c.validUntil
      && !t.tag0 && !t.tag1 && (t.tag2 <==> c.tag == 4) && t.tokenId == 1 && t.amount == c.amount && !t.tokenLocked
      && t.feePayerPk == KeyOf(DecodedOver(c.from, st.feePayerKey))
      && t.sourcePk == KeyOf(DecodedOver(c.from, st.sourceKey))
      && t.receiverPk == KeyOf(DecodedOver(c.to, st.receiverKey))
      && exists text :: IsMemoText(text, c.memo) && HoldsMemo(t.memo, text)
  {
    var d := PacketOf(c);
    ContentOfPacket(c);
    assert ContentOf(d).fee == c.fee && ContentOf(d).amount == c.amount;
    assert ContentOf(d).nonce == c.nonce && ContentOf(d).validUntil == c.validUntil;
    assert ContentOf(d).from == c.from && ContentOf(d).to == c.to && ContentOf(d).tag == c.tag;
    TagBits(c.tag);
    MemoShownIs(d);
    MemoHolds(MemoShown(d));
    assert IsMemoText(MemoShown(d), c.memo);
  }

  /** The last four bytes start the double hash of the others. */
  predicate HashesMatch(sha: Hash, r: raw) { r[36..] == sha(sha(r[..36]))[..4] }

  /** Which contents are accepted, and for which account and network. */
  lemma PacketAccepted(c: Content, sha: Hash, st: Stacks)
    ensures HeaderOf(PacketOf(c)) == Header(c.account, c.tag, c.networkId)
    ensures Accepts(sha, PacketOf(c), st)
      <==> && 0 !in c.from && HashesMatch(sha, DecodedOver(c.from, st.source))
           && 0 !in c.to && HashesMatch(sha, DecodedOver(c.to, st.receiver))
           && c.amount as nat + c.fee < 0x1_0000_0000_0000_0000
           && (c.tag == 0 || c.tag == 4) && (c.networkId == 0 || c.networkId == 1)
  {
    var d := PacketOf(c);
    ContentOfPacket(c);
    assert ContentOf(d).account == c.account && ContentOf(d).tag == c.tag && ContentOf(d).networkId == c.networkId;
    assert ContentOf(d).from == c.from && ContentOf(d).to == c.to;
    assert ContentOf(d).amount == c.amount && ContentOf(d).fee == c.fee;
  }

  // ---- the screens of a packet --------------------------------------------------------

  lemma ScreensAppend(a: seq<Step>, b: seq<Step>, ch: Choice, shown: Display, p: seq<Screen>, q: seq<Screen>)
    requires Screens(a, ch, shown) == p && Screens(b, ch, shown) == q
    ensures Screens(a + b, ch, shown) == p + q
  {
    assert Screens(a + b, ch, shown) == Screens(a, ch, shown) + Screens(b, ch, shown);
  }

  lemma ScreensWhen(b: bool, step: Step, ch: Choice, shown: Display, title: string, text: seq<byte>)
    requires ScreenOf(step, ch, shown) == Screen(step, title, text)
    ensures Screens(When(b, step), ch, shown) == Shows(b, step, title, text)
  {
  }

  /** A screen with a title and a text, if it is shown. */
  function Shows(b: bool, step: Step, title: string, text: seq<byte>): seq<Screen> {
    if b then [Screen(step, title, text)] else []
  }

  /** The screens up to the fee. */
  function HeadScreens(mainnet: bool, delegation: bool, shown: Display): seq<Screen> {
    [Screen(Topic, "", [])] + Shows(!mainnet, Network, "testnet", [])
    + [Screen(Type, if delegation then "Delegation" else "Payment", []),
       Screen(From, if delegation then "Delegator" else "Sender", shown.from),
       Screen(To, if delegation then "Delegate" else "Receiver", shown.to)]
    + Shows(!delegation, Amount, "Amount", shown.numbers.amount) + [Screen(Fee, "Fee", shown.numbers.fee)]
  }

  /** All screens, in order. */
  function AllScreens(mainnet: bool, delegation: bool, validUntil: bool, shown: Display): seq<Screen> {
    HeadScreens(mainnet, delegation, shown) + Shows(!delegation, Total, "Total", shown.numbers.total)
    + [Screen(Nonce, "Nonce", shown.numbers.nonce)]
    + Shows(validUntil, ValidUntil, "Valid until", shown.numbers.validUntil)
    + Shows(shown.memo != [], Memo, "Memo", shown.memo) + [Screen(Approve, "", []), Screen(Reject, "", [])]
  }

  lemma HeadIs(ch: Choice, shown: Display)
    ensures Screens(UniformHead(ch), ch, shown) == HeadScreens(ch.mainnet, ch.delegation, shown)
  {
    var network, amount := Shows(!ch.mainnet, Network, "testnet", []),
                           Shows(!ch.delegation, Amount, "Amount", shown.numbers.amount);
    var a := [Topic] + When(!ch.mainnet, Network);
    var p := [Screen(Topic, "", [])] + network;
    var sides := [ScreenOf(Type, ch, shown), ScreenOf(From, ch, shown), ScreenOf(To, ch, shown)];
    ScreensWhen(!ch.mainnet, Network, ch, shown, "testnet", []);
    ScreensWhen(!ch.delegation, Amount, ch, shown, "Amount", shown.numbers.amount);
    ScreensAppend([Topic], When(!ch.mainnet, Network), ch, shown, [Screen(Topic, "", [])], network);
    ScreensAppend(a, [Type, From, To], ch, shown, p, sides);
    ScreensAppend(a + [Type, From, To], When(!ch.delegation, Amount), ch, shown, p + sides, amount);
    ScreensAppend(a + [Type, From, To] + When(!ch.delegation, Amount), [Fee], ch, shown, p + sides + amount,
                  [Screen(Fee, "Fee", shown.numbers.fee)]);
  }

  lemma TailIs(ch: Choice, shown: Display, head: seq<Step>, p: seq<Screen>)
    requires Screens(head, ch, shown) == p
    ensures Screens(head + When(!ch.delegation, Total) + [Nonce] + When(ch.validUntil, ValidUntil) + When(ch.memo, Memo)
                    + [Approve, Reject], ch, shown)
         == p + Shows(!ch.delegation, Total, "Total", shown.numbers.total)
            + [Screen(Nonce, "Nonce", shown.numbers.nonce)]
            + Shows(ch.validUntil, ValidUntil, "Valid until", shown.numbers.validUntil)
            + Shows(ch.memo, Memo, "Memo", shown.memo) + [Screen(Approve, "", []), Screen(Reject, "", [])]
  {
    var total, nonce := Shows(!ch.delegation, Total, "Total", shown.numbers.total),
                        [Screen(Nonce, "Nonce", shown.numbers.nonce)];
    var until, memo := Shows(ch.validUntil, ValidUntil, "Valid until", shown.numbers.validUntil),
                       Shows(ch.memo, Memo, "Memo", shown.memo);
    var a := head + When(!ch.delegation, Total);
    var b := a + [Nonce];
    var c := b + When(ch.validUntil, ValidUntil);
    var d := c + When(ch.memo, Memo);
    ScreensWhen(!ch.delegation, Total, ch, shown, "Total", shown.numbers.total);
    ScreensWhen(ch.validUntil, ValidUntil, ch, shown, "Valid until", shown.numbers.validUntil);
    ScreensWhen(ch.memo, Memo, ch, shown, "Memo", shown.memo);
    ScreensAppend(head, When(!ch.delegation, Total), ch, shown, p, total);
    ScreensAppend(a, [Nonce], ch, shown, p + total, nonce);
    ScreensAppend(b, When(ch.validUntil, ValidUntil), ch, shown, p + total + nonce, until);
    ScreensAppend(c, When(ch.memo, Memo), ch, shown, p + total + nonce + until, memo);
    ScreensAppend(d, [Approve, Reject], ch, shown, p + total + nonce + until + memo,
                  [Screen(Approve, "", []), Screen(Reject, "", [])]);
  }

  lemma UniformIs(ch: Choice, shown: Display)
    requires ch.memo <==> shown.memo != []
    ensures Screens(Uniform(ch), ch, shown) == AllScreens(ch.mainnet, ch.delegation, ch.validUntil, shown)
  {
    HeadIs(ch, shown);
    TailIs(ch, shown, UniformHead(ch), HeadScreens(ch.mainnet, ch.delegation, shown));
  }

  lemma ChoiceOfContent(d: packet, c: Content)
    requires c == ContentOf(d)
    ensures ChoiceOf(d) == Choice(c.networkId == 1, c.tag == 4, c.validUntil != 4294967295, MemoShown(d) != [])
  {
  }

  /** The screens of a packet, from its contents: `DisplayOfPacket` says what they show. */
  lemma ScreensOfPacket(c: Content)
    ensures ScreensOf(PacketOf(c))
         == AllScreens(c.networkId == 1, c.tag == 4, c.validUntil != 4294967295, DisplayOf(PacketOf(c)))
  {
    var d := PacketOf(c);
    ContentOfPacket(c);
    ChoiceOfContent(d, c);
    FlowIsUniform(ChoiceOf(d));
    UniformIs(ChoiceOf(d), DisplayOf(d));
  }
}
