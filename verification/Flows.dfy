/** The screens that `handle_sign_tx` selects for an accepted packet, and which packed fields they show. */
module Flows {
  import opened Positional
  import opened Decimal
  import opened Transactions
  import opened Addresses
  import opened Signing
  import opened ParseTx

  datatype Step =
    | Topic | Network | Type | From | To | Amount | Fee | Total | Nonce | ValidUntil | Memo | Approve | Reject

  // ---- the sixteen flows --------------------------------------------------------------

  const TESTNET_PAYMENT_0_0 :=
    [Topic, Network, Type, From, To, Amount, Fee, Total, Nonce, Approve, Reject]
  const TESTNET_PAYMENT_0_MEMO :=
    [Topic, Network, Type, From, To, Amount, Fee, Total, Nonce, Memo, Approve, Reject]
  const TESTNET_PAYMENT_VALID_UNTIL_0 :=
    [Topic, Network, Type, From, To, Amount, Fee, Total, Nonce, ValidUntil, Approve, Reject]
  const TESTNET_PAYMENT_VALID_UNTIL_MEMO :=
    [Topic, Network, Type, From, To, Amount, Fee, Total, Nonce, ValidUntil, Memo, Approve, Reject]
  const TESTNET_DELEGATION_0_0 :=
    [Topic, Network, Type, From, To, Fee, Nonce, Approve, Reject]
  const TESTNET_DELEGATION_0_MEMO :=
    [Topic, Network, Type, From, To, Fee, Nonce, Memo, Approve, Reject]
  const TESTNET_DELEGATION_VALID_UNTIL_0 :=
    [Topic, Network, Type, From, To, Fee, Nonce, ValidUntil, Approve, Reject]
  const TESTNET_DELEGATION_VALID_UNTIL_MEMO :=
    [Topic, Network, Type, From, To, Fee, Nonce, ValidUntil, Memo, Approve, Reject]
  const MAINNET_PAYMENT_0_0 :=
    [Topic, Type, From, To, Amount, Fee, Total, Nonce, Approve, Reject]
  const MAINNET_PAYMENT_0_MEMO :=
    [Topic, Type, From, To, Amount, Fee, Total, Nonce, Memo, Approve, Reject]
  const MAINNET_PAYMENT_VALID_UNTIL_0 :=
    [Topic, Type, From, To, Amount, Fee, Total, Nonce, ValidUntil, Approve, Reject]
  const MAINNET_PAYMENT_VALID_UNTIL_MEMO :=
    [Topic, Type, From, To, Amount, Fee, Total, Nonce, ValidUntil, Memo, Approve, Reject]
  const MAINNET_DELEGATION_0_0 :=
    [Topic, Type, From, To, Fee, Nonce, Approve, Reject]
  const MAINNET_DELEGATION_0_MEMO :=
    [Topic, Type, From, To, Fee, Nonce, Memo, Approve, Reject]
  const MAINNET_DELEGATION_VALID_UNTIL_0 :=
    [Topic, Type, From, To, Fee, Nonce, ValidUntil, Approve, Reject]
  const MAINNET_DELEGATION_VALID_UNTIL_MEMO :=
    [Topic, Type, From, To, Fee, Nonce, ValidUntil, Memo, Approve, Reject]

  /** Indexed by network, type, valid-until and memo, as nested rows. */
  const FLOWS: seq<seq<seq<seq<seq<Step>>>>> := [
    [
      [[TESTNET_PAYMENT_0_0, TESTNET_PAYMENT_0_MEMO],
       [TESTNET_PAYMENT_VALID_UNTIL_0, TESTNET_PAYMENT_VALID_UNTIL_MEMO]],
      [[TESTNET_DELEGATION_0_0, TESTNET_DELEGATION_0_MEMO],
       [TESTNET_DELEGATION_VALID_UNTIL_0, TESTNET_DELEGATION_VALID_UNTIL_MEMO]]
    ],
    [
      [[MAINNET_PAYMENT_0_0, MAINNET_PAYMENT_0_MEMO],
       [MAINNET_PAYMENT_VALID_UNTIL_0, MAINNET_PAYMENT_VALID_UNTIL_MEMO]],
      [[MAINNET_DELEGATION_0_0, MAINNET_DELEGATION_0_MEMO],
       [MAINNET_DELEGATION_VALID_UNTIL_0, MAINNET_DELEGATION_VALID_UNTIL_MEMO]]
    ]
  ]

  function Index(b: bool): (i: nat)
    ensures i < 2
  {
    if b then 1 else 0
  }

  lemma FlowsShape(n: nat, t: nat, v: nat)
    requires n < 2 && t < 2 && v < 2
    ensures |FLOWS| == 2 && |FLOWS[n]| == 2 && |FLOWS[n][t]| == 2 && |FLOWS[n][t][v]| == 2
  {
  }

  /** What the choice of a flow depends on. */
  datatype Choice = Choice(mainnet: bool, delegation: bool, validUntil: bool, memo: bool)

  function Flow(c: Choice): seq<Step> {
    FlowsShape(Index(c.mainnet), Index(c.delegation), Index(c.validUntil));
    FLOWS[Index(c.mainnet)][Index(c.delegation)][Index(c.validUntil)][Index(c.memo)]
  }

  /** An optional step. */
  function When(b: bool, step: Step): seq<Step> { if b then [step] else [] }

  function Uniform(c: Choice): seq<Step> {
    UniformHead(c) + When(!c.delegation, Total) + [Nonce] + When(c.validUntil, ValidUntil) + When(c.memo, Memo)
    + [Approve, Reject]
  }

  function UniformHead(c: Choice): seq<Step> {
    [Topic] + When(!c.mainnet, Network) + [Type, From, To] + When(!c.delegation, Amount) + [Fee]
  }

  lemma TestnetPayments(c: Choice)
    requires !c.mainnet && !c.delegation
    ensures Flow(c) == Uniform(c)
  {
  }

  lemma TestnetDelegations(c: Choice)
    requires !c.mainnet && c.delegation
    ensures Flow(c) == Uniform(c)
  {
  }

  lemma MainnetPayments(c: Choice)
    requires c.mainnet && !c.delegation
    ensures Flow(c) == Uniform(c)
  {
  }

  lemma MainnetDelegations(c: Choice)
    requires c.mainnet && c.delegation
    ensures Flow(c) == Uniform(c)
  {
  }

  /** The sixteen static flows are one flow with optional steps. */
  lemma FlowIsUniform(c: Choice)
    ensures Flow(c) == Uniform(c)
  {
    if c.mainnet {
      if c.delegation { MainnetDelegations(c); } else { MainnetPayments(c); }
    } else {
      if c.delegation { TestnetDelegations(c); } else { TestnetPayments(c); }
    }
  }

  predicate HasStep(step: Step, c: Choice) {
    match step
    case Network => !c.mainnet
    case Amount => !c.delegation
    case Total => !c.delegation
    case ValidUntil => c.validUntil
    case Memo => c.memo
    case _ => true
  }

  lemma InConcat(step: Step, a: seq<Step>, b: seq<Step>)
    ensures step in a + b <==> step in a || step in b
  {
  }

  lemma HeadSteps(step: Step, c: Choice)
    ensures step in UniformHead(c)
      <==> step in [Topic, Type, From, To, Fee] || (step == Network && !c.mainnet) || (step == Amount && !c.delegation)
  {
    var f1 := [Topic] + When(!c.mainnet, Network);
    var f2 := f1 + [Type, From, To];
    var f3 := f2 + When(!c.delegation, Amount);
    InConcat(step, [Topic], When(!c.mainnet, Network));
    InConcat(step, f1, [Type, From, To]);
    InConcat(step, f2, When(!c.delegation, Amount));
    InConcat(step, f3, [Fee]);
  }

  /** Which steps a flow has. */
  lemma FlowSteps(step: Step, c: Choice)
    ensures step in Flow(c) <==> HasStep(step, c)
  {
    FlowIsUniform(c);
    UniformSteps(step, c);
  }

  lemma UniformSteps(step: Step, c: Choice)
    ensures step in Uniform(c) <==> HasStep(step, c)
  {
    HeadSteps(step, c);
    var f4 := UniformHead(c);
    var f5 := f4 + When(!c.delegation, Total);
    var f6 := f5 + [Nonce];
    var f7 := f6 + When(c.validUntil, ValidUntil);
    var f8 := f7 + When(c.memo, Memo);
    InConcat(step, f4, When(!c.delegation, Total));
    InConcat(step, f5, [Nonce]);
    InConcat(step, f6, When(c.validUntil, ValidUntil));
    InConcat(step, f7, When(c.memo, Memo));
    InConcat(step, f8, [Approve, Reject]);
  }

  // ---- the screens --------------------------------------------------------------------

  datatype Screen = Screen(step: Step, title: string, text: seq<byte>)

  /** What a step shows. */
  function ScreenOf(step: Step, c: Choice, shown: Display): Screen {
    match step
    case Network => Screen(step, "testnet", [])
    case Type => Screen(step, if c.delegation then "Delegation" else "Payment", [])
    case From => Screen(step, if c.delegation then "Delegator" else "Sender", shown.from)
    case To => Screen(step, if c.delegation then "Delegate" else "Receiver", shown.to)
    case Amount => Screen(step, "Amount", shown.numbers.amount)
    case Fee => Screen(step, "Fee", shown.numbers.fee)
    case Total => Screen(step, "Total", shown.numbers.total)
    case Nonce => Screen(step, "Nonce", shown.numbers.nonce)
    case ValidUntil => Screen(step, "Valid until", shown.numbers.validUntil)
    case Memo => Screen(step, "Memo", shown.memo)
    case _ => Screen(step, "", [])
  }

  function Screens(flow: seq<Step>, c: Choice, shown: Display): (r: seq<Screen>)
    ensures |r| == |flow|
  {
    seq(|flow|, i requires 0 <= i < |flow| => ScreenOf(flow[i], c, shown))
  }

  /** The content that a choice shows agrees. */
  predicate SameContent(c: Choice, shown: Display, shown': Display) {
    && shown.from == shown'.from && shown.to == shown'.to
    && shown.numbers.fee == shown'.numbers.fee && shown.numbers.nonce == shown'.numbers.nonce
    && (!c.delegation ==> shown.numbers.amount == shown'.numbers.amount && shown.numbers.total == shown'.numbers.total)
    && (c.validUntil ==> shown.numbers.validUntil == shown'.numbers.validUntil)
    && (c.memo ==> shown.memo == shown'.memo)
  }

  /** Equal screens have equal steps, each with equal content. */
  lemma SameScreen(c: Choice, shown: Display, c': Choice, shown': Display, step: Step)
    requires Screens(Flow(c), c, shown) == Screens(Flow(c'), c', shown')
    ensures HasStep(step, c) <==> HasStep(step, c')
    ensures HasStep(step, c) ==> ScreenOf(step, c, shown) == ScreenOf(step, c', shown')
  {
    var flow, flow' := Flow(c), Flow(c');
    SameScreens(flow, c, shown, flow', c', shown');
    FlowSteps(step, c);
    FlowSteps(step, c');
  }

  lemma SameScreens(flow: seq<Step>, c: Choice, shown: Display, flow': seq<Step>, c': Choice, shown': Display)
    requires Screens(flow, c, shown) == Screens(flow', c', shown')
    ensures flow == flow'
    ensures forall step :: step in flow ==> ScreenOf(step, c, shown) == ScreenOf(step, c', shown')
  {
    forall i | 0 <= i < |flow|
      ensures flow[i] == flow'[i] && ScreenOf(flow[i], c, shown) == ScreenOf(flow[i], c', shown')
    {
      assert Screens(flow, c, shown)[i] == Screens(flow', c', shown')[i];
    }
  }

  /** Screens are equal exactly when the choices and the content they show are. */
  lemma ScreensAgree(c: Choice, shown: Display, c': Choice, shown': Display)
    ensures Screens(Flow(c), c, shown) == Screens(Flow(c'), c', shown') <==> c == c' && SameContent(c, shown, shown')
  {
    if Screens(Flow(c), c, shown) == Screens(Flow(c'), c', shown') {
      SameChoices(c, shown, c', shown');
      SameScreen(c, shown, c', shown', From);
      SameScreen(c, shown, c', shown', To);
      SameScreen(c, shown, c', shown', Fee);
      SameScreen(c, shown, c', shown', Nonce);
    }
    if c == c' && SameContent(c, shown, shown') {
      forall i | 0 <= i < |Flow(c)|
        ensures ScreenOf(Flow(c)[i], c, shown) == ScreenOf(Flow(c)[i], c, shown')
      {
        FlowSteps(Flow(c)[i], c);
      }
    }
  }

  lemma SameChoices(c: Choice, shown: Display, c': Choice, shown': Display)
    requires Screens(Flow(c), c, shown) == Screens(Flow(c'), c', shown')
    ensures c == c'
    ensures !c.delegation ==>
      shown.numbers.amount == shown'.numbers.amount && shown.numbers.total == shown'.numbers.total
    ensures c.validUntil ==> shown.numbers.validUntil == shown'.numbers.validUntil
    ensures c.memo ==> shown.memo == shown'.memo
  {
    SameScreen(c, shown, c', shown', Network);
    SameScreen(c, shown, c', shown', Amount);
    SameScreen(c, shown, c', shown', Total);
    SameScreen(c, shown, c', shown', ValidUntil);
    SameScreen(c, shown, c', shown', Memo);
  }

  // ---- the screens of a packet --------------------------------------------------------

  const NO_EXPIRY: uint32 := 0xffff_ffff

  predicate IsDelegation(d: packet) { d[170] == DELEGATION_TX }

  function ChoiceOf(d: packet): Choice {
    Choice(d[171] == MAINNET_ID, IsDelegation(d), ValidUntilField(d) != NO_EXPIRY, MemoShown(d) != [])
  }

  function ScreensOf(d: packet): seq<Screen> {
    Screens(Flow(ChoiceOf(d)), ChoiceOf(d), DisplayOf(d))
  }

  /** The fields of a packet that its screens show: for a delegation, not the amount. */
  predicate SameShownFields(d: packet, d': packet) {
    && d[170] == d'[170] && d[171] == d'[171] && FromAddress(d) == FromAddress(d') && ToAddress(d) == ToAddress(d')
    && FeeField(d) == FeeField(d') && NonceField(d) == NonceField(d') && ValidUntilField(d) == ValidUntilField(d')
    && MemoShown(d) == MemoShown(d') && (!IsDelegation(d) ==> AmountField(d) == AmountField(d'))
  }

  lemma SameAmountText(v: nat, w: nat)
    ensures AmountText(v) == AmountText(w) <==> v == w
  {
    ReadAmountText(v);
    ReadAmountText(w);
  }

  lemma SameValueText(v: nat, w: nat)
    ensures ValueText(v) == ValueText(w) <==> v == w
  {
    ReadValueText(v);
    ReadValueText(w);
  }

  /** Texts and fields agree together. */
  lemma ContentIsFields(d: packet, d': packet)
    requires ChoiceOf(d) == ChoiceOf(d')
    ensures SameContent(ChoiceOf(d), DisplayOf(d), DisplayOf(d'))
      <==> (&& FromAddress(d) == FromAddress(d') && ToAddress(d) == ToAddress(d') && FeeField(d) == FeeField(d')
            && NonceField(d) == NonceField(d') && ValidUntilField(d) == ValidUntilField(d')
            && MemoShown(d) == MemoShown(d') && (!IsDelegation(d) ==> AmountField(d) == AmountField(d')))
  {
    SameTerminated(FromAddress(d), FromAddress(d'));
    SameTerminated(ToAddress(d), ToAddress(d'));
    SameAmountText(AmountField(d), AmountField(d'));
    SameAmountText(FeeField(d), FeeField(d'));
    SameAmountText(TotalField(d), TotalField(d'));
    SameValueText(NonceField(d), NonceField(d'));
    SameValueText(ValidUntilField(d), ValidUntilField(d'));
  }

  /** Accepted packets have equal screens exactly when they agree on the shown fields. */
  lemma ScreensDetermine(d: packet, d': packet)
    requires AcceptsTail(d) && AcceptsTail(d')
    ensures ScreensOf(d) == ScreensOf(d') <==> SameShownFields(d, d')
  {
    ScreensAgree(ChoiceOf(d), DisplayOf(d), ChoiceOf(d'), DisplayOf(d'));
    if ChoiceOf(d) == ChoiceOf(d') {
      ContentIsFields(d, d');
    }
  }

  /** What is signed after equal screens: the same transaction, but for the amount of a delegation. */
  lemma ScreensDetermineTransaction(d: packet, d': packet, st: Stacks)
    requires AcceptsTail(d) && AcceptsTail(d') && ScreensOf(d) == ScreensOf(d')
    ensures TransactionOver(d', st) == TransactionOver(d, st).(amount := AmountField(d'))
    ensures !IsDelegation(d) ==> TransactionOver(d', st) == TransactionOver(d, st)
  {
    ScreensDetermine(d, d');
  }

  /** A packet with another amount. */
  function WithAmount(d: packet, v: uint64): packet { d[..114] + Bytes(v, 8) + d[122..] }

  lemma AmountReplaced(d: packet, v: uint64)
    ensures AmountField(WithAmount(d, v)) == v
    ensures SameShownFields(d, WithAmount(d, v)) <==> IsDelegation(d) || AmountField(d) == v
  {
    var d' := WithAmount(d, v);
    Powers();
    ValueOfBytes(v, 8);
    assert d'[114..122] == Bytes(v, 8);
    assert d'[4..59] == d[4..59] && d'[59..114] == d[59..114];
    assert d'[122..130] == d[122..130] && d'[130..134] == d[130..134] && d'[134..138] == d[134..138];
    assert d'[138..170] == d[138..170] && d'[170] == d[170] && d'[171] == d[171];
  }

  /** The amount of a delegation is packed and signed but not shown: any other amount has the same screens. */
  lemma DelegationHidesAmount(d: packet, v: uint64)
    requires d[170] == DELEGATION_TX && (d[171] == TESTNET_ID || d[171] == MAINNET_ID)
    ensures AmountField(WithAmount(d, v)) == v && ScreensOf(WithAmount(d, v)) == ScreensOf(d)
  {
    AmountReplaced(d, v);
    ScreensDetermine(d, WithAmount(d, v));
  }

  // ---- handle_sign_tx -----------------------------------------------------------------

  /** `handle_sign_tx`: an accepted packet runs the flow of its network, type, valid-until and memo; any
      other packet raises an error, here an empty flow. */
  method HandleSignTx(d: seq<byte>, tx: TxContext, ui: Ui, sha: Hash, st: Stacks) returns (flow: seq<Step>)
    requires |d| < 256 && ui.Valid()
    modifies tx, ui.Buffers()
    ensures flow == if |d| == TX_LENGTH && Accepts(sha, d, st) then Flow(ChoiceOf(d)) else []
    ensures flow != [] ==> ui.Displayed() == DisplayOf(d)
  {
    var ok := Parse(d, tx, ui, sha, st);
    if !ok {
      return [];
    }
    var nIdx, tIdx := tx.networkId == MAINNET_ID, tx.tag == DELEGATION_TX;
    var vIdx, mIdx := tx.tx.validUntil != NO_EXPIRY, ui.memo[0] != 0;
    flow := Flow(Choice(nIdx, tIdx, vIdx, mIdx));
  }
}
