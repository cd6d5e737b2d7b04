/** Decimal formatting of amounts (nine fractional digits) and plain values. */
module Decimal {
  import opened Positional

  const COIN := 1_000_000_000
  const UINT64 := 0x1_0000_0000_0000_0000
  const DOT: byte := 46
  const DIGIT_ZERO: byte := 48

  type digit = d: nat | d < 10

  // ---- digits -------------------------------------------------------------------

  /** The decimal digit of weight 10^i. */
  function DigitAt(v: nat, i: nat): digit {
    if i == 0 then v % 10 else DigitAt(v / 10, i - 1)
  }

  /** A number without its `i` low digits. */
  function Shifted(v: nat, i: nat): nat {
    if i == 0 then v else Shifted(v / 10, i - 1)
  }

  lemma {:induction false} ShiftedStep(v: nat, i: nat)
    ensures Shifted(v, i) % 10 == DigitAt(v, i) && Shifted(v, i) / 10 == Shifted(v, i + 1)
  {
    if i > 0 {
      ShiftedStep(v / 10, i - 1);
    }
  }

  lemma {:induction false} ShiftedAdd(v: nat, i: nat, k: nat)
    ensures Shifted(Shifted(v, i), k) == Shifted(v, i + k)
    ensures DigitAt(Shifted(v, i), k) == DigitAt(v, i + k)
  {
    if i > 0 {
      ShiftedAdd(v / 10, i - 1, k);
    }
  }

  /** The `n` low digits, most significant first. */
  function LowDigits(v: nat, n: nat): (ds: seq<digit>)
    ensures |ds| == n && forall j :: 0 <= j < n ==> ds[j] == DigitAt(v, n - 1 - j)
  {
    seq(n, j requires 0 <= j < n => DigitAt(v, n - 1 - j))
  }

  lemma {:induction false} LowDigitsValue(v: nat, n: nat)
    ensures v == Shifted(v, n) * Pow(10, n) + Value(10, LowDigits(v, n))
  {
    if n > 0 {
      var ds := LowDigits(v, n);
      LowDigitsValue(v / 10, n - 1);
      assert ds[..n - 1] == LowDigits(v / 10, n - 1);
      assert ds[n - 1] == v % 10;
      assert Pow(10, n) == 10 * Pow(10, n - 1);
      TimesTen(Shifted(v, n), Pow(10, n - 1));
    }
  }

  lemma TimesTen(a: nat, w: nat)
    ensures (a * w) * 10 == a * (10 * w)
  {
  }

  /** The digits of a number without leading zeros; a single zero for zero. */
  function DecimalDigits(v: nat): (ds: seq<digit>)
    ensures ds != []
  {
    if v < 10 then [v] else DecimalDigits(v / 10) + [v % 10]
  }

  lemma {:induction false} DecimalDigitsAre(v: nat)
    ensures var n := |DecimalDigits(v)|;
      && DecimalDigits(v) == LowDigits(v, n) && Shifted(v, n) == 0
      && forall k :: 0 < k < n ==> Shifted(v, k) > 0
    ensures Value(10, DecimalDigits(v)) == v
  {
    var n := |DecimalDigits(v)|;
    if v < 10 {
      assert Shifted(v, 1) == Shifted(v / 10, 0) == 0;
      assert DigitAt(v, 0) == v;
    } else {
      DecimalDigitsAre(v / 10);
      PrefixesPositive(v, n);
      AppendLowDigit(v, n - 1);
    }
    LowDigitsValue(v, n);
  }

  lemma PrefixesPositive(v: nat, n: nat)
    requires v >= 10 && forall k :: 0 < k < n - 1 ==> Shifted(v / 10, k) > 0
    ensures forall k :: 0 < k < n ==> Shifted(v, k) > 0
  {
    forall k | 0 < k < n
      ensures Shifted(v, k) > 0
    {
      assert Shifted(v, k) == Shifted(v / 10, k - 1);
      assert k == 1 ==> Shifted(v / 10, 0) == v / 10;
    }
  }

  lemma AppendLowDigit(v: nat, n: nat)
    ensures LowDigits(v, n + 1) == LowDigits(v / 10, n) + [v % 10]
  {
  }

  lemma {:induction false} DecimalLength(v: nat, n: nat)
    requires 0 < n && v < Pow(10, n)
    ensures |DecimalDigits(v)| <= n
  {
    if v >= 10 {
      assert Pow(10, n) == 10 * Pow(10, n - 1);
      assert Pow(10, 1) == 10;
      DecimalLength(v / 10, n - 1);
    }
  }

  /** Drops trailing zeros. */
  function StripTrailing(ds: seq<digit>): (r: seq<digit>)
    ensures |r| <= |ds| && r == ds[..|r|] && (r != [] ==> r[|r| - 1] != 0)
    ensures forall i :: |r| <= i < |ds| ==> ds[i] == 0
  {
    if ds == [] || ds[|ds| - 1] != 0 then ds else StripTrailing(ds[..|ds| - 1])
  }

  lemma StripTrailingUnique(ds: seq<digit>, n: nat)
    requires n <= |ds| && (forall i :: n <= i < |ds| ==> ds[i] == 0) && (n > 0 ==> ds[n - 1] != 0)
    ensures StripTrailing(ds) == ds[..n]
  {
    var k := |StripTrailing(ds)|;
    assert k > 0 ==> ds[k - 1] != 0;
    assert n > 0 ==> ds[n - 1] != 0;
  }

  // ---- specification of the texts ---------------------------------------------------

  function Ascii(ds: seq<digit>): (s: seq<byte>)
    ensures |s| == |ds| && forall i :: 0 <= i < |ds| ==> s[i] == DIGIT_ZERO + ds[i]
  {
    seq(|ds|, i requires 0 <= i < |ds| => DIGIT_ZERO + ds[i])
  }

  function ValueText(v: nat): seq<byte> { Ascii(DecimalDigits(v)) }

  /** The fraction keeps its first digit and drops all other trailing zeros. */
  function FractionDigits(amount: nat): (ds: seq<digit>)
    ensures 1 <= |ds| <= 9
    ensures |ds| > 1 ==> ds[|ds| - 1] != 0
  {
    [DigitAt(amount, 8)] + StripTrailing(LowDigits(amount, 8))
  }

  function WithPoint(whole: seq<digit>, fraction: seq<digit>): seq<byte> {
    Ascii(whole) + [DOT] + Ascii(fraction)
  }

  function AmountText(amount: nat): seq<byte> {
    WithPoint(DecimalDigits(Shifted(amount, 9)), FractionDigits(amount))
  }

  // ---- reading the texts back --------------------------------------------------------

  /** A character of "0123456789". */
  predicate IsNumeral(c: byte) { '0' as int <= c <= '9' as int }

  lemma NumeralIs(d: digit, c: byte)
    requires c == "0123456789"[d] as int
    ensures IsNumeral(c) && c - '0' as int == d
  {
    NumeralCharacter(d);
  }

  lemma NumeralCharacter(d: digit)
    ensures "0123456789"[d] as int == '0' as int + d
  {
    assert d == 0 || d == 1 || d == 2 || d == 3 || d == 4 || d == 5 || d == 6 || d == 7 || d == 8 || d == 9;
  }

  /** The formatters write the characters of "0123456789". */
  lemma AsciiIsNumerals(ds: seq<digit>)
    ensures forall i :: 0 <= i < |ds| ==> Ascii(ds)[i] == "0123456789"[ds[i]] as int
  {
    forall i | 0 <= i < |ds|
      ensures Ascii(ds)[i] == "0123456789"[ds[i]] as int
    {
      NumeralCharacter(ds[i]);
    }
  }

  function NumeralValue(c: byte): digit
    requires IsNumeral(c)
  {
    c - '0' as int
  }

  function FromNumerals(s: seq<byte>): (ds: seq<digit>)
    requires forall i :: 0 <= i < |s| ==> IsNumeral(s[i])
    ensures |ds| == |s| && forall i :: 0 <= i < |s| ==> ds[i] == s[i] - '0' as int
  {
    seq(|s|, i requires 0 <= i < |s| => NumeralValue(s[i]))
  }

  /** The number a string of numerals denotes. */
  function ReadValue(s: seq<byte>): nat {
    if forall i :: 0 <= i < |s| ==> IsNumeral(s[i]) then Value(10, FromNumerals(s)) else 0
  }

  function DotIndex(s: seq<byte>): (n: nat)
    ensures n <= |s|
  {
    if s == [] || s[0] == '.' as int then 0 else 1 + DotIndex(s[1..])
  }

  /** The number of nano units a decimal amount denotes. */
  function ReadAmount(s: seq<byte>): nat {
    var n := DotIndex(s);
    ReadValue(s[..n]) * 1_000_000_000 + ReadFraction(if n < |s| then s[n + 1..] else [])
  }

  /** The nano units of up to nine fractional digits. */
  function ReadFraction(s: seq<byte>): nat {
    if |s| <= 9 then Scaled(ReadValue(s), Pow(10, 9 - |s|)) else 0
  }

  function Scaled(v: nat, w: nat): nat { v * w }

  lemma ReadAscii(ds: seq<digit>)
    ensures ReadValue(Ascii(ds)) == Value(10, ds)
  {
    AsciiIsNumerals(ds);
    forall i | 0 <= i < |ds|
      ensures IsNumeral(Ascii(ds)[i]) && Ascii(ds)[i] - '0' as int == ds[i]
    {
      NumeralIs(ds[i], Ascii(ds)[i]);
    }
    assert FromNumerals(Ascii(ds)) == ds;
  }

  lemma {:induction false} DotIndexOf(s: seq<byte>, n: nat)
    requires n < |s| && s[n] == '.' as int && forall i :: 0 <= i < n ==> s[i] != '.' as int
    ensures DotIndex(s) == n
  {
    if n > 0 {
      DotIndexOf(s[1..], n - 1);
    }
  }

  lemma {:induction false} TrailingZeros(ds: seq<nat>, n: nat)
    requires n <= |ds| && forall i :: n <= i < |ds| ==> ds[i] == 0
    ensures Value(10, ds) == Value(10, ds[..n]) * Pow(10, |ds| - n)
  {
    if n < |ds| {
      var k := |ds| - 1;
      TrailingZeros(ds[..k], n);
      assert ds[..k][..n] == ds[..n];
      var v, w := Value(10, ds[..n]), Pow(10, k - n);
      TimesTen(v, w);
    } else {
      assert ds[..n] == ds;
    }
  }

  /** Reading a formatted value gives the number back. */
  lemma ReadValueText(v: nat)
    ensures ReadValue(ValueText(v)) == v
  {
    DecimalDigitsAre(v);
    ReadAscii(DecimalDigits(v));
  }

  lemma FractionValue(amount: nat)
    ensures Scaled(Value(10, FractionDigits(amount)), Pow(10, 9 - |FractionDigits(amount)|))
         == Value(10, LowDigits(amount, 9))
  {
    var low, ds := LowDigits(amount, 8), FractionDigits(amount);
    var all := [DigitAt(amount, 8)] + low;
    assert LowDigits(amount, 9) == all;
    assert forall i :: |ds| <= i < 9 ==> all[i] == low[i - 1];
    assert all[..|ds|] == ds;
    TrailingZeros(all, |ds|);
  }

  /** Reading a formatted amount gives the number back. */
  lemma ReadAmountText(amount: nat)
    ensures ReadAmount(AmountText(amount)) == amount
  {
    var whole, fraction := ValueText(Shifted(amount, 9)), Ascii(FractionDigits(amount));
    var s := AmountText(amount);
    DotIndexOf(s, |whole|);
    assert s[..|whole|] == whole && s[|whole| + 1..] == fraction;
    ReadValueText(Shifted(amount, 9));
    ReadAscii(FractionDigits(amount));
    FractionValue(amount);
    LowDigitsValue(amount, 9);
    PowNine();
  }

  lemma PowNine()
    ensures Pow(10, 9) == COIN
  {
    assert Pow(10, 3) == 1000;
    PowAdd(10, 3, 3);
    PowAdd(10, 6, 3);
  }

  // ---- the texts are the only canonical ones ------------------------------------------

  /** Numerals without superfluous leading zeros. */
  predicate IsValueText(s: seq<byte>) {
    s != [] && (forall i :: 0 <= i < |s| ==> IsNumeral(s[i])) && (|s| > 1 ==> s[0] != '0' as int)
  }

  lemma {:induction false} LeadingPositive(ds: seq<nat>)
    requires ds != [] && ds[0] > 0
    ensures Value(10, ds) > 0
  {
    if |ds| > 1 {
      LeadingPositive(ds[..|ds| - 1]);
    }
  }

  lemma DigitCarry(v: nat, w: nat, d: nat)
    requires v == w * 10 + d && d < 10
    ensures v / 10 == w && v % 10 == d
  {
  }

  /** Digits without leading zeros are those of their value. */
  lemma {:induction false} OnlyDigits(ds: seq<digit>)
    requires ds != [] && (|ds| > 1 ==> ds[0] > 0)
    ensures DecimalDigits(Value(10, ds)) == ds
  {
    var n := |ds| - 1;
    if n == 0 {
      assert Value(10, ds) == ds[0];
    } else {
      assert ds == ds[..n] + [ds[n]];
      LeadingPositive(ds[..n]);
      DigitCarry(Value(10, ds), Value(10, ds[..n]), ds[n]);
      OnlyDigits(ds[..n]);
    }
  }

  lemma LeadingDigit(v: nat)
    ensures |DecimalDigits(v)| > 1 ==> DecimalDigits(v)[0] > 0
  {
    DecimalDigitsAre(v);
    var n := |DecimalDigits(v)|;
    if n > 1 {
      ShiftedStep(v, n - 1);
      assert Shifted(v, n - 1) > 0 && Shifted(v, n) == 0;
    }
  }

  lemma NumeralsAreAscii(s: seq<byte>)
    requires forall i :: 0 <= i < |s| ==> IsNumeral(s[i])
    ensures Ascii(FromNumerals(s)) == s
  {
  }

  lemma AsciiForm(ds: seq<digit>)
    ensures forall i :: 0 <= i < |ds| ==> IsNumeral(Ascii(ds)[i]) && (Ascii(ds)[i] == '0' as int <==> ds[i] == 0)
  {
  }

  /** A formatted value is the only canonical text of its number. */
  lemma ValueTextIsCanonical(s: seq<byte>, v: nat)
    ensures s == ValueText(v) <==> IsValueText(s) && ReadValue(s) == v
  {
    ReadValueText(v);
    LeadingDigit(v);
    AsciiForm(DecimalDigits(v));
    if IsValueText(s) && ReadValue(s) == v {
      NumeralsAreAscii(s);
      OnlyDigits(FromNumerals(s));
    }
  }

  /** A value, a dot, and one to nine numerals, of which only the first may be a final zero. */
  predicate IsAmountText(s: seq<byte>) {
    var n := DotIndex(s);
    && n + 2 <= |s| <= n + 10 && IsValueText(s[..n])
    && (forall i :: n < i < |s| ==> IsNumeral(s[i])) && (|s| > n + 2 ==> s[|s| - 1] != '0' as int)
  }

  lemma DotAtIndex(s: seq<byte>)
    requires DotIndex(s) < |s|
    ensures s[DotIndex(s)] == '.' as int
  {
  }

  lemma AmountTextForm(amount: nat)
    ensures IsAmountText(AmountText(amount))
  {
    var whole, fraction := ValueText(Shifted(amount, 9)), Ascii(FractionDigits(amount));
    var s := AmountText(amount);
    ValueTextIsCanonical(whole, Shifted(amount, 9));
    AsciiForm(FractionDigits(amount));
    DotIndexOf(s, |whole|);
    assert s[..|whole|] == whole && s[|whole| + 1..] == fraction;
    forall i | |whole| < i < |s|
      ensures s[i] == fraction[i - |whole| - 1]
    {
    }
  }

  lemma PaddedValue(fs: seq<digit>, all: seq<digit>)
    requires |fs| <= |all| && all[..|fs|] == fs && forall i :: |fs| <= i < |all| ==> all[i] == 0
    ensures Value(10, all) == Scaled(Value(10, fs), Pow(10, |all| - |fs|))
  {
    TrailingZeros(all, |fs|);
  }

  lemma NineDigits(amount: nat, all: seq<digit>)
    requires |all| == 9 && Value(10, all) == Value(10, LowDigits(amount, 9))
    ensures DigitAt(amount, 8) == all[0] && LowDigits(amount, 8) == all[1..]
  {
    DigitsOfValue(10, all);
    DigitsOfValue(10, LowDigits(amount, 9));
    assert LowDigits(amount, 9) == all;
    PrependDigit(amount, 8);
  }

  lemma StripPadding(fs: seq<digit>, all: seq<digit>)
    requires 1 <= |fs| <= |all| && all[..|fs|] == fs && forall i :: |fs| <= i < |all| ==> all[i] == 0
    requires |fs| > 1 ==> fs[|fs| - 1] > 0
    ensures [all[0]] + StripTrailing(all[1..]) == fs
  {
    var low := all[1..];
    assert forall i :: 0 <= i < |low| ==> low[i] == all[i + 1];
    StripTrailingUnique(low, |fs| - 1);
  }

  /** Fraction digits without superfluous zeros are those of the amount they belong to. */
  lemma OnlyFraction(amount: nat, fs: seq<digit>)
    requires 1 <= |fs| <= 9 && (|fs| > 1 ==> fs[|fs| - 1] > 0)
    requires Scaled(Value(10, fs), Pow(10, 9 - |fs|)) == Value(10, LowDigits(amount, 9))
    ensures FractionDigits(amount) == fs
  {
    var all: seq<digit> := fs + seq(9 - |fs|, i => 0);
    PaddedValue(fs, all);
    NineDigits(amount, all);
    StripPadding(fs, all);
  }

  lemma SplitAmount(amount: nat, w: nat, f: nat)
    requires amount == w * COIN + f && f < COIN
    ensures Shifted(amount, 9) == w && Value(10, LowDigits(amount, 9)) == f
  {
    ShiftedNine(amount);
    LowDigitsValue(amount, 9);
    PowNine();
  }

  lemma FractionBound(fs: seq<digit>)
    requires |fs| <= 9
    ensures Scaled(Value(10, fs), Pow(10, 9 - |fs|)) < COIN
  {
    ValueBound(10, fs);
    PowAdd(10, |fs|, 9 - |fs|);
    PowPositive(10, 9 - |fs|);
    PowNine();
    BelowProduct(Value(10, fs), Pow(10, |fs|), Pow(10, 9 - |fs|));
  }

  lemma BelowProduct(v: nat, w: nat, k: nat)
    requires v < w && k > 0
    ensures v * k < w * k
  {
  }

  /** A formatted amount is the only canonical text of its number. */
  lemma AmountTextIsCanonical(s: seq<byte>, amount: nat)
    ensures s == AmountText(amount) <==> IsAmountText(s) && ReadAmount(s) == amount
  {
    ReadAmountText(amount);
    AmountTextForm(amount);
    if IsAmountText(s) && ReadAmount(s) == amount {
      OnlyAmount(s, amount);
    }
  }

  lemma OnlyAmount(s: seq<byte>, amount: nat)
    requires IsAmountText(s) && ReadAmount(s) == amount
    ensures s == AmountText(amount)
  {
    var n := DotIndex(s);
    AroundDot(s, n, s[..n], s[n + 1..]);
    FromParts(s[..n], s[n + 1..], amount);
  }

  lemma AroundDot(s: seq<byte>, n: nat, whole: seq<byte>, fraction: seq<byte>)
    requires IsAmountText(s) && n == DotIndex(s) && whole == s[..n] && fraction == s[n + 1..]
    ensures s == whole + [DOT] + fraction && IsValueText(whole) && 1 <= |fraction| <= 9
    ensures forall i :: 0 <= i < |fraction| ==> IsNumeral(fraction[i])
    ensures |fraction| > 1 ==> fraction[|fraction| - 1] != '0' as int
  {
    DotAtIndex(s);
  }

  lemma FromParts(whole: seq<byte>, fraction: seq<byte>, amount: nat)
    requires IsValueText(whole) && 1 <= |fraction| <= 9 && forall i :: 0 <= i < |fraction| ==> IsNumeral(fraction[i])
    requires |fraction| > 1 ==> fraction[|fraction| - 1] != '0' as int
    requires amount == ReadValue(whole) * COIN + ReadFraction(fraction)
    ensures AmountText(amount) == whole + [DOT] + fraction
  {
    var fs := FromNumerals(fraction);
    FractionBound(fs);
    SplitAmount(amount, ReadValue(whole), ReadFraction(fraction));
    ValueTextIsCanonical(whole, ReadValue(whole));
    OnlyFraction(amount, fs);
    NumeralsAreAscii(fraction);
  }

  /** Every 64-bit amount and its terminator fit 22 bytes. */
  lemma AmountTextLength(amount: nat)
    requires amount < UINT64
    ensures |AmountText(amount)| <= 21
  {
    LowDigitsValue(amount, 9);
    PowNine();
    PowAdd(10, 9, 2);
    assert Pow(10, 2) == 100;
    DecimalLength(Shifted(amount, 9), 11);
  }

  lemma ValueTextLength(v: nat)
    requires v < UINT64
    ensures |ValueText(v)| <= 20
  {
    assert Pow(10, 5) == 100000;
    PowAdd(10, 5, 5);
    PowAdd(10, 10, 10);
    DecimalLength(v, 20);
  }

  lemma ShiftedNine(v: nat)
    ensures Shifted(v, 9) == v / COIN
  {
    LowDigitsValue(v, 9);
    ValueBound(10, LowDigits(v, 9));
    PowNine();
  }

  // ---- the formatters ------------------------------------------------------------------

  method CountDigits(value: nat) returns (digits: nat)
    ensures digits == |DecimalDigits(value)|
  {
    digits := 0;
    var val := value;
    DecimalDigitsAre(value);
    while val > 0
      invariant val == Shifted(value, digits) && digits <= |DecimalDigits(value)|
    {
      ShiftedStep(value, digits);
      digits := digits + 1;
      val := val / 10;
    }
    digits := if digits > 0 then digits else 1;
  }

  /** The text after `i` rounds of the amount loop, written from the end of the buffer. */
  ghost function Progress(amount: nat, i: nat): seq<byte> {
    if i <= 8 then Ascii(StripTrailing(LowDigits(amount, i)))
    else if i == 9 then Ascii(FractionDigits(amount))
    else WithPoint(LowDigits(Shifted(amount, 9), i - 10), FractionDigits(amount))
  }

  /** The digit written in round `i`, which skips one round for the dot. */
  ghost function RoundDigit(amount: nat, i: nat): digit {
    if i < 9 then DigitAt(amount, i) else DigitAt(Shifted(amount, 9), if i < 10 then 0 else i - 10)
  }

  lemma PrependDigit(v: nat, i: nat)
    ensures LowDigits(v, i + 1) == [DigitAt(v, i)] + LowDigits(v, i)
  {
  }

  lemma StripPrepend(d: digit, ds: seq<digit>)
    ensures StripTrailing([d] + ds)
         == if d == 0 && StripTrailing(ds) == [] then [] else [d] + StripTrailing(ds)
  {
    var all, n := [d] + ds, |StripTrailing(ds)|;
    if d == 0 && n == 0 {
      StripTrailingUnique(all, 0);
    } else {
      assert forall i :: n + 1 <= i < |all| ==> all[i] == ds[i - 1];
      assert n > 0 ==> all[n] == StripTrailing(ds)[n - 1];
      StripTrailingUnique(all, n + 1);
      assert all[..n + 1] == [d] + ds[..n];
    }
  }

  lemma AsciiPrepend(d: digit, ds: seq<digit>)
    ensures Ascii([d] + ds) == [DIGIT_ZERO + d] + Ascii(ds)
  {
  }

  /** What one round does with its digit. */
  ghost function RoundText(i: nat, d: digit, shown: bool): seq<byte> {
    if i == 9 then [DOT] else if i > 7 || d != 0 || shown then [DIGIT_ZERO + d] else []
  }

  lemma LowStep(amount: nat, i: nat)
    requires i < 8
    ensures Progress(amount, i + 1)
         == RoundText(i, DigitAt(amount, i), Progress(amount, i) != []) + Progress(amount, i)
  {
    PrependDigit(amount, i);
    StripStep(DigitAt(amount, i), LowDigits(amount, i), i);
  }

  lemma StripStep(d: digit, ds: seq<digit>, i: nat)
    requires i < 8
    ensures var text := Ascii(StripTrailing(ds));
      Ascii(StripTrailing([d] + ds)) == RoundText(i, d, text != []) + text
  {
    StripPrepend(d, ds);
    AsciiPrepend(d, StripTrailing(ds));
    if d == 0 && StripTrailing(ds) == [] {
      assert Ascii([]) == [];
    }
  }

  lemma FirstFractionStep(amount: nat)
    ensures Progress(amount, 9) == [DIGIT_ZERO + DigitAt(amount, 8)] + Progress(amount, 8)
  {
    var d, low := DigitAt(amount, 8), StripTrailing(LowDigits(amount, 8));
    assert FractionDigits(amount) == [d] + low;
    AsciiPrepend(d, low);
  }

  lemma HighProgress(amount: nat, i: nat, j: nat)
    requires i == 10 + j
    ensures Progress(amount, i) == WithPoint(LowDigits(Shifted(amount, 9), j), FractionDigits(amount))
  {
  }

  lemma HighRound(amount: nat, i: nat, j: nat)
    requires i == 10 + j
    ensures forall shown :: RoundText(i, RoundDigit(amount, i), shown) == [DIGIT_ZERO + DigitAt(Shifted(amount, 9), j)]
  {
  }

  lemma WholeStep(v: nat, j: nat, fraction: seq<digit>)
    ensures WithPoint(LowDigits(v, j + 1), fraction)
         == [DIGIT_ZERO + DigitAt(v, j)] + WithPoint(LowDigits(v, j), fraction)
  {
    PrependDigit(v, j);
    PrependToWhole(DigitAt(v, j), LowDigits(v, j), fraction);
  }

  lemma HighStep(amount: nat, i: nat, j: nat)
    requires i == 10 + j
    ensures Progress(amount, i + 1)
         == RoundText(i, RoundDigit(amount, i), Progress(amount, i) != []) + Progress(amount, i)
  {
    HighProgress(amount, i, j);
    HighProgress(amount, i + 1, j + 1);
    HighRound(amount, i, j);
    WholeStep(Shifted(amount, 9), j, FractionDigits(amount));
  }

  lemma DotStep(amount: nat)
    ensures Progress(amount, 10) == [DOT] + Progress(amount, 9)
  {
    HighProgress(amount, 10, 0);
    assert Ascii(LowDigits(Shifted(amount, 9), 0)) == [];
  }

  lemma PrependToWhole(d: digit, whole: seq<digit>, fraction: seq<digit>)
    ensures WithPoint([d] + whole, fraction) == [DIGIT_ZERO + d] + WithPoint(whole, fraction)
  {
    AsciiPrepend(d, whole);
    ConcatAssociative([DIGIT_ZERO + d], Ascii(whole), [DOT]);
    ConcatAssociative([DIGIT_ZERO + d], Ascii(whole) + [DOT], Ascii(fraction));
  }

  /** One round of the amount loop prepends its digit, the dot, or nothing. */
  lemma ProgressStep(amount: nat, i: nat)
    ensures Progress(amount, i + 1)
         == RoundText(i, RoundDigit(amount, i), Progress(amount, i) != []) + Progress(amount, i)
  {
    if i < 8 {
      LowStep(amount, i);
    } else if i == 8 {
      FirstFractionStep(amount);
    } else if i == 9 {
      DotStep(amount);
    } else {
      HighStep(amount, i, i - 10);
    }
  }

  /** The loop's last round, and how long the text is at every round before it. */
  lemma ProgressLength(amount: nat, i: nat)
    ensures var n := |DecimalDigits(Shifted(amount, 9))|;
      && Progress(amount, 10 + n) == AmountText(amount)
      && (i <= 10 + n ==> |Progress(amount, i)| <= |AmountText(amount)|)
  {
    DecimalDigitsAre(Shifted(amount, 9));
    if i <= 8 {
      var low, all := LowDigits(amount, i), LowDigits(amount, 8);
      assert all[8 - i..] == low;
      StripSuffix(all, 8 - i);
    }
  }

  lemma StripSuffix(all: seq<digit>, k: nat)
    requires k <= |all|
    ensures |StripTrailing(all[k..])| <= |StripTrailing(all)| || StripTrailing(all[k..]) == []
  {
    var low := all[k..];
    var n := |StripTrailing(low)|;
    if n > 0 {
      StripLast(low);
      assert low[n - 1] == all[k + (n - 1)];
      StripKeeps(all, k + (n - 1));
    }
  }

  lemma StripLast(ds: seq<digit>)
    requires StripTrailing(ds) != []
    ensures ds[|StripTrailing(ds)| - 1] != 0
  {
  }

  lemma StripKeeps(ds: seq<digit>, k: nat)
    requires k < |ds| && ds[k] != 0
    ensures k < |StripTrailing(ds)|
  {
  }

  /** The first loop of `amount_to_string`: the length of the displayed fraction. */
  method MantissaLength(amount: nat) returns (mantissaLen: nat)
    ensures mantissaLen == |FractionDigits(amount)|
  {
    mantissaLen := 1;
    var value, len := amount, 9;
    ghost var low := LowDigits(amount, 8);
    while value > 0 && len > 0
      invariant 0 <= len <= 9 && value == Shifted(amount, 9 - len) && mantissaLen == 1
      invariant forall j :: 0 <= j < 9 - len ==> DigitAt(amount, j) == 0
    {
      ShiftedStep(amount, 9 - len);
      if value % 10 != 0 {
        mantissaLen := len;
        StripTrailingUnique(low, len - 1);
        return;
      }
      value, len := value / 10, len - 1;
    }
    forall j | 0 <= j < 8
      ensures low[j] == 0
    {
      HighDigitsZero(amount, 9 - len, 7 - j);
    }
    StripTrailingUnique(low, 0);
  }

  lemma HighDigitsZero(amount: nat, i: nat, j: nat)
    requires Shifted(amount, i) == 0 || j < i
    requires forall k :: 0 <= k < i ==> DigitAt(amount, k) == 0
    ensures DigitAt(amount, j) == 0
  {
    if j >= i {
      ShiftedAdd(amount, i, j - i);
      ZeroDigits(j - i);
    }
  }

  lemma {:induction false} ZeroDigits(i: nat)
    ensures DigitAt(0, i) == 0
  {
    if i > 0 {
      ZeroDigits(i - 1);
    }
  }

  /** `*(--end) = c`. */
  method PutBefore(buf: array<byte>, end: nat, c: byte) returns (end': nat)
    requires 0 < end <= buf.Length
    modifies buf
    ensures end' == end - 1 && buf[end'..] == [c] + old(buf[end..])
  {
    end' := end - 1;
    buf[end'] := c;
  }

  /** One round of that loop: the dot, a digit, or nothing for a trailing zero. */
  method WriteRound(buf: array<byte>, end: nat, i: nat, rest: nat, shown: bool)
    returns (end': nat, rest': nat, showDigit: bool)
    requires |RoundText(i, rest % 10, shown)| <= end <= buf.Length
    modifies buf
    ensures end' == end - |RoundText(i, rest % 10, shown)|
    ensures buf[end'..] == RoundText(i, rest % 10, shown) + old(buf[end..])
    ensures rest' == if i == 9 then rest else rest / 10
    ensures i != 9 ==> (showDigit <==> shown || RoundText(i, rest % 10, shown) != [])
  {
    end', rest', showDigit := end, rest, shown;
    if i == 9 {
      end' := PutBefore(buf, end', DOT);
    } else {
      var d := rest' % 10;
      if i > 7 || (d != 0 && i < 8) || showDigit {
        end' := PutBefore(buf, end', DIGIT_ZERO + d);
        showDigit := true;
      }
      rest' := rest' / 10;
    }
  }

  /** The loop of `amount_to_string` that fills the buffer backwards, ending on its first byte. */
  method WriteAmount(buf: array<byte>, last: nat, amount: nat)
    requires last == |AmountText(amount)| < buf.Length
    modifies buf
    ensures buf[..] == AmountText(amount) + old(buf[last..])
  {
    var end, showDigit := last, false;
    var i, rest := 0, amount;
    ghost var tail := buf[last..];
    AmountDone(amount, 0);
    while rest > 0 || i < 11
      invariant i <= Rounds(amount) && rest == Rest(amount, i)
      invariant i <= 8 ==> (showDigit <==> Progress(amount, i) != [])
      invariant end == last - |Progress(amount, i)| >= 0
      invariant buf[end..] == Progress(amount, i) + tail
      decreases Rounds(amount) - i
    {
      ghost var piece := AmountStep(amount, i, rest, tail);
      end, rest, showDigit := WriteRound(buf, end, i, rest, showDigit);
      i := i + 1;
    }
    AmountDone(amount, i);
    assert buf[0..] == buf[..];
  }

  lemma AmountStep(amount: nat, i: nat, rest: nat, tail: seq<byte>) returns (piece: seq<byte>)
    requires i <= Rounds(amount) && rest == Rest(amount, i)
    requires rest > 0 || i < 11
    ensures i < Rounds(amount)
    ensures piece == RoundText(i, rest % 10, Progress(amount, i) != [])
    ensures Progress(amount, i + 1) == piece + Progress(amount, i)
    ensures Progress(amount, i + 1) + tail == piece + (Progress(amount, i) + tail)
    ensures |piece| + |Progress(amount, i)| <= |AmountText(amount)|
    ensures Rest(amount, i + 1) == if i == 9 then rest else rest / 10
  {
    piece := RoundText(i, rest % 10, Progress(amount, i) != []);
    ProgressStep(amount, i);
    RoundInput(amount, i);
    AmountDone(amount, i);
    AmountDone(amount, i + 1);
    ConcatAssociative(piece, Progress(amount, i), tail);
  }

  /** The number of rounds: eleven, and one for each further digit. */
  ghost function Rounds(amount: nat): nat { 10 + |DecimalDigits(Shifted(amount, 9))| }

  /** What is left of the amount before round `i`. */
  ghost function Rest(amount: nat, i: nat): nat { Shifted(amount, if i <= 9 then i else i - 1) }

  lemma AmountDone(amount: nat, i: nat)
    ensures i <= Rounds(amount) ==> |Progress(amount, i)| <= |AmountText(amount)|
    ensures Progress(amount, Rounds(amount)) == AmountText(amount)
    ensures Progress(amount, 0) == []
    ensures 11 <= i <= Rounds(amount) ==> (Rest(amount, i) == 0 <==> i == Rounds(amount))
    ensures 11 <= Rounds(amount)
  {
    ProgressLength(amount, i);
    if 11 <= i <= Rounds(amount) {
      RestEnds(amount, i);
    }
  }

  lemma RestEnds(amount: nat, i: nat)
    requires 11 <= i <= Rounds(amount)
    ensures Rest(amount, i) == 0 <==> i == Rounds(amount)
  {
    ShiftedAdd(amount, 9, i - 10);
    DecimalDigitsAre(Shifted(amount, 9));
  }

  lemma RoundInput(amount: nat, i: nat)
    ensures i != 9 ==> Rest(amount, i) % 10 == RoundDigit(amount, i)
    ensures Rest(amount, i + 1) == if i == 9 then Rest(amount, i) else Rest(amount, i) / 10
  {
    ShiftedStep(amount, if i <= 9 then i else i - 1);
    if i >= 10 {
      ShiftedAdd(amount, 9, i - 10);
    }
  }

  /** `*end = '\0'` */
  method Terminate(buf: array<byte>, end: nat)
    requires end < buf.Length
    modifies buf
    ensures buf[end..] == [0] + old(buf[end + 1..])
  {
    buf[end] := 0;
  }

  /** `amount_to_string`: the whole text and its terminator, or an empty string if they do not fit. */
  method AmountToString(buf: array<byte>, len: nat, amount: nat)
    requires 0 < len <= buf.Length && amount < UINT64
    modifies buf
    ensures var t := AmountText(amount);
      buf[..] == if |t| + 1 <= len then t + [0] + old(buf[|t| + 1..]) else [0] + old(buf[1..])
  {
    ghost var text := AmountText(amount);
    var mantissaLen := MantissaLength(amount);
    ShiftedNine(amount);
    var characteristicLen := CountDigits(amount / COIN);
    var totalLen := characteristicLen + 1 + mantissaLen + 1;
    assert totalLen == |text| + 1;
    if totalLen > len {
      buf[0] := 0;
      return;
    }
    ghost var rest := buf[totalLen..];
    Terminate(buf, totalLen - 1);
    WriteAmount(buf, totalLen - 1, amount);
    ConcatAssociative(text, [0], rest);
  }

  /** `value_to_string`: true when the text and its terminator fit (NULL otherwise). */
  method ValueToString(buf: array<byte>, len: nat, value: nat) returns (ok: bool)
    requires len <= buf.Length && value < UINT64
    modifies buf
    ensures var t := ValueText(value);
      && (ok <==> |t| + 1 <= len)
      && buf[..] == if ok then t + [0] + old(buf[|t| + 1..]) else old(buf[..])
  {
    var digits := CountDigits(value);
    var totalLen := digits + 1;
    if totalLen > len {
      return false;
    }
    ghost var rest := buf[totalLen..];
    Terminate(buf, totalLen - 1);
    WriteDigits(buf, totalLen - 1, value);
    ConcatAssociative(ValueText(value), [0], rest);
    return true;
  }

  lemma ValueStep(value: nat, i: nat, rest: nat)
    requires rest == Shifted(value, i)
    ensures Ascii(LowDigits(value, i + 1)) == [DIGIT_ZERO + rest % 10] + Ascii(LowDigits(value, i))
    ensures Shifted(value, i + 1) == rest / 10
  {
    ShiftedStep(value, i);
    PrependDigit(value, i);
    AsciiPrepend(DigitAt(value, i), LowDigits(value, i));
  }

  lemma ValueDone(value: nat, i: nat)
    requires i <= |DecimalDigits(value)|
    ensures i == |DecimalDigits(value)| ==> Ascii(LowDigits(value, i)) == ValueText(value)
    ensures i > 0 ==> (Shifted(value, i) == 0 <==> i == |DecimalDigits(value)|)
  {
    DecimalDigitsAre(value);
  }

  /** One round of that loop. */
  method DigitRound(buf: array<byte>, end: nat, rest: nat, ghost value: nat, ghost i: nat, ghost tail: seq<byte>)
    returns (end': nat, rest': nat)
    requires 0 < end <= buf.Length && rest == Shifted(value, i)
    requires buf[end..] == Ascii(LowDigits(value, i)) + tail
    modifies buf
    ensures end' == end - 1 && rest' == Shifted(value, i + 1)
    ensures buf[end'..] == Ascii(LowDigits(value, i + 1)) + tail
  {
    ValueStep(value, i, rest);
    end' := PutBefore(buf, end, DIGIT_ZERO + rest % 10);
    rest' := rest / 10;
    ConcatAssociative([DIGIT_ZERO + rest % 10], Ascii(LowDigits(value, i)), tail);
  }

  /** The loop of `value_to_string` that fills the buffer backwards, ending on its first byte. */
  method WriteDigits(buf: array<byte>, last: nat, value: nat)
    requires last == |DecimalDigits(value)| < buf.Length
    modifies buf
    ensures buf[..] == ValueText(value) + old(buf[last..])
  {
    var i, rest, end := 0, value, last;
    ghost var tail := buf[last..];
    assert Ascii(LowDigits(value, 0)) == [];
    while rest > 0 || i < 1
      invariant i <= last && rest == Shifted(value, i) && end == last - i
      invariant buf[end..] == Ascii(LowDigits(value, i)) + tail
      decreases last - i
    {
      ValueDone(value, i);
      end, rest := DigitRound(buf, end, rest, value, i, tail);
      i := i + 1;
    }
    ValueDone(value, i);
    assert buf[0..] == buf[..];
  }
}
