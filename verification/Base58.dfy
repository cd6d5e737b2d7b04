/** The Base58 codec: `b58_encode` divides base-256 bytes in place, `b58_decode` multiplies and
    accumulates over 32-bit limbs. */
module Base58 {
  import opened ModArith
  import opened Positional

  // ---- the alphabet ---------------------------------------------------------

  const LOW_ALPHABET := "123456789ABCDEFGHJKLMN"
  const HIGH_ALPHABET := "PQRSTUVWXYZabcdefghijkmnopqrstuvwxyz"
  const B58_ALPHABET := LOW_ALPHABET + HIGH_ALPHABET

  const NO_DIGITS: seq<int> := [-1,-1,-1,-1,-1,-1,-1,-1, -1,-1,-1,-1,-1,-1,-1,-1]

  /** The decoder's table, in rows of sixteen characters. */
  const B58_DIGITS_MAP: seq<seq<int>> := [
    NO_DIGITS,
    NO_DIGITS,
    NO_DIGITS,
    [-1, 0, 1, 2, 3, 4, 5, 6,  7, 8,-1,-1,-1,-1,-1,-1],
    [-1, 9,10,11,12,13,14,15, 16,-1,17,18,19,20,21,-1],
    [22,23,24,25,26,27,28,29, 30,31,32,-1,-1,-1,-1,-1],
    [-1,33,34,35,36,37,38,39, 40,41,42,43,-1,44,45,46],
    [47,48,49,50,51,52,53,54, 55,56,57,-1,-1,-1,-1,-1]
  ]

  const ONE: byte := 49

  /** The character of a digit. */
  function Symbol(d: nat): byte
    requires d < 58
  {
    if d < 9 then 49 + d
    else if d < 17 then 65 + (d - 9)
    else if d < 22 then 74 + (d - 17)
    else if d < 33 then 80 + (d - 22)
    else if d < 44 then 97 + (d - 33)
    else 109 + (d - 44)
  }

  /** The digit of a character, or -1. */
  function Digit(c: byte): (d: int)
    ensures -1 <= d < 58
  {
    if 49 <= c < 58 then c - 49
    else if 65 <= c < 73 then c - 65 + 9
    else if 74 <= c < 79 then c - 74 + 17
    else if 80 <= c < 91 then c - 80 + 22
    else if 97 <= c < 108 then c - 97 + 33
    else if 109 <= c < 123 then c - 109 + 44
    else -1
  }

  lemma AlphabetIsSymbols(d: nat)
    requires d < 58
    ensures |B58_ALPHABET| == 58 && B58_ALPHABET[d] as int == Symbol(d)
  {
    AlphabetLengths();
    if d < 22 {
      LowSymbols(d);
    } else {
      HighSymbols(d - 22);
    }
  }

  lemma AlphabetLengths()
    ensures |LOW_ALPHABET| == 22 && |HIGH_ALPHABET| == 36
  {
  }

  lemma LowSymbols(d: nat)
    requires d < 22
    ensures LOW_ALPHABET[d] as int == Symbol(d)
  {
  }

  lemma HighSymbols(d: nat)
    requires d < 36
    ensures HIGH_ALPHABET[d] as int == Symbol(22 + d)
  {
  }

  /** B58_ALPHABET[d] */
  method AlphabetAt(d: nat) returns (c: byte)
    requires d < 58
    ensures c == Symbol(d)
  {
    AlphabetIsSymbols(d);
    c := B58_ALPHABET[d] as int;
  }

  lemma DigitsMapIsDigits(c: byte)
    requires c < 128
    ensures |B58_DIGITS_MAP| == 8 && |B58_DIGITS_MAP[c / 16]| == 16
    ensures B58_DIGITS_MAP[c / 16][c % 16] == Digit(c)
  {
    if
    case c < 48 =>
    case 48 <= c < 80 => UpperRows(c);
    case 80 <= c => LowerRows(c);
  }

  lemma UpperRows(c: byte)
    requires 48 <= c < 80
    ensures |B58_DIGITS_MAP| == 8 && |B58_DIGITS_MAP[c / 16]| == 16
    ensures B58_DIGITS_MAP[c / 16][c % 16] == Digit(c)
  {
    assert if c < 64 then c / 16 == 3 && c == 48 + c % 16 else c / 16 == 4 && c == 64 + c % 16;
  }

  lemma LowerRows(c: byte)
    requires 80 <= c < 128
    ensures |B58_DIGITS_MAP| == 8 && |B58_DIGITS_MAP[c / 16]| == 16
    ensures B58_DIGITS_MAP[c / 16][c % 16] == Digit(c)
  {
    if
    case c / 16 == 5 => assert c == 80 + c % 16;
    case c / 16 == 6 => assert c == 96 + c % 16;
    case c / 16 == 7 => assert c == 112 + c % 16;
  }

  /** The two tables are inverse to each other. */
  lemma TablesInverse(d: nat, c: byte)
    ensures d < 58 ==> Digit(Symbol(d)) == d
    ensures Digit(c) >= 0 ==> Symbol(Digit(c)) == c
  {
  }

  // ---- specification ----------------------------------------------------------

  function Symbols(ds: seq<nat>): (s: seq<byte>)
    requires AllBelow(58, ds)
    ensures |s| == |ds|
  {
    seq(|ds|, i requires 0 <= i < |ds| => Symbol(ds[i]))
  }

  predicate AllSymbols(s: seq<byte>) {
    forall i :: 0 <= i < |s| ==> Digit(s[i]) >= 0
  }

  function DigitsOf(s: seq<byte>): (ds: seq<nat>)
    requires AllSymbols(s)
    ensures |ds| == |s| && AllBelow(58, ds)
  {
    seq(|s|, i requires 0 <= i < |s| => Digit(s[i]))
  }

  lemma DigitsOfSymbols(ds: seq<nat>)
    requires AllBelow(58, ds)
    ensures AllSymbols(Symbols(ds)) && DigitsOf(Symbols(ds)) == ds
  {
  }

  function Ones(n: nat): (s: seq<byte>)
    ensures |s| == n
  {
    seq(n, i => ONE)
  }

  /** The digits of a number without leading zeros; none for zero. */
  function Canonical(v: nat): (ds: seq<nat>)
    ensures AllBelow(58, ds)
  {
    if v == 0 then [] else Canonical(v / 58) + [v % 58]
  }

  lemma {:induction false} CanonicalValue(v: nat)
    ensures Value(58, Canonical(v)) == v
    ensures v > 0 ==> Canonical(v) != [] && Canonical(v)[0] != 0
  {
    if v > 0 {
      var ds := Canonical(v / 58);
      CanonicalValue(v / 58);
      assert (ds + [v % 58])[..|ds|] == ds;
    }
  }

  /** One '1' for each leading zero byte, then the base-58 digits of the number. */
  function Encode(x: seq<byte>): seq<byte> {
    Ones(LeadingZeros(x)) + Symbols(Canonical(Value(256, x)))
  }

  function TextValue(s: seq<byte>): nat
    requires AllSymbols(s)
  {
    Value(58, DigitsOf(s))
  }

  /** The texts that fit `n` bytes. */
  predicate Decodable(s: seq<byte>, n: nat) {
    AllSymbols(s) && TextValue(s) < Pow(256, n)
  }

  function Decode(s: seq<byte>, n: nat): (x: seq<byte>)
    requires Decodable(s, n)
    ensures |x| == n
  {
    Bytes(TextValue(s), n)
  }

  function LeadingOnes(s: seq<byte>): (n: nat)
    ensures n <= |s| && (forall i :: 0 <= i < n ==> s[i] == ONE) && (n < |s| ==> s[n] != ONE)
  {
    if s == [] || s[0] != ONE then 0 else 1 + LeadingOnes(s[1..])
  }

  /** The length the decoder reports: the bytes of the number, and one for each leading '1'. */
  function ReportedLength(s: seq<byte>, n: nat): nat
    requires Decodable(s, n)
  {
    n - LeadingZeros(Decode(s, n)) + LeadingOnes(s)
  }

  lemma {:induction false} CanonicalUnique(ds: seq<nat>)
    requires AllBelow(58, ds) && (ds != [] ==> ds[0] != 0)
    ensures Canonical(Value(58, ds)) == ds
  {
    if ds != [] {
      var n := |ds| - 1;
      var d, v := ds[n], Value(58, ds[..n]);
      assert d < 58;
      ValueNonzero(ds);
      assert Value(58, ds) / 58 == v && Value(58, ds) % 58 == d;
      CanonicalUnique(ds[..n]);
      assert ds == ds[..n] + [d];
    }
  }

  lemma {:induction false} ValueNonzero(ds: seq<nat>)
    requires ds != [] && ds[0] != 0
    ensures Value(58, ds) > 0
  {
    if |ds| > 1 {
      ValueNonzero(ds[..|ds| - 1]);
    }
  }

  lemma LeadingOnesUnique(s: seq<byte>, n: nat)
    requires n <= |s| && (forall i :: 0 <= i < n ==> s[i] == ONE) && (n < |s| ==> s[n] != ONE)
    ensures LeadingOnes(s) == n
  {
    var k := LeadingOnes(s);
    assert k < |s| ==> s[k] != ONE;
    assert n < |s| ==> s[n] != ONE;
  }

  lemma PaddedDigits(z: nat, ds: seq<nat>)
    requires AllBelow(58, ds)
    ensures var s := Ones(z) + Symbols(ds);
      AllSymbols(s) && DigitsOf(s) == Zeros(z) + ds
  {
    DigitsOfSymbols(ds);
    var s := Ones(z) + Symbols(ds);
    forall i | 0 <= i < |s|
      ensures Digit(s[i]) == (Zeros(z) + ds)[i]
    {
      if i >= z {
        assert s[i] == Symbols(ds)[i - z];
        TablesInverse(ds[i - z], 0);
      }
    }
  }

  lemma PaddedOnes(z: nat, ds: seq<nat>)
    requires AllBelow(58, ds) && (ds != [] ==> ds[0] != 0)
    ensures LeadingOnes(Ones(z) + Symbols(ds)) == z
  {
    if ds != [] {
      TablesInverse(ds[0], 0);
    }
    LeadingOnesUnique(Ones(z) + Symbols(ds), z);
  }

  /** Encoding then decoding into a buffer of the original size restores every byte, leading zeros
      included, and reports the original size. */
  lemma EncodeThenDecode(x: seq<byte>)
    ensures Decodable(Encode(x), |x|)
    ensures Decode(Encode(x), |x|) == x
    ensures ReportedLength(Encode(x), |x|) == |x|
  {
    var z, ds := LeadingZeros(x), Canonical(Value(256, x));
    CanonicalValue(Value(256, x));
    PaddedDigits(z, ds);
    PaddedOnes(z, ds);
    ValueConcat(58, Zeros(z), ds);
    ValueOfZeros(58, z);
    BytesOfValue(x);
  }

  /** Decoding into a buffer of exactly the reported size then encoding restores the text. */
  lemma DecodeThenEncode(s: seq<byte>, n: nat)
    requires Decodable(s, n) && ReportedLength(s, n) == n
    ensures Encode(Decode(s, n)) == s
  {
    var k, v := LeadingOnes(s), TextValue(s);
    ValueOfBytes(v, n);
    CanonicalDigits(s);
    SuffixSymbols(s, k);
    assert Symbols(Canonical(v)) == s[k..];
    OnesPrefix(s, k);
  }

  lemma OnesPrefix(s: seq<byte>, k: nat)
    requires k <= |s| && forall i :: 0 <= i < k ==> s[i] == ONE
    ensures Ones(k) + s[k..] == s
  {
    assert Ones(k) == s[..k];
  }

  /** The digits after the leading ones are the canonical digits of a text's number. */
  lemma CanonicalDigits(s: seq<byte>)
    requires AllSymbols(s)
    ensures Canonical(TextValue(s)) == DigitsOf(s)[LeadingOnes(s)..]
  {
    var k, ds := LeadingOnes(s), DigitsOf(s);
    assert forall i :: 0 <= i < k ==> ds[i] == 0;
    ValueStrip(58, ds, k);
    if k < |s| {
      TablesInverse(0, s[k]);
    }
    CanonicalUnique(ds[k..]);
  }

  lemma SuffixSymbols(s: seq<byte>, k: nat)
    requires AllSymbols(s) && k <= |s|
    ensures Symbols(DigitsOf(s)[k..]) == s[k..]
  {
    var t := Symbols(DigitsOf(s)[k..]);
    forall i | 0 <= i < |t|
      ensures t[i] == s[k..][i]
    {
      TablesInverse(0, s[k + i]);
    }
  }

  // ---- b58_encode -------------------------------------------------------------

  /** One pass of long division by 58 over tmp[startAt..length]. */
  method DivideBy58(tmp: array<byte>, startAt: nat, length: nat) returns (remainder: nat)
    requires startAt < length <= tmp.Length
    modifies tmp
    ensures remainder < 58
    ensures Value(256, tmp[startAt..length]) * 58 + remainder == Value(256, old(tmp[startAt..length]))
    ensures tmp[startAt] == old(tmp[startAt]) / 58
    ensures tmp[..startAt] == old(tmp[..startAt]) && tmp[length..] == old(tmp[length..])
  {
    remainder := 0;
    ghost var x, done: seq<byte> := tmp[..], [];
    for divLoop := startAt to length
      invariant Divided(x, startAt, divLoop, tmp[..], done, remainder)
    {
      DividedNext(x, startAt, divLoop, tmp[..], done, remainder);
      var tmpDiv := remainder * 256 + tmp[divLoop];
      tmp[divLoop] := tmpDiv / 58;
      remainder := tmpDiv % 58;
      done := done + [tmp[divLoop]];
    }
    DividedEnd(x, startAt, length, tmp[..], done, remainder);
  }

  /** The pass over `x` has replaced the bytes from `startAt` to `at` by `done`. */
  ghost predicate Divided(x: seq<byte>, startAt: nat, at: nat, now: seq<byte>, done: seq<byte>, remainder: nat) {
    && startAt <= at <= |x| && |done| == at - startAt && remainder < 58
    && now == x[..startAt] + done + x[at..]
    && Value(256, done) * 58 + remainder == Value(256, x[startAt..at])
    && if done == [] then remainder == 0 else done[0] == x[startAt] / 58
  }

  lemma DividedNext(x: seq<byte>, startAt: nat, at: nat, now: seq<byte>, done: seq<byte>, remainder: nat)
    requires Divided(x, startAt, at, now, done, remainder) && at < |x|
    ensures |now| == |x| && (remainder * 256 + now[at]) / 58 < 256
    ensures var t := remainder * 256 + now[at];
      Divided(x, startAt, at + 1, now[at := t / 58], done + [t / 58], t % 58)
  {
    var b := x[at];
    var t := remainder * 256 + b;
    LongDivision(Value(256, done), remainder, Value(256, x[startAt..at]), b, t / 58, t % 58);
    ValueAppend(256, done, t / 58, done + [t / 58]);
    ValueAppend(256, x[startAt..at], b, x[startAt..at + 1]);
    assert now[at := t / 58] == x[..startAt] + (done + [t / 58]) + x[at + 1..];
  }

  lemma DividedEnd(x: seq<byte>, startAt: nat, at: nat, now: seq<byte>, done: seq<byte>, remainder: nat)
    requires Divided(x, startAt, at, now, done, remainder) && startAt < at
    ensures |now| == |x| && now[startAt..at] == done && now[startAt] == x[startAt] / 58
    ensures now[..startAt] == x[..startAt] && now[at..] == x[at..]
  {
  }

  /** One more byte of a long division by 58. */
  lemma LongDivision(v': nat, r: nat, v: nat, b: byte, q: nat, r': nat)
    requires r < 58 && v' * 58 + r == v
    requires q * 58 + r' == r * 256 + b && r' < 58
    ensures q < 256 && (v' * 256 + q) * 58 + r' == v * 256 + b
  {
  }

  lemma EmitDigit(v: nat, v': nat, r: nat, ds: seq<nat>, total: nat)
    requires v' * 58 + r == v && v * Pow(58, |ds|) + Value(58, ds) == total
    ensures v' * Pow(58, |[r] + ds|) + Value(58, [r] + ds) == total
  {
    ValueConcat(58, [r], ds);
    assert Value(58, [r]) == r;
    var w := Pow(58, |ds|);
    assert Pow(58, |[r] + ds|) == 58 * w;
    assert (v' * 58 + r) * w == v' * (58 * w) + r * w;
  }

  lemma DropZero(tmp: seq<nat>)
    requires tmp != [] && tmp[0] == 0
    ensures Value(256, tmp) == Value(256, tmp[1..])
  {
    ValueStrip(256, tmp, 1);
  }

  /** buffer[--j] = B58_ALPHABET[d] */
  method EmitSymbol(buffer: array<byte>, j: nat, top: nat, d: nat, ghost ds: seq<nat>) returns (j': nat)
    requires 0 < j <= top <= buffer.Length && d < 58
    requires AllBelow(58, ds) && buffer[j..top] == Symbols(ds)
    modifies buffer
    ensures j' == j - 1 && AllBelow(58, [d] + ds) && buffer[j'..top] == Symbols([d] + ds)
  {
    ghost var text := buffer[j..top];
    j' := j - 1;
    var c := AlphabetAt(d);
    buffer[j'] := c;
    assert buffer[j'..top] == [c] + text;
    SymbolsPrepend(d, ds);
  }

  /** The outer loop: emits the base-58 digits of tmp[startAt..length] below buffer[j]. Each byte
      position takes at most two divisions, as its leading byte drops below 58 and then to 0. */
  method EmitDigits(tmp: array<byte>, start: nat, length: nat, buffer: array<byte>, top: nat)
    returns (j: nat, ghost ds: seq<nat>)
    requires start <= length <= tmp.Length && tmp != buffer
    requires 2 * (length - start) <= top <= buffer.Length
    modifies tmp, buffer
    ensures top - 2 * (length - start) <= j <= top
    ensures AllBelow(58, ds) && |ds| == top - j && buffer[j..top] == Symbols(ds)
    ensures Value(58, ds) == Value(256, old(tmp[start..length]))
  {
    ghost var total := Value(256, tmp[start..length]);
    j := top;
    ds := [];
    var startAt := start;
    while startAt < length
      invariant start <= startAt <= length && j <= top
      invariant AllBelow(58, ds) && |ds| == top - j && buffer[j..top] == Symbols(ds)
      invariant Value(256, tmp[startAt..length]) * Pow(58, |ds|) + Value(58, ds) == total
      invariant j >= top - 2 * (length - start) + DivisionsLeft(tmp[startAt..length])
      decreases DivisionsLeft(tmp[startAt..length])
    {
      ghost var before := tmp[startAt..length];
      var remainder := DivideBy58(tmp, startAt, length);
      ghost var after := tmp[startAt..length];
      EmitDigit(Value(256, before), Value(256, after), remainder, ds, total);
      DivisionsDecrease(before, after);
      if tmp[startAt] == 0 {
        DropZero(after);
        startAt := startAt + 1;
        assert tmp[startAt..length] == after[1..];
      }
      j := EmitSymbol(buffer, j, top, remainder, ds);
      ds := [remainder] + ds;
    }
    assert tmp[startAt..length] == [];
  }

  lemma SymbolsPrepend(d: nat, ds: seq<nat>)
    requires d < 58 && AllBelow(58, ds)
    ensures AllBelow(58, [d] + ds) && Symbols([d] + ds) == [Symbol(d)] + Symbols(ds)
  {
  }

  /** A bound on the divisions still to come. */
  ghost function DivisionsLeft(tmp: seq<byte>): nat {
    if tmp == [] then 0 else 2 * |tmp| - (if tmp[0] < 58 then 1 else 0)
  }

  lemma DivisionsDecrease(before: seq<byte>, after: seq<byte>)
    requires |before| == |after| > 0 && after[0] == before[0] / 58
    ensures DivisionsLeft(if after[0] == 0 then after[1..] else after) < DivisionsLeft(before)
  {
  }

  /** Skips the digits that are leading zeros. */
  method SkipZeroDigits(buffer: array<byte>, start: nat, top: nat, ghost ds: seq<nat>) returns (j: nat)
    requires start <= top <= buffer.Length
    requires AllBelow(58, ds) && |ds| == top - start && buffer[start..top] == Symbols(ds)
    ensures start <= j <= top
    ensures buffer[j..top] == Symbols(Canonical(Value(58, ds)))
  {
    var one := AlphabetAt(0);
    ghost var text := buffer[start..top];
    j := start;
    while j < top && buffer[j] == one
      invariant start <= j <= top
      invariant forall i :: 0 <= i < j - start ==> ds[i] == 0
    {
      SymbolAt(text, ds, j - start);
      j := j + 1;
    }
    if j < top {
      SymbolAt(text, ds, j - start);
    }
    CanonicalSuffix(ds, j - start);
    assert buffer[j..top] == text[j - start..];
  }

  lemma CanonicalSuffix(ds: seq<nat>, n: nat)
    requires AllBelow(58, ds) && n <= |ds|
    requires (forall i :: 0 <= i < n ==> ds[i] == 0) && (n < |ds| ==> ds[n] != 0)
    ensures Symbols(ds)[n..] == Symbols(Canonical(Value(58, ds)))
  {
    var rest := ds[n..];
    ValueStrip(58, ds, n);
    CanonicalUnique(rest);
    assert Symbols(ds)[n..] == Symbols(rest);
  }

  lemma SymbolAt(s: seq<byte>, ds: seq<nat>, i: nat)
    requires AllBelow(58, ds) && s == Symbols(ds) && i < |ds|
    ensures s[i] == Symbol(ds[i]) && (s[i] == Symbol(0) <==> ds[i] == 0)
  {
    TablesInverse(ds[i], 0);
  }

  method PrependOnes(buffer: array<byte>, start: nat, top: nat, zeroCount: nat) returns (j: nat)
    requires zeroCount <= start <= top <= buffer.Length
    modifies buffer
    ensures j == start - zeroCount
    ensures buffer[j..top] == Ones(zeroCount) + old(buffer[start..top])
  {
    j := start;
    var zeros := zeroCount;
    while zeros > 0
      invariant 0 <= zeros <= zeroCount && j == start - (zeroCount - zeros)
      invariant forall i :: j <= i < start ==> buffer[i] == ONE
      invariant buffer[start..top] == old(buffer[start..top])
    {
      zeros := zeros - 1;
      j := j - 1;
      var one := AlphabetAt(0);
      buffer[j] := one;
    }
    assert buffer[j..start] == Ones(zeroCount);
    assert buffer[j..top] == buffer[j..start] + buffer[start..top];
  }

  /** `memcpy` of `n` bytes to the start of a buffer. */
  method Copy(out: array<byte>, source: array<byte>, start: nat, n: nat)
    requires out != source && n <= out.Length && start + n <= source.Length
    modifies out
    ensures out[..] == source[start..start + n] + old(out[n..])
  {
    forall i | 0 <= i < n {
      out[i] := source[start + i];
    }
  }

  method CountZeros(tmp: array<byte>, length: nat) returns (zeroCount: nat)
    requires length <= tmp.Length
    ensures zeroCount == LeadingZeros(tmp[..length]) <= length
  {
    zeroCount := 0;
    while zeroCount < length && tmp[zeroCount] == 0
      invariant zeroCount <= length
      invariant forall i :: 0 <= i < zeroCount ==> tmp[i] == 0
    {
      zeroCount := zeroCount + 1;
    }
    LeadingZerosUnique(tmp[..length], zeroCount);
  }

  /** The loops of `b58_encode`: the encoding ends at twice the length in the buffer. */
  method EncodeInto(tmp: array<byte>, length: nat, buffer: array<byte>) returns (j: nat)
    requires length <= tmp.Length && 2 * length <= buffer.Length && tmp != buffer
    modifies tmp, buffer
    ensures j <= 2 * length && buffer[j..2 * length] == Encode(old(tmp[..length]))
  {
    ghost var x := tmp[..length];
    var zeroCount := CountZeros(tmp, length);
    ValueStrip(256, x, zeroCount);
    assert tmp[zeroCount..length] == x[zeroCount..];
    var top, ds := EmitDigits(tmp, zeroCount, length, buffer, 2 * length);
    j := SkipZeroDigits(buffer, top, 2 * length, ds);
    j := PrependOnes(buffer, j, 2 * length, zeroCount);
  }

  /** `b58_encode`. Its `unsigned char` indices and 164-byte buffers admit inputs of up to 82
      bytes; longer than 164 it refuses. */
  method B58Encode(input: seq<byte>, length: nat, out: array<byte>, maxoutlen: nat) returns (result: int)
    requires length <= |input| && (length <= 82 || length > 164)
    requires maxoutlen <= out.Length
    modifies out
    ensures result == EncodeResult(input[..length], maxoutlen)
    ensures result >= 0 ==> out[..] == Encode(input[..length]) + old(out[result..])
    ensures result < 0 ==> out[..] == old(out[..])
  {
    if length > 164 {
      return -1;
    }
    var tmp, buffer := new byte[164](_ => 0), new byte[164](_ => 0);
    forall i | 0 <= i < length {
      tmp[i] := input[i];
    }
    assert tmp[..length] == input[..length];
    var j := EncodeInto(tmp, length, buffer);
    var outLength := 2 * length - j;
    if maxoutlen < outLength {
      return -1;
    }
    Copy(out, buffer, j, outLength);
    return outLength;
  }

  ghost function EncodeResult(x: seq<byte>, maxoutlen: nat): int {
    if |x| > 164 || maxoutlen < |Encode(x)| then -1 else |Encode(x)|
  }

  // ---- b58_decode -------------------------------------------------------------

  const LIMB := 0x1_0000_0000

  /** The inner loop: outi := outi * 58 + c over 32-bit limbs, most significant first. The 64-bit
      intermediate never overflows and the carry stays below 58. */
  method MultiplyAccumulate(outi: array<nat>, c: nat) returns (carry: nat)
    requires c < 58 && AllBelow(LIMB, outi[..])
    modifies outi
    ensures carry < 58 && AllBelow(LIMB, outi[..])
    ensures carry * Pow(LIMB, outi.Length) + Value(LIMB, outi[..]) == Value(LIMB, old(outi[..])) * 58 + c
  {
    carry := c;
    var j := outi.Length;
    ghost var x := outi[..];
    assert outi[j..] == [] && x[j..] == [];
    while j > 0
      invariant 0 <= j <= outi.Length && carry < 58 && AllBelow(LIMB, outi[..])
      invariant outi[..j] == x[..j]
      invariant carry * Pow(LIMB, |x[j..]|) + Value(LIMB, outi[j..]) == Value(LIMB, x[j..]) * 58 + c
    {
      ghost var above := x[j..];
      j := j - 1;
      assert outi[j] == x[j] by { assert outi[..j + 1][j] == x[..j + 1][j]; }
      carry := MultiplyLimb(outi, j, carry, c, above);
      assert x[j..] == [x[j]] + above;
      assert x[..j] == x[..j + 1][..j];
    }
    assert outi[0..] == outi[..] && x[0..] == x;
  }

  /** Multiplies limb `j` by 58 and adds the carry; `oldAbove` are the limbs above it before the pass. */
  method MultiplyLimb(outi: array<nat>, j: nat, carry: nat, ghost c: nat, ghost oldAbove: seq<nat>)
    returns (carry': nat)
    requires j < outi.Length && carry < 58 && AllBelow(LIMB, outi[..])
    requires |oldAbove| == outi.Length - (j + 1)
    requires carry * Pow(LIMB, |oldAbove|) + Value(LIMB, outi[j + 1..]) == Value(LIMB, oldAbove) * 58 + c
    modifies outi
    ensures carry' < 58 && AllBelow(LIMB, outi[..])
    ensures outi[..j] == old(outi[..j + 1])[..j]
    ensures carry' * Pow(LIMB, |[old(outi[j])] + oldAbove|) + Value(LIMB, outi[j..])
         == Value(LIMB, [old(outi[j])] + oldAbove) * 58 + c
  {
    ghost var was, above := outi[..], outi[j + 1..];
    assert was[j] < LIMB;
    var t := outi[j] * 58 + carry;
    assert t < 0x1_0000_0000_0000_0000;
    carry' := t / LIMB;
    outi[j] := t % LIMB;
    assert outi[..] == was[j := t % LIMB];
    assert outi[j..] == [t % LIMB] + above;
    CarryLimb(was[j], carry, c, t / LIMB, t % LIMB, above, oldAbove);
  }

  lemma CarryLimb(limb: nat, c0: nat, c: nat, q: nat, r: nat, above: seq<nat>, oldAbove: seq<nat>)
    requires |above| == |oldAbove| && q * LIMB + r == limb * 58 + c0
    requires c0 * Pow(LIMB, |above|) + Value(LIMB, above) == Value(LIMB, oldAbove) * 58 + c
    ensures q * Pow(LIMB, |above| + 1) + Value(LIMB, [r] + above) == Value(LIMB, [limb] + oldAbove) * 58 + c
  {
    var w := Pow(LIMB, |above|);
    PushLimb(r, above);
    PushLimb(limb, oldAbove);
    PowStep(|above|);
    SplitLimb(q, r, limb, c0, w);
  }

  lemma PowStep(n: nat)
    ensures Pow(LIMB, n + 1) == LIMB * Pow(LIMB, n)
  {
  }

  lemma PushLimb(limb: nat, limbs: seq<nat>)
    ensures Value(LIMB, [limb] + limbs) == limb * Pow(LIMB, |limbs|) + Value(LIMB, limbs)
  {
    ValueConcat(LIMB, [limb], limbs);
    assert Value(LIMB, [limb]) == limb;
  }

  lemma SplitLimb(q: nat, r: nat, limb: nat, c0: nat, w: nat)
    requires q * LIMB + r == limb * 58 + c0
    ensures q * (LIMB * w) + r * w == (limb * w) * 58 + c0 * w
  {
    assert (q * LIMB + r) * w == q * (LIMB * w) + r * w;
    assert (limb * 58 + c0) * w == (limb * w) * 58 + c0 * w;
  }

  /** Values that need more than `n` bytes. */
  lemma LimbPowers(n: nat)
    ensures Pow(LIMB, n) == Pow(256, 4 * n)
  {
    if n > 0 {
      LimbPowers(n - 1);
      PowAdd(256, 4, 4 * (n - 1));
      assert Pow(256, 4) == LIMB by { assert Pow(256, 2) == 0x1_0000; PowAdd(256, 2, 2); }
      assert 4 + 4 * (n - 1) == 4 * n;
    }
  }

  /** The number of bytes of the leading limb that the buffer has room for. */
  function LeadBytes(binsz: nat): nat { if binsz % 4 == 0 then 4 else binsz % 4 }

  /** The overflow test on the limbs is exactly the test that the number fits the buffer. */
  lemma FitsBuffer(limbs: seq<nat>, carry: nat, binsz: nat)
    requires binsz > 0 && |limbs| == (binsz + 3) / 4 && AllBelow(LIMB, limbs)
    ensures carry == 0 && limbs[0] < Pow(256, LeadBytes(binsz))
       <==> carry * Pow(LIMB, |limbs|) + Value(LIMB, limbs) < Pow(256, binsz)
  {
    var n, k := |limbs| - 1, LeadBytes(binsz);
    BytesOfLimbs(binsz);
    var low, w := limbs[1..], Pow(LIMB, n);
    assert limbs == [limbs[0]] + low;
    PushLimb(limbs[0], low);
    ValueBound(LIMB, low);
    LimbPowers(n);
    PowAdd(256, k, 4 * n);
    FourBytes();
    PowMonotone(256, k, 4);
    PowStep(n);
    CarryFits(carry, limbs[0], Value(LIMB, low), w, Pow(256, k));
  }

  lemma BytesOfLimbs(binsz: nat)
    requires binsz > 0
    ensures binsz == LeadBytes(binsz) + 4 * ((binsz + 3) / 4 - 1)
  {
  }

  lemma FourBytes()
    ensures Pow(256, 4) == LIMB
  {
    LimbPowers(1);
    assert Pow(LIMB, 0) == 1;
  }

  lemma CarryFits(carry: nat, a: nat, v: nat, w: nat, top: nat)
    requires v < w && top <= LIMB
    ensures carry == 0 && a < top <==> carry * (LIMB * w) + (a * w + v) < top * w
  {
    LeadFits(a, v, w, top);
    assert top * w <= LIMB * w;
    assert carry >= 1 ==> carry * (LIMB * w) >= LIMB * w;
  }

  function StrLen(s: seq<byte>): (n: nat)
    ensures n <= |s| && (forall i :: 0 <= i < n ==> s[i] != 0) && (n < |s| ==> s[n] == 0)
  {
    if s == [] || s[0] == 0 then 0 else 1 + StrLen(s[1..])
  }

  /** The text `b58_decode` reads: `b58sz` characters, or up to the terminator if it is 0. */
  function Text(b58: seq<byte>, b58sz: nat): seq<byte>
    requires b58sz <= |b58|
  {
    if b58sz == 0 then b58[..StrLen(b58)] else b58[..b58sz]
  }

  /** Reading one more character multiplies the value by 58; a text that already overflows, or has
      an invalid character, stays undecodable. */
  lemma NextCharacter(s: seq<byte>, i: nat, n: nat)
    requires i < |s| && AllSymbols(s[..i])
    ensures Digit(s[i]) < 0 ==> !Decodable(s, n)
    ensures Digit(s[i]) >= 0 ==> AllSymbols(s[..i + 1])
    ensures Digit(s[i]) >= 0 ==> TextValue(s[..i + 1]) == TextValue(s[..i]) * 58 + Digit(s[i])
  {
    if Digit(s[i]) >= 0 {
      assert s[..i + 1] == s[..i] + [s[i]];
      assert DigitsOf(s[..i + 1])[..i] == DigitsOf(s[..i]);
    }
  }

  lemma PrefixValuesGrow(s: seq<byte>, i: nat)
    requires i <= |s| && AllSymbols(s)
    ensures TextValue(s[..i]) <= TextValue(s)
  {
    var ds := DigitsOf(s);
    assert ds == ds[..i] + ds[i..] && DigitsOf(s[..i]) == ds[..i];
    ValueConcat(58, ds[..i], ds[i..]);
    PowPositive(58, |s| - i);
    TimesPositive(Value(58, ds[..i]), Pow(58, |s| - i));
  }

  lemma TimesPositive(v: nat, w: nat)
    requires w > 0
    ensures v * w >= v
  {
  }

  /** Accumulates the text into limbs; fails on an invalid character or as soon as the number
      outgrows the buffer. */
  method AccumulateLimbs(s: seq<byte>, zerocount: nat, outi: array<nat>, binsz: nat) returns (ok: bool)
    requires binsz > 0 && outi.Length == (binsz + 3) / 4 && zerocount == LeadingOnes(s)
    requires forall i :: 0 <= i < outi.Length ==> outi[i] == 0
    modifies outi
    ensures ok <==> Decodable(s, binsz)
    ensures AllBelow(LIMB, outi[..])
    ensures ok ==> Value(LIMB, outi[..]) == TextValue(s)
  {
    var i := zerocount;
    ZeroLimbs(outi[..], binsz);
    LeadingOnesValue(s);
    while i < |s|
      invariant zerocount <= i <= |s|
      invariant AllBelow(LIMB, outi[..]) && AllSymbols(s[..i])
      invariant Value(LIMB, outi[..]) == TextValue(s[..i]) < Pow(256, binsz)
    {
      // the high bit, then the table
      NextCharacter(s, i, binsz);
      if s[i] >= 128 {
        return false;
      }
      var digit := DigitAt(s[i]);
      if digit == -1 {
        return false;
      }
      var c := MultiplyAccumulate(outi, digit);
      OverflowTests(s, i, outi[..], c, binsz);
      if c != 0 {
        return false;
      }
      if outi[0] >= Pow(256, LeadBytes(binsz)) {
        return false;
      }
      i := i + 1;
    }
    assert s[..i] == s;
    ok := true;
  }

  /** B58_DIGITS_MAP[c] */
  method DigitAt(c: byte) returns (d: int)
    requires c < 128
    ensures d == Digit(c)
  {
    DigitsMapIsDigits(c);
    d := B58_DIGITS_MAP[c / 16][c % 16];
  }

  /** After one more character, the overflow tests tell whether the prefix fits, and a prefix that does
      not fit makes the whole text undecodable. */
  lemma OverflowTests(s: seq<byte>, i: nat, limbs: seq<nat>, carry: nat, binsz: nat)
    requires i < |s| && AllSymbols(s[..i + 1])
    requires binsz > 0 && |limbs| == (binsz + 3) / 4 && AllBelow(LIMB, limbs)
    requires carry * Pow(LIMB, |limbs|) + Value(LIMB, limbs) == TextValue(s[..i + 1])
    ensures carry == 0 && limbs[0] < Pow(256, LeadBytes(binsz)) <==> TextValue(s[..i + 1]) < Pow(256, binsz)
    ensures carry == 0 ==> Value(LIMB, limbs) == TextValue(s[..i + 1])
    ensures Decodable(s, binsz) ==> TextValue(s[..i + 1]) < Pow(256, binsz)
  {
    FitsBuffer(limbs, carry, binsz);
    if AllSymbols(s) {
      PrefixValuesGrow(s, i + 1);
    }
  }

  lemma ZeroLimbs(limbs: seq<nat>, binsz: nat)
    requires forall i :: 0 <= i < |limbs| ==> limbs[i] == 0
    ensures Value(LIMB, limbs) == 0 && Pow(256, binsz) > 0
  {
    assert limbs == Zeros(|limbs|);
    ValueOfZeros(LIMB, |limbs|);
    PowPositive(256, binsz);
  }

  lemma LeadingOnesValue(s: seq<byte>)
    ensures var t := s[..LeadingOnes(s)]; AllSymbols(t) && TextValue(t) == 0
  {
    var n := LeadingOnes(s);
    assert DigitsOf(s[..n]) == Zeros(n);
    ValueOfZeros(58, n);
  }

  /** Writes the four bytes of limb `j` after the bytes of the limbs before it. */
  method StoreNextLimb(outi: array<nat>, j: nat, bin: array<byte>, pos: nat)
    requires j < outi.Length && pos + 4 <= bin.Length && outi[j] < LIMB
    requires Value(256, bin[..pos]) == Value(LIMB, outi[..j])
    modifies bin
    ensures Value(256, bin[..pos + 4]) == Value(LIMB, outi[..j + 1])
    ensures forall k :: pos + 4 <= k < bin.Length ==> bin[k] == old(bin[k])
  {
    FourBytes();
    StoreLimb(outi[j], bin, pos, 4, Value(LIMB, outi[..j]));
    ValueAppend(LIMB, outi[..j], outi[j], outi[..j + 1]);
  }

  /** Writes the limbs out as big-endian bytes, the leading limb's low bytes first. */
  method StoreLimbs(outi: array<nat>, bin: array<byte>, binsz: nat)
    requires 0 < binsz <= bin.Length && outi.Length == (binsz + 3) / 4
    requires AllBelow(LIMB, outi[..]) && outi[0] < Pow(256, LeadBytes(binsz))
    modifies bin
    ensures Value(256, bin[..binsz]) == Value(LIMB, outi[..])
    ensures bin[binsz..] == old(bin[binsz..])
  {
    var j, pos := StoreLeadBytes(outi, bin, binsz);
    while j < outi.Length
      invariant j <= outi.Length && pos + 4 * (outi.Length - j) == binsz
      invariant Value(256, bin[..pos]) == Value(LIMB, outi[..j])
      invariant forall k :: binsz <= k < bin.Length ==> bin[k] == old(bin[k])
    {
      assert outi[j] < LIMB by { assert outi[..][j] < LIMB; }
      StoreNextLimb(outi, j, bin, pos);
      j, pos := j + 1, pos + 4;
    }
    assert outi[..j] == outi[..];
  }

  /** Writes the leading limb when it is only partly used. */
  method StoreLeadBytes(outi: array<nat>, bin: array<byte>, binsz: nat) returns (j: nat, pos: nat)
    requires 0 < binsz <= bin.Length && outi.Length == (binsz + 3) / 4
    requires outi[0] < Pow(256, LeadBytes(binsz))
    modifies bin
    ensures j <= outi.Length && pos + 4 * (outi.Length - j) == binsz
    ensures Value(256, bin[..pos]) == Value(LIMB, outi[..j])
    ensures forall k :: binsz <= k < bin.Length ==> bin[k] == old(bin[k])
  {
    j, pos := 0, 0;
    assert outi[..0] == [] && bin[..0] == [];
    if binsz % 4 > 0 {
      StoreLimb(outi[0], bin, 0, binsz % 4, 0);
      ValueAppend(LIMB, outi[..0], outi[0], outi[..1]);
      j, pos := 1, binsz % 4;
    }
  }

  /** Writes the low `n` bytes of a limb after `pos` bytes that hold `v`. */
  method StoreLimb(limb: nat, bin: array<byte>, pos: nat, n: nat, ghost v: nat)
    requires pos + n <= bin.Length && limb < Pow(256, n)
    requires Value(256, bin[..pos]) == v
    modifies bin
    ensures Value(256, bin[..pos + n]) == v * Pow(256, n) + limb
    ensures forall k :: pos + n <= k < bin.Length ==> bin[k] == old(bin[k])
  {
    var i := n;
    var at := pos;
    HighPartEnds(limb, n);
    while i > 0
      invariant 0 <= i <= n && at == pos + n - i
      invariant Value(256, bin[..at]) == v * Pow(256, n - i) + HighPart(limb, i)
      invariant forall k :: pos + n <= k < bin.Length ==> bin[k] == old(bin[k])
    {
      ghost var before := Value(256, bin[..at]);
      PutByte(bin, at, HighPart(limb, i - 1) % 256);
      NextByte(limb, i, v, n, before, Value(256, bin[..at + 1]));
      i := i - 1;
      at := at + 1;
    }
  }

  /** limb >> 8 * i */
  function HighPart(limb: nat, i: nat): nat {
    PowPositive(256, i);
    DivNat(limb, Pow(256, i));
    limb / Pow(256, i)
  }

  lemma HighPartEnds(limb: nat, n: nat)
    requires limb < Pow(256, n)
    ensures HighPart(limb, n) == 0 && HighPart(limb, 0) == limb
  {
  }

  /** `bin[at] = b` */
  method PutByte(bin: array<byte>, at: nat, b: byte)
    requires at < bin.Length
    modifies bin
    ensures Value(256, bin[..at + 1]) == Value(256, old(bin[..at])) * 256 + b
    ensures forall k :: at < k < bin.Length ==> bin[k] == old(bin[k])
  {
    ghost var before := bin[..at];
    bin[at] := b;
    assert bin[..at + 1] == before + [b];
    ValueAppend(256, before, b, bin[..at + 1]);
  }

  lemma NextByte(limb: nat, i: nat, v: nat, n: nat, before: nat, after: nat)
    requires 0 < i <= n && before == v * Pow(256, n - i) + HighPart(limb, i)
    requires after == before * 256 + HighPart(limb, i - 1) % 256
    ensures after == v * Pow(256, n - (i - 1)) + HighPart(limb, i - 1)
  {
    PowPositive(256, i - 1);
    var w, u := Pow(256, i - 1), Pow(256, n - i);
    DivDiv(limb, w);
    assert Pow(256, i) == 256 * w && Pow(256, n - (i - 1)) == 256 * u;
    var q := limb / w;
    assert q == (q / 256) * 256 + q % 256;
    assert (v * u + q / 256) * 256 == v * (256 * u) + (q / 256) * 256;
  }

  lemma DivDiv(v: nat, w: nat)
    requires w > 0
    ensures v / w >= 0 && v / (256 * w) == (v / w) / 256
  {
    DivNat(v, w);
    var q := v / w;
    assert q == (q / 256) * 256 + q % 256;
    TwoDigits(q / 256, q % 256, w, v % w);
    ModUnique(256 * w, v, q / 256, (q % 256) * w + v % w);
  }

  lemma TwoDigits(h: nat, l: nat, w: nat, r: nat)
    requires l < 256 && r < w
    ensures (h * 256 + l) * w + r == h * (256 * w) + (l * w + r) && l * w + r < 256 * w
  {
    assert l * w <= 255 * w;
  }

  method CountOnes(s: seq<byte>) returns (zerocount: nat)
    ensures zerocount == LeadingOnes(s)
  {
    zerocount := 0;
    while zerocount < |s| && s[zerocount] == ONE
      invariant zerocount <= |s| && forall i :: 0 <= i < zerocount ==> s[i] == ONE
    {
      zerocount := zerocount + 1;
    }
    LeadingOnesUnique(s, zerocount);
  }

  /** The bytes from the first nonzero one. */
  method TrimSize(bin: array<byte>, binsz: nat) returns (size: nat)
    requires binsz <= bin.Length
    ensures size == binsz - LeadingZeros(bin[..binsz])
  {
    size := binsz;
    var i := 0;
    while i < binsz && bin[i] == 0
      invariant i <= binsz && size == binsz - i && forall k :: 0 <= k < i ==> bin[k] == 0
    {
      size := size - 1;
      i := i + 1;
    }
    LeadingZerosUnique(bin[..binsz], i);
  }

  /** `b58_decode` into a buffer of `binsz` bytes. It succeeds exactly when every character is in
      the alphabet and the number fits; then the buffer holds it big-endian. */
  method B58Decode(bin: array<byte>, binsz: nat, b58: seq<byte>, b58sz: nat) returns (ok: bool, size: nat)
    requires 0 < binsz <= bin.Length && b58sz <= |b58|
    requires b58sz == 0 ==> 0 in b58
    modifies bin
    ensures ok <==> Decodable(Text(b58, b58sz), binsz)
    ensures ok ==> bin[..] == Decode(Text(b58, b58sz), binsz) + old(bin[binsz..])
    ensures ok ==> size == ReportedLength(Text(b58, b58sz), binsz)
    ensures !ok ==> bin[..] == old(bin[..]) && size == binsz
  {
    size := binsz;
    var s := Text(b58, b58sz);
    var outi := new nat[(binsz + 3) / 4](_ => 0);
    var zerocount := CountOnes(s);
    ok := AccumulateLimbs(s, zerocount, outi, binsz);
    if !ok {
      return;
    }
    ghost var rest := bin[binsz..];
    FitsBuffer(outi[..], 0, binsz);
    StoreLimbs(outi, bin, binsz);
    BytesOfValue(bin[..binsz]);
    assert bin[..binsz] == Decode(s, binsz) && bin[..] == bin[..binsz] + rest;
    size := TrimSize(bin, binsz);
    size := size + zerocount;
  }
}
