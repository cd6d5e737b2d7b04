/** Base58-check addresses of compressed public keys. */
module Addresses {
  import opened Positional
  import opened PackedBits
  import opened RandomOracle
  import opened Base58
  import opened Transactions

  const MINA_ADDRESS_LEN := 56
  const ADDRESS_BYTES := 40

  /** SHA-256, as an arbitrary function to 32 bytes. */
  type Hash = seq<byte> -> field

  // ---- specification -----------------------------------------------------------------

  /** Version bytes, little-endian x-coordinate and parity. */
  function AddressBody(pk: Compressed): (r: seq<byte>)
    ensures |r| == 36
  {
    [0xcb, 0x01, 0x01] + Reversed(pk.x) + [if pk.isOdd then 1 else 0]
  }

  function Checksum(sha: Hash, body: seq<byte>): (r: seq<byte>)
    ensures |r| == 4
  {
    sha(sha(body))[..4]
  }

  function RawAddress(sha: Hash, pk: Compressed): (r: seq<byte>)
    ensures |r| == ADDRESS_BYTES
  {
    AddressBody(pk) + Checksum(sha, AddressBody(pk))
  }

  /** The address text of a key. */
  function Address(sha: Hash, pk: Compressed): seq<byte> {
    Encode(RawAddress(sha, pk))
  }

  predicate ChecksumOk(sha: Hash, raw: seq<byte>)
    requires |raw| == ADDRESS_BYTES
  {
    raw[36..] == Checksum(sha, raw[..36])
  }

  function KeyOf(raw: seq<byte>): Compressed
    requires |raw| == ADDRESS_BYTES
  {
    Compressed(Reversed(raw[3..35]), raw[35] != 0)
  }

  /** The 40 bytes of a raw address. */
  type raw = s: seq<byte> | |s| == 40
    witness Zeros(40)

  /** What `b58_decode` leaves in a buffer that held `stack`; its callers go on after a failed decode. */
  function DecodedOver(address: seq<byte>, stack: raw): raw {
    if Decodable(address, ADDRESS_BYTES) then Decode(address, ADDRESS_BYTES) else stack
  }

  /** A text that decodes to a raw address. */
  predicate IsDecodable(address: seq<byte>) {
    |address| == MINA_ADDRESS_LEN - 1 && Decodable(address, ADDRESS_BYTES)
  }

  predicate IsAddress(sha: Hash, address: seq<byte>) {
    IsDecodable(address) && ChecksumOk(sha, Decode(address, ADDRESS_BYTES))
  }

  function AddressKey(address: seq<byte>): Compressed
    requires IsDecodable(address)
  {
    KeyOf(Decode(address, ADDRESS_BYTES))
  }

  // ---- every address has 55 characters -------------------------------------------------

  lemma {:induction false} ValueAtLeast(ds: seq<nat>)
    requires ds != [] && ds[0] != 0
    ensures Value(58, ds) >= Pow(58, |ds| - 1)
  {
    if |ds| > 1 {
      var n := |ds| - 1;
      ValueAtLeast(ds[..n]);
      assert Value(58, ds[..n]) * 58 >= Pow(58, n - 1) * 58;
    } else {
      assert Pow(58, 0) == 1;
    }
  }

  lemma CanonicalLength(v: nat, n: nat)
    requires n > 0 && Pow(58, n - 1) <= v < Pow(58, n)
    ensures |Canonical(v)| == n
  {
    var ds := Canonical(v);
    CanonicalValue(v);
    ValueBound(58, ds);
    PowPositive(58, n - 1);
    ValueAtLeast(ds);
    PowOrder(|ds|, n, v);
  }

  lemma PowOrder(k: nat, n: nat, v: nat)
    requires k > 0 && n > 0 && Pow(58, k - 1) <= v < Pow(58, k) && Pow(58, n - 1) <= v < Pow(58, n)
    ensures k == n
  {
    if k < n {
      PowMonotone(58, k, n - 1);
    }
    if k > n {
      PowMonotone(58, n, k - 1);
    }
  }

  lemma PowDouble(b: nat, e: nat, v: nat)
    requires Pow(b, e) == v
    ensures Pow(b, e + e) == v * v
  {
    PowAdd(b, e, e);
  }

  /** 58^54 <= 0xcb * 256^39 and 0xcc * 256^39 <= 58^55. */
  lemma AddressRange()
    ensures Pow(58, 54) <= 0xcb * Pow(256, 39) && 0xcc * Pow(256, 39) <= Pow(58, 55)
  {
    PowersOf58();
    PowersOfBytes();
  }

  lemma PowersOf58()
    ensures Pow(58, 54) == 0x181c17963a5226bd66dc1c01d3a7e1000000 * 0x181c17963a5226bd66dc1c01d3a7e1000000 * 0x8dd122640
    ensures Pow(58, 55) == Pow(58, 54) * 58
  {
    PowDouble(58, 6, 0x8dd122640);
    PowDouble(58, 12, 0x4e900abb53e6b71000);
    PowDouble(58, 24, 0x181c17963a5226bd66dc1c01d3a7e1000000);
    PowAdd(58, 48, 6);
    PowAdd(58, 54, 1);
  }

  lemma PowersOfBytes()
    ensures Pow(256, 39) == 0x100000000000000000000000000000000 * 0x10000000000000000 * 0x10000000000000000
                            * 0x100000000000000
  {
    PowDouble(256, 4, 0x100000000);
    PowDouble(256, 8, 0x10000000000000000);
    PowDouble(256, 16, 0x100000000000000000000000000000000);
    PowAdd(256, 32, 7);
    assert Pow(256, 7) == 0x100000000000000;
  }

  lemma AddressLength(sha: Hash, pk: Compressed)
    ensures |Address(sha, pk)| == MINA_ADDRESS_LEN - 1
    ensures forall i :: 0 <= i < |Address(sha, pk)| ==> Address(sha, pk)[i] != 0
  {
    var raw := RawAddress(sha, pk);
    RawAddressValue(sha, pk);
    CanonicalLength(Value(256, raw), 55);
    SymbolsNonzero(Canonical(Value(256, raw)));
    LeadingZerosUnique(raw, 0);
    assert Encode(raw) == Symbols(Canonical(Value(256, raw)));
  }

  lemma RawAddressValue(sha: Hash, pk: Compressed)
    ensures RawAddress(sha, pk)[0] == 0xcb && Pow(58, 54) <= Value(256, RawAddress(sha, pk)) < Pow(58, 55)
  {
    var raw := RawAddress(sha, pk);
    assert raw[0] == 0xcb;
    AddressRange();
    FirstByteBounds(raw, 0xcb);
    FirstByteBounds(raw, 0xcc);
  }

  lemma SymbolsNonzero(ds: seq<nat>)
    requires AllBelow(58, ds)
    ensures forall i :: 0 <= i < |ds| ==> Symbols(ds)[i] != 0
  {
  }

  /** For every key and hash: the address has exactly 55 characters, validates, and gives the key
      back. */
  lemma AddressRoundTrip(sha: Hash, pk: Compressed)
    ensures |Address(sha, pk)| == MINA_ADDRESS_LEN - 1
    ensures IsAddress(sha, Address(sha, pk)) && AddressKey(Address(sha, pk)) == pk
  {
    AddressLength(sha, pk);
    EncodeThenDecode(RawAddress(sha, pk));
    RawAddressParts(sha, pk);
  }

  lemma RawAddressParts(sha: Hash, pk: Compressed)
    ensures ChecksumOk(sha, RawAddress(sha, pk)) && KeyOf(RawAddress(sha, pk)) == pk
  {
    var raw := RawAddress(sha, pk);
    assert raw[..36] == AddressBody(pk) && raw[36..] == Checksum(sha, AddressBody(pk));
    assert raw[3..35] == Reversed(pk.x) && raw[35] == AddressBody(pk)[35];
    ReversedTwice(pk.x);
  }

  /** The bytes an address encodes before its checksum: three version bytes, the x-coordinate with its
      least significant byte first, and the parity. */
  function Versioned(pk: Compressed): seq<byte> {
    [0xcb, 0x01, 0x01] + Reversed(pk.x) + [if pk.isOdd then 1 else 0]
  }

  /** What an address decodes to: those bytes and the first four of their double hash. */
  lemma AddressBytesAre(sha: Hash, pk: Compressed)
    ensures IsDecodable(Address(sha, pk))
    ensures Decode(Address(sha, pk), 40) == Versioned(pk) + sha(sha(Versioned(pk)))[..4]
  {
    AddressLength(sha, pk);
    EncodeThenDecode(RawAddress(sha, pk));
  }

  /** Two hash functions give a key the same address exactly when their double hashes start alike. */
  lemma AddressDependsOnDoubleHash(sha: Hash, sha': Hash, pk: Compressed)
    ensures Address(sha, pk) == Address(sha', pk)
      <==> sha(sha(Versioned(pk)))[..4] == sha'(sha'(Versioned(pk)))[..4]
  {
    var b := Versioned(pk);
    AddressBytesAre(sha, pk);
    AddressBytesAre(sha', pk);
    assert (b + sha(sha(b))[..4])[36..] == sha(sha(b))[..4];
    assert (b + sha'(sha'(b))[..4])[36..] == sha'(sha'(b))[..4];
  }

  /** A decodable text is accepted exactly when its last four bytes start the double hash of the others. */
  lemma AcceptedExactly(sha: Hash, a: seq<byte>)
    requires IsDecodable(a)
    ensures var r := Decode(a, 40); IsAddress(sha, a) <==> r[36..40] == sha(sha(r[..36]))[..4]
  {
    var r := Decode(a, 40);
    assert r[36..40] == r[36..];
  }

  /** The key read from 40 bytes: byte 3 is the lowest of the x-coordinate, byte 34 the highest, and any
      nonzero byte 35 means odd. */
  lemma KeyBytesAre(r: raw, i: nat)
    requires i < 32
    ensures KeyOf(r).x[i] == r[34 - i] && (KeyOf(r).isOdd <==> r[35] != 0)
  {
  }

  /** Different keys have different addresses. */
  lemma AddressInjective(sha: Hash, a: Compressed, b: Compressed)
    requires Address(sha, a) == Address(sha, b)
    ensures a == b
  {
    AddressRoundTrip(sha, a);
    AddressRoundTrip(sha, b);
  }

  // ---- operations --------------------------------------------------------------------

  /** `field_is_odd` on a big-endian field. */
  function FieldIsOdd(y: field): bool { GetBit(y[31], 0) }

  lemma ParityOfWord(y: field)
    ensures FieldIsOdd(y) <==> Value(256, y) % 2 == 1
  {
    ValueAppend(256, y[..31], y[31], y);
    EvenPart(Value(256, y[..31]), y[31]);
  }

  lemma EvenPart(v: nat, b: byte)
    ensures (v * 256 + b) % 2 == b % 2
  {
  }

  /** `generate_address`: with room for 56 bytes it always succeeds. */
  method GenerateAddress(address: array<byte>, len: nat, x: field, y: field, sha: Hash) returns (ok: bool)
    requires 0 < len == address.Length
    modifies address
    ensures ok <==> len == MINA_ADDRESS_LEN
    ensures ok ==> address[..] == Address(sha, Compressed(x, FieldIsOdd(y))) + [0]
    ensures !ok ==> address[0] == 0
  {
    if len != MINA_ADDRESS_LEN {
      address[0] := 0;
      return false;
    }
    ghost var pk := Compressed(x, FieldIsOdd(y));
    var body := AddressBytes(x, y);
    var raw := body + sha(sha(body))[..4];
    var result := B58Encode(raw, ADDRESS_BYTES, address, len);
    assert raw[..ADDRESS_BYTES] == RawAddress(sha, pk);
    address[MINA_ADDRESS_LEN - 1] := 0;
    ok := true;
    if result < 0 {
      address[0] := 0;
      ok := false;
    }
    if result != MINA_ADDRESS_LEN - 1 {
      address[0] := 0;
      ok := false;
    }
    AddressLength(sha, pk);
  }

  /** The version bytes, the x-coordinate in little-endian order, and the parity of y. */
  method AddressBytes(x: field, y: field) returns (body: seq<byte>)
    ensures body == AddressBody(Compressed(x, FieldIsOdd(y)))
  {
    var payload := new byte[35](_ => 0);
    payload[0], payload[1] := 0x01, 0x01;
    for i := 0 to FIELD_BYTES
      invariant payload[0] == payload[1] == 1
      invariant forall j :: 2 <= j < i + 2 ==> payload[j] == x[FIELD_BYTES - (j - 2) - 1]
    {
      payload[i + 2] := x[FIELD_BYTES - i - 1];
    }
    payload[34] := if FieldIsOdd(y) then 1 else 0;
    body := [0xcb] + payload[..];
  }

  /** `validate_address`. `stack` is what its uninitialised buffer holds, and what it checks after a failed
      decode. */
  method ValidateAddress(address: seq<byte>, sha: Hash, stack: raw) returns (ok: bool)
    requires MINA_ADDRESS_LEN <= |address| || 0 in address
    ensures var n := StrNLen(address, MINA_ADDRESS_LEN);
      ok <==> n == MINA_ADDRESS_LEN - 1 && ChecksumOk(sha, DecodedOver(address[..n], stack))
  {
    if StrNLen(address, MINA_ADDRESS_LEN) != MINA_ADDRESS_LEN - 1 {
      return false;
    }
    var bytes := DecodeAddress(address, stack);
    ok := sha(sha(bytes[..36]))[..4] == bytes[36..];
  }

  /** `read_public_key_compressed`: nothing for a wrong length; the key of the decoded bytes, or of what its
      uninitialised buffer holds. */
  method ReadPublicKeyCompressed(out: Compressed, address: seq<byte>, stack: raw) returns (key: Compressed)
    requires MINA_ADDRESS_LEN <= |address| || 0 in address
    ensures var n := StrNLen(address, MINA_ADDRESS_LEN);
      key == if n == MINA_ADDRESS_LEN - 1 then KeyOf(DecodedOver(address[..n], stack)) else out
  {
    if StrNLen(address, MINA_ADDRESS_LEN) != MINA_ADDRESS_LEN - 1 {
      return out;
    }
    var bytes := DecodeAddress(address, stack);
    var x := ReadCoordinate(bytes);
    key := Compressed(x, bytes[35] != 0);
  }

  /** The decoded bytes, over an uninitialised buffer. */
  method DecodeAddress(address: seq<byte>, stack: raw) returns (bytes: raw)
    requires MINA_ADDRESS_LEN - 1 <= |address|
    ensures bytes == DecodedOver(address[..MINA_ADDRESS_LEN - 1], stack)
  {
    var buffer := new byte[ADDRESS_BYTES](i requires 0 <= i < ADDRESS_BYTES => stack[i]);
    assert buffer[..] == stack;
    var decoded, size := B58Decode(buffer, ADDRESS_BYTES, address, MINA_ADDRESS_LEN - 1);
    bytes := buffer[..];
  }

  /** The x-coordinate, back in big-endian order; payload[i] is bytes[i + 1]. */
  method ReadCoordinate(bytes: seq<byte>) returns (x: field)
    requires |bytes| == ADDRESS_BYTES
    ensures x == Reversed(bytes[3..35])
  {
    var out := new byte[FIELD_BYTES](_ => 0);
    for i := 2 to 34
      invariant forall c :: 34 - i <= c < FIELD_BYTES ==> out[c] == bytes[34 - c]
    {
      out[FIELD_BYTES - (i - 1)] := bytes[i + 1];
    }
    x := out[..];
  }
}
