# Verification of the Mina hardware-wallet core

This project models the part of the Mina wallet application that turns a 172-byte packet into a
signature: parsing and display, the choice of screens, packing into a random-oracle input, the Poseidon
hash, Jacobian arithmetic on the Pallas curve, Schnorr signing, and the Base58 addresses that tie a
transaction to a key.

Its main statement runs from the packet to the signature (`SignTx.ParseAndSign`): an accepted packet is
signed exactly when its source is the address of the account's key; the signature is over the packet's
transaction and verifies; and the texts in the display buffers (`ui_t`) read back to that transaction
exactly when the receiver's address decodes. `Flows` adds which of those buffers reach the screen:
delegations have no amount and no total, the expiry is left out when it is 2^32 - 1, the memo when it is
empty, and the network on mainnet. For payments the screens determine the transaction; for delegations,
everything but the amount.

`dafny verify dfyconfig.toml` checks everything.

## How it is organised

| file | contents |
|---|---|
| `ModArith.dfy`, `Fermat.dfy` | congruence, inverses by extended Euclid, Euclid's lemma, Fermat's little theorem |
| `Curve.dfy` | the affine law, the Jacobian formulas, and the refinement between them |
| `GroupLaw.dfy`, `Associativity.dfy`, `Multiples.dfy` | the affine law is an abelian group; multiples and orders |
| `Groups.dfy`, `ScalarMul.dfy` | the in-place point operations and double-and-add |
| `Schnorr.dfy`, `Pallas.dfy`, `Signing.dfy` | the verification equation, the constants, nonce, challenge and `sign` |
| `Positional.dfy`, `Base58.dfy`, `Addresses.dfy` | positional notation, the Base58 codec, addresses |
| `Numbers.dfy` | bit strings and byte strings as little-endian numbers |
| `PackedBits.dfy`, `RandomOracle.dfy`, `Messages.dfy`, `Transactions.dfy` | bit arrays, the random-oracle input, the two messages built from it, transactions |
| `Poseidon.dfy` | the sponge, its inverse permutation and the in-place operations |
| `Layout.dfy` | transaction, derivation message and sponge input read back at literal offsets |
| `Binding.dfy` | what the challenge and the nonce determine of a transaction |
| `Decimal.dfy`, `ParseTx.dfy` | number formatting and the packet parser |
| `SignTx.dfy`, `Flows.dfy` | signing a parsed packet, and the screens shown before |
| `Packets.dfy` | packets built from their contents, and what parser, display and screens make of them |

## What fixes the formats

A format is not only shown to be used consistently by writer and reader; it is fixed by statements that do
not name the functions it is computed with. Packets are built by `Packets.PacketOf`, and header, display,
transaction, acceptance and screens of such a packet are stated from its contents. `Layout` reads the 599
bits of a transaction, the 268 bytes hashed to the nonce and the nine elements of the sponge back as
numbers at literal offsets. Addresses decode to literal version bytes, key and double hash
(`Addresses.AddressBytesAre`). Displayed numbers are the only canonical texts in the characters
"0123456789" and "." that denote them (`Decimal.AmountTextIsCanonical`). Poseidon is described by runs of
63 rounds, written out element by element (`Poseidon.PermutationIsRun`, `Poseidon.AbsorptionEnds`).

## Hypotheses

The group law is proved, associativity included, for every curve y^2 = x^3 + b over a prime field of
more than three elements with b nonzero. Three numeric facts about Pallas are hypotheses of the
signature theorem, collected in `Signing.PallasGroup`: the field modulus is prime, the group order is
prime, and the group order times the generator is the point at infinity. Primality of the modulus is
also the hypothesis `Valid` of the curve lemmas and part of `Poseidon.Invertible`.

SHA-256, BLAKE2b-256, the BIP32 key derivation, the round keys and the initial sponge states are
arbitrary functions and tables; the SDK's `cx_math` operations are exact arithmetic modulo their
modulus. What uninitialised buffers hold is a parameter (`ParseTx.Stacks`).

## Properties that hold only conditionally

*Adding equal points.* `group_add` (`src/crypto.c:324`) recognises a doubling by comparing raw
coordinates. On two different representatives of one point it falls through to the general formula and
returns Z = 0. `Groups.MissedDoublingExists` gives such a pair for every finite point, and
`Pallas.GeneratorMissed` and `Pallas.GeneratorSumWrong` one for the generator. The exact condition is in
`Curves.Curve.AddRefinesPlus`: the projected result is the affine sum if and only if the operands are not
such a pair of a point with nonzero y. `affine_add` never meets the case because both operands have
Z = 1. Double-and-add first meets it where a set bit follows a prefix of the scalar whose double is 1
modulo the order of the point, unless the coordinates happen to coincide (`ScalarMul.MissedExactly`);
scalars below the order have no such prefix.

*What the challenge binds.* Addresses carry any 32-byte x-coordinate, and the sponge sees it modulo the
field modulus. Under one key and commitment, two transactions agree in the sponge exactly when they agree
in everything but the x-coordinates, and in those modulo the field modulus (`Binding.ChallengeBinding`);
adding the modulus to a reduced receiver gives another transaction with the same challenge
(`Binding.RaisedReceiverCollides`). With every coordinate below the modulus the transaction is
determined (`Binding.ChallengeBindsReduced`).

*What the nonce binds.* The derivation message drops bit 255 of each x-coordinate. For one key, two
transactions have the same derivation message exactly when they agree up to those bits
(`Binding.NonceBinding`); setting the bit of a receiver below 2^255 gives another transaction with the
same nonce (`Binding.MarkedReceiverCollides`). Coordinates below the modulus exclude this as well
(`Binding.NonceBindsReduced`).

*Shown is packed.* `validate_address` and `read_public_key_compressed` go on after a failed decode, with
whatever their buffers hold. The displayed texts read back to the packed transaction exactly when both
addresses decode (`ParseTx.ShownIsSigned`); `ParseTx.UndecodableReceiver` is an accepted packet for which
they do not. The amount of a delegation is packed and signed but not on any screen
(`Flows.DelegationHidesAmount`).

## Model

| member | source | states |
|---|---|---|
| Curves.Curve.PlusOnCurve | src/crypto.c:475-482 | the chord-and-tangent sum of curve points is on the curve, and is infinity exactly for opposite points |
| Curves.Curve.DblRefinesPlus | src/crypto.c:275-308 | doubling keeps every representative on the curve and projects to the affine doubling, points of order two included |
| Curves.Curve.AddRefinesPlus | src/crypto.c:312-358 | addition stays on the curve; a missed doubling gives Z = 0; the projection is the affine sum if and only if no doubling of a point with y nonzero was missed |
| Curves.Curve.EquationsAgree | src/crypto.c:394-425 | the affine and the Jacobian curve equation agree on every representative of a point |
| Curves.Curve.RepresentsUnique | src/crypto.c:446-460 | projecting any representative gives exactly the represented affine point |
| Groups.GroupDbl | src/crypto.c:275-308 | the in-place steps compute the doubling formula, for distinct result and operand |
| Groups.GroupAdd | src/crypto.c:312-358 | the in-place steps with their reused temporaries compute the addition with its three special cases |
| Groups.GroupIsOnCurve | src/crypto.c:394-425 | both branches, Z = 1 and general Z, decide the Jacobian curve equation |
| Groups.RescaleInvariant | src/crypto.c:275-425 | rescaling coordinates by (l^2, l^3, l) changes neither the curve test, nor the projection, nor the projected doubling |
| Groups.MissedDoublingExists | src/crypto.c:312-358 | every finite point has two representatives that `group_add` adds to Z = 0 instead of doubling |
| Groups.AffineToGroup | src/crypto.c:432-444 | (0, 0) becomes the canonical infinity and every other point gets Z = 1 |
| Groups.AffineFromGroup | src/crypto.c:446-460 | with one inversion it returns the projection of the point |
| Groups.AffineAdd | src/crypto.c:475-482 | on all pairs of curve points, infinity included, the result is the affine sum: no doubling is missed |
| Groups.AffineNegate | src/crypto.c:484-490 | returns the affine inverse, infinity included |
| Groups.AffineAddLaws | src/crypto.c:475-490 | addition is closed and commutative with identity (0, 0), and the negation is the only inverse |
| GroupLaw.PlusCommutes | src/crypto.c:475-482 | the affine law is commutative |
| GroupLaw.ToAffineOfToJacobian | src/crypto.c:432-460 | converting an affine point to Jacobian coordinates and back is the identity |
| Associativity.PlusMinus | src/crypto.c:475-490 | adding a point and then its negation cancels |
| Associativity.PlusAssociates | src/crypto.c:475-482 | the affine law is associative on all curve points |
| Multiples.TimesAdd | src/crypto.c:462-468 | [a + b] P is [a] P + [b] P |
| Multiples.TimesTimes | src/crypto.c:462-468 | [a b] P is [a] [b] P |
| Multiples.PrimeOrder | src/crypto.c:35-41 | a finite point killed by a prime has exactly that order |
| Multiples.TimesFixes | src/crypto.c:379-391 | [n] P = P exactly when n is 1 modulo the order of P |
| Multiples.OnlyOneFixes | src/crypto.c:379-391 | below the order of P, [n] P = P only for n = 1 |
| ScalarMul.GroupScalarMul | src/crypto.c:368-392 | the loop over 256 bits leaves in q the accumulator that doubles and adds from the most significant bit, with its two early exits |
| ScalarMul.AddStep | src/crypto.c:385-391 | adding P to a representative of [n] P misses the doubling exactly when n is 1 modulo the order and the coordinates differ, and otherwise gives [n + 1] P |
| ScalarMul.AccumulatorStep | src/crypto.c:379-391 | one bit takes a representative of [n] P to one of [2 n + bit] P exactly when the doubling is not missed, which happens only if 2 n is 1 modulo the order |
| ScalarMul.MissedExactly | src/crypto.c:368-392 | before any other miss, the loop misses a doubling at a set bit exactly when twice the prefix is 1 modulo the order and the coordinates differ, and only then leaves the multiple |
| ScalarMul.ScalarMulWithoutReturns | src/crypto.c:368-392 | for every 256-bit scalar without such a prefix the result represents [k] P |
| ScalarMul.ScalarMulCorrect | src/crypto.c:368-392 | for every curve point and every scalar below its order the result represents [k] P |
| ScalarMul.AffineScalarMul | src/crypto.c:462-468 | the affine wrapper computes the projection of that result |
| ScalarMul.ScalarTimesCorrect | src/crypto.c:462-468 | for affine points and scalars below the order it is [k] P |
| ScalarMul.PrefixIsLeading | src/crypto.c:380 | the bits read so far are the leading bits of the big-endian scalar, and all 256 are its value |
| Signing.MaskedBound | src/crypto.c:189-213 | a masked scalar is below 2^254, hence below both moduli |
| Signing.MaskedValue | src/crypto.c:189-213 | masking keeps exactly the low 254 bits: the value modulo 2^254 |
| Signing.MaskMargin | src/crypto.c:189-213 | every masked scalar stays below the field modulus by at least the margin the source states |
| Signing.ReverseInPlace | src/crypto.c:608-614 | swapping bytes from both ends up to the middle reverses the 32 bytes |
| Signing.MessageDerive | src/crypto.c:594-620 | the nonce is the masked, reversed hash of exactly the packed derivation bits; it fails exactly when they exceed 268 bytes |
| Signing.NonceValue | src/crypto.c:594-620 | the nonce's value is the little-endian hash of the packed derivation message modulo 2^254 |
| Layout.DerivationLayout | src/random_oracle_input.c:170-202 | the 268 bytes hashed for a transaction hold, at literal bit offsets, the three x-coordinates and the key's coordinates, the transaction's bits, the private key and the network |
| Layout.NonceLayout | src/crypto.c:594-620 | the nonce of a transaction is the low 254 bits of the little-endian hash of those bytes |
| Signing.MessageHash | src/crypto.c:622-637 | the challenge is the sponge digest of the hashed message fields, and it never fails when nine elements suffice |
| Layout.SpongeLayout | src/random_oracle_input.c:204-227 | the sponge absorbs nine numbers: three x-coordinates, the key's coordinates, rx, and the 599 bits as numbers of 254, 254 and 91 bits |
| Layout.ChallengeLayout | src/crypto.c:622-637 | the challenge is the first place of the sponge after those numbers, from the initial state of network 0 or 1 |
| Layout.SpongeSeesCommitment | src/crypto.c:622-637 | two commitments give the same final sponge state exactly when they are equal |
| Layout.SpongeSeesElement | src/crypto.c:622-637 | changing any one of the nine elements modulo the field modulus changes the final state |
| Signing.Sign | src/crypto.c:639-684 | rx is the x of the nonce point and s the response with the nonce negated for odd y; it fails exactly when the derivation message does not fit |
| Signing.OperandsReduced | src/crypto.c:639-684 | nonce, key, challenge and response are all below the group order |
| Signing.SignatureVerifies | src/crypto.c:639-684 | completeness: with pub = priv G, computing s G - e pub with the signer's own operations gives x-coordinate rx and an even y |
| Schnorr.SchnorrEquation | src/crypto.c:653-670 | in either branch of the nonce choice, s G - e pub is the commitment up to sign, with an even y |
| Schnorr.SchnorrComplete | src/crypto.c:653-670 | the same for double-and-add on byte strings, with the commitment and the key as points, in any subgroup of prime order |
| Base58.DivideBy58 | src/utils.c:41-48 | one pass divides the big-endian number by 58 in place, returns the remainder, and divides the leading byte by 58 |
| Base58.EmitDigits | src/utils.c:38-53 | at most two divisions per byte position, so the write index stays in range; the digits emitted have the value of the input |
| Base58.B58Encode | src/utils.c:22-67 | writes one '1' per leading zero byte and the canonical digits of the number, or reports failure and writes nothing |
| Base58.DigitsMapIsDigits | src/utils.c:75-84 | the decoder's 128-entry table is the digit function |
| Base58.TablesInverse | src/utils.c:12-84 | the alphabet and the digit table are inverse to each other |
| Base58.MultiplyAccumulate | src/utils.c:121-126 | one pass multiplies the 32-bit limbs by 58 and adds the digit, carry below 58 and intermediate below 2^64 |
| Base58.FitsBuffer | src/utils.c:127-132 | the two overflow tests on the limbs are exactly the test that the number fits the buffer |
| Base58.AccumulateLimbs | src/utils.c:109-133 | succeeds exactly on decodable texts, the early exits included, and then the limbs hold the number |
| Base58.StoreLimbs | src/utils.c:135-147 | the stored bytes have the value of the limbs, for every buffer size |
| Base58.B58Decode | src/utils.c:89-159 | succeeds exactly when all characters are in the alphabet and the number is below 256^binsz; the buffer then holds it big-endian and the size counts leading ones |
| Base58.EncodeThenDecode | src/utils.c:22-159 | decoding an encoding into a buffer of the original size restores every byte, leading zeros included, and reports that size |
| Base58.DecodeThenEncode | src/utils.c:22-159 | encoding a decoded text restores it when the reported size is the buffer size |
| Addresses.AddressRange | src/crypto.c:537-552 | 58^54 <= 0xcb 256^39 and 0xcc 256^39 <= 58^55 |
| Addresses.AddressLength | src/crypto.c:554-566 | every key's address has exactly 55 characters, for any hash function |
| Addresses.AddressRoundTrip | src/crypto.c:524-592 | an address validates and decodes to the x-coordinate and parity it was made from |
| Addresses.AddressInjective | src/crypto.c:524-567 | different compressed keys have different addresses |
| Addresses.AddressBytesAre | src/crypto.c:524-567 | an address decodes to 0xcb, 0x01, 0x01, the reversed x-coordinate, the parity, and the first four bytes of their double hash |
| Addresses.AddressDependsOnDoubleHash | src/crypto.c:546-552 | two hash functions give a key the same address exactly when those four bytes agree |
| Addresses.AcceptedExactly | src/crypto.c:580-592 | a decodable text is an address exactly when its last four bytes start the double hash of the first 36 |
| Addresses.KeyBytesAre | src/utils.c:276-288 | byte 34 - i of a raw address is byte i of the key's x-coordinate, and any nonzero byte 35 means odd |
| Addresses.ParityOfWord | src/crypto.c:183-186 | a field is odd exactly when its big-endian value is |
| Addresses.GenerateAddress | src/crypto.c:524-567 | succeeds exactly for a 56-byte buffer and then holds the address and a terminator |
| Addresses.ValidateAddress | src/crypto.c:569-592 | accepts exactly the texts of 55 characters whose decoded bytes, or what the buffer held if they do not decode, have a correct checksum |
| Addresses.ReadPublicKeyCompressed | src/utils.c:267-288 | the key of the decoded bytes, or of what the buffer held if they do not decode; nothing for a wrong length |
| PackedBits.PackedBitArraySet | src/utils.c:245-256 | updates exactly one bit of the array |
| RandomOracle.ROInput.AddField | src/random_oracle_input.c:12-24 | appends the byte-reversed field, or changes nothing when full |
| RandomOracle.ROInput.AddBit | src/random_oracle_input.c:26-36 | appends one bit, or changes nothing when full |
| RandomOracle.ROInput.AddScalar | src/random_oracle_input.c:40-58 | appends the 255 low bits of the scalar, least significant first, or changes nothing when full |
| RandomOracle.ROInput.AddBytes | src/random_oracle_input.c:60-79 | appends the bits of all bytes, or changes nothing when full |
| RandomOracle.ROInput.AddUint32 | src/random_oracle_input.c:81-91 | appends the 32 bits of the number, least significant first, or changes nothing when full |
| RandomOracle.ROInput.AddUint64 | src/random_oracle_input.c:93-103 | appends the 64 bits of the number, least significant first, or changes nothing when full |
| RandomOracle.ROInput.ToBytes | src/random_oracle_input.c:105-126 | overwrites exactly the bits of the output that the fields and the bit string need |
| RandomOracle.ROInput.ToFields | src/random_oracle_input.c:128-168 | writes the fields and then the bits in chunks of 254, and returns their exact count |
| Messages.PackingIsLossless | src/random_oracle_input.c:128-168 | fields and bits are recovered from the packed elements given the two lengths |
| Layout.ElementLayout | src/random_oracle_input.c:128-168 | the elements are the fields' little-endian values and, for bits in chunks of 254, the number of each chunk; their count is exact |
| Layout.ElementBit | src/random_oracle_input.c:145-165 | bit i is bit i % 254 of element i / 254 after the fields |
| Messages.ChunksAreReduced | src/random_oracle_input.c:145-165 | every packed chunk is below 2^254 |
| Messages.RoinputDeriveMessage | src/random_oracle_input.c:170-202 | writes exactly fields, public key, bits, 255-bit key and network byte, and returns the number of bytes |
| Messages.DeriveAgree | src/random_oracle_input.c:170-202 | for fixed lengths two derivation messages agree exactly when the bits and the network agree and every word agrees but for its top bit |
| Messages.DeriveInjective | src/random_oracle_input.c:170-202 | for fixed lengths and words below 2^255 the packed derivation message determines all its inputs |
| Messages.RoinputHashMessage | src/random_oracle_input.c:204-227 | writes the message fields, the key, rx and the packed bits when the output really has room for them |
| Messages.HashInjective | src/random_oracle_input.c:204-227 | for fixed lengths the hashed elements determine all their inputs |
| Transactions.TransactionToROInput | src/transaction.c:5-28 | with room for 3 fields and 75 bytes nothing is dropped: the input ends with exactly the transaction's fields and bits |
| Layout.TransactionLayout | src/transaction.c:14-27 | read at literal offsets, the 599 bits are fee, fee token, payer parity, nonce, expiry, memo, tag, parities, token, amount and lock, least significant bit first |
| Layout.WordLayout | src/transaction.c:10-12 | the three words are the x-coordinates of fee payer, source and receiver, least significant byte first |
| Transactions.TransactionInjective | src/transaction.c:5-28 | different transactions have different inputs |
| Transactions.DownstreamSizes | src/crypto.c:594-625 | every transaction yields exactly 268 derivation bytes and 9 hashed elements |
| Transactions.HashedTransactionInjective | src/transaction.c:5-28 | different transactions, keys or commitments give different sequences of 32-byte words for the sponge (not yet different residues) |
| Binding.ChallengeBinding | src/crypto.c:622-637 | the sponge inputs agree modulo the field modulus exactly when the transactions agree but for their x-coordinates, and those, the key and the commitment agree modulo the field modulus |
| Binding.ChallengeBindsReduced | src/crypto.c:622-637 | with all coordinates below the field modulus they agree exactly when transaction, key and commitment are equal |
| Binding.RaisedReceiverCollides | src/crypto.c:622-637 | adding the field modulus to a reduced receiver gives a different transaction with the same challenge |
| Binding.NonceBinding | src/crypto.c:594-620 | for one key the hashed derivation messages are equal exactly when network and transaction agree but for the top bits of the x-coordinates |
| Binding.NonceBindsReduced | src/crypto.c:594-620 | with coordinates below the field modulus they are equal exactly when transaction and network are |
| Binding.MarkedReceiverCollides | src/crypto.c:594-620 | setting the top bit of a receiver below 2^255 gives a different transaction with the same nonce |
| Transactions.TransactionPrepareMemo | src/transaction.c:30-41 | version byte, length, the text up to its terminator, and zeros |
| Packets.MemoHolds | src/transaction.c:30-41 | byte 0 is 1, byte 1 the length, then the text, then zeros |
| Transactions.MemoTextOfMemo | src/transaction.c:30-41 | the text is recovered from the memo |
| Fermat.LittleTheorem | src/poseidon.c:1457-1460 | a^(p - 1) = 1 modulo a prime p not dividing a |
| Fermat.PowerInverse | src/poseidon.c:1457-1460 | exponents with e d = 1 + k (p - 1) undo each other on all residues |
| Poseidon.MatrixMul | src/poseidon.c:1434-1454 | in place, the state becomes the matrix-vector product of the old state |
| Poseidon.PoseidonPermutation | src/poseidon.c:1466-1493 | in place, 63 full rounds and a final key addition |
| Poseidon.PermutationIsRun | src/poseidon.c:1466-1493 | a state is the permutation of another exactly when a run of 63 rounds leads there: keys 0 to 62 added, fifth powers, matrix rows, and key 63 added at the end |
| Poseidon.PermutationIsBijection | src/poseidon.c:1466-1493 | the permutation has a two-sided inverse on reduced states |
| Poseidon.PoseidonUpdate | src/poseidon.c:1508-1529 | absorbs the input pairwise, a last odd element alone |
| Poseidon.AbsorptionEnds | src/poseidon.c:1508-1529 | absorption ends in the last state of a run whose block i adds element 2 i to place 0 and element 2 i + 1, if any, to place 1, and permutes |
| Poseidon.AbsorbPairExact | src/poseidon.c:1513-1521 | two absorptions of a pair end in the same state exactly when s[0] + x, s[1] + y and s[2] agree modulo m |
| Poseidon.AbsorbPairAt | src/poseidon.c:1508-1529 | inputs that differ in one aligned pair end in the same state exactly when the pairs agree modulo m |
| Poseidon.AbsorbElement | src/poseidon.c:1508-1529 | changing one element, at any place of any input, keeps the final state exactly when it keeps the element modulo m |
| Poseidon.AbsorbConcat | src/poseidon.c:1508-1529 | absorbing a ++ b is absorbing a and then b when a has even length |
| Poseidon.AbsorbOdd | src/poseidon.c:1508-1529 | an odd-length input behaves as if one zero element were appended |
| Poseidon.AbsorbInjective | src/poseidon.c:1508-1529 | absorbing the same input never merges two states |
| Pallas.PallasPermutationInvertible | src/poseidon.c:1319-1380 | the mixing matrix has the given inverse and 5 an inverse exponent, so the permutation is invertible for any round keys |
| Pallas.GeneratorOnCurve | src/crypto.c:122-135 | the generator satisfies y^2 = x^3 + 5 |
| Pallas.GeneratorMissed | src/crypto.c:312-358 | a concrete second representative of the generator, on which `group_add` misses the doubling |
| Pallas.GeneratorSumWrong | src/crypto.c:312-358 | on that pair the projected result is not the affine sum |
| Decimal.MantissaLength | src/utils.c:176-183 | the predicted fraction length is that of the fraction without trailing zeros beyond one digit |
| Decimal.WriteAmount | src/utils.c:197-218 | the backward loop writes exactly the amount's text, ending on the first byte of the buffer |
| Decimal.AmountToString | src/utils.c:174-218 | the whole text and a terminator, or an empty string when they do not fit |
| Decimal.ValueToString | src/utils.c:220-243 | the whole text and a terminator, or failure with the buffer untouched |
| Decimal.ReadAmountText | src/utils.c:174-218 | reading a formatted amount gives the number back |
| Decimal.ReadValueText | src/utils.c:220-243 | reading a formatted value gives the number back |
| Decimal.AmountTextIsCanonical | src/utils.c:174-218 | the formatted amount is the only text of a value without superfluous zeros, a dot and one to nine numerals without superfluous final zeros that reads as that amount |
| Decimal.ValueTextIsCanonical | src/utils.c:220-243 | the formatted value is the only text of numerals without superfluous leading zeros that reads as that value |
| Decimal.AmountTextLength | src/utils.c:174-218 | every 64-bit amount and its terminator fit 22 bytes |
| ParseTx.ReadUint32Be | src/utils.c:161-164 | four bytes, big-endian |
| ParseTx.ReadUint64Be | src/utils.c:166-172 | eight bytes, big-endian |
| ParseTx.Parse | src/parse_tx.c:6-87 | accepts a packet exactly when it has 172 bytes, both addresses validate, amount + fee does not wrap, and tag and network are known; display, context and transaction are then those of the packet |
| Packets.ContentOfPacket | src/parse_tx.c:8-87 | the parser's fields of a packet built from given contents are those contents |
| Packets.PacketOfContent | src/parse_tx.c:8-87 | every packet is the one built from what the parser's fields read |
| Packets.PacketAccepted | src/parse_tx.c:8-87 | contents are accepted exactly when both texts hash correctly, amount + fee is below 2^64, the tag is 0 or 4 and the network 0 or 1; account, tag and network are those put in |
| Packets.DisplayOfPacket | src/parse_tx.c:15-71 | the display shows the addresses, the amount, fee, their sum, nonce and expiry put in, and the memo up to its first zero byte |
| Packets.TransactionOfPacket | src/parse_tx.c:20-81 | the packed transaction holds the fields put in, token 1 for fee and amount, no lock, tag bit 2 for delegations, and the memo with its version and length |
| ParseTx.DecodableIsDetermined | src/parse_tx.c:6-87 | with decodable addresses the outcome does not depend on uninitialised buffers: both checksums decide, and the keys are those of the addresses |
| ParseTx.UndecodableReceiver | src/parse_tx.c:27-33 | a receiver outside the alphabet is accepted if the buffers hold a key's raw address; that key is packed, and the display does not read back to it |
| ParseTx.ShownIsSigned | src/parse_tx.c:6-87 | every displayed text reads back to the field that is packed, the total to the unwrapped sum, and the addresses to the keys, exactly when both addresses decode |
| SignTx.SignTransaction | src/sign_tx.c:14-62 | signs exactly when the displayed source is the address of the account's key, and then signs the packed transaction |
| SignTx.SignedIsShown | src/sign_tx.c:14-62 | when the source is the key's address, the signature is over the packet's transaction, whose source and fee payer are that key, and it verifies |
| SignTx.KeypairValue | src/crypto.c:499-520 | the private key is the derived secret modulo 2^254, and the public key that multiple of the generator |
| SignTx.ParseAndSign | src/sign_tx.c:14-62 | end to end: a packet is signed exactly when it is accepted and its source is the account's address; the signature then verifies over its transaction, and the display reads back to it exactly when the receiver decodes |
| Flows.FlowIsUniform | src/sign_tx.c:232-489 | the sixteen static flows, as indexed, are one flow with optional steps |
| Flows.FlowSteps | src/sign_tx.c:232-489 | amount and total are shown for payments only, the network on testnet only, expiry and memo when present |
| Packets.ScreensOfPacket | src/sign_tx.c:110-232 | the screens of a packet, in order, with their titles and texts, from its network, tag, expiry and display |
| Flows.HandleSignTx | src/sign_tx.c:492-527 | an accepted packet runs the flow of its network, type, expiry and memo, over its display; any other packet runs none |
| Flows.ScreensDetermine | src/sign_tx.c:492-527 | two accepted packets have the same screens exactly when they agree on tag, network, addresses, fee, nonce, expiry and memo and, for a payment, on the amount |
| Flows.ScreensDetermineTransaction | src/sign_tx.c:492-527 | equal screens mean equal transactions, up to the amount of a delegation, for the same contents of uninitialised buffers |
| Flows.DelegationHidesAmount | src/sign_tx.c:492-527 | replacing the amount of a delegation changes the packed transaction but no screen |

## Left out

- Signing.PallasGroup: primality of the two moduli and the order of the generator are hypotheses, not proved.
- Curve, group and sponge members: field elements are integers here; the modular arithmetic of the SDK on byte arrays is taken as exact, also for unreduced operands. A comment at src/crypto.c:169 says that it expects operands below the modulus, so it may refuse packets whose x-coordinates are not reduced.
- Base58.B58Encode: lengths 83 to 164 are excluded. There the source starts writing outside its 164-byte buffer, or wraps its 8-bit index below 0 and then does; the application uses 40.
- Base58.B58Decode: an empty output buffer is excluded, as the source then declares an array of length zero, which C leaves undefined.
- Base58.DigitsMapIsDigits: the table is written as rows of sixteen entries instead of one row of 128.
- Messages.RoinputHashMessage: the room of the output is a precondition, because the length the source passes is in bytes and not in elements.
- Signing.MessageHash: the branch for a failed packing is not modelled, as it cannot be reached with the preconditions.
- Transactions.HashedTransactionInjective: speaks about byte strings; what the sponge distinguishes is in Binding.ChallengeBinding.
- Flows.HandleSignTx: titles and static texts are strings, icons and layout are left out, and so are the user's approval or rejection and the flow of the on-device unit tests; an error is an empty flow.
- SHA-256, BLAKE2b, BIP32 derivation, round keys and sponge initial values: arbitrary functions and tables.
- `affine_is_on_curve`, `affine_eq` and the unused `scalar_pow`, `scalar_sub`, `scalar_sq`: one-line wrappers around functions that are modelled or around one SDK call.
- Partial writes to the transaction and the display after a rejected packet: only accepted packets are described.
- The APDU loop, transport, exceptions and clearing of secrets from memory: not part of the model.
