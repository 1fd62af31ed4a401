# go-leb128 in Dafny

A model of the codec of `filecoin-project/go-leb128`. The codec implements
LEB128 (Little Endian Base 128), the variable-length integer coding of section
7.6 ("Variable Length Data") of the DWARF Debugging Information Format,
Version 4. Both halves of `leb128.go` are modelled:

- the unsigned 64-bit codec, `FromUInt64` and `ToUInt64`;
- the signed arbitrary-precision codec, `FromBigInt` and `ToBigInt`, with
  their helpers `twosComplementBigInt`, `signExtend` and `equalsNegativeOne`.

The Go functions work step by step, and so does the model. Each one is a
method with the same loops over the same state, proved against a reference
definition. The four codec functions are proved against the encoders and
decoders of `Leb128Spec`. The helpers are proved against `TwosComplement`
(in `Leb128`), `FillOnes` and `AllOnes` (in `Bits`). The codec's promises
are proved about those definitions. Those promises are the round trips, the shape and
minimal length of every encoding, and decoders that ignore what follows the
terminating byte.

Files and modules:

- `bits.dfy` (`Bits`): powers of two and Euclidean division facts. Also the
  bits of an unbounded two's-complement integer (`Bit`, `SetBit`, `AllOnes`,
  `FillOnes`) and Go's uint64 `|` and `<<` (`Or`, `Shl64`).
- `bignum.dfy` (`BigNum`): the part of `math/big` the codec calls. A
  `*big.Int` is a mutable object, so it is `class BigInt` with one `value: int`
  field. Each method used by the codec (`Set`, `DivMod`, `SetBit`, `Bytes`,
  `SetBytes`, `Add`, `Neg`) states its new value. `Bytes`/`SetBytes` are
  specified by big-endian byte strings (`ToBytesBE`, `FromBytesBE`).
- `leb128_spec.dfy` (`Leb128Spec`): the reference encoders and decoders
  `UEncode`, `UDecode`, `SEncode` and `SDecode`, with their lemmas.
- `leb128.dfy` (`Leb128`): the methods mirroring `leb128.go`, and the claims
  of `leb128_test.go` stated for every input.

How the Go code maps onto the model:

- A `byte` is an `int` in `0..255`. `b & 0x7F` is `b % 128`, and
  `b & 0x80 == 0` is `b < 128`. `b & 0x40 != 0` is `(b / 64) % 2 == 1`.
  `b | 0x80` on a byte below 128 is `b + 128`.
- A `uint64` is an `int` in `0 .. 2^64 - 1`.
- `FromBigInt` has no `modifies` clause. Dafny's frame rule therefore
  guarantees that its argument is unchanged. That is what
  `TestFromBigIntIsNotDestructive` checks.
- Dafny's `/` and `%` by a positive divisor round towards negative infinity.
  So `Bit(v, i) = (v / 2^i) % 2` is bit `i` of v's infinite two's-complement
  form, as in `math/big`.

## Model

| member | source | states |
|---|---|---|
| Leb128.FromUInt64 | leb128.go:43-56 | the bytes emitted are exactly the reference unsigned encoding `UEncode(n)` |
| Leb128Spec.UEncodeWellFormed | leb128.go:43-56 | every unsigned encoding has 0x80 set on all bytes but the last, which has it clear; the last byte is zero only when v = 0 |
| Leb128Spec.UEncodeValue | leb128.go:43-56 | the payloads of `UEncode(v)`, read low group first, sum to v |
| Leb128Spec.UEncodeLength | leb128.go:43-56 | `UEncode(v)` has k groups where 2^(7(k-1)) <= v < 2^(7k), or one group for v = 0 |
| Leb128Spec.UEncodeAtMostTen | leb128.go:43-56 | a uint64 encodes in one to ten bytes |
| Leb128Spec.UEncodeMinimal | leb128.go:43-56 | no well-formed byte string of fewer groups has the same value |
| Leb128Spec.UEncodeVectors | leb128_test.go:16-29 | the expected bytes of TestFromUInt64 for 0 to 5, 63, 64, 65, 100, 127, 128, 129 and 2141192192 |
| Leb128Spec.UEncodeMaxVector | leb128_test.go:30 | 2^64 - 1 encodes as nine 0xFF bytes followed by 0x01 |
| Leb128.ToUInt64 | leb128.go:59-72 | on input holding a byte with 0x80 clear, the result is the sum of the groups' payloads up to that byte, each shifted by 7i, reduced modulo 2^64 (`UDecode`) |
| Bits.OrShiftAccumulate | leb128.go:64 | ORing `uint64(b & 0x7F) << shift` into the bits read so far adds the shifted payload modulo 2^64, including shifts of 64 or more, which Go turns into 0 |
| Bits.OrDisjoint | leb128.go:64 | OR of two numbers occupying disjoint bit ranges is their sum |
| Leb128Spec.DecodeIgnoresTrailing | leb128.go:62-70 | appending bytes after the terminating byte changes neither the consumed groups nor the results of `UDecode` and `SDecode` |
| Leb128Spec.TerminatedIff | leb128.go:62-70 | the decoders' precondition holds exactly when some byte has 0x80 clear |
| Leb128Spec.WellFormedShape | leb128.go:43-56 | a single encoding is exactly a string whose bytes all have 0x80 set except the last |
| Leb128Spec.ValueSnoc | leb128.go:122-132 | appending a group adds its payload at bit offset 7 times the groups before it |
| Leb128Spec.ValueBound | leb128.go:122-132 | k groups hold a value below 2^(7k) |
| Leb128Spec.UDecodeUEncode | leb128.go:43-72 | decoding any unsigned encoding gives back the value modulo 2^64 |
| Leb128Spec.URoundTrip | leb128_test.go:41-51 | `ToUInt64(FromUInt64(v)) == v` for every uint64 v, on the reference functions |
| Leb128.UInt64RoundTrip | leb128_test.go:41-51 | the methods `FromUInt64` then `ToUInt64` give back v for every uint64 v |
| Leb128.TwosComplementIsModular | leb128.go:145-152 | for a magnitude a >= 1 of k bytes, the value built is the residue of -a modulo 2^(8k), strictly between 0 and 2^(8k) |
| Leb128.TwosComplementLow | leb128.go:145-152 | the value built agrees with -a on every width up to 8 times a's byte count |
| Leb128.TwosComplementBigInt | leb128.go:145-152 | from a fresh copy of the big-endian bytes of the magnitude a of n, all complemented, plus one, it returns a fresh object holding 2^(8k) - a, k the byte count; n is not modified |
| BigNum.BytesRoundTrip | leb128.go:146-150 | `SetBytes(Bytes(m))` is m |
| BigNum.FlipValue | leb128.go:147-150 | complementing every byte of an L-byte string maps its value x to 2^(8L) - 1 - x |
| BigNum.ByteLenBounds | leb128.go:146 | the big-endian bytes of m hold it without a leading zero byte: 2^(8(L-1)) <= m < 2^(8L) |
| BigNum.BitLenBounds | leb128.go:77 | `BitLen` is the number of binary digits: 2^(b-1) <= m < 2^b |
| Leb128.SignExtend | leb128.go:154-164 | sets to one the seven bits from size - 7 up (or bits 0 to 6 when size < 7), nothing else changes |
| Bits.FillOnesSucc | leb128.go:161-163 | setting the bit just above a field of ones grows the field by one |
| Bits.FillOnesBits | leb128.go:154-164 | after signExtend's fill, bits inside the field are one and every other bit is as before |
| Leb128.EqualsNegativeOne | leb128.go:168-175 | returns true exactly when bits 0 to size - 1 are all one |
| Bits.AllOnesBits | leb128.go:168-175 | the bit-by-bit scan and "low size bits are 2^size - 1" agree |
| Bits.SetBitBits | leb128.go:125 | `SetBit(v, i, b)` has bit i equal to b and every other bit unchanged |
| Leb128.FromBigInt | leb128.go:76-113 | the bytes emitted are exactly the reference signed encoding `SEncode(n)`; with no modifies clause, n is unchanged |
| Leb128.NegativeStart | leb128.go:77-82 | for a negative n, the two's complement computed first agrees with n on max(BitLen, 7) low bits |
| Leb128.NegativeStep | leb128.go:94-105 | for a negative n, one DivMod by 128 then signExtend keeps the working value in agreement with n shifted arithmetically; the group is that of the true value; equalsNegativeOne holds exactly when the true value has become -1 |
| Leb128.ShiftGroup | leb128.go:93-102 | the mask-and-shift half of FromBigInt's loop: w's new value is its quotient by 128, with the seven bits from size - 7 up set to one when n is negative; the group is the true value's low seven bits, and the working value keeps tracking the shifted true value |
| Leb128.StopTest | leb128.go:104-105 | with the working value as the shift leaves it, Go's stop test (w zero and 0x40 clear, or n negative, equalsNegativeOne true and 0x40 set) holds exactly when the shifted true value is 0 with 0x40 clear or -1 with 0x40 set, that is, exactly when the reference encoding has one group left |
| Leb128.IsLastGroup | leb128.go:104-105 | evaluated left to right with Go's short-circuit operators, the test returns exactly the stop condition of `StopTest` |
| Leb128.EncodeGroup | leb128.go:93-110 | one iteration of FromBigInt's loop: w's new value is the quotient by 128, sign-extended for a negative n; the byte emitted is the next byte of the reference encoding, and it is the last exactly when the reference encoding ends there |
| Leb128Spec.SEncodeWellFormed | leb128.go:104-110 | every signed encoding has 0x80 set on all bytes but the last, whose bit 0x40 is set exactly when v < 0 |
| Leb128Spec.SEncodeOneGroup | leb128.go:104-110 | exactly the values in [-64, 64) encode in one byte, which is v, or v + 128 when negative |
| Leb128Spec.SEncodeFits | leb128.go:76-113 | v lies in [-2^(7k-1), 2^(7k-1)), k the length of its encoding |
| Leb128Spec.SEncodeNoShorter | leb128.go:104-110 | an encoding of more than one group does not fit a group fewer |
| Leb128Spec.SEncodeMinimal | leb128.go:104-110 | no well-formed byte string that decodes to v is shorter than `SEncode(v)` |
| Leb128Spec.SDecodeFits | leb128.go:116-143 | a decoded k-group string lies in [-2^(7k-1), 2^(7k-1)) |
| Leb128Spec.FitsStep | leb128.go:89-111 | one more group in front of m groups multiplies the signed range by 128, in both directions |
| Leb128Spec.SEncodeSmallVectors | leb128_test.go:58-64 | the expected bytes of TestFromBigInt for 0 to 5 and 63 |
| Leb128Spec.SEncodeTwoGroupVectors | leb128_test.go:65-70 | the expected bytes of TestFromBigInt for 64, 65, 100, 127, 128 and 129 |
| Leb128Spec.SEncodeLongPositiveVector | leb128_test.go:71 | 2141192192 encodes as 0x80 0x80 0x80 0xFD 0x07 |
| Leb128Spec.SEncodeSmallNegativeVectors | leb128_test.go:73-79 | the expected bytes of TestFromBigInt for -1 to -5, -63 and -64 |
| Leb128Spec.SEncodeTwoGroupNegativeVectors | leb128_test.go:80-84 | the expected bytes of TestFromBigInt for -65, -100, -127, -128 and -129 |
| Leb128Spec.SEncodeNegativeTwoGroups | leb128_test.go:80-83 | every v in [-128, -64) encodes as v + 256 followed by 0x7F |
| Leb128Spec.SEncodeLongNegativeVector | leb128_test.go:85 | -624485 encodes as 0x9B 0xF1 0x59 |
| Leb128.ToBigInt | leb128.go:116-143 | on input holding a byte with 0x80 clear, the result is the reference signed decoding `SDecode` of the groups up to that byte |
| Leb128.SetGroupBits | leb128.go:124-126 | the seven SetBit calls for group i add its payload times 2^(7i) above the bits read so far |
| Leb128.PlaceBit | leb128.go:125 | one SetBit of payload bit bitPos of group i extends the bits placed so far by that bit |
| Leb128.ExtendStep | leb128.go:136-138 | each SetBit of the sign-extension loop lengthens the run of ones above the payload by one |
| Leb128.ExtendedLength | leb128.go:134-141 | after sign extension to len(encoded) * 8 bits the value has exactly len(encoded) bytes, and its two's complement is 2^(7k) minus the payload sum, so the negation is the payload sum minus 2^(7k) |
| Leb128Spec.SDecodeClosedForm | leb128.go:116-143 | the signed decoding is the sum of the k groups' payloads, minus 2^(7k) when the terminating group has 0x40 set |
| Leb128Spec.SRoundTrip | leb128_test.go:111-138 | `ToBigInt(FromBigInt(v)) == v` for every integer v, on the reference functions |
| Leb128.BigIntRoundTrip | leb128_test.go:111-138 | the methods `FromBigInt` then `ToBigInt` give back v for every integer v |
| Leb128.FromBigIntIsNotDestructive | leb128_test.go:97-109 | a copy of v taken before `FromBigInt(v)` still equals v afterwards, for every v |
| BigNum.BigInt.DivMod | leb128.go:94 | the quotient and the remainder are the Euclidean ones, so division by 128 of a non-negative value is the mask and the shift |
| BigNum.BigInt.SetBit | leb128.go:125 | the new value is the old one with bit i replaced by b |
| BigNum.BigInt.Bytes | leb128.go:146 | a fresh array holding the big-endian bytes of the magnitude of x, without leading zeros |
| BigNum.BigInt.SetBytes | leb128.go:150 | the new value is the big-endian value of the array |
| BigNum.BigInt.Set | leb128.go:85 | the new value is x's value |
| BigNum.BigInt.Add | leb128.go:151 | the new value is the sum |
| BigNum.BigInt.Neg | leb128.go:140 | the new value is the negation |
| BigNum.BigInt.constructor | leb128.go:117 | `big.NewInt(v)` holds v |
| BigNum.BigInt.Sign | leb128.go:78 | -1, 0 or +1 exactly when the value is negative, zero or positive |
| BigNum.BigInt.BitLen | leb128.go:77 | 0 exactly for zero; otherwise b with 2^(b-1) <= the magnitude < 2^b |
| BigNum.BigInt.Bit | leb128.go:170 | 0 or 1: bit i of the two's-complement form, read off the low i + 1 bits |

## Left out

- `bigPool` and `sync.Pool` (leb128.go:10-34, 93, 96) are an allocation cache
  with no effect on results. `ShiftGroup` allocates the remainder object
  directly.
- The cached package-level objects `one` and `oneTwentyEight` become objects
  allocated inside the methods that use them. Nothing writes to them either way.
- The internals of `math/big` are not modelled. A `big.Int` is one unbounded
  integer, and only the operations the codec calls are specified.
- The out-of-range panic on input with no byte that has 0x80 clear
  (leb128.go:63, 123) is a precondition, `requires Terminated(encoded)`, on
  `ToUInt64` and `ToBigInt`.
- Go's `int` and `uint` counters (`shift`, `i`, `size`, `7*i+bitPos`) are
  unbounded here. The first to overflow is `size := len(encoded) * 8`
  (leb128.go:120). On a 64-bit platform that needs more than 2^60 input
  bytes; on a 32-bit platform, more than 2^28 bytes.
- The loop bodies of `FromBigInt` and `ToBigInt` are split into the helper
  methods `EncodeGroup` (with `ShiftGroup` and `IsLastGroup`) and
  `SetGroupBits`. They make the same calls in the same order.
- main.go is command-line glue (argument switch, usage text, base64 input) and
  is not part of this model.
