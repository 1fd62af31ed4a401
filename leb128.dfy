/** The codec of leb128.go, operation by operation: the same loops over the
    same state, each method proved against the reference definitions of
    module Leb128Spec. A *big.Int is a BigInt object; the methods that take
    one and have no modifies clause cannot change it. */
module Leb128 {
  import opened Bits
  import opened BigNum
  import opened Leb128Spec

  // ---------------------------------------------------------------------
  // Unsigned 64-bit codec
  // ---------------------------------------------------------------------

  /** FromUInt64: seven bits at a time, low group first, 0x80 on all but the last. */
  method FromUInt64(n: u64) returns (out: seq<byte>)
    ensures out == UEncode(n)
  {
    var rest: nat := n;
    var more := true;
    out := [];
    while more
      invariant more ==> out + UEncode(rest) == UEncode(n)
      invariant !more ==> out == UEncode(n)
      decreases more, rest
    {
      ghost var before := rest;
      var b: byte := rest % 128;
      rest := rest / 128;
      if rest == 0 {
        more := false;
        assert UEncode(before) == [b];
      } else {
        b := b + 128;  // b | 0x80, as b < 128
        assert UEncode(before) == [b] + UEncode(rest);
        AppendGroup(out, b, UEncode(rest));
      }
      out := out + [b];
    }
  }

  /** Emitting one group moves it from the encoding still to come to the output. */
  lemma AppendGroup(out: seq<byte>, b: byte, rest: seq<byte>)
    ensures out + ([b] + rest) == (out + [b]) + rest
  {
  }

  /** ToUInt64: ORs each group's payload in at offset 7 * i until the first byte
      with 0x80 clear; what does not fit in 64 bits is lost. */
  method ToUInt64(encoded: seq<byte>) returns (result: u64)
    requires Terminated(encoded)
    ensures result == UDecode(encoded)
  {
    result := 0;
    var shift: nat, i: nat := 0, 0;
    while true
      invariant i <= Term(encoded)
      invariant shift == 7 * i
      invariant result == Value(encoded[..i]) % TWO64
      decreases Term(encoded) - i
    {
      var b := encoded[i];
      ValueBound(encoded[..i]);
      OrShiftAccumulate(Value(encoded[..i]), Payload(b), shift);
      ValueSnoc(encoded[..i], b);
      assert encoded[..i + 1] == encoded[..i] + [b];
      result := Or(result, Shl64(b % 128, shift));
      if b < 128 {
        break;
      }
      shift := shift + 7;
      i := i + 1;
    }
  }

  // ---------------------------------------------------------------------
  // Signed arbitrary-precision codec
  // ---------------------------------------------------------------------

  /** The value twosComplementBigInt computes from the magnitude a: its bytes
      complemented, plus one. */
  function TwosComplement(a: nat): nat
  {
    ByteLenBounds(a);
    Pow2(8 * ByteLen(a)) - a
  }

  /** For a >= 1 the result is -a in two's complement over a's whole bytes:
      the residue of -a modulo 2^(8 * ByteLen(a)), never zero. */
  lemma TwosComplementIsModular(a: nat)
    requires a >= 1
    ensures TwosComplement(a) == (-(a as int)) % Pow2(8 * ByteLen(a))
    ensures 0 < TwosComplement(a) < Pow2(8 * ByteLen(a))
  {
    ByteLenBounds(a);
    var M := Pow2(8 * ByteLen(a));
    DivModUnique(-(a as int), M, -1, M - a);
  }

  /** twosComplementBigInt(n): flips a fresh copy of |n|'s bytes and adds one. */
  method TwosComplementBigInt(n: BigInt) returns (r: BigInt)
    ensures fresh(r) && r.value == TwosComplement(Abs(n.value))
  {
    var absValBytes := n.Bytes();
    ghost var bytes := absValBytes[..];
    for i := 0 to absValBytes.Length
      invariant forall j :: 0 <= j < i ==> absValBytes[j] == 255 - bytes[j]
      invariant forall j :: i <= j < absValBytes.Length ==> absValBytes[j] == bytes[j]
    {
      absValBytes[i] := 255 - absValBytes[i];  // ^b
    }
    assert absValBytes[..] == Flip(bytes);
    FlipValue(bytes);
    BytesRoundTrip(Abs(n.value));
    var bitsFlipped := new BigInt(0);
    bitsFlipped.SetBytes(absValBytes);
    var one := new BigInt(1);
    bitsFlipped.Add(bitsFlipped, one);
    r := bitsFlipped;
  }

  /** Lowest bit that signExtend sets: size - 7, or 0 when size < 7. */
  function ExtendFrom(size: nat): nat
  {
    if size < 7 then 0 else size - 7
  }

  /** signExtend(n, size): sets the seven bits from ExtendFrom(size) up, the bits
      an arithmetic right shift by seven would have filled with ones. */
  method SignExtend(n: BigInt, size: nat)
    modifies n
    ensures n.value == FillOnes(old(n.value), ExtendFrom(size), 7)
  {
    var bitPos: int := size - 7;
    var max: int := size;
    if bitPos < 0 {
      bitPos := 0;
      max := 7;
    }
    while bitPos < max
      invariant ExtendFrom(size) <= bitPos <= max == ExtendFrom(size) + 7
      invariant n.value == FillOnes(old(n.value), ExtendFrom(size), bitPos - ExtendFrom(size))
    {
      FillOnesSucc(old(n.value), ExtendFrom(size), bitPos - ExtendFrom(size));
      n.SetBit(bitPos, 1);
      bitPos := bitPos + 1;
    }
  }

  /** equalsNegativeOne(n, size): whether the low `size` bits of n are all ones. */
  method EqualsNegativeOne(n: BigInt, size: nat) returns (r: bool)
    ensures r <==> forall i :: 0 <= i < size ==> n.Bit(i) == 1
    ensures r <==> AllOnes(n.value, size)
  {
    AllOnesBits(n.value, size);
    for i := 0 to size
      invariant forall j :: 0 <= j < i ==> n.Bit(j) == 1
    {
      if !(n.Bit(i) == 1) {
        return false;
      }
    }
    assert forall j :: 0 <= j < size ==> Bit(n.value, j) == 1 by {
      forall j | 0 <= j < size
        ensures Bit(n.value, j) == 1
      {
        assert n.Bit(j) == 1;
      }
    }
    return true;
  }

  /** Width over which FromBigInt's working value agrees with the true shift of a
      negative input: the bit length, but at least one group. */
  function Window(size: nat): nat
  {
    if size < 7 then 7 else size
  }

  /** A negative input starts its working value as -n over its whole bytes, which
      agrees with n on Window(size) bits. */
  lemma NegativeStart(v: int, size: nat)
    requires v < 0 && size == BitLength(-v)
    ensures 1 <= size && 0 < v + Pow2(size)
    ensures TwosComplement(Abs(v)) % Pow2(Window(size)) == v % Pow2(Window(size))
  {
    var a := -v;
    assert 1 <= size && a < Pow2(size) by {
      BitLenBounds(a);
    }
    assert Window(size) <= 8 * ByteLen(a) by {
      BitLenWithinBytes(a);
    }
    TwosComplementLow(a, Window(size));
  }

  /** The two's complement of a agrees with -a on every width up to a's bytes. */
  lemma TwosComplementLow(a: nat, t: nat)
    requires t <= 8 * ByteLen(a)
    ensures TwosComplement(a) % Pow2(t) == (-(a as int)) % Pow2(t)
  {
    var L := ByteLen(a);
    var P, K := Pow2(t), Pow2(8 * L - t);
    assert TwosComplement(a) == -(a as int) + K * P by {
      Pow2Split(8 * L, t);
    }
    DivModAddMultiple(-(a as int), K, P);
  }

  /** One iteration of FromBigInt on a negative input. If the working value w
      agrees with the true value on Window(size) bits, then after the mask, the
      shift and signExtend it still does, now for the true value shifted right
      by seven; the low group is the true value's, the working value is never
      zero and its low size bits are all ones exactly when the true value has
      become -1. */
  lemma NegativeStep(w: int, ideal: int, size: nat)
    requires 1 <= size && 0 < ideal + Pow2(size) && ideal < 0
    requires w % Pow2(Window(size)) == ideal % Pow2(Window(size))
    ensures w % 128 == ideal % 128
    ensures var w' := FillOnes(w / 128, ExtendFrom(size), 7);
      w' != 0 && w' % Pow2(Window(size)) == (ideal / 128) % Pow2(Window(size)) &&
      (AllOnes(w', size) <==> ideal / 128 == -1)
    ensures 0 < ideal / 128 + Pow2(size) && ideal / 128 < 0
  {
    if size < 7 {
      Pow2Values();
      NegativeStepShort(w, ideal, size);
    } else {
      NegativeStepLong(w, ideal, size);
    }
  }

  /** One iteration of FromBigInt on a negative input when the bit length is
      below one group: after the shift the true value is -1 and signExtend
      makes the low seven bits all ones. */
  lemma NegativeStepShort(w: int, ideal: int, size: nat)
    requires 1 <= size < 7 && 0 < ideal + Pow2(size) && ideal < 0
    requires w % 128 == ideal % 128
    ensures var w' := FillOnes(w / 128, 0, 7);
      w' != 0 && w' % 128 == (ideal / 128) % 128 && AllOnes(w', size) && ideal / 128 == -1
  {
    Pow2Values();
    Pow2Le(size, 6);
    DivModUnique(ideal, 128, -1, ideal + 128);
    var w' := FillOnes(w / 128, 0, 7);
    FillOnesLow(w / 128, 0, 7);
    assert w' % 128 == 127;
    LowOnes(size);
    ModPow2Nested(w', size, 7);
  }

  /** Seven ones read on fewer than seven bits are all ones. */
  lemma LowOnes(size: nat)
    requires size <= 7
    ensures 127 % Pow2(size) == Pow2(size) - 1
  {
    Pow2Values();
    var M, Q := Pow2(size), Pow2(7 - size);
    Pow2Add(size, 7 - size);
    MulSubDistrib(Q, 1, M);
    DivModUnique(127, M, Q - 1, M - 1);
  }

  /** One iteration of FromBigInt on a negative input of at least seven bits:
      the shift keeps the low size - 7 bits of the true value, and signExtend
      supplies the seven ones above them. */
  lemma NegativeStepLong(w: int, ideal: int, size: nat)
    requires 7 <= size && 0 < ideal + Pow2(size) && ideal < 0
    requires w % Pow2(size) == ideal % Pow2(size)
    ensures w % 128 == ideal % 128
    ensures var w' := FillOnes(w / 128, size - 7, 7);
      w' != 0 && w' % Pow2(size) == (ideal / 128) % Pow2(size) &&
      (AllOnes(w', size) <==> ideal / 128 == -1)
    ensures 0 < ideal / 128 + Pow2(size) && ideal / 128 < 0
  {
    var k := ShiftKeepsLow(w, ideal, size);
    ShiftedBounds(ideal, size);
    ExtendedLowValue(w / 128, ideal / 128, k, size);
    ExtendedLow(FillOnes(w / 128, size - 7, 7), ideal / 128, size);
  }

  /** A value in [-2^size, 0) shifted right by seven lies in [-2^(size - 7), 0). */
  lemma ShiftedBounds(ideal: int, size: nat)
    requires 7 <= size && 0 < ideal + Pow2(size) && ideal < 0
    ensures 0 <= ideal / 128 + Pow2(size - 7) && ideal / 128 < 0
  {
    Pow2Values();
    Pow2Add(7, size - 7);
    DivModSplit(ideal, 128);
  }

  /** Shifting right by seven keeps the agreement on size - 7 bits: whatever
      multiple of 2^size separates w from the true value becomes a multiple of
      2^(size - 7). */
  lemma ShiftKeepsLow(w: int, ideal: int, size: nat) returns (k: int)
    requires 7 <= size && w % Pow2(size) == ideal % Pow2(size)
    ensures w % 128 == ideal % 128
    ensures w / 128 == ideal / 128 + k * Pow2(size - 7)
  {
    Pow2Values();
    var M, P := Pow2(size), Pow2(size - 7);
    Pow2Add(7, size - 7);
    ModPow2Nested(w, 7, size);
    ModPow2Nested(ideal, 7, size);
    DivModSplit(w, M);
    DivModSplit(ideal, M);
    k := w / M - ideal / M;
    MulSubDistrib(w / M, ideal / M, M);
    assert w == ideal + k * M;
    MulSwap(k, P, 128);
    DivModAddMultiple(ideal, k * P, 128);
  }

  /** A working value whose low size bits are those of e, in [-2^(size - 7), 0),
      is nonzero, and those bits are all ones exactly when e is -1. */
  lemma ExtendedLow(x: int, e: int, size: nat)
    requires 7 <= size && 0 <= e + Pow2(size - 7) && e < 0
    requires x % Pow2(size) == Pow2(size) + e
    ensures x % Pow2(size) == e % Pow2(size) && x != 0 && (AllOnes(x, size) <==> e == -1)
    ensures 0 < e + Pow2(size)
  {
    var M := Pow2(size);
    Pow2Values();
    Pow2Add(7, size - 7);
    DivModUnique(e, M, -1, e + M);
    DivModUnique(0, M, 0, 0);
  }

  /** signExtend on q = e + k * 2^(size - 7), with e the true shifted value: the
      low size bits become those of e. */
  lemma ExtendedLowValue(q: int, e: int, k: int, size: nat)
    requires 7 <= size && 0 <= e + Pow2(size - 7) && e < 0 && q == e + k * Pow2(size - 7)
    ensures FillOnes(q, size - 7, 7) % Pow2(size) == Pow2(size) + e
    ensures Pow2(size - 7) < Pow2(size)
  {
    Pow2Values();
    var P := Pow2(size - 7);
    Pow2Add(7, size - 7);
    FillOnesLow(q, size - 7, 7);
    DivModAddMultiple(e, k, P);
    DivModUnique(e, P, -1, e + P);
  }

  /** FromBigInt's working value w tracks the true value `ideal` (n shifted
      right arithmetically so far): equal to it for a non-negative n; for a
      negative n, agreeing with it on Window(size) bits while it stays in
      [-2^size, 0). */
  ghost predicate Tracks(w: int, ideal: int, negative: bool, size: nat)
  {
    (negative <==> ideal < 0) &&
    (!negative ==> w == ideal) &&
    (negative ==> 1 <= size && 0 < ideal + Pow2(size) &&
                  w % Pow2(Window(size)) == ideal % Pow2(Window(size)))
  }

  /** FromBigInt: two's complement for a negative n, then repeated DivMod by 128
      (a logical shift) with signExtend restoring the sign bits, stopping once
      the rest is all zeros or all ones and bit 0x40 of the group agrees. */
  method FromBigInt(n: BigInt) returns (out: seq<byte>)
    ensures out == SEncode(n.value)
  {
    var size := n.BitLen();
    var negative := n.Sign() < 0;
    var w: BigInt;
    if negative {
      NegativeStart(n.value, size);
      w := TwosComplementBigInt(n);
    } else {
      w := new BigInt(0);
      w.Set(n);
    }
    var oneTwentyEight := new BigInt(128);
    ghost var ideal := n.value;
    var more := true;
    out := [];
    while more
      invariant fresh(w) && oneTwentyEight != w && oneTwentyEight.value == 128
      invariant Tracks(w.value, ideal, negative, size)
      invariant more ==> out + SEncode(ideal) == SEncode(n.value)
      invariant !more ==> out == SEncode(n.value)
      decreases more, |SEncode(ideal)|
    {
      ghost var rest := ideal / 128;
      var b, last := EncodeGroup(w, oneTwentyEight, negative, size, ideal);
      if last {
        more := false;
      } else {
        AppendGroup(out, b, SEncode(rest));
      }
      out := out + [b];
      ideal := rest;
    }
  }

  /** The body of FromBigInt's loop: shift the low group off w, decide with
      Go's stop test whether it is the last, and set 0x80 if it is not. The
      group emitted is the next byte of the reference encoding of `ideal`, and
      the encoding ends there exactly when the stop test holds. */
  method EncodeGroup(w: BigInt, oneTwentyEight: BigInt, negative: bool, size: nat, ghost ideal: int)
    returns (b: byte, last: bool)
    requires oneTwentyEight != w && oneTwentyEight.value == 128
    requires Tracks(w.value, ideal, negative, size)
    modifies w
    ensures w.value == if negative then FillOnes(old(w.value) / 128, ExtendFrom(size), 7) else old(w.value) / 128
    ensures Tracks(w.value, ideal / 128, negative, size)
    ensures last ==> SEncode(ideal) == [b]
    ensures !last ==> SEncode(ideal) == [b] + SEncode(ideal / 128) && |SEncode(ideal / 128)| < |SEncode(ideal)|
  {
    b := ShiftGroup(w, oneTwentyEight, negative, size, ideal);
    last := IsLastGroup(w, b, negative, size);
    StopTest(w.value, ideal, negative, size, b);
    if !last {
      b := b + 128;  // b | 0x80, as b < 128
    }
  }

  /** The first half of FromBigInt's loop body: DivMod by 128 takes off the low
      group, and for a negative n signExtend turns the logical shift into an
      arithmetic one. The group is the true value's, the working value keeps
      tracking the shifted true value, and for a negative n it is never zero
      and has its low size bits all ones exactly when the true value is -1. */
  method ShiftGroup(w: BigInt, oneTwentyEight: BigInt, negative: bool, size: nat, ghost ideal: int)
    returns (b: byte)
    requires oneTwentyEight != w && oneTwentyEight.value == 128
    requires Tracks(w.value, ideal, negative, size)
    modifies w
    ensures w.value == if negative then FillOnes(old(w.value) / 128, ExtendFrom(size), 7) else old(w.value) / 128
    ensures b == ideal % 128 && Tracks(w.value, ideal / 128, negative, size)
    ensures negative ==> w.value != 0 && (AllOnes(w.value, size) <==> ideal / 128 == -1)
  {
    ghost var before := w.value;
    var bBigInt := new BigInt(0);
    w.DivMod(w, oneTwentyEight, bBigInt);  // the mask and the shift
    b := bBigInt.value;
    if negative {
      NegativeStep(before, ideal, size);
      SignExtend(w, size);
    }
  }

  /** FromBigInt's stop test on the working value w after the shift and the
      group b: w is zero and b's bit 0x40 is clear, or the input is negative, the
      low size bits of w are all ones and b's bit 0x40 is set. */
  predicate GoStop(w: int, b: byte, negative: bool, size: nat)
  {
    (w == 0 && !SignBitSet(b)) || (negative && AllOnes(w, size) && SignBitSet(b))
  }

  /** The stop test of FromBigInt, evaluated as Go's `||` and `&&` do: the scan
      of equalsNegativeOne runs only when the first disjunct fails and n is
      negative. */
  method IsLastGroup(w: BigInt, b: byte, negative: bool, size: nat) returns (stop: bool)
    ensures stop == GoStop(w.value, b, negative, size)
  {
    stop := w.Sign() == 0 && !SignBitSet(b);
    if !stop && negative {
      var allOnes := EqualsNegativeOne(w, size);
      stop := allOnes && SignBitSet(b);
    }
  }

  /** With w tracking the shifted true value as ShiftGroup leaves it, FromBigInt
      stops exactly when the reference encoding of the value before the shift
      has a single group left. */
  lemma StopTest(w: int, ideal: int, negative: bool, size: nat, b: byte)
    requires b == ideal % 128 && Tracks(w, ideal / 128, negative, size)
    requires negative ==> w != 0 && (AllOnes(w, size) <==> ideal / 128 == -1)
    ensures GoStop(w, b, negative, size) <==>
      (ideal / 128 == 0 && !SignBitSet(b)) || (ideal / 128 == -1 && SignBitSet(b))
    ensures GoStop(w, b, negative, size) <==> |SEncode(ideal)| == 1
  {
    var rest := ideal / 128;
    if negative {
      assert rest < 0 && w != 0;
      assert GoStop(w, b, negative, size) <==> rest == -1 && SignBitSet(b);
    } else {
      assert rest >= 0 && w == rest;
    }
    SEncodeLength(ideal);
  }

  /** One group exactly when the rest after it is 0 with bit 0x40 clear, or -1
      with bit 0x40 set. */
  lemma SEncodeLength(v: int)
    ensures |SEncode(v)| == 1 <==>
      (v / 128 == 0 && !SignBitSet(v % 128)) || (v / 128 == -1 && SignBitSet(v % 128))
  {
  }

  /** ToBigInt: places each payload bit with SetBit up to the first byte with 0x80
      clear; if that byte has 0x40 set, fills ones up to len(encoded) * 8 bits,
      takes the two's complement and negates. */
  method ToBigInt(encoded: seq<byte>) returns (result: BigInt)
    requires Terminated(encoded)
    ensures fresh(result) && result.value == SDecode(encoded)
  {
    result := new BigInt(0);
    var shift: nat, i: nat := 0, 0;
    var b: byte := 0;
    var size := |encoded| * 8;
    while true
      invariant fresh(result)
      invariant i <= Term(encoded)
      invariant shift == 7 * i
      invariant result.value == Value(encoded[..i])
      decreases Term(encoded) - i
    {
      b := encoded[i];
      ValueBound(encoded[..i]);
      SetGroupBits(result, b, i);
      ValueSnoc(encoded[..i], b);
      assert encoded[..i + 1] == encoded[..i] + [b];
      assert result.value == Value(encoded[..i + 1]);
      shift := shift + 7;
      if b < 128 {
        break;
      }
      i := i + 1;
    }
    assert i == Term(encoded) && Group(encoded) == encoded[..i + 1];
    assert result.value == Value(Group(encoded));
    SDecodeClosedForm(encoded);
    if SignBitSet(b) {
      ghost var u, g := result.value, 7 * (i + 1);
      ValueBound(encoded[..i + 1]);
      assert u < Pow2(g) && shift == g && g <= 7 * |encoded| && size == |encoded| * 8;
      while shift < size
        invariant g <= shift <= size
        invariant fresh(result)
        invariant result.value == u + Pow2(shift) - Pow2(g)
      {
        ExtendStep(u, g, shift, result.value);
        result.SetBit(shift, 1);
        shift := shift + 1;
      }
      ExtendedLength(u, g, |encoded|, result.value);
      result := TwosComplementBigInt(result);
      result.Neg(result);
      assert result.value == u - Pow2(g);
    }
  }

  /** The inner loop of ToBigInt: the seven payload bits of group i, placed one
      by one with SetBit above the groups already read. */
  method SetGroupBits(result: BigInt, b: byte, i: nat)
    requires 0 <= result.value < Pow2(7 * i)
    modifies result
    ensures result.value == old(result.value) + Payload(b) * Pow2(7 * i)
  {
    ghost var low := result.value;
    for bitPos := 0 to 7
      invariant result.value == low + (b % Pow2(bitPos)) * Pow2(7 * i)
    {
      PlaceBit(low, b, i, bitPos, result.value);
      result.SetBit(7 * i + bitPos, Bit(b, bitPos));  // (b >> bitPos) & 0x01
    }
    Pow2Values();
  }

  /** Setting bit `shift` of u + 2^shift - 2^g, a run of ones above u, lengthens
      the run by one. */
  lemma ExtendStep(u: nat, g: nat, shift: nat, v: int)
    requires u < Pow2(g) && g <= shift && v == u + Pow2(shift) - Pow2(g)
    ensures Bits.SetBit(v, shift, 1) == u + Pow2(shift + 1) - Pow2(g)
  {
    Pow2Le(g, shift);
    BitOfSmall(v, shift);
  }

  /** Placing bit bitPos of group i when the bits built so far are below it. */
  lemma PlaceBit(low: nat, b: byte, i: nat, bitPos: nat, cur: int)
    requires low < Pow2(7 * i) && bitPos < 7
    requires cur == low + (b % Pow2(bitPos)) * Pow2(7 * i)
    ensures Bits.SetBit(cur, 7 * i + bitPos, Bit(b, bitPos)) == low + (b % Pow2(bitPos + 1)) * Pow2(7 * i)
  {
    var G, B := Pow2(7 * i), Pow2(bitPos);
    var k, m, c := 7 * i + bitPos, b % B, Bit(b, bitPos);
    assert Pow2(k) == G * B by {
      Pow2Add(7 * i, bitPos);
    }
    assert 0 <= cur < Pow2(k) by {
      MulLe(0, m, G);
      MulLe(m + 1, B, G);
      MulAdd(m, 1, G);
    }
    assert Bit(cur, k) == 0 by {
      BitOfSmall(cur, k);
    }
    assert b % Pow2(bitPos + 1) == m + c * B by {
      ModPow2Succ(b, bitPos);
    }
    assert (m + c * B) * G == m * G + c * (G * B) by {
      MulAdd(m, c * B, G);
      MulSwap(c, B, G);
    }
  }

  /** After sign extension to L whole bytes the value has exactly L bytes, and
      its two's complement is 2^(7k) - u. */
  lemma ExtendedLength(u: nat, g: nat, L: nat, x: int)
    requires u < Pow2(g) && 1 <= L && g <= 7 * L && x == u + Pow2(L * 8) - Pow2(g)
    ensures x >= 0 && ByteLen(x) == L && TwosComplement(Abs(x)) == Pow2(g) - u
  {
    Pow2Le(g, 8 * L - 1);
    Pow2Le(8 * (L - 1), 8 * L - 1);
    assert Pow2(8 * L) == 2 * Pow2(8 * L - 1);
    ByteLenUnique(x, L);
  }

  // ---------------------------------------------------------------------
  // The claims of leb128_test.go, for every input
  // ---------------------------------------------------------------------

  /** TestLEB128UInt64RoundTrip */
  method UInt64RoundTrip(v: u64) returns (got: u64)
    ensures got == v
  {
    var encoded := FromUInt64(v);
    URoundTrip(v);
    got := ToUInt64(encoded);
  }

  /** TestLEB128BigIntRoundTrip */
  method BigIntRoundTrip(v: BigInt) returns (got: BigInt)
    ensures got.value == v.value
  {
    var encoded := FromBigInt(v);
    SRoundTrip(v.value);
    got := ToBigInt(encoded);
  }

  /** TestFromBigIntIsNotDestructive */
  method FromBigIntIsNotDestructive(v: BigInt) returns (same: bool)
    ensures same
  {
    var vOrig := new BigInt(0);
    vOrig.Set(v);
    var encoded := FromBigInt(v);
    same := vOrig.value == v.value;
  }
}
