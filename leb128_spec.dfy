/** Reference definitions of LEB128 (Little Endian Base 128, the variable-length
    integer coding of section 7.6 of the DWARF Debugging Information Format,
    Version 4) and the properties the codec promises: round trips, the shape of
    every encoding, minimal length, and decoders that ignore bytes after the
    terminating group. The methods in module Leb128 are proved against these. */
module Leb128Spec {
  import opened Bits

  /** A Go uint64. */
  type u64 = x: int | 0 <= x < TWO64

  /** `b & 0x7F`: the seven payload bits of a group. */
  function Payload(b: byte): nat
  {
    b % 128
  }

  /** `b & 0x80 != 0`: another group follows. */
  predicate HasMore(b: byte)
  {
    b >= 128
  }

  /** `b & 0x40 != 0`: the sign bit of a group's payload. */
  predicate SignBitSet(b: byte)
  {
    (b / 64) % 2 == 1
  }

  /** Some byte of s has its continuation bit clear. */
  predicate Terminated(s: seq<byte>)
  {
    |s| > 0 && (!HasMore(s[0]) || Terminated(s[1..]))
  }

  lemma {:induction false} TerminatedIff(s: seq<byte>)
    ensures Terminated(s) <==> exists k :: 0 <= k < |s| && !HasMore(s[k])
  {
    if |s| > 0 {
      TerminatedIff(s[1..]);
      if exists k :: 0 <= k < |s| && !HasMore(s[k]) {
        var k :| 0 <= k < |s| && !HasMore(s[k]);
        if k > 0 {
          assert !HasMore(s[1..][k - 1]);
        }
      }
      if Terminated(s[1..]) {
        var k :| 0 <= k < |s| - 1 && !HasMore(s[1..][k]);
        assert !HasMore(s[k + 1]);
      }
    }
  }

  /** Index of the first byte whose continuation bit is clear. */
  function Term(s: seq<byte>): (k: nat)
    requires Terminated(s)
    ensures k < |s| && !HasMore(s[k])
    ensures forall j :: 0 <= j < k ==> HasMore(s[j])
  {
    if !HasMore(s[0]) then 0 else 1 + Term(s[1..])
  }

  /** The groups a decoder consumes: everything up to and including the terminator. */
  function Group(s: seq<byte>): seq<byte>
    requires Terminated(s)
  {
    s[..Term(s) + 1]
  }

  /** A single encoding: its only terminating group is its last byte. */
  predicate WellFormed(e: seq<byte>)
  {
    Terminated(e) && Term(e) == |e| - 1
  }

  /** WellFormed spelled out: every byte but the last has 0x80 set, the last has it clear. */
  lemma WellFormedShape(e: seq<byte>)
    ensures WellFormed(e) <==>
      |e| >= 1 && !HasMore(e[|e| - 1]) && forall j :: 0 <= j < |e| - 1 ==> HasMore(e[j])
  {
    TerminatedIff(e);
    if |e| >= 1 && !HasMore(e[|e| - 1]) && forall j :: 0 <= j < |e| - 1 ==> HasMore(e[j]) {
      assert Terminated(e);
      assert !HasMore(e[Term(e)]);
    }
  }

  /** A well-formed encoding is decoded in full. */
  lemma WellFormedGroup(e: seq<byte>)
    requires WellFormed(e)
    ensures Group(e) == e
  {
  }

  /** The groups' payloads read low group first: sum of payload_i * 128^i. */
  function Value(s: seq<byte>): nat
  {
    if s == [] then 0 else Payload(s[0]) + 128 * Value(s[1..])
  }

  /** Appending a group adds its payload at bit offset 7 * (groups so far). */
  lemma {:induction false} ValueSnoc(s: seq<byte>, b: byte)
    ensures Value(s + [b]) == Value(s) + Payload(b) * Pow2(7 * |s|)
  {
    if s != [] {
      var t := s[1..];
      ValueSnoc(t, b);
      assert (s + [b])[0] == s[0] && (s + [b])[1..] == t + [b];
      var Q := Pow2(7 * |t|);
      Pow2Values();
      Pow2Add(7, 7 * |t|);
      assert Pow2(7 * |s|) == 128 * Q;
      MulSwap(Payload(b), Q, 128);
      assert Value(s + [b]) == Payload(s[0]) + 128 * (Value(t) + Payload(b) * Q);
    }
  }

  /** k groups hold a value below 2^(7k). */
  lemma {:induction false} ValueBound(s: seq<byte>)
    ensures Value(s) < Pow2(7 * |s|)
  {
    if s != [] {
      ValueBound(s[1..]);
      Pow2Add(7, 7 * (|s| - 1));
      Pow2Values();
      assert Pow2(7 * |s|) == 128 * Pow2(7 * (|s| - 1));
    }
  }

  // ---------------------------------------------------------------------
  // Unsigned coding
  // ---------------------------------------------------------------------

  /** Reference unsigned encoder: low seven bits first, 0x80 on all but the last group. */
  function UEncode(v: nat): seq<byte>
  {
    if v < 128 then [v] else [v % 128 + 128] + UEncode(v / 128)
  }

  /** Reference unsigned decoder: the terminated groups' value, truncated to 64 bits. */
  function UDecode(s: seq<byte>): u64
    requires Terminated(s)
  {
    Value(Group(s)) % TWO64
  }

  /** Every unsigned encoding is well formed, and its last byte is zero only for v == 0. */
  lemma {:induction false} UEncodeWellFormed(v: nat)
    ensures WellFormed(UEncode(v))
    ensures UEncode(v)[|UEncode(v)| - 1] == 0 <==> v == 0
  {
    if v >= 128 {
      UEncodeWellFormed(v / 128);
      var e := UEncode(v);
      assert e[1..] == UEncode(v / 128);
    }
  }

  /** The groups of UEncode(v) hold exactly v. */
  lemma {:induction false} UEncodeValue(v: nat)
    ensures Value(UEncode(v)) == v
  {
    if v >= 128 {
      UEncodeValue(v / 128);
      assert UEncode(v)[1..] == UEncode(v / 128);
    }
  }

  /** Decoding an encoding gives the value back, reduced to 64 bits. */
  lemma UDecodeUEncode(v: nat)
    ensures Terminated(UEncode(v)) && UDecode(UEncode(v)) == v % TWO64
  {
    UEncodeWellFormed(v);
    WellFormedGroup(UEncode(v));
    UEncodeValue(v);
  }

  /** ToUInt64(FromUInt64(v)) == v for every uint64. */
  lemma URoundTrip(v: u64)
    ensures Terminated(UEncode(v)) && UDecode(UEncode(v)) == v
  {
    UDecodeUEncode(v);
  }

  /** UEncode(v) has k groups where 2^(7(k-1)) <= v < 2^(7k), or one group for v = 0. */
  lemma {:induction false} UEncodeLength(v: nat)
    ensures v < Pow2(7 * |UEncode(v)|)
    ensures |UEncode(v)| > 1 ==> Pow2(7 * (|UEncode(v)| - 1)) <= v
  {
    var k := |UEncode(v)|;
    Pow2Values();
    if v >= 128 {
      UEncodeLength(v / 128);
      Pow2Add(7, 7 * (k - 1));
      if k > 2 {
        Pow2Add(7, 7 * (k - 2));
      }
    }
  }

  /** No well-formed sequence of fewer groups has the same value. */
  lemma UEncodeMinimal(v: nat, e: seq<byte>)
    requires WellFormed(e) && Value(e) == v
    ensures |UEncode(v)| <= |e|
  {
    UEncodeLength(v);
    ValueBound(e);
    if |UEncode(v)| > 1 {
      Pow2Below(7 * (|UEncode(v)| - 1), 7 * |e|);
    }
  }

  /** A uint64 takes between one and ten bytes. */
  lemma UEncodeAtMostTen(v: u64)
    ensures 1 <= |UEncode(v)| <= 10
  {
    UEncodeLength(v);
    Pow2Word();
    if |UEncode(v)| > 1 {
      Pow2Below(7 * (|UEncode(v)| - 1), 64);
    }
  }

  /** The encodings of leb128_test.go's TestFromUInt64. */
  lemma UEncodeVectors()
    ensures UEncode(0) == [0x00] && UEncode(1) == [0x01] && UEncode(2) == [0x02]
    ensures UEncode(3) == [0x03] && UEncode(4) == [0x04] && UEncode(5) == [0x05]
    ensures UEncode(63) == [0x3F] && UEncode(64) == [0x40] && UEncode(65) == [0x41]
    ensures UEncode(100) == [0x64] && UEncode(127) == [0x7F]
    ensures UEncode(128) == [0x80, 0x01] && UEncode(129) == [0x81, 0x01]
    ensures UEncode(2141192192) == [0x80, 0x80, 0x80, 0xFD, 0x07]
  {
    assert UEncode(1021) == [0xFD, 0x07];
    assert UEncode(130688) == [0x80, 0xFD, 0x07];
    assert UEncode(16728064) == [0x80, 0x80, 0xFD, 0x07];
  }

  /** The encoding of the largest uint64 in leb128_test.go's TestFromUInt64. */
  lemma UEncodeMaxVector()
    ensures UEncode(TWO64 - 1) == [0xFF, 0xFF, 0xFF, 0xFF, 0xFF, 0xFF, 0xFF, 0xFF, 0xFF, 0x01]
  {
    assert UEncode(255) == [0xFF] + UEncode(1);
    assert UEncode(32767) == [0xFF] + UEncode(255);
    assert UEncode(4194303) == [0xFF] + UEncode(32767);
    assert UEncode(536870911) == [0xFF] + UEncode(4194303);
    assert UEncode(68719476735) == [0xFF] + UEncode(536870911);
    assert UEncode(8796093022207) == [0xFF] + UEncode(68719476735);
    assert UEncode(1125899906842623) == [0xFF] + UEncode(8796093022207);
    assert UEncode(144115188075855871) == [0xFF] + UEncode(1125899906842623);
    assert UEncode(18446744073709551615) == [0xFF] + UEncode(144115188075855871);
  }

  // ---------------------------------------------------------------------
  // Signed coding
  // ---------------------------------------------------------------------

  /** Reference signed encoder: emit the low seven bits of v and shift
      arithmetically, stopping once the rest is all zeros (or all ones) and
      the group's bit 0x40 already says so. */
  function SEncode(v: int): seq<byte>
    decreases if v >= 0 then v else -v
  {
    var b := v % 128;
    var rest := v / 128;
    if (rest == 0 && !SignBitSet(b)) || (rest == -1 && SignBitSet(b)) then [b]
    else [b + 128] + SEncode(rest)
  }

  /** Reference signed decoder: the payloads low group first, the last group's
      bit 0x40 extended as the sign. */
  function SDecode(s: seq<byte>): int
    requires Terminated(s)
  {
    if !HasMore(s[0]) then
      (if SignBitSet(s[0]) then Payload(s[0]) - 128 else Payload(s[0]))
    else
      Payload(s[0]) + 128 * SDecode(s[1..])
  }

  /** v is representable in m signed groups: -2^(7m-1) <= v < 2^(7m-1). */
  predicate Fits(v: int, m: nat)
  {
    0 <= 2 * v + Pow2(7 * m) && 2 * v < Pow2(7 * m)
  }

  /** Every signed encoding is well formed and its last group's bit 0x40 is the sign. */
  lemma {:induction false} SEncodeWellFormed(v: int)
    ensures WellFormed(SEncode(v))
    ensures SignBitSet(SEncode(v)[|SEncode(v)| - 1]) <==> v < 0
    decreases if v >= 0 then v else -v
  {
    var b, rest := v % 128, v / 128;
    if !((rest == 0 && !SignBitSet(b)) || (rest == -1 && SignBitSet(b))) {
      SEncodeWellFormed(rest);
      assert SEncode(v)[1..] == SEncode(rest);
    }
  }

  /** ToBigInt(FromBigInt(v)) == v for every integer v. */
  lemma {:induction false} SRoundTrip(v: int)
    ensures Terminated(SEncode(v)) && SDecode(SEncode(v)) == v
    decreases if v >= 0 then v else -v
  {
    var b, rest := v % 128, v / 128;
    var e := SEncode(v);
    if (rest == 0 && !SignBitSet(b)) || (rest == -1 && SignBitSet(b)) {
      assert e == [b];
    } else {
      SRoundTrip(rest);
      assert e[1..] == SEncode(rest);
    }
  }

  /** The signed decoder in closed form: the payload sum, minus 2^(7k) when the
      k-th (terminating) group has bit 0x40 set. */
  lemma {:induction false} SDecodeClosedForm(s: seq<byte>)
    requires Terminated(s)
    ensures SDecode(s) == Value(Group(s)) - (if SignBitSet(s[Term(s)]) then Pow2(7 * (Term(s) + 1)) else 0)
  {
    Pow2Values();
    if HasMore(s[0]) {
      SDecodeClosedForm(s[1..]);
      assert Group(s)[1..] == Group(s[1..]);
      Pow2Add(7, 7 * (Term(s[1..]) + 1));
    }
  }

  /** An encoding of k groups decodes to a value that fits k signed groups. */
  lemma {:induction false} SDecodeFits(s: seq<byte>)
    requires Terminated(s)
    ensures Fits(SDecode(s), Term(s) + 1)
  {
    if HasMore(s[0]) {
      SDecodeFits(s[1..]);
      FitsStep(SDecode(s[1..]), Payload(s[0]), Term(s[1..]) + 1);
    } else {
      Pow2Values();
      SignBitOfGroup(s[0]);
    }
  }

  /** For b < 128, bit 0x40 is set exactly when b >= 64. */
  lemma SignBitOfGroup(b: byte)
    requires b < 128
    ensures SignBitSet(b) <==> b >= 64
  {
  }

  /** One more group in front of m groups multiplies the range by 128. */
  lemma FitsStep(rest: int, b: int, m: nat)
    requires m >= 1 && 0 <= b < 128
    ensures Fits(128 * rest + b, m + 1) <== Fits(rest, m)
    ensures !Fits(128 * rest + b, m + 1) <== !Fits(rest, m)
  {
    var Y := Pow2(7 * m - 1);
    assert Pow2(7 * m) == 2 * Y;
    assert Pow2(7 * (m + 1)) == 256 * Y by {
      Pow2Add(7 * m, 7);
      Pow2Values();
      assert Pow2(7 * (m + 1)) == Pow2(7 * m) * 128;
    }
  }

  /** SEncode(v) fits its length. */
  lemma {:induction false} SEncodeFits(v: int)
    ensures Fits(v, |SEncode(v)|)
    decreases if v >= 0 then v else -v
  {
    var b, rest := v % 128, v / 128;
    assert v == 128 * rest + b;
    if (rest == 0 && !SignBitSet(b)) || (rest == -1 && SignBitSet(b)) {
      assert |SEncode(v)| == 1;
      Pow2Values();
      SignBitOfGroup(b);
    } else {
      SEncodeFits(rest);
      var m := |SEncode(rest)|;
      assert |SEncode(v)| == m + 1;
      FitsStep(rest, b, m);
    }
  }

  /** An encoding of more than one group does not fit one group fewer. */
  lemma {:induction false} SEncodeNoShorter(v: int)
    ensures |SEncode(v)| > 1 ==> !Fits(v, |SEncode(v)| - 1)
    decreases if v >= 0 then v else -v
  {
    var b, rest := v % 128, v / 128;
    assert v == 128 * rest + b;
    if !((rest == 0 && !SignBitSet(b)) || (rest == -1 && SignBitSet(b))) {
      var m := |SEncode(rest)|;
      assert |SEncode(v)| == m + 1;
      if m > 1 {
        SEncodeNoShorter(rest);
        FitsStep(rest, b, m - 1);
      } else {
        assert SEncode(rest) == [rest % 128];
        Pow2Values();
        SignBitOfGroup(b);
        SignBitOfGroup(rest % 128);
        assert !Fits(v, 1);
      }
    }
  }

  lemma FitsMonotone(v: int, m: nat, n: nat)
    requires Fits(v, m) && m <= n
    ensures Fits(v, n)
  {
    Pow2Le(7 * m, 7 * n);
  }

  /** No well-formed encoding of v is shorter than SEncode(v). */
  lemma SEncodeMinimal(v: int, e: seq<byte>)
    requires WellFormed(e) && SDecode(e) == v
    ensures |SEncode(v)| <= |e|
  {
    SDecodeFits(e);
    SEncodeNoShorter(v);
    if |SEncode(v)| > 1 && |e| <= |SEncode(v)| - 1 {
      FitsMonotone(v, |e|, |SEncode(v)| - 1);
    }
  }

  /** The non-negative one-group encodings of leb128_test.go's TestFromBigInt. */
  lemma SEncodeSmallVectors()
    ensures SEncode(0) == [0x00] && SEncode(1) == [0x01] && SEncode(2) == [0x02]
    ensures SEncode(3) == [0x03] && SEncode(4) == [0x04] && SEncode(5) == [0x05]
    ensures SEncode(63) == [0x3F]
  {
    SEncodeOneGroup(0);
    SEncodeOneGroup(1);
    SEncodeOneGroup(2);
    SEncodeOneGroup(3);
    SEncodeOneGroup(4);
    SEncodeOneGroup(5);
    SEncodeOneGroup(63);
  }

  /** The non-negative two-group encodings of leb128_test.go's TestFromBigInt. */
  lemma SEncodeTwoGroupVectors()
    ensures SEncode(64) == [0xC0, 0x00] && SEncode(65) == [0xC1, 0x00]
    ensures SEncode(100) == [0xE4, 0x00] && SEncode(127) == [0xFF, 0x00]
    ensures SEncode(128) == [0x80, 0x01] && SEncode(129) == [0x81, 0x01]
  {
    assert SEncode(0) == [0x00] && SEncode(1) == [0x01];
  }

  /** The negative one-group encodings of leb128_test.go's TestFromBigInt. */
  lemma SEncodeSmallNegativeVectors()
    ensures SEncode(-1) == [0x7F] && SEncode(-2) == [0x7E] && SEncode(-3) == [0x7D]
    ensures SEncode(-4) == [0x7C] && SEncode(-5) == [0x7B] && SEncode(-63) == [0x41]
    ensures SEncode(-64) == [0x40]
  {
    SEncodeOneGroup(-1);
    SEncodeOneGroup(-2);
    SEncodeOneGroup(-3);
    SEncodeOneGroup(-4);
    SEncodeOneGroup(-5);
    SEncodeOneGroup(-63);
    SEncodeOneGroup(-64);
  }

  /** Exactly the v in [-64, 64) take one group: v itself, or v + 128 when negative. */
  lemma SEncodeOneGroup(v: int)
    ensures |SEncode(v)| == 1 <==> -64 <= v < 64
    ensures -64 <= v < 64 ==> SEncode(v) == [if v < 0 then v + 128 else v]
  {
    if v < 0 {
      DivModUnique(v, 128, v / 128, v % 128);
    }
    if -64 <= v < 0 {
      DivModUnique(v, 128, -1, v + 128);
    } else if 0 <= v < 64 {
      DivModUnique(v, 128, 0, v);
    }
  }

  /** The negative two-group encodings of leb128_test.go's TestFromBigInt. */
  lemma SEncodeTwoGroupNegativeVectors()
    ensures SEncode(-65) == [0xBF, 0x7F] && SEncode(-100) == [0x9C, 0x7F]
    ensures SEncode(-127) == [0x81, 0x7F] && SEncode(-128) == [0x80, 0x7F]
    ensures SEncode(-129) == [0xFF, 0x7E]
  {
    SEncodeNegativeTwoGroups(-65);
    SEncodeNegativeTwoGroups(-100);
    SEncodeNegativeTwoGroups(-127);
    SEncodeNegativeTwoGroups(-128);
    assert SEncode(-2) == [0x7E];
  }

  /** Every v in [-128, -64) takes two groups, the second all ones. */
  lemma SEncodeNegativeTwoGroups(v: int)
    requires -128 <= v < -64
    ensures SEncode(v) == [v + 256, 0x7F]
  {
    DivModUnique(v, 128, -1, v + 128);
    assert SEncode(-1) == [0x7F];
  }

  /** The five-group encoding of leb128_test.go's TestFromBigInt. */
  lemma SEncodeLongPositiveVector()
    ensures SEncode(2141192192) == [0x80, 0x80, 0x80, 0xFD, 0x07]
  {
    assert SEncode(1021) == [0xFD, 0x07] by {
      assert SEncode(7) == [0x07];
    }
    assert SEncode(130688) == [0x80] + SEncode(1021);
    assert SEncode(16728064) == [0x80] + SEncode(130688);
  }

  /** The three-group negative encoding of leb128_test.go's TestFromBigInt. */
  lemma SEncodeLongNegativeVector()
    ensures SEncode(-624485) == [0x9B, 0xF1, 0x59]
  {
    assert SEncode(-4879) == [0xF1, 0x59] by {
      assert SEncode(-39) == [0x59];
    }
  }

  // ---------------------------------------------------------------------
  // Both decoders stop at the first terminating group
  // ---------------------------------------------------------------------

  /** Bytes after the terminating group change neither decoder's result. */
  lemma {:induction false} DecodeIgnoresTrailing(s: seq<byte>, t: seq<byte>)
    requires Terminated(s)
    ensures Terminated(s + t) && Term(s + t) == Term(s) && Group(s + t) == Group(s)
    ensures UDecode(s + t) == UDecode(s) && SDecode(s + t) == SDecode(s)
  {
    assert (s + t)[0] == s[0];
    if HasMore(s[0]) {
      DecodeIgnoresTrailing(s[1..], t);
      assert (s + t)[1..] == s[1..] + t;
    }
    assert Group(s + t) == Group(s) by {
      assert (s + t)[..Term(s) + 1] == s[..Term(s) + 1];
    }
  }
}
