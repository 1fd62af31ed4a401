/** The part of Go's math/big that the codec uses. A *big.Int is a mutable
    object holding an unbounded integer, so it is a class with one field;
    each operation the codec calls is a method or function on it that says
    what the new value is. */
module BigNum {
  import opened Bits

  function Abs(x: int): nat
  {
    if x < 0 then -x else x
  }

  /** Number of bits of m (math/big's BitLen, applied to a magnitude). */
  function BitLength(m: nat): nat
  {
    if m == 0 then 0 else 1 + BitLength(m / 2)
  }

  /** BitLength(m) is the number of binary digits: 2^(BitLen-1) <= m < 2^BitLen. */
  lemma {:induction false} BitLenBounds(m: nat)
    ensures m < Pow2(BitLength(m))
    ensures m >= 1 ==> BitLength(m) >= 1 && Pow2(BitLength(m) - 1) <= m
  {
    if m > 0 {
      BitLenBounds(m / 2);
    }
  }

  /** Big-endian bytes of m without leading zero bytes (math/big's Bytes). */
  function ToBytesBE(m: nat): seq<byte>
  {
    if m == 0 then [] else ToBytesBE(m / 256) + [m % 256]
  }

  /** Number of bytes in m's big-endian representation. */
  function ByteLen(m: nat): nat
  {
    |ToBytesBE(m)|
  }

  /** A big-endian byte string read as a natural number (math/big's SetBytes). */
  function FromBytesBE(s: seq<byte>): nat
  {
    if s == [] then 0 else FromBytesBE(s[..|s| - 1]) * 256 + s[|s| - 1]
  }

  /** Bytes and SetBytes are inverse. */
  lemma {:induction false} BytesRoundTrip(m: nat)
    ensures FromBytesBE(ToBytesBE(m)) == m
  {
    if m > 0 {
      BytesRoundTrip(m / 256);
      var s := ToBytesBE(m);
      assert s[..|s| - 1] == ToBytesBE(m / 256);
    }
  }

  /** m needs exactly ByteLen(m) bytes. */
  lemma {:induction false} ByteLenBounds(m: nat)
    ensures m < Pow2(8 * ByteLen(m))
    ensures m >= 1 ==> ByteLen(m) >= 1 && Pow2(8 * (ByteLen(m) - 1)) <= m
  {
    if m > 0 {
      ByteLenBounds(m / 256);
      var k := ByteLen(m / 256);
      assert ByteLen(m) == k + 1;
      Pow2Add(8 * k, 8);
      Pow2Values();
      assert Pow2(8 * (k + 1)) == Pow2(8 * k) * 256;
      if m / 256 >= 1 {
        Pow2Add(8 * (k - 1), 8);
        assert Pow2(8 * k) == Pow2(8 * (k - 1)) * 256;
      }
    }
  }

  /** Any number between 2^(8(L-1)) and 2^(8L) has L bytes. */
  lemma ByteLenUnique(m: nat, L: nat)
    requires L >= 1 && Pow2(8 * (L - 1)) <= m < Pow2(8 * L)
    ensures ByteLen(m) == L
  {
    ByteLenBounds(m);
    var k := ByteLen(m);
    if k < L {
      Pow2Le(8 * k, 8 * (L - 1));
    } else if k > L {
      Pow2Le(8 * L, 8 * (k - 1));
    }
  }

  /** For m >= 1, the bytes leave room for the bit length and for one 7-bit group. */
  lemma BitLenWithinBytes(m: nat)
    requires m >= 1
    ensures 1 <= ByteLen(m) && BitLength(m) <= 8 * ByteLen(m) && 7 < 8 * ByteLen(m)
  {
    var bits, bytes := BitLength(m), ByteLen(m);
    assert 1 <= bits && Pow2(bits - 1) <= m by {
      BitLenBounds(m);
    }
    assert 1 <= bytes && m < Pow2(8 * bytes) by {
      ByteLenBounds(m);
    }
    BitsWithin(m, bits, bytes);
  }

  lemma BitsWithin(m: nat, bits: nat, bytes: nat)
    requires 1 <= bits && Pow2(bits - 1) <= m && m < Pow2(8 * bytes)
    ensures bits <= 8 * bytes
  {
    if bits > 8 * bytes {
      Pow2Le(8 * bytes, bits - 1);
    }
  }

  /** Every byte complemented (Go's `^b` on each byte). */
  function Flip(s: seq<byte>): (r: seq<byte>)
    ensures |r| == |s| && forall i :: 0 <= i < |s| ==> r[i] == 255 - s[i]
  {
    seq(|s|, i requires 0 <= i < |s| => 255 - s[i])
  }

  /** Complementing every byte of an L-byte string maps x to 2^(8L) - 1 - x. */
  lemma {:induction false} FlipValue(s: seq<byte>)
    ensures FromBytesBE(Flip(s)) == Pow2(8 * |s|) - 1 - FromBytesBE(s)
  {
    if s != [] {
      var init := s[..|s| - 1];
      FlipValue(init);
      assert Flip(s)[..|s| - 1] == Flip(init);
      Pow2Add(8 * |init|, 8);
      Pow2Values();
      assert Pow2(8 * |s|) == Pow2(8 * |init|) * 256;
      MulAdd(Pow2(8 * |init|), -1 - FromBytesBE(init), 256);
    }
  }

  /** A *big.Int. */
  class BigInt {
    var value: int

    /** big.NewInt(v) */
    constructor (v: int)
      ensures value == v
    {
      value := v;
    }

    /** z.Set(x) */
    method Set(x: BigInt)
      modifies this
      ensures value == old(x.value)
    {
      value := x.value;
    }

    /** x.Sign(): -1, 0 or +1. */
    function Sign(): (r: int)
      reads this
      ensures r == -1 <==> value < 0
      ensures r == 0 <==> value == 0
      ensures r == 1 <==> value > 0
    {
      if value < 0 then -1 else if value == 0 then 0 else 1
    }

    /** x.BitLen(): the bit length of |x|, 0 for x == 0. */
    function BitLen(): (r: nat)
      reads this
      ensures value == 0 <==> r == 0
      ensures Abs(value) < Pow2(r)
      ensures value != 0 ==> Pow2(r - 1) <= Abs(value)
    {
      BitLenBounds(Abs(value));
      BitLength(Abs(value))
    }

    /** x.Bit(i): bit i of x's two's-complement form, read off its low i + 1 bits. */
    function Bit(i: nat): (r: int)
      reads this
      ensures r == 0 || r == 1
      ensures r == (value % Pow2(i + 1)) / Pow2(i)
    {
      BitFromLow(value, i);
      Bits.Bit(value, i)
    }

    /** z.SetBit(z, i, b) */
    method SetBit(i: nat, b: int)
      requires b == 0 || b == 1
      modifies this
      ensures value == Bits.SetBit(old(value), i, b)
    {
      value := Bits.SetBit(value, i, b);
    }

    /** z.DivMod(x, y, m): Euclidean quotient into z, modulus into m. */
    method DivMod(x: BigInt, y: BigInt, m: BigInt)
      requires y.value != 0 && m != this
      modifies this, m
      ensures value == old(x.value) / old(y.value)
      ensures m.value == old(x.value) % old(y.value)
    {
      var q, r := x.value / y.value, x.value % y.value;
      value := q;
      m.value := r;
    }

    /** x.Bytes(): a fresh slice with |x| in big-endian order. */
    method Bytes() returns (a: array<byte>)
      ensures fresh(a) && a[..] == ToBytesBE(Abs(value))
    {
      var s := ToBytesBE(Abs(value));
      a := new byte[|s|](i requires 0 <= i < |s| => s[i]);
    }

    /** z.SetBytes(buf) */
    method SetBytes(buf: array<byte>)
      modifies this
      ensures value == FromBytesBE(old(buf[..]))
    {
      value := FromBytesBE(buf[..]);
    }

    /** z.Add(x, y) */
    method Add(x: BigInt, y: BigInt)
      modifies this
      ensures value == old(x.value) + old(y.value)
    {
      value := x.value + y.value;
    }

    /** z.Neg(x) */
    method Neg(x: BigInt)
      modifies this
      ensures value == -old(x.value)
    {
      value := -x.value;
    }
  }
}
