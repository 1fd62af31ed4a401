/** Integer and bit-level arithmetic shared by the model: powers of two,
    Euclidean division facts, single bits of an unbounded two's-complement
    integer, and Go's `|` and `<<` on uint64. */
module Bits {

  /** A Go `byte`. */
  type byte = b: int | 0 <= b < 256

  /** 2^64, one past the largest uint64. */
  const TWO64: nat := 0x1_0000_0000_0000_0000

  function Pow2(n: nat): (r: nat)
    ensures r >= 1
  {
    if n == 0 then 1 else 2 * Pow2(n - 1)
  }

  lemma {:induction false} Pow2Add(a: nat, b: nat)
    ensures Pow2(a + b) == Pow2(a) * Pow2(b)
  {
    if a > 0 {
      Pow2Add(a - 1, b);
      assert Pow2(a + b) == 2 * Pow2(a - 1 + b);
    }
  }

  lemma Pow2Le(a: nat, b: nat)
    requires a <= b
    ensures Pow2(a) <= Pow2(b)
  {
    Pow2Add(a, b - a);
    assert Pow2(b) == Pow2(a) * Pow2(b - a);
  }

  /** 2^n splits into 2^t times 2^(n - t). */
  lemma Pow2Split(n: nat, t: nat)
    requires t <= n
    ensures Pow2(n) == Pow2(n - t) * Pow2(t)
  {
    Pow2Add(t, n - t);
    assert t + (n - t) == n;
  }

  /** Pow2 is strictly increasing, read backwards. */
  lemma Pow2Below(a: nat, b: nat)
    requires Pow2(a) < Pow2(b)
    ensures a < b
  {
    if b <= a {
      Pow2Le(b, a);
    }
  }

  lemma Pow2Values()
    ensures Pow2(6) == 64 && Pow2(7) == 128 && Pow2(8) == 256
  {
    assert Pow2(1) == 2 * Pow2(0) == 2;
    assert Pow2(2) == 2 * Pow2(1) == 4;
    assert Pow2(3) == 2 * Pow2(2) == 8;
    assert Pow2(4) == 2 * Pow2(3) == 16;
    assert Pow2(5) == 2 * Pow2(4) == 32;
    assert Pow2(6) == 2 * Pow2(5) == 64;
    assert Pow2(7) == 2 * Pow2(6) == 128;
    assert Pow2(8) == 2 * Pow2(7) == 256;
  }

  /** 2^64 is the uint64 modulus. */
  lemma Pow2Word()
    ensures Pow2(64) == TWO64
  {
    Pow2Values();
    Pow2Add(8, 8);
    assert Pow2(16) == 256 * 256 == 0x1_0000;
    Pow2Add(16, 16);
    assert Pow2(32) == 0x1_0000 * 0x1_0000 == 0x1_0000_0000;
    Pow2Add(32, 32);
    assert Pow2(64) == 0x1_0000_0000 * 0x1_0000_0000 == TWO64;
  }

  lemma MulSubDistrib(a: int, b: int, d: int)
    ensures (a - b) * d == a * d - b * d
  {
  }

  lemma MulAtLeast(k: int, d: int)
    requires k >= 1 && d > 0
    ensures k * d >= d
  {
    assert k * d == (k - 1) * d + d;
    assert (k - 1) * d >= 0;
  }

  /** Euclidean quotient and remainder are unique. */
  lemma DivModUnique(x: int, d: int, q: int, r: int)
    requires d > 0 && 0 <= r < d && x == q * d + r
    ensures x / d == q && x % d == r
  {
    var q0, r0 := x / d, x % d;
    assert x == q0 * d + r0;
    if q0 > q {
      MulSubDistrib(q0, q, d);
      MulAtLeast(q0 - q, d);
    } else if q0 < q {
      MulSubDistrib(q, q0, d);
      MulAtLeast(q - q0, d);
    }
  }

  lemma DivModSplit(x: int, d: int)
    requires d > 0
    ensures x == (x / d) * d + x % d && 0 <= x % d < d
  {
  }

  lemma DivModAddMultiple(x: int, k: int, d: int)
    requires d > 0
    ensures (x + k * d) / d == x / d + k
    ensures (x + k * d) % d == x % d
  {
    assert x + k * d == (x / d + k) * d + x % d;
    DivModUnique(x + k * d, d, x / d + k, x % d);
  }

  /** Dividing by a * b is dividing by a, then by b. */
  lemma DivModNested(x: int, a: int, b: int)
    requires a > 0 && b > 0
    ensures a * b > 0
    ensures x / (a * b) == (x / a) / b
    ensures x % (a * b) == a * ((x / a) % b) + x % a
  {
    var q, r := (x / a) / b, a * ((x / a) % b) + x % a;
    assert x / a == q * b + (x / a) % b;
    assert x == a * (x / a) + x % a;
    assert x == (a * b) * q + r by {
      assert a * (x / a) == a * (q * b) + a * ((x / a) % b);
    }
    assert a * ((x / a) % b) <= a * (b - 1);
    DivModUnique(x, a * b, q, r);
  }

  /** Reducing modulo 2^b and then modulo 2^a, for a <= b, is reducing modulo 2^a. */
  lemma ModPow2Nested(x: int, a: nat, b: nat)
    requires a <= b
    ensures x % Pow2(b) % Pow2(a) == x % Pow2(a)
  {
    var P, Q := Pow2(a), Pow2(b - a);
    Pow2Add(a, b - a);
    assert Pow2(b) == P * Q;
    DivModNested(x, P, Q);
    var t := (x / P) % Q;
    var low := x % P;
    assert x % Pow2(b) == P * t + low;
    assert P * t == t * P;
    DivModAddMultiple(low, t, P);
    DivModUnique(low, P, 0, low);
  }

  // ---------------------------------------------------------------------
  // Bits of an unbounded integer. Dafny's `/` and `%` by a positive divisor
  // round towards negative infinity, so for a negative v these are the bits
  // of its infinite two's-complement representation, as in math/big.
  // ---------------------------------------------------------------------

  /** Bit i of v (math/big's Int.Bit). */
  function Bit(v: int, i: nat): int
  {
    (v / Pow2(i)) % 2
  }

  /** v with bit i replaced by b (math/big's Int.SetBit). */
  function SetBit(v: int, i: nat, b: int): int
    requires b == 0 || b == 1
  {
    v + (b - Bit(v, i)) * Pow2(i)
  }

  /** SetBit changes bit i to b and leaves every other bit alone. */
  lemma SetBitBits(v: int, i: nat, b: int, j: nat)
    requires b == 0 || b == 1
    ensures Bit(SetBit(v, i, b), j) == if j == i then b else Bit(v, j)
  {
    if j == i {
      SetBitSame(v, i, b);
    } else if j < i {
      SetBitBelow(v, i, b, j);
    } else {
      SetBitAbove(v, i, b, j);
    }
  }

  lemma SetBitSame(v: int, i: nat, b: int)
    requires b == 0 || b == 1
    ensures Bit(SetBit(v, i, b), i) == b
  {
    var c := b - Bit(v, i);
    var h := v / Pow2(i);
    DivModAddMultiple(v, c, Pow2(i));
    assert SetBit(v, i, b) / Pow2(i) == h + c;
    assert h + c == (h / 2) * 2 + b;
    DivModUnique(h + c, 2, h / 2, b);
  }

  lemma SetBitBelow(v: int, i: nat, b: int, j: nat)
    requires b == 0 || b == 1
    requires j < i
    ensures Bit(SetBit(v, i, b), j) == Bit(v, j)
  {
    AddHighMultiple(v, b - Bit(v, i), i, j);
  }

  /** Adding a multiple of 2^i leaves the bits below i alone. */
  lemma AddHighMultiple(v: int, c: int, i: nat, j: nat)
    requires j < i
    ensures Bit(v + c * Pow2(i), j) == Bit(v, j)
  {
    var T, m := Pow2(j + 1), Pow2(i - j - 1);
    Pow2Add(j + 1, i - j - 1);
    MulSwap(c, m, T);
    DivModAddMultiple(v, c * m, T);
    BitFromLow(v, j);
    BitFromLow(v + c * Pow2(i), j);
  }

  /** Bit j is read off the low j + 1 bits. */
  lemma BitFromLow(x: int, j: nat)
    ensures Bit(x, j) == (x % Pow2(j + 1)) / Pow2(j)
  {
    var Q := Pow2(j);
    DivModNested(x, Q, 2);
    DivModUnique(x % (Q * 2), Q, (x / Q) % 2, x % Q);
  }

  lemma SetBitAbove(v: int, i: nat, b: int, j: nat)
    requires b == 0 || b == 1
    requires i < j
    ensures Bit(SetBit(v, i, b), j) == Bit(v, j)
  {
    var v' := SetBit(v, i, b);
    var c := b - Bit(v, i);
    var P := Pow2(i);
    var h := v / P;
    DivModAddMultiple(v, c, P);
    assert v' / P == h + c;
    Pow2Add(i, 1);
    assert Pow2(i + 1) == P * 2;
    DivModNested(v, P, 2);
    DivModNested(v', P, 2);
    assert h + c == (h / 2) * 2 + b;
    DivModUnique(h + c, 2, h / 2, b);
    assert v / Pow2(i + 1) == v' / Pow2(i + 1);
    var R := Pow2(j - i - 1);
    Pow2Add(i + 1, j - i - 1);
    assert Pow2(j) == Pow2(i + 1) * R;
    DivModNested(v, Pow2(i + 1), R);
    DivModNested(v', Pow2(i + 1), R);
  }

  /** A non-negative number below 2^j has bit j clear. */
  lemma BitOfSmall(x: int, j: nat)
    requires 0 <= x < Pow2(j)
    ensures Bit(x, j) == 0
  {
    DivModUnique(x, Pow2(j), 0, x);
  }

  /** The low i + 1 bits are the low i bits plus bit i. */
  lemma ModPow2Succ(x: int, i: nat)
    ensures x % Pow2(i + 1) == x % Pow2(i) + Bit(x, i) * Pow2(i)
  {
    Pow2Add(i, 1);
    DivModNested(x, Pow2(i), 2);
  }

  /** The low `size` bits of v are all ones. */
  predicate AllOnes(v: int, size: nat)
  {
    v % Pow2(size) == Pow2(size) - 1
  }

  /** The arithmetic and the bit-by-bit reading of "all ones" agree. */
  lemma {:induction false} AllOnesBits(v: int, size: nat)
    ensures AllOnes(v, size) <==> forall i :: 0 <= i < size ==> Bit(v, i) == 1
  {
    if size > 0 {
      AllOnesBits(v, size - 1);
      ModPow2Succ(v, size - 1);
      var half := Pow2(size - 1);
      assert Pow2(size) == 2 * half;
      var low := v % half;
      if Bit(v, size - 1) == 0 {
        assert v % Pow2(size) == low;
      } else {
        assert v % Pow2(size) == low + half;
      }
    }
  }

  /** v with the `width` bits starting at bit `lo` all set to one. */
  function FillOnes(v: int, lo: nat, width: nat): int
  {
    (v / Pow2(lo + width)) * Pow2(lo + width) + (Pow2(width) - 1) * Pow2(lo) + v % Pow2(lo)
  }

  lemma FillOnesNone(v: int, lo: nat)
    ensures FillOnes(v, lo, 0) == v
  {
  }

  /** Setting the bit just above a filled field grows the field by one. */
  lemma FillOnesSucc(v: int, lo: nat, width: nat)
    ensures SetBit(FillOnes(v, lo, width), lo + width, 1) == FillOnes(v, lo, width + 1)
  {
    var A, P, W := Pow2(lo + width), Pow2(lo), Pow2(width);
    Pow2Add(lo, width);
    assert A == W * P;
    var F := FillOnes(v, lo, width);
    var R := (W - 1) * P + v % P;
    FillOnesField(W, P, v % P);
    DivModUnique(F, A, v / A, R);
    var h := v / A;
    var beta := Bit(v, lo + width);
    assert Bit(F, lo + width) == beta;
    Pow2Add(lo + width, 1);
    Pow2Add(width, 1);
    DivModNested(v, A, 2);
    assert Pow2(lo + width + 1) == A * 2;
    assert Pow2(width + 1) == W * 2;
    assert v / (A * 2) == h / 2;
    assert h == (h / 2) * 2 + beta;
    MulAdd((h / 2) * 2, beta, A);
    MulAdd(beta, 1 - beta, A);
    MulAdd(W, W - 1, P);
    MulSwap(h / 2, 2, A);
    calc {
      SetBit(F, lo + width, 1);
      h * A + R + (1 - beta) * A;
      (h / 2) * 2 * A + beta * A + (1 - beta) * A + R;
      (h / 2) * (A * 2) + A + (W - 1) * P + v % P;
      (h / 2) * (A * 2) + (W + (W - 1)) * P + v % P;
      FillOnes(v, lo, width + 1);
    }
  }

  lemma MulSwap(a: int, b: int, c: int)
    ensures a * b * c == a * (c * b)
  {
  }

  lemma MulAdd(a: int, b: int, c: int)
    ensures (a + b) * c == a * c + b * c
  {
  }

  /** A field of ones over a low part stays below the next power of two. */
  lemma FillOnesField(W: int, P: int, low: int)
    requires W >= 1 && P >= 1 && 0 <= low < P
    ensures 0 <= (W - 1) * P + low < W * P
  {
    MulAdd(W - 1, 1, P);
    assert (W - 1) * P >= 0;
  }

  /** FillOnes sets exactly the bits lo .. lo + width - 1. */
  lemma {:induction false} FillOnesBits(v: int, lo: nat, width: nat, j: nat)
    ensures Bit(FillOnes(v, lo, width), j) == if lo <= j < lo + width then 1 else Bit(v, j)
  {
    if width == 0 {
      FillOnesNone(v, lo);
    } else {
      FillOnesBits(v, lo, width - 1, j);
      FillOnesSucc(v, lo, width - 1);
      SetBitBits(FillOnes(v, lo, width - 1), lo + width - 1, 1, j);
    }
  }

  /** The low lo + width bits of FillOnes: the field of ones over v's low lo bits. */
  lemma FillOnesLow(v: int, lo: nat, width: nat)
    ensures FillOnes(v, lo, width) % Pow2(lo + width) == (Pow2(width) - 1) * Pow2(lo) + v % Pow2(lo)
  {
    var A, P, W := Pow2(lo + width), Pow2(lo), Pow2(width);
    Pow2Add(lo, width);
    assert A == W * P;
    FillOnesField(W, P, v % P);
    DivModUnique(FillOnes(v, lo, width), A, v / A, (W - 1) * P + v % P);
  }

  // ---------------------------------------------------------------------
  // Go's uint64 operators used by ToUInt64.
  // ---------------------------------------------------------------------

  /** Bitwise OR of two naturals (Go's `|`). */
  function Or(a: nat, b: nat): nat
    decreases a + b
  {
    if a == 0 && b == 0 then 0
    else 2 * Or(a / 2, b / 2) + (if a % 2 == 1 || b % 2 == 1 then 1 else 0)
  }

  lemma {:induction false} OrZeroLeft(c: nat)
    ensures Or(0, c) == c
    decreases c
  {
    if c != 0 {
      OrZeroLeft(c / 2);
    }
  }

  lemma {:induction false} OrZeroRight(a: nat)
    ensures Or(a, 0) == a
    decreases a
  {
    if a != 0 {
      OrZeroRight(a / 2);
    }
  }

  /** OR of numbers occupying disjoint bit ranges is their sum. */
  lemma {:induction false} OrDisjoint(a: nat, c: nat, s: nat)
    requires a < Pow2(s)
    ensures Or(a, c * Pow2(s)) == a + c * Pow2(s)
  {
    if s == 0 {
      OrZeroLeft(c);
    } else {
      var P := Pow2(s - 1);
      var m := c * P;
      assert c * Pow2(s) == 2 * m;
      OrDisjoint(a / 2, c, s - 1);
      OrStep(a, m, Or(a / 2, m));
    }
  }

  /** Unfolding Or once when the second operand is even. */
  lemma OrStep(a: nat, m: nat, r: nat)
    requires r == Or(a / 2, m)
    ensures Or(a, 2 * m) == 2 * r + a % 2
  {
    var e := 2 * m;
    assert e / 2 == m && e % 2 == 0;
    if a == 0 && e == 0 {
      assert m == 0 && a / 2 == 0;
    } else {
      assert Or(a, e) == 2 * Or(a / 2, e / 2) + (if a % 2 == 1 || e % 2 == 1 then 1 else 0);
    }
  }

  /** Go's `x << s` on uint64: zero once s reaches 64, else truncated to 64 bits. */
  function Shl64(x: nat, s: nat): nat
  {
    if s >= 64 then 0 else (x * Pow2(s)) % TWO64
  }

  /** One step of ToUInt64's accumulation: ORing the shifted group into the low
      bits built so far adds it to the sum, modulo 2^64. */
  lemma OrShiftAccumulate(sum: nat, p: nat, s: nat)
    requires sum < Pow2(s)
    ensures Or(sum % TWO64, Shl64(p, s)) == (sum + p * Pow2(s)) % TWO64
  {
    Pow2Word();
    if s >= 64 {
      OrShiftedOut(sum, p, s);
    } else {
      OrShiftedIn(sum, p, s);
    }
  }

  lemma OrShiftedOut(sum: nat, p: nat, s: nat)
    requires s >= 64
    ensures Or(sum % TWO64, Shl64(p, s)) == (sum + p * Pow2(s)) % TWO64
  {
    var X := Pow2(s - 64);
    assert Pow2(s) == TWO64 * X by {
      Pow2Word();
      Pow2Add(64, s - 64);
    }
    var k := p * X;
    assert p * Pow2(s) == k * TWO64 by {
      MulSwap(p, X, TWO64);
    }
    DivModAddMultiple(sum, k, TWO64);
    OrZeroRight(sum % TWO64);
  }

  lemma OrShiftedIn(sum: nat, p: nat, s: nat)
    requires s < 64 && sum < Pow2(s)
    ensures Or(sum % TWO64, Shl64(p, s)) == (sum + p * Pow2(s)) % TWO64
  {
    Pow2Word();
    Pow2Le(s, 64);
    DivModUnique(sum, TWO64, 0, sum);
    var low, hiP := Shl64Split(p, s);
    OrDisjoint(sum, p % Pow2(64 - s), s);
    assert sum + low < TWO64 by {
      assert low <= TWO64 - Pow2(s);
    }
    DivModAddMultiple(sum + low, hiP, TWO64);
    DivModUnique(sum + low, TWO64, 0, sum + low);
  }

  /** Below 64, Go's shift keeps the bits of p that stay inside 64 bits. */
  lemma Shl64Split(p: nat, s: nat) returns (low: nat, hiP: nat)
    requires s < 64
    ensures low == Shl64(p, s) == (p % Pow2(64 - s)) * Pow2(s)
    ensures low <= TWO64 - Pow2(s)
    ensures p * Pow2(s) == low + hiP * TWO64
  {
    Pow2Word();
    var S, R := Pow2(s), Pow2(64 - s);
    Pow2Add(s, 64 - s);
    assert TWO64 == S * R;
    var lowP := p % R;
    DivModNat(p, R);
    hiP := p / R;
    DivModSplit(p, R);
    MulLe(0, lowP, S);
    low := lowP * S;
    assert p * S == low + hiP * TWO64 by {
      MulEq(p, hiP * R + lowP, S);
      MulAdd(hiP * R, lowP, S);
      MulSwap(hiP, R, S);
    }
    assert low <= TWO64 - S by {
      MulLe(lowP, R - 1, S);
      MulSubDistrib(R, 1, S);
    }
    assert (p * S) % TWO64 == low by {
      DivModAddMultiple(low, hiP, TWO64);
      DivModUnique(low, TWO64, 0, low);
    }
  }

  lemma DivModNat(x: int, d: int)
    requires x >= 0 && d > 0
    ensures 0 <= x / d <= x && 0 <= x % d < d
  {
    var q := x / d;
    DivModSplit(x, d);
    if q < 0 {
      MulLe(q, -1, d);
    } else {
      MulLe(1, d, q);
    }
  }

  lemma MulEq(a: int, b: int, c: int)
    requires a == b
    ensures a * c == b * c
  {
  }

  lemma MulLe(a: int, b: int, c: int)
    requires a <= b && c >= 0
    ensures a * c <= b * c
  {
    MulSubDistrib(b, a, c);
    assert (b - a) * c >= 0;
  }
}
