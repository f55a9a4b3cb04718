/** Powers of two and `u32::trailing_zeros`, for the bit-level work of `From<f32>`.
    Shifts are read as multiplication and division by powers of two. */
module Bits {
  import opened Words
  import opened Positional

  /** 2^n. */
  function Pow2(n: nat): (r: int)
    ensures r >= 1
  {
    if n == 0 then 1 else 2 * Pow2(n - 1)
  }

  lemma {:induction false} Pow2Add(a: nat, b: nat)
    ensures Pow2(a + b) == Pow2(a) * Pow2(b)
  {
    if b > 0 {
      Pow2Add(a, b - 1);
      assert Pow2(a + b) == 2 * Pow2(a + b - 1);
    }
  }

  /** `Pow2Add` for a sum the caller has already named. */
  lemma Pow2Mul(a: nat, b: nat, c: nat)
    requires a + b == c
    ensures Pow2(a) * Pow2(b) == Pow2(c)
  {
    Pow2Add(a, b);
  }

  lemma Pow2Monotone(a: nat, b: nat)
    requires a <= b
    ensures Pow2(a) <= Pow2(b)
  {
    Pow2Add(a, b - a);
    MulBound(Pow2(a), 1, Pow2(a), Pow2(b - a));
  }

  /** The powers of two the float layout uses. */
  lemma Pow2Values()
    ensures Pow2(8) == 0x100 && Pow2(16) == 0x1_0000 && Pow2(22) == 0x40_0000
    ensures Pow2(23) == 0x80_0000 && Pow2(24) == 0x100_0000 && Pow2(31) == HALF && Pow2(32) == BASE
  {
    assert Pow2(3) == 8;
    Pow2Mul(3, 3, 6);
    Pow2Mul(6, 2, 8);
    Pow2Mul(8, 8, 16);
    Pow2Mul(16, 6, 22);
    Pow2Mul(22, 1, 23);
    Pow2Mul(23, 1, 24);
    Pow2Mul(24, 6, 30);
    Pow2Mul(30, 1, 31);
    Pow2Mul(31, 1, 32);
  }

  /** A word is 32 bits: BASE^n is 2^(32n). */
  lemma {:induction false} BasePowIsPow2(n: nat, k: nat)
    requires k == 32 * n
    ensures BasePow(n) == Pow2(k)
  {
    if n > 0 {
      BasePowIsPow2(n - 1, k - 32);
      Pow2Values();
      Pow2Mul(k - 32, 32, k);
    }
  }

  /** `x.trailing_zeros()`: the number of low zero bits of x, and 32 for x == 0. A non-zero
      word is at least 2 to the power of its trailing zeros. */
  function TrailingZeros(x: u32): (r: nat)
    ensures x > 0 ==> Pow2(r) <= x
    decreases x
  {
    if x == 0 then 32 else if x % 2 == 1 then 0 else 1 + TrailingZeros(x / 2)
  }

  /** A non-zero word is an odd number shifted up by its trailing zeros. */
  lemma {:induction false} TrailingZerosSplit(x: u32) returns (odd: nat)
    requires x > 0
    ensures x == odd * Pow2(TrailingZeros(x)) && odd % 2 == 1
    decreases x
  {
    if x % 2 == 1 {
      odd := x;
    } else {
      var y: u32 := x / 2;
      odd := TrailingZerosSplit(y);
      TrailingZerosDouble(y, x);
      var t := TrailingZeros(y);
      var P := Pow2(t);
      HalfArith(odd, P, Pow2(t + 1), y, x);
    }
  }

  lemma HalfArith(odd: int, P: int, D: int, y: int, x: int)
    requires y == odd * P && D == 2 * P && x == 2 * y
    ensures x == odd * D
  {
  }

  /** Shifting a non-zero word up by k bits, without losing any, adds k trailing zeros. */
  lemma {:induction false} TrailingZerosShift(q: u32, k: nat, x: u32)
    requires q > 0 && x == q * Pow2(k)
    ensures TrailingZeros(x) == TrailingZeros(q) + k
    decreases k
  {
    if k > 0 {
      var P := Pow2(k - 1);
      var y := q * P;
      DoubleArith(q, P, Pow2(k), x, y);
      TrailingZerosShift(q, k - 1, y);
      TrailingZerosDouble(y, x);
    }
  }

  lemma DoubleArith(q: int, P: int, D: int, x: int, y: int)
    requires q > 0 && P > 0 && D == 2 * P && x == q * D && y == q * P
    ensures x == 2 * y && 0 < y <= x
  {
  }

  /** Doubling a non-zero word adds one trailing zero. */
  lemma TrailingZerosDouble(y: u32, x: u32)
    requires y > 0 && x == 2 * y
    ensures TrailingZeros(x) == TrailingZeros(y) + 1
  {
    assert x % 2 == 0 && x / 2 == y;
  }

  /** A word with at least k trailing zeros has its low k bits zero. */
  lemma LowBitsZero(x: u32, k: nat)
    requires x > 0 && k <= TrailingZeros(x)
    ensures x % Pow2(k) == 0
  {
    var t := TrailingZeros(x);
    var odd := TrailingZerosSplit(x);
    var d := t - k;
    var P, Q := Pow2(k), Pow2(d);
    Pow2Mul(d, k, t);
    var q := odd * Q;
    assert x == q * P by {
      MulAssoc(odd, Q, P);
    }
    DivModUnique(x, P, q, 0);
  }

  /** A word with fewer than k trailing zeros has a low k bit set. */
  lemma LowBitsNonZero(x: u32, k: nat)
    requires x > 0 && TrailingZeros(x) < k
    ensures x % Pow2(k) != 0
  {
    if x % Pow2(k) == 0 {
      var q := x / Pow2(k);
      DivMod(x, Pow2(k));
      TrailingZerosShift(q, k, x);
    }
  }

  lemma MulAssoc(a: int, b: int, c: int)
    ensures a * (b * c) == (a * b) * c
  {
  }
}
