/** Machine words and the word-level intrinsics `carrying_add`, `borrowing_sub` and
    `carrying_mul` of Rust's `u32`, stated over unbounded integers. */
module Words {

  /** 2^32: one past the largest `u32`. */
  const BASE: int := 0x1_0000_0000

  /** 2^31: one past the largest `i32`. */
  const HALF: int := 0x8000_0000

  type u32 = x: int | 0 <= x < BASE
  type i32 = x: int | -HALF <= x < HALF

  /** 0 or 1, as `carry as i32` gives it. */
  function Bit(b: bool): (r: nat)
    ensures r <= 1 && (r == 1 <==> b)
  {
    if b then 1 else 0
  }

  /** `x` wrapped into the `i32` range, as the release build's `+=` and `-=` do. */
  function WrapI32(x: int): (r: i32)
    ensures -HALF <= x < HALF ==> r == x
  {
    (x + HALF) % BASE - HALF
  }

  /** Wrapping moves `x` by a whole multiple of 2^32. */
  lemma WrapI32Congruent(x: int) returns (k: int)
    ensures WrapI32(x) == x + k * BASE
  {
    var m := (x + HALF) % BASE;
    k := (x + HALF) / BASE;
    DivModUnique(x + HALF, BASE, k, m);
    k := -k;
  }

  /** Wrapping is insensitive to multiples of 2^32. */
  lemma WrapI32Shift(x: int, k: int)
    ensures WrapI32(x + k * BASE) == WrapI32(x)
  {
    assert (x + k * BASE + HALF) % BASE == (x + HALF) % BASE by {
      ModShift(x + HALF, k, BASE);
    }
  }

  /** Wrapping twice is wrapping once: the two `+=` of `add_assign` compose. */
  lemma WrapI32Compose(x: int, y: int, z: int)
    requires z == x + y
    ensures WrapI32(WrapI32(x) + y) == WrapI32(z)
  {
    var k := WrapI32Congruent(x);
    WrapI32Shift(z, k);
  }

  /** `WrapI32Compose` for a subtraction. */
  lemma WrapI32ComposeSub(x: int, y: int, z: int)
    requires z == x - y
    ensures WrapI32(WrapI32(x) - y) == WrapI32(z)
  {
    WrapI32Compose(x, -y, z);
    assert WrapI32(x) - y == WrapI32(x) + -y;
  }

  /** `(a + k*m) % m == a % m`. */
  lemma ModShift(a: int, k: int, m: int)
    requires m > 0
    ensures (a + k * m) % m == a % m
  {
    var q := a / m;
    var r := a % m;
    assert a + k * m == (q + k) * m + r;
    DivModUnique(a + k * m, m, q + k, r);
  }

  /** Euclidean division is determined by its defining equation. */
  lemma DivModUnique(v: int, d: int, q: int, r: int)
    requires d > 0 && 0 <= r < d && v == q * d + r
    ensures v / d == q && v % d == r
  {
    var q', r' := v / d, v % d;
    assert v == q' * d + r';
    var e := q' - q;
    assert e * d == r - r' by {
      assert e * d == q' * d - q * d;
    }
    if e >= 1 {
      MulAtLeast(e, d);
    } else if e <= -1 {
      MulAtLeast(-e, d);
    }
  }

  /** Bounds on a dividend bound its quotient. */
  lemma DivBounds(v: int, d: int, lo: int, hi: int)
    requires d > 0 && lo * d <= v < hi * d
    ensures lo <= v / d < hi
  {
    var q := v / d;
    assert q * d <= v < (q + 1) * d;
    if q >= hi {
      MulMonotone(hi, q, d);
    } else if q < lo {
      MulMonotone(q + 1, lo, d);
    }
  }

  lemma MulMonotone(a: int, b: int, d: int)
    requires a <= b && d > 0
    ensures a * d <= b * d
  {
    assert b * d - a * d == (b - a) * d;
  }

  lemma MulAtLeast(e: int, d: int)
    requires e >= 1 && d > 0
    ensures e * d >= d
  {
    assert e * d == (e - 1) * d + d;
    assert (e - 1) * d >= 0;
  }

  /** `x.carrying_add(y, carry)`: the low word of x + y + carry and whether it overflowed. */
  function CarryingAdd(x: u32, y: u32, carry: bool): (r: (u32, bool))
    ensures r.0 + Bit(r.1) * BASE == x + y + Bit(carry)
  {
    var t := x + y + Bit(carry);
    if t < BASE then (t, false) else (t - BASE, true)
  }

  /** `x.borrowing_sub(y, borrow)`: x - y - borrow modulo 2^32 and whether it went below zero. */
  function BorrowingSub(x: u32, y: u32, borrow: bool): (r: (u32, bool))
    ensures r.0 - Bit(r.1) * BASE == x - y - Bit(borrow)
  {
    var t := x - y - Bit(borrow);
    if t >= 0 then (t, false) else (t + BASE, true)
  }

  /** `x.carrying_mul(y, carry)`: the 64-bit value x*y + carry split into its low and high words. */
  function CarryingMul(x: u32, y: u32, carry: u32): (r: (u32, u32))
    ensures r.0 + r.1 * BASE == x * y + carry
  {
    var t := x * y + carry;
    MulBound(x, y, BASE - 1, BASE - 1);
    SplitWords(t);
    (t % BASE, t / BASE)
  }

  /** A value below BASE^2 splits into a low and a high word. */
  lemma SplitWords(t: int)
    requires 0 <= t <= (BASE - 1) * (BASE - 1) + (BASE - 1)
    ensures 0 <= t % BASE < BASE && 0 <= t / BASE < BASE
    ensures t % BASE + t / BASE * BASE == t
  {
    DivBounds(t, BASE, 0, BASE);
  }

  /** Products of bounded non-negative factors are bounded. */
  lemma MulBound(x: int, y: int, X: int, Y: int)
    requires 0 <= x <= X && 0 <= y <= Y
    ensures x * y <= X * Y
  {
    assert x * y <= X * y;
    assert X * y <= X * Y;
  }

  /** Products of non-negative factors below strict bounds are below the product of the bounds. */
  lemma MulStrict(x: int, y: int, X: int, Y: int)
    requires 0 <= x < X && 0 <= y < Y
    ensures x * y < X * Y
  {
    MulBound(x, y, X - 1, Y);
    assert (X - 1) * Y == X * Y - Y;
  }
}
