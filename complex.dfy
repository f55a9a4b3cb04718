/** `Complex::square` (src/num.rs:227-239): a complex number with `Component` parts,
    squared by the code's own formula. The real part is `(re + im) * (re - im)`, with
    the multiply's inner slice ending as `end` says; the imaginary part is
    `re + im` added to itself. */
module ComplexSquare {
  import opened Words
  import opened Positional
  import opened Num
  import opened NumLaws
  import opened Multiply

  /** `real` is a Dafny type name, so the fields `real` and `imag` are `re` and `im`. */
  datatype Complex = Complex(re: Component, im: Component)

  /** `z.square()`. The clones and the by-reference `Add`/`Sub` are `add_assign` and
      `sub_assign` on a copy of `z.re`; `imag += imag.clone()` is `add_assign` of the
      sum with itself. As written (`Inclusive`) the multiply fails, and so does the
      square, exactly when either part has fractional words. */
  method Square(z: Complex, end: RangeEnd) returns (r: Option<Complex>)
    ensures end == Inclusive ==> (r.None? <==> (|z.re.subint| > 0 || |z.im.subint| > 0))
    ensures end == Exclusive ==> r.Some?
    ensures r.Some? ==> r.value == SquareOf(z)
  {
    var s := AddAssign(z.re, z.im);
    var d := SubAssign(z.re, z.im);
    var product := Mul(s, d, end);
    if product.None? {
      return None;
    }
    var twice := AddAssign(z.re, z.im);
    twice := AddAssign(twice, twice);
    r := Some(Complex(product.value, twice));
  }

  /** What the square computes when it does not fail. */
  function SquareOf(z: Complex): Complex
  {
    var s := Sum(z.re, z.im);
    Complex(Product(s, Difference(z.re, z.im)), Sum(s, s))
  }

  /** The real part's words are the exact product of the words of `re + im` and of
      `re - im`, and the imaginary part is twice `re + im`, up to whole multiples of
      2^32 whole units, read at the precision L of the parts. */
  lemma SquareValue(z: Complex, L: nat) returns (k: int)
    requires L == Max(|z.re.subint|, |z.im.subint|)
    ensures var s := Sum(z.re, z.im);
      Nat(SquareOf(z).re.subint) == Nat(s.subint) * Nat(Difference(z.re, z.im).subint)
    ensures Scaled(SquareOf(z).im, L) == 2 * (Scaled(z.re, L) + Scaled(z.im, L)) + k * (BASE * BasePow(L))
  {
    var s := Sum(z.re, z.im);
    ProductValue(s, Difference(z.re, z.im));
    var k1 := SumScaledUp(z.re, z.im, L, L);
    var k2 := SumScaledUp(s, s, L, L);
    k := 2 * k1 + k2;
    DoubleSumArith(Scaled(z.re, L) + Scaled(z.im, L), Scaled(s, L), Scaled(SquareOf(z).im, L), k1, k2,
                BASE * BasePow(L));
  }

  lemma DoubleSumArith(v: int, sv: int, tv: int, k1: int, k2: int, X: int)
    requires sv == v + k1 * X && tv == sv + sv + k2 * X
    ensures tv == 2 * v + (2 * k1 + k2) * X
  {
  }

  /** On parts without fractional words the real part is zero, since the multiply takes
      no whole parts, and the imaginary part is the wrapping `2 * (re + im)`. */
  lemma SquareOfIntegers(x: i32, y: i32)
    ensures SquareOf(Complex(FromI32(x), FromI32(y))) == Complex(Component(0, []), FromI32(WrapI32(2 * (x + y))))
  {
    IntegerArithmetic(x, y);
    var w := WrapI32(x + y);
    IntegerArithmetic(w, w);
    DoubleWrap(x + y, w, 2 * (x + y));
    ProductOfIntegers(w, WrapI32(x - y));
  }

  /** Doubling a wrapped value wraps like doubling the value. */
  lemma DoubleWrap(s: int, w: int, t: int)
    requires w == WrapI32(s) && t == 2 * s
    ensures WrapI32(w + w) == WrapI32(t)
  {
    WrapI32Compose(s, w, s + w);
    WrapI32Compose(w, s, s + w);
    WrapI32Compose(s, s, t);
  }

  /** 1 + 1i squares to 0 + 4i by this formula, where (1 + i)^2 is 2i. */
  lemma SquareOfOnePlusI()
    ensures SquareOf(Complex(FromI32(1), FromI32(1))) == Complex(Component(0, []), FromI32(4))
  {
    SquareOfIntegers(1, 1);
  }
}
