/** `Component::from(f32)` (src/num.rs:165-216), from the point where the float
    operations have been done. The conversion takes three 32-bit patterns: `num`, its
    floor `num.floor()` and the fractional part `num - num.floor()`. It rejects
    infinities, NaNs and integer parts of magnitude 256 or more. It then places the
    fraction's significand, implicit leading one included, into fresh fractional words.
    As written it sizes those words as `subint_bits / 50`, which is never enough: the
    first store is always out of bounds. `FromF32Exact` is the conversion the comments
    describe: it holds the floor plus the computed fraction exactly. For `num` in
    (-1, 0) the float subtraction `num - num.floor()` itself rounds, so there the sum is
    not always `num` (`FromF32ExactRoundedFraction`). */
module FromFloat {
  import opened Words
  import opened Positional
  import opened Bits
  import opened Num

  /** Why the conversion stops: the three checks, and the panic of the out-of-bounds store. */
  datatype Error = Infinite | NotANumber | TooLarge | IndexOutOfBounds

  datatype Result<T> = Ok(value: T) | Err(error: Error)

  /** The bit pattern of 1.0, the largest value `num - num.floor()` can round to. */
  const ONE: u32 := 0x3F80_0000

  /** `(bits >> 23) as u8`: the biased exponent; the cast drops the sign bit. */
  function Exponent(bits: u32): (r: nat)
    ensures r < 256
  {
    (bits / 0x80_0000) % 256
  }

  /** `bits & (u32::MAX >> 9)`: the 23 stored mantissa bits, the low bits of the pattern. */
  function Mantissa(bits: u32): (r: nat)
    ensures r < 0x80_0000 && (bits - r) % 0x80_0000 == 0
  {
    DivMod(bits, 0x80_0000);
    DivModUnique(bits - bits % 0x80_0000, 0x80_0000, bits / 0x80_0000, 0);
    bits % 0x80_0000
  }

  /** Below the sign bit, a pattern is its exponent field above its mantissa field. */
  lemma LowBits(bits: u32)
    ensures bits % HALF == Exponent(bits) * 0x80_0000 + Mantissa(bits)
  {
    var q, m := bits / 0x80_0000, bits % 0x80_0000;
    DivMod(bits, 0x80_0000);
    DivBounds(bits, 0x80_0000, 0, 512);
    var sign, e := q / 256, q % 256;
    assert bits == sign * HALF + (e * 0x80_0000 + m);
    DivModUnique(bits, HALF, sign, e * 0x80_0000 + m);
  }

  /** The fields of a pattern, read back from its sign, exponent and mantissa. */
  lemma Fields(bits: u32, sign: nat, e: nat, m: nat)
    requires sign <= 1 && e < 256 && m < 0x80_0000 && bits == (sign * 256 + e) * 0x80_0000 + m
    ensures Exponent(bits) == e && Mantissa(bits) == m
  {
    DivModUnique(bits, 0x80_0000, sign * 256 + e, m);
    DivModUnique(sign * 256 + e, 256, sign, e);
  }

  /** `num.is_infinite()` on the pattern: all exponent bits set, no mantissa bits. The
      infinities are 0x7F80_0000 and 0xFF80_0000. */
  predicate IsInfinite(bits: u32)
    ensures IsInfinite(bits) <==> bits % HALF == 0x7F80_0000
  {
    LowBits(bits);
    Exponent(bits) == 255 && Mantissa(bits) == 0
  }

  /** `num.is_nan()` on the pattern: all exponent bits set, some mantissa bit set. The NaNs
      are the patterns above an infinity, of either sign. */
  predicate IsNan(bits: u32)
    ensures IsNan(bits) <==> bits % HALF > 0x7F80_0000
  {
    LowBits(bits);
    Exponent(bits) == 255 && Mantissa(bits) != 0
  }

  /** `x as i32` for a float below 2^8 in magnitude: its value truncated toward zero. */
  function FloatToI32(bits: u32): (r: i32)
    requires Exponent(bits) <= 134
    ensures -256 < r < 256
    ensures bits < HALF ==> r == Significand(bits) / Pow2(Shift(bits))
    ensures bits >= HALF ==> r == -(Significand(bits) / Pow2(Shift(bits)))
  {
    var e := Exponent(bits);
    var magnitude := if e < 127 then 0 else TruncatedMagnitude(e, Mantissa(bits));
    TruncationValue(bits, magnitude);
    if bits >= HALF then -magnitude else magnitude
  }

  /** The magnitude `FloatToI32` takes is the float's magnitude `Significand / 2^Shift`
      rounded down: 0 below 1.0, where the significand has fewer bits than the shift. */
  lemma TruncationValue(bits: u32, magnitude: nat)
    requires Exponent(bits) <= 134
    requires magnitude == if Exponent(bits) < 127 then 0 else TruncatedMagnitude(Exponent(bits), Mantissa(bits))
    ensures magnitude == Significand(bits) / Pow2(Shift(bits))
  {
    if Exponent(bits) < 127 {
      Pow2Values();
      Pow2Monotone(24, Shift(bits));
      DivModUnique(Significand(bits), Pow2(Shift(bits)), 0, Significand(bits));
    }
  }

  /** The integer part of (2^23 + mantissa) * 2^(e-150), for 127 <= e <= 134. */
  function TruncatedMagnitude(e: nat, mantissa: nat): (r: nat)
    requires 127 <= e <= 134 && mantissa < 0x80_0000
    ensures r < 256
  {
    var d := Pow2(150 - e);
    Pow2Values();
    Pow2Monotone(16, 150 - e);
    DivBounds(0x80_0000 + mantissa, d, 0, 256);
    (0x80_0000 + mantissa) / d
  }

  /** The fraction as a value: it is `Significand(bits) / 2^Shift(bits)`. A zero or
      subnormal pattern has no implicit leading one. */
  function Significand(bits: u32): (r: nat)
    ensures r < 0x100_0000
  {
    if Exponent(bits) == 0 then Mantissa(bits) else 0x80_0000 + Mantissa(bits)
  }

  function Shift(bits: u32): (r: nat)
    requires Exponent(bits) <= 150
  {
    if Exponent(bits) == 0 then 149 else 150 - Exponent(bits)
  }

  /** `x << k` on `u32` in a release build: the shift amount is taken modulo 32 and the
      bits shifted out are lost. */
  function ShiftLeft(x: u32, k: nat): (r: u32)
    ensures (x * Pow2(k % 32) - r) % BASE == 0
    ensures x * Pow2(k % 32) < BASE ==> r == x * Pow2(k % 32)
  {
    var v := x * Pow2(k % 32);
    LowWord(v);
    v % BASE
  }

  /** The low 32 bits of a non-negative value: it is congruent to them, and equal when it
      fits. */
  lemma LowWord(v: int)
    requires v >= 0
    ensures (v - v % BASE) % BASE == 0 && (v < BASE ==> v % BASE == v)
  {
    DivMod(v, BASE);
    DivModUnique(v - v % BASE, BASE, v / BASE, 0);
  }

  /** `x >> k` on `u32`, for k < 32: x divided by 2^k, rounded down. */
  function ShiftRight(x: u32, k: nat): (r: u32)
    requires k < 32
    ensures r * Pow2(k) <= x < (r + 1) * Pow2(k)
  {
    var d := Pow2(k);
    MulAtLeast(d, BASE);
    DivBounds(x, d, 0, BASE);
    DivMod(x, d);
    assert (x / d + 1) * d == x / d * d + d;
    x / d
  }

  /** The stores at the end of the conversion: `len` zero words, `fraction >> s` at `idx`
      and, when there is room, `fraction << (32 - s)` at `idx + 1`. */
  function Layout(whole: i32, len: nat, idx: nat, s: nat, fraction: u32): (r: Component)
    requires idx < len && s < 32
    ensures r.whole == whole && |r.subint| == len
    ensures r.subint[idx] == ShiftRight(fraction, s)
    ensures idx + 1 < len ==> r.subint[idx + 1] == ShiftLeft(fraction, 32 - s)
    ensures forall k :: 0 <= k < len && k != idx && k != idx + 1 ==> r.subint[k] == 0
  {
    var words := Zeros(len)[idx := ShiftRight(fraction, s)];
    Component(whole, if idx + 1 < len then words[idx + 1 := ShiftLeft(fraction, 32 - s)] else words)
  }

  // ---------------------------------------------------------------------------
  // As written
  // ---------------------------------------------------------------------------

  /** `Component::from(num)` as written, given the patterns of `num`, `num.floor()` and
      `num - num.floor()`. `u8` arithmetic wraps, as in a release build. */
  function FromF32(numBits: u32, floorBits: u32, fracBits: u32): (r: Result<Component>)
    requires !IsInfinite(numBits) && !IsNan(numBits) ==> fracBits <= ONE
    ensures r == Err(Infinite) <==> IsInfinite(numBits)
    ensures r == Err(NotANumber) <==> IsNan(numBits)
    ensures r == Err(TooLarge) <==> !IsInfinite(numBits) && !IsNan(numBits) && Exponent(floorBits) > 134
    ensures r.Ok? ==> r.value.whole == FloatToI32(floorBits)
  {
    if IsInfinite(numBits) then Err(Infinite)
    else if IsNan(numBits) then Err(NotANumber)
    else if Exponent(floorBits) - 127 > 7 then Err(TooLarge)
    else Store(FloatToI32(floorBits), fracBits)
  }

  /** The allocation and the stores of the conversion as written. */
  function Store(whole: i32, fracBits: u32): (r: Result<Component>)
    ensures r.Ok? ==> r.value.whole == whole
    ensures r.Err? ==> r.error == IndexOutOfBounds
  {
    var exponent := Exponent(fracBits);
    var fraction := HALF + Mantissa(fracBits) * 0x100;
    var offset := (126 - exponent as int) % 256;
    var subintBits := (offset + 24) % 256 - Min(TrailingZeros(fraction), 23);
    var idx := offset / 32;
    var len := subintBits / 50;
    if idx < len then Ok(Layout(whole, len, idx, offset % 32, fraction))
    else Err(IndexOutOfBounds)
  }

  function Min(a: int, b: int): int
  {
    if a < b then a else b
  }

  /** Every float the checks accept fails at the first store: the `subint_bits / 50`
      words allocated never reach index `offset / 32`. */
  lemma FromF32Fails(numBits: u32, floorBits: u32, fracBits: u32)
    requires !IsInfinite(numBits) && !IsNan(numBits) ==> fracBits <= ONE
    ensures FromF32(numBits, floorBits, fracBits).Err?
    ensures FromF32(numBits, floorBits, fracBits).error == IndexOutOfBounds
        <==> !IsInfinite(numBits) && !IsNan(numBits) && Exponent(floorBits) <= 134
  {
    if !IsInfinite(numBits) && !IsNan(numBits) && Exponent(floorBits) <= 134 {
      StoreFails(FloatToI32(floorBits), fracBits);
    }
  }

  /** The stores as written always fail. */
  lemma StoreFails(whole: i32, fracBits: u32)
    requires fracBits <= ONE
    ensures Store(whole, fracBits) == Err(IndexOutOfBounds)
  {
    var exponent := Exponent(fracBits);
    var fraction := HALF + Mantissa(fracBits) * 0x100;
    var offset := (126 - exponent as int) % 256;
    var tz := TrailingZeros(fraction);
    var subintBits := (offset + 24) % 256 - Min(tz, 23);
    WordCountShort(fracBits, exponent, fraction, offset, subintBits);
  }

  /** The word count of the conversion as written is at most the index of its first store. */
  lemma WordCountShort(fracBits: u32, exponent: nat, fraction: u32, offset: nat, subintBits: int)
    requires fracBits <= ONE && exponent == Exponent(fracBits)
    requires fraction == HALF + Mantissa(fracBits) * 0x100 && offset == (126 - exponent as int) % 256
    requires subintBits == (offset + 24) % 256 - Min(TrailingZeros(fraction), 23)
    ensures subintBits / 50 <= offset / 32
  {
    ExponentAtMostOne(fracBits);
    FractionZeros(fracBits, fraction);
    CountArith(exponent, offset, Min(TrailingZeros(fraction), 23), subintBits);
  }

  /** A fraction below 1.0, or 1.0 itself, has a biased exponent of at most 127. */
  lemma ExponentAtMostOne(bits: u32)
    requires bits <= ONE
    ensures Exponent(bits) <= 127
  {
    assert bits / 0x80_0000 <= 127;
  }

  /** The shifted `fraction` has its top bit set and at least 8 low zero bits. */
  lemma FractionZeros(bits: u32, fraction: u32)
    requires fraction == HALF + Mantissa(bits) * 0x100
    ensures TrailingZeros(fraction) >= 8
  {
    Pow2Values();
    var sig := 0x80_0000 + Mantissa(bits);
    TrailingZerosShift(sig, 8, fraction);
  }

  /** `b / 50` against `offset / 32`, for the bit counts the conversion can produce: at
      most `offset + 16` below 1.0, and at most 15 for 1.0, whose offset wraps to 255. */
  lemma CountArith(e: int, offset: int, tz: int, b: int)
    requires 0 <= e <= 127 && offset == (126 - e) % 256 && 8 <= tz <= 23
    requires b == (offset + 24) % 256 - tz
    ensures b / 50 <= offset / 32
  {
    if e == 127 {
      assert offset == 255 && b <= 15;
    } else {
      assert offset == 126 - e && b <= offset + 16;
      if offset < 32 {
      } else if offset < 64 {
      } else if offset < 96 {
      }
    }
  }

  /** 1.5 (1.0 and 0.5) is rejected as written, though it needs one word. */
  lemma FromF32OnePointFive()
    ensures FromF32(0x3FC0_0000, 0x3F80_0000, 0x3F00_0000) == Err(IndexOutOfBounds)
  {
    FromF32Fails(0x3FC0_0000, 0x3F80_0000, 0x3F00_0000);
  }

  // ---------------------------------------------------------------------------
  // As evidently intended
  // ---------------------------------------------------------------------------

  /** The conversion the comments describe: `ceil(subint_bits / 32)` words, the trailing
      zeros counted in the 24-bit significand rather than in the shifted `fraction`, no
      words for a zero fraction, no implicit one for a subnormal one, and a fraction
      rounded up to 1.0 carried into the whole part. */
  function FromF32Exact(numBits: u32, floorBits: u32, fracBits: u32): (r: Result<Component>)
    requires !IsInfinite(numBits) && !IsNan(numBits) ==> fracBits <= ONE
    ensures r.Err? <==> IsInfinite(numBits) || IsNan(numBits) || Exponent(floorBits) > 134
  {
    if IsInfinite(numBits) then Err(Infinite)
    else if IsNan(numBits) then Err(NotANumber)
    else if Exponent(floorBits) - 127 > 7 then Err(TooLarge)
    else Ok(Convert(FloatToI32(floorBits), fracBits))
  }

  /** The integer part `whole` and the fraction's pattern, made into a component. */
  function Convert(whole: i32, fracBits: u32): (r: Component)
    requires fracBits <= ONE && -256 < whole < 256
    ensures r.whole == if fracBits == ONE then whole + 1 else whole
    ensures r.subint == [] <==> fracBits == 0 || fracBits == ONE
  {
    OnlyOneIsOne(fracBits);
    var exponent := Exponent(fracBits);
    if fracBits == 0 then Component(whole, [])
    else if exponent == 127 then Component(whole + 1, [])
    else Place(whole, Significand(fracBits), if exponent == 0 then 125 else 126 - exponent)
  }

  /** Of the patterns up to 1.0, only 1.0 itself has the exponent of 1.0. */
  lemma OnlyOneIsOne(bits: u32)
    requires bits <= ONE
    ensures Exponent(bits) == 127 <==> bits == ONE
  {
    Fields(ONE, 0, 127, 0);
    assert bits / 0x80_0000 <= 127;
  }

  /** The significand `sig` (1 <= sig < 2^24) placed so that its top bit position, counted
      from the binary point, is `offset` + 24 - (bit length of sig). */
  function Place(whole: i32, sig: nat, offset: nat): (r: Component)
    requires 1 <= sig < 0x100_0000 && offset <= 125
    ensures r.whole == whole && offset / 32 < |r.subint| <= 5
  {
    var fraction := sig * 0x100;
    SignificandZeros(sig, fraction);
    var subintBits := offset + 24 - TrailingZeros(sig);
    Layout(whole, (subintBits + 31) / 32, offset / 32, offset % 32, fraction)
  }

  /** Shifting the significand up 8 bits adds 8 trailing zeros, and it has at most 23. */
  lemma SignificandZeros(sig: nat, fraction: u32)
    requires 1 <= sig < 0x100_0000 && fraction == sig * 0x100
    ensures TrailingZeros(fraction) == TrailingZeros(sig) + 8 && TrailingZeros(sig) <= 23
  {
    Pow2Values();
    TrailingZerosShift(sig, 8, fraction);
    if TrailingZeros(sig) > 23 {
      Pow2Monotone(24, TrailingZeros(sig));
    }
  }

  /** `Place` loses nothing and wastes nothing: its words, read as a fraction of
      BASE^|words|, are exactly sig / 2^(offset + 24), and the last word is non-zero. */
  lemma PlaceValue(whole: i32, sig: nat, offset: nat)
    requires 1 <= sig < 0x100_0000 && offset <= 125
    ensures var w := Place(whole, sig, offset).subint;
      |w| > 0 && w[|w| - 1] != 0 && Nat(w) * Pow2(offset + 24) == sig * BasePow(|w|)
  {
    var F: u32 := sig * 0x100;
    var idx, s := offset / 32, offset % 32;
    var w := Place(whole, sig, offset).subint;
    var hi := ShiftRight(F, s);
    PlaceWords(whole, sig, offset, F, idx, s, hi, w);
    if s <= TrailingZeros(F) {
      OneWordValue(sig, F, idx, s, offset, hi, w);
    } else {
      TwoWordValue(sig, F, idx, s, offset, hi, ShiftLeft(F, 32 - s), w);
    }
  }

  /** The words `Place` stores: `idx` zero words, then `F >> s`, then, when the low s
      bits of F are not all zero, those bits moved to the top of one more word. */
  lemma PlaceWords(whole: i32, sig: nat, offset: nat, F: u32, idx: nat, s: nat, hi: u32, w: seq<u32>)
    requires 1 <= sig < 0x100_0000 && offset <= 125 && F == sig * 0x100
    requires idx == offset / 32 && s == offset % 32 && hi == ShiftRight(F, s)
    requires w == Place(whole, sig, offset).subint
    ensures s <= TrailingZeros(F) ==> w == Zeros(idx) + [hi]
    ensures s > TrailingZeros(F) ==> w == Zeros(idx) + [hi, ShiftLeft(F, 32 - s)]
  {
    SignificandZeros(sig, F);
    if s <= TrailingZeros(F) {
      assert |w| == idx + 1;
      assert w == Zeros(idx) + [hi];
    } else {
      assert |w| == idx + 2;
      assert w == Zeros(idx) + [hi, ShiftLeft(F, 32 - s)];
    }
  }

  /** The significand fits in the word at `idx`. */
  lemma OneWordValue(sig: nat, F: u32, idx: nat, s: nat, offset: nat, hi: u32, w: seq<u32>)
    requires 1 <= sig && F == sig * 0x100 && offset == 32 * idx + s && s < 32
    requires s <= TrailingZeros(F) && hi == F / Pow2(s) && w == Zeros(idx) + [hi]
    ensures |w| > 0 && w[|w| - 1] != 0 && Nat(w) * Pow2(offset + 24) == sig * BasePow(|w|)
  {
    Pow2Values();
    DivMod(F, Pow2(s));
    PlaceOneWord(F, s, hi, F % Pow2(s));
    NatLastWords(idx, [hi], w);
    var T := Pow2(32 * idx + 24);
    Pow2Mul(s, 32 * idx + 24, offset + 24);
    Pow2Mul(32 * idx + 24, 8, 32 * (idx + 1));
    BasePowIsPow2(idx + 1, 32 * (idx + 1));
    OneWordArith(hi, sig, Pow2(s), T, Pow2(offset + 24), BasePow(idx + 1));
  }

  /** The significand spills from the word at `idx` into the next one. */
  lemma TwoWordValue(sig: nat, F: u32, idx: nat, s: nat, offset: nat, hi: u32, lo: u32, w: seq<u32>)
    requires 1 <= sig && F == sig * 0x100 && offset == 32 * idx + s && 0 < s < 32
    requires TrailingZeros(F) < s && hi == F / Pow2(s) && lo == ShiftLeft(F, 32 - s)
    requires w == Zeros(idx) + [hi, lo]
    ensures |w| > 0 && w[|w| - 1] != 0 && Nat(w) * Pow2(offset + 24) == sig * BasePow(|w|)
  {
    Pow2Values();
    var S, S' := Pow2(s), Pow2(32 - s);
    Pow2Mul(s, 32 - s, 32);
    DivMod(F, S);
    var r := F % S;
    PlaceTwoWords(F, s, hi, r, S, S', lo);
    NatLastWords(idx, [hi, lo], w);
    var T := TwoWordPowers(idx, s, offset);
    assert |w| == idx + 2;
    TwoWordArith(hi, r, sig, S, S', T, Pow2(offset + 24), BasePow(idx + 2), Nat(w));
  }

  /** The powers of two that relate a value placed at bit `offset` to two words after
      `idx` leading ones. */
  lemma TwoWordPowers(idx: nat, s: nat, offset: nat) returns (T: int)
    requires offset == 32 * idx + s
    ensures Pow2(s) * T == Pow2(offset + 24) && BasePow(idx + 2) == T * (256 * BASE)
  {
    var t := 32 * idx + 24;
    T := Pow2(t);
    Pow2Values();
    Pow2Mul(s, t, offset + 24);
    Pow2Mul(8, 32, 40);
    Pow2Mul(t, 40, t + 40);
    BasePowIsPow2(idx + 2, t + 40);
  }

  /** Leading zero words add nothing; one or two trailing words read big-endian. */
  lemma NatLastWords(idx: nat, tail: seq<u32>, w: seq<u32>)
    requires w == Zeros(idx) + tail && 1 <= |tail| <= 2
    ensures |tail| == 1 ==> Nat(w) == tail[0]
    ensures |tail| == 2 ==> Nat(w) == tail[0] * BASE + tail[1]
  {
    NatAppend(Zeros(idx), tail);
    NatZeros(idx);
    assert BasePow(0) == 1 && BasePow(1) == BASE;
    assert Nat([]) == 0;
    if |tail| == 1 {
      NatPrepend(tail[0], []);
      assert tail == [tail[0]] + [];
    } else {
      NatPrepend(tail[0], [tail[1]]);
      NatPrepend(tail[1], []);
      assert tail == [tail[0]] + ([tail[1]] + []);
    }
  }

  /** When the significand ends within the first word, the bits shifted out are zeros
      and the word kept is non-zero. */
  lemma PlaceOneWord(F: u32, s: nat, hi: int, r: int)
    requires F > 0 && s <= TrailingZeros(F) && hi == F / Pow2(s) && r == F % Pow2(s)
    requires F == hi * Pow2(s) + r
    ensures r == 0 && hi >= 1
  {
    LowBitsZero(F, s);
    Pow2Monotone(s, TrailingZeros(F));
    if hi <= 0 {
      MulMonotone(hi, 0, Pow2(s));
    }
  }

  /** When it spills into a second word, that word holds the low s bits shifted to the
      top, and they are not all zero. */
  lemma PlaceTwoWords(F: u32, s: nat, hi: int, r: int, S: int, S': int, lo: int)
    requires 0 < s < 32 && TrailingZeros(F) < s && F > 0 && S == Pow2(s)
    requires hi == F / S && r == F % S && F == hi * S + r
    requires S' == Pow2(32 - s) && S * S' == BASE && lo == ShiftLeft(F, 32 - s)
    ensures lo == r * S' && lo != 0
  {
    LowBitsNonZero(F, s);
    assert (32 - s) % 32 == 32 - s;
    SpillWord(F, hi, r, S, S');
  }

  /** The low word of `F << (32 - s)`: the bits of F below 2^s, moved to the top. */
  lemma SpillWord(F: int, hi: int, r: int, S: int, S': int)
    requires F == hi * S + r && 0 < r < S && S' > 0 && S * S' == 0x1_0000_0000
    ensures (F * S') % 0x1_0000_0000 == r * S' && r * S' != 0
  {
    assert F * S' == hi * (S * S') + r * S';
    assert r * S' < 0x1_0000_0000 by {
      MulBound(r, S', S - 1, S');
    }
    DivModUnique(F * S', 0x1_0000_0000, hi, r * S');
    MulAtLeast(r, S');
  }

  lemma OneWordArith(hi: int, sig: int, S: int, T: int, E: int, B: int)
    requires E == S * T && B == 256 * T && sig * 256 == hi * S
    ensures hi * E == sig * B
  {
    assert hi * E == (hi * S) * T;
  }

  lemma TwoWordArith(hi: int, r: int, sig: int, S: int, S': int, T: int, E: int, B: int, n: int)
    requires sig * 256 == hi * S + r && S * S' == 0x1_0000_0000
    requires E == S * T && B == T * (256 * 0x1_0000_0000) && n == hi * 0x1_0000_0000 + r * S'
    ensures n * E == sig * B
  {
    assert hi * 0x1_0000_0000 + r * S' == (hi * S + r) * S';
    assert (hi * S + r) * S' * (S * T) == (hi * S + r) * (S * S') * T;
  }

  // ---------------------------------------------------------------------------
  // What the corrected conversion promises
  // ---------------------------------------------------------------------------

  /** `c` holds `whole + sig / 2^shift` exactly: with L its number of fractional words,
      its value times BASE^L, times 2^shift, is `whole` times BASE^L times 2^shift plus
      `sig` times BASE^L. */
  ghost predicate Exact(c: Component, whole: int, sig: int, shift: nat)
  {
    var L := |c.subint|;
    Scaled(c, L) * Pow2(shift) == whole * BasePow(L) * Pow2(shift) + sig * BasePow(L)
  }

  /** No trailing zero word: the last fractional word, if any, is non-zero. */
  predicate Trimmed(c: Component)
  {
    c.subint == [] || c.subint[|c.subint| - 1] != 0
  }

  /** Every float the checks accept converts, and exactly: the component holds the
      float's integer part plus its fraction `Significand / 2^Shift`, in no more words
      than the fraction needs. */
  lemma FromF32ExactValue(numBits: u32, floorBits: u32, fracBits: u32)
    requires fracBits <= ONE
    requires !IsInfinite(numBits) && !IsNan(numBits) && Exponent(floorBits) <= 134
    ensures Exponent(fracBits) <= 127 && FromF32Exact(numBits, floorBits, fracBits).Ok?
    ensures Exact(FromF32Exact(numBits, floorBits, fracBits).value, FloatToI32(floorBits),
                  Significand(fracBits), Shift(fracBits))
    ensures Trimmed(FromF32Exact(numBits, floorBits, fracBits).value)
  {
    ConvertValue(FloatToI32(floorBits), fracBits);
  }

  /** `Convert` is exact and trimmed. */
  lemma ConvertValue(whole: i32, fracBits: u32)
    requires fracBits <= ONE && -256 < whole < 256
    ensures Exponent(fracBits) <= 127
    ensures Exact(Convert(whole, fracBits), whole, Significand(fracBits), Shift(fracBits))
    ensures Trimmed(Convert(whole, fracBits))
  {
    ExponentAtMostOne(fracBits);
    var e := Exponent(fracBits);
    assert BasePow(0) == 1 && Nat([]) == 0;
    if fracBits == 0 {
      var P := Pow2(Shift(fracBits));
      assert Convert(whole, fracBits) == Component(whole, []) && Significand(fracBits) == 0;
      ValueArith(whole, 0, 1, P, 0, whole);
    } else if e == 127 {
      ConvertOne(whole, fracBits);
    } else {
      var sig := Significand(fracBits);
      if e == 0 {
        assert fracBits < 0x80_0000;
      }
      var offset := if e == 0 then 125 else 126 - e;
      ConvertPlace(whole, fracBits, e, sig, offset);
      PlacedExact(whole, sig, offset, Shift(fracBits));
    }
  }

  /** A fraction that rounded up to 1.0 is carried into the whole part. */
  lemma ConvertOne(whole: i32, fracBits: u32)
    requires fracBits <= ONE && -256 < whole < 256 && Exponent(fracBits) == 127
    ensures Exact(Convert(whole, fracBits), whole, Significand(fracBits), Shift(fracBits))
    ensures Trimmed(Convert(whole, fracBits))
  {
    assert fracBits == ONE;
    Pow2Values();
    var P := Pow2(Shift(fracBits));
    assert BasePow(0) == 1 && Nat([]) == 0;
    assert Convert(whole, fracBits) == Component(whole + 1, []) && Significand(fracBits) == P;
    ValueArith(whole, 1, 1, P, P, whole + 1);
  }

  /** What `Place` stores is exact and trimmed. */
  lemma PlacedExact(whole: i32, sig: nat, offset: nat, shift: nat)
    requires 1 <= sig < 0x100_0000 && offset <= 125 && shift == offset + 24
    ensures Exact(Place(whole, sig, offset), whole, sig, shift)
    ensures Trimmed(Place(whole, sig, offset))
  {
    PlaceValue(whole, sig, offset);
    var c := Place(whole, sig, offset);
    var L := |c.subint|;
    assert BasePow(0) == 1;
    ValueArith(whole, Nat(c.subint), BasePow(L), Pow2(shift), sig, Scaled(c, L));
  }

  lemma ValueArith(whole: int, N: int, B: int, P: int, sig: int, v: int)
    requires v == whole * B + N && N * P == sig * B
    ensures v * P == whole * B * P + sig * B
  {
  }

  /** 1.5 converts to whole part 1 and one word holding one half. */
  lemma FromF32ExactOnePointFive()
    ensures FromF32Exact(0x3FC0_0000, 0x3F80_0000, 0x3F00_0000) == Ok(Component(1, [0x8000_0000]))
  {
    WholeOne();
    Fields(0x3FC0_0000, 0, 127, 0x40_0000);
    Fields(0x3F80_0000, 0, 127, 0);
    Fields(0x3F00_0000, 0, 126, 0);
    ConvertPlace(1, 0x3F00_0000, 126, 0x80_0000, 0);
    HalfZeros();
    PlaceOneWordExample(1, 0x80_0000, 0x8000_0000);
  }

  /** -0.25 has floor -1 and fraction 0.75: whole part -1 and one word holding 0.75. */
  lemma FromF32ExactMinusQuarter()
    ensures FromF32Exact(0xBE80_0000, 0xBF80_0000, 0x3F40_0000) == Ok(Component(-1, [0xC000_0000]))
  {
    WholeOne();
    Fields(0xBE80_0000, 1, 125, 0);
    Fields(0xBF80_0000, 1, 127, 0);
    Fields(0x3F40_0000, 0, 126, 0x40_0000);
    ConvertPlace(-1, 0x3F40_0000, 126, 0xC0_0000, 0);
    Pow2Values();
    TrailingZerosShift(3, 22, 0xC0_0000);
    PlaceOneWordExample(-1, 0xC0_0000, 0xC000_0000);
  }

  /** A non-zero fraction below 1.0 is placed by `Place`. */
  lemma ConvertPlace(whole: i32, fracBits: u32, e: nat, sig: nat, offset: nat)
    requires fracBits <= ONE && -256 < whole < 256 && fracBits != 0
    requires e == Exponent(fracBits) && e < 127 && sig == Significand(fracBits)
    requires offset == if e == 0 then 125 else 126 - e
    ensures Convert(whole, fracBits) == Place(whole, sig, offset)
  {
  }

  /** The patterns of 1.0 and -1.0 convert to 1 and -1. */
  lemma WholeOne()
    ensures FloatToI32(0x3F80_0000) == 1 && FloatToI32(0xBF80_0000) == -1
  {
    Pow2Values();
    Fields(0x3F80_0000, 0, 127, 0);
    Fields(0xBF80_0000, 1, 127, 0);
    assert TruncatedMagnitude(127, 0) == 1;
  }

  /** A normal significand of the fraction of 0.5 or more, with at least one trailing
      zero bit, fills exactly one word. */
  lemma PlaceOneWordExample(whole: i32, sig: nat, word: u32)
    requires 0x80_0000 <= sig < 0x100_0000 && 1 <= TrailingZeros(sig) <= 23 && word == sig * 0x100
    ensures Place(whole, sig, 0) == Component(whole, [word])
  {
    assert Pow2(0) == 1;
    assert ShiftRight(word, 0) == word;
    assert Zeros(1)[0 := word] == [word];
  }

  /** 2.0 has no fraction: whole part 2 and no words. */
  lemma FromF32ExactTwo()
    ensures FromF32Exact(0x4000_0000, 0x4000_0000, 0) == Ok(Component(2, []))
  {
    Pow2Values();
    Fields(0x4000_0000, 0, 128, 0);
    assert TruncatedMagnitude(128, 0) == 2;
  }

  /** 256.0 does not fit: its integer part needs more than the 8 bits the check allows. */
  lemma FromF32ExactTooLarge()
    ensures FromF32Exact(0x4380_0000, 0x4380_0000, 0) == Err(TooLarge)
  {
  }

  /** -2^-30 has floor -1.0, and `num - num.floor()` rounds to 1.0: the component holds
      -1 + 1 = 0. The floor and the computed fraction are held exactly, but `num` is not. */
  lemma FromF32ExactRoundedFraction()
    ensures FromF32Exact(0xB080_0000, 0xBF80_0000, ONE) == Ok(Component(0, []))
  {
    WholeOne();
    Fields(0xB080_0000, 1, 97, 0);
    Fields(0xBF80_0000, 1, 127, 0);
    Fields(ONE, 0, 127, 0);
  }

  /** The significand of one half, 2^23, has 23 trailing zeros. */
  lemma HalfZeros()
    ensures TrailingZeros(0x80_0000) == 23
  {
    Pow2Values();
    TrailingZerosShift(1, 23, 0x80_0000);
  }
}
