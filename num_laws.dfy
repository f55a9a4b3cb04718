/** Laws of `Component` addition and subtraction: what `Sum` and `Difference`, and so
    `add_assign` and `sub_assign`, promise about values. Whole parts wrap at 32 bits, so
    the exact laws hold modulo 2^32 whole units and hold outright when nothing
    overflows. */
module NumLaws {
  import opened Words
  import opened Positional
  import opened Num

  // ---------------------------------------------------------------------------
  // Values
  // ---------------------------------------------------------------------------

  /** The sum shows the exact scaled sum of its operands when that fits the whole part. */
  lemma SumValue(a: Component, b: Component, L: nat)
    requires L == Max(|a.subint|, |b.subint|)
    requires -HALF * BasePow(L) <= Scaled(a, L) + Scaled(b, L) < HALF * BasePow(L)
    ensures Scaled(Sum(a, b), L) == Scaled(a, L) + Scaled(b, L)
  {
    var v := Scaled(a, L) + Scaled(b, L);
    SumIs(a, b, L, v);
    EncodeValue(v, L);
    WrappedExact(v, L);
  }

  /** The difference shows the exact scaled difference when that fits the whole part. */
  lemma DifferenceValue(a: Component, b: Component, L: nat)
    requires L == Max(|a.subint|, |b.subint|)
    requires -HALF * BasePow(L) <= Scaled(a, L) - Scaled(b, L) < HALF * BasePow(L)
    ensures Scaled(Difference(a, b), L) == Scaled(a, L) - Scaled(b, L)
  {
    var v := Scaled(a, L) - Scaled(b, L);
    DifferenceIs(a, b, L, v);
    EncodeValue(v, L);
    WrappedExact(v, L);
  }

  /** An encoded value is the value itself up to whole multiples of 2^32 whole units. */
  lemma EncodeCongruent(v: int, L: nat) returns (k: int)
    ensures Scaled(Encode(v, L), L) == v + k * (BASE * BasePow(L))
  {
    var P := BasePow(L);
    var q := v / P;
    EncodeValue(v, L);
    DivMod(v, P);
    DivMod(WrapI32(q) - q, BASE);
    k := (WrapI32(q) - q) / BASE;
    assert WrapI32(q) == q + k * BASE;
    assert WrapI32(q) * P == q * P + k * (BASE * P) by {
      Distribute(k, BASE, q, P);
    }
  }

  /** Encoding does not see whole multiples of 2^32 whole units. */
  lemma EncodeShift(v: int, k: int, L: nat, v': int)
    requires v' == v + k * (BASE * BasePow(L))
    ensures Encode(v', L) == Encode(v, L)
  {
    var P := BasePow(L);
    var q := v / P;
    DivMod(v, P);
    assert v' == (q + k * BASE) * P + v % P by {
      Distribute(k, BASE, q, P);
    }
    DivModUnique(v', P, q + k * BASE, v % P);
    WrapI32Shift(q, k);
  }

  /** Raising the precision from L to L' = L + d words scales the value by BASE^d. */
  lemma ScaledLift(c: Component, L: nat, d: nat, L': nat)
    requires |c.subint| <= L && L + d == L'
    ensures Scaled(c, L') == Scaled(c, L) * BasePow(d)
  {
    var m := L - |c.subint|;
    BasePowMul(L, d, L');
    BasePowMul(m, d, m + d);
    assert Scaled(c, L') == c.whole * (BasePow(L) * BasePow(d)) + Nat(c.subint) * (BasePow(m) * BasePow(d));
    LiftArith(c.whole, Nat(c.subint), BasePow(L), BasePow(m), BasePow(d));
  }

  lemma LiftArith(w: int, n: int, P: int, Q: int, D: int)
    ensures w * (P * D) + n * (Q * D) == (w * P + n * Q) * D
  {
  }

  /** A sum read at any precision L at least its own is the scaled sum of the operands,
      up to whole multiples of 2^32 whole units. */
  lemma SumScaledUp(a: Component, b: Component, M: nat, L: nat) returns (k: int)
    requires M == Max(|a.subint|, |b.subint|) && M <= L
    ensures Scaled(Sum(a, b), L) == Scaled(a, L) + Scaled(b, L) + k * (BASE * BasePow(L))
  {
    var v := Scaled(a, M) + Scaled(b, M);
    SumIs(a, b, M, v);
    k := EncodeCongruent(v, M);
    var d := L - M;
    ScaledLift(Sum(a, b), M, d, L);
    ScaledLift(a, M, d, L);
    ScaledLift(b, M, d, L);
    BasePowMul(M, d, L);
    ShiftArith(Scaled(a, M), Scaled(b, M), k, BasePow(M), BasePow(d));
  }

  /** A difference read at any precision L at least its own, likewise. */
  lemma DifferenceScaledUp(a: Component, b: Component, M: nat, L: nat) returns (k: int)
    requires M == Max(|a.subint|, |b.subint|) && M <= L
    ensures Scaled(Difference(a, b), L) == Scaled(a, L) - Scaled(b, L) + k * (BASE * BasePow(L))
  {
    var v := Scaled(a, M) - Scaled(b, M);
    DifferenceIs(a, b, M, v);
    k := EncodeCongruent(v, M);
    var d := L - M;
    ScaledLift(Difference(a, b), M, d, L);
    ScaledLift(a, M, d, L);
    ScaledLift(b, M, d, L);
    BasePowMul(M, d, L);
    ShiftArithSub(Scaled(a, M), Scaled(b, M), k, BasePow(M), BasePow(d));
  }

  lemma ShiftArith(x: int, y: int, k: int, P: int, D: int)
    ensures (x + y + k * (BASE * P)) * D == x * D + y * D + k * (BASE * (P * D))
  {
    assert (k * (BASE * P)) * D == k * (BASE * (P * D));
  }

  lemma ShiftArithSub(x: int, y: int, k: int, P: int, D: int)
    ensures (x - y + k * (BASE * P)) * D == x * D - y * D + k * (BASE * (P * D))
  {
    assert (k * (BASE * P)) * D == k * (BASE * (P * D));
  }

  // ---------------------------------------------------------------------------
  // Algebra
  // ---------------------------------------------------------------------------

  /** Adding zero gives the component back. */
  lemma SumIdentity(a: Component)
    ensures Sum(a, FromI32(0)) == a
  {
    var L := |a.subint|;
    SumIs(a, FromI32(0), L, Scaled(a, L));
    EncodeScaled(a);
  }

  /** `A - A` is zero: whole part 0 and every word 0. */
  lemma DifferenceSelf(a: Component)
    ensures Difference(a, a) == Component(0, Zeros(|a.subint|))
  {
    var L := |a.subint|;
    DifferenceIs(a, a, L, 0);
    NatZeros(L);
    EncodeSplit(0, Zeros(L), 0);
  }

  /** Addition is associative, wrapped whole parts included. */
  lemma SumAssociative(a: Component, b: Component, c: Component)
    ensures Sum(Sum(a, b), c) == Sum(a, Sum(b, c))
  {
    var ab := Max(|a.subint|, |b.subint|);
    var bc := Max(|b.subint|, |c.subint|);
    var L := Max(ab, |c.subint|);
    var sa, sb, sc := Scaled(a, L), Scaled(b, L), Scaled(c, L);
    var k1 := SumScaledUp(a, b, ab, L);
    var k2 := SumScaledUp(b, c, bc, L);
    var v1 := Scaled(Sum(a, b), L) + sc;
    var v2 := sa + Scaled(Sum(b, c), L);
    SumIs(Sum(a, b), c, L, v1);
    SumIs(a, Sum(b, c), L, v2);
    EncodeShift(sa + sb + sc, k1, L, v1);
    EncodeShift(sa + sb + sc, k2, L, v2);
  }

  /** Subtracting what was added gives the first operand back, padded with zero words
      to the longer operand's length. */
  lemma DifferenceUndoesSum(a: Component, b: Component)
    ensures Difference(Sum(a, b), b) == Component(a.whole, a.subint + Zeros(Max(|a.subint|, |b.subint|) - |a.subint|))
  {
    var L := Max(|a.subint|, |b.subint|);
    var padded := a.subint + Zeros(L - |a.subint|);
    var k := SumScaledUp(a, b, L, L);
    var v := Scaled(Sum(a, b), L) - Scaled(b, L);
    DifferenceIs(Sum(a, b), b, L, v);
    EncodeShift(Scaled(a, L), k, L, v);
    ExtendedScaled(a, L, L - |a.subint|, padded);
    EncodeSplit(a.whole, padded, Scaled(a, L));
  }

  /** Adding back what was subtracted gives the first operand back, padded likewise. */
  lemma SumUndoesDifference(a: Component, b: Component)
    ensures Sum(Difference(a, b), b) == Component(a.whole, a.subint + Zeros(Max(|a.subint|, |b.subint|) - |a.subint|))
  {
    var L := Max(|a.subint|, |b.subint|);
    var padded := a.subint + Zeros(L - |a.subint|);
    var k := DifferenceScaledUp(a, b, L, L);
    var v := Scaled(Difference(a, b), L) + Scaled(b, L);
    SumIs(Difference(a, b), b, L, v);
    EncodeShift(Scaled(a, L), k, L, v);
    ExtendedScaled(a, L, L - |a.subint|, padded);
    EncodeSplit(a.whole, padded, Scaled(a, L));
  }

  /** On components without fractional words, addition and subtraction are the wrapping
      `i32` operations. */
  lemma IntegerArithmetic(x: i32, y: i32)
    ensures Sum(FromI32(x), FromI32(y)) == FromI32(WrapI32(x + y))
    ensures Difference(FromI32(x), FromI32(y)) == FromI32(WrapI32(x - y))
  {
    SumFrom(FromI32(x), FromI32(y), 0, x + y, x + y, []);
    DifferenceFrom(FromI32(x), FromI32(y), 0, x - y, x - y, []);
  }

  /** A carry out of the last word ripples through words of 0xFFFFFFFF, zeroing each,
      and adds exactly 1 to the whole part. */
  lemma CarryRipples(x: i32, y: i32, n: nat)
    requires n >= 1
    ensures Sum(Component(x, Ones(n)), Component(y, Zeros(n - 1) + [1])) == Component(WrapI32(x + y + 1), Zeros(n))
  {
    var a, b := Component(x, Ones(n)), Component(y, Zeros(n - 1) + [1]);
    var P := BasePow(n);
    NatOnes(n);
    NatAppend(Zeros(n - 1), [1]);
    NatZeros(n - 1);
    NatZeros(n);
    assert Nat([1]) == 1 by {
      assert [1][..0] == [];
    }
    assert BasePow(0) == 1;
    var v := Scaled(a, n) + Scaled(b, n);
    assert v == (x + y + 1) * P + Nat(Zeros(n));
    SumFrom(a, b, n, v, x + y + 1, Zeros(n));
  }

  // ---------------------------------------------------------------------------
  // By-value subtraction as written
  // ---------------------------------------------------------------------------

  /** By-value `Sub` reverses its operands when `rhs` is longer: for 0 and 0 + 2^-32 *
      1, `a - b` is -2^-32 but `Num.Sub` gives `b - a` = 2^-32. */
  lemma SubReversedExample()
    ensures Difference(Component(0, []), Component(0, [1])) == Component(-1, [0xFFFF_FFFF])
    ensures Difference(Component(0, [1]), Component(0, [])) == Component(0, [1])
  {
    var a, b := Component(0, []), Component(0, [1]);
    assert Nat([1]) == 1 by {
      assert [1][..0] == [];
    }
    assert Nat([0xFFFF_FFFF]) == 0xFFFF_FFFF by {
      assert [0xFFFF_FFFF][..0] == [];
    }
    assert BasePow(1) == BASE;
    assert BasePow(0) == 1;
    DifferenceFrom(a, b, 1, -1, -1, [0xFFFF_FFFF]);
    DifferenceFrom(b, a, 1, 1, 0, [1]);
  }
}
