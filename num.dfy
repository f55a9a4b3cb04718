/** The extended-precision fixed-point `Component` of src/num.rs and its arithmetic.

    A component is a signed `i32` whole part plus fractional words, most significant
    first; word k weighs 2^(-32(k+1)). All reasoning is done on the integer
    `Scaled(c, L)`, the value of `c` multiplied by 2^(32L), for any L at least as long
    as `c.subint` (missing tail words count as zero). Arithmetic on the whole part
    wraps at 32 bits, as the release build's `+=` and `-=` on `i32` do. */
module Num {
  import opened Words
  import opened Positional

  datatype Component = Component(whole: i32, subint: seq<u32>)

  function Max(a: nat, b: nat): nat
  {
    if a < b then b else a
  }

  /** The value of `c` times BASE^L, for a precision of L words. */
  function Scaled(c: Component, L: nat): int
    requires |c.subint| <= L
  {
    c.whole * BasePow(L) + Nat(c.subint) * BasePow(L - |c.subint|)
  }

  /** What an L-word component can show of the scaled value `v`: its fractional words
      exactly, its whole part wrapped into `i32`. */
  function Wrapped(v: int, L: nat): int
  {
    WrapI32(v / BasePow(L)) * BasePow(L) + v % BasePow(L)
  }

  /** The L-word component holding the scaled value `v`, its whole part wrapped. */
  function Encode(v: int, L: nat): (r: Component)
    ensures |r.subint| == L
  {
    Component(WrapI32(v / BasePow(L)), Digits(v % BasePow(L), L))
  }

  /** An encoded component shows exactly the wrapped scaled value. */
  lemma EncodeValue(v: int, L: nat)
    ensures Scaled(Encode(v, L), L) == Wrapped(v, L)
  {
    var P := BasePow(L);
    NatDigits(v % P, L);
    DivModUnique(v % P, P, 0, v % P);
    ScaledParts(Encode(v, L), L, 0);
  }

  /** A scaled value that fits the `i32` whole part is shown exactly. */
  lemma WrappedExact(v: int, L: nat)
    requires -HALF * BasePow(L) <= v < HALF * BasePow(L)
    ensures Wrapped(v, L) == v
  {
    var P := BasePow(L);
    DivBounds(v, P, -HALF, HALF);
    DivMod(v, P);
  }

  /** Splitting a scaled value into a whole part and L words and encoding it gives back
      those words, the whole part wrapped. */
  lemma EncodeSplit(q: int, w: seq<u32>, v: int)
    requires v == q * BasePow(|w|) + Nat(w)
    ensures Encode(v, |w|) == Component(WrapI32(q), w)
  {
    var P := BasePow(|w|);
    assert v / P == q && v % P == Nat(w) by {
      NatBound(w);
      DivModUnique(v, P, q, Nat(w));
    }
    assert Encode(v, |w|).subint == w by {
      DigitsNat(w);
    }
  }

  /** Encoding the scaled value of a component at its own precision gives it back. */
  lemma EncodeScaled(c: Component)
    ensures Encode(Scaled(c, |c.subint|), |c.subint|) == c
  {
    assert BasePow(0) == 1;
    EncodeSplit(c.whole, c.subint, Scaled(c, |c.subint|));
  }

  // ---------------------------------------------------------------------------
  // Addition and subtraction (src/num.rs:14-118)
  // ---------------------------------------------------------------------------

  /** `a + b` at the precision of the longer operand: the reference definition that
      `add_assign` is proved against. */
  function Sum(a: Component, b: Component): (r: Component)
    ensures |r.subint| == Max(|a.subint|, |b.subint|)
  {
    var L := Max(|a.subint|, |b.subint|);
    Encode(Scaled(a, L) + Scaled(b, L), L)
  }

  /** `a - b` at the precision of the longer operand: the reference definition that
      `sub_assign` is proved against. */
  function Difference(a: Component, b: Component): (r: Component)
    ensures |r.subint| == Max(|a.subint|, |b.subint|)
  {
    var L := Max(|a.subint|, |b.subint|);
    Encode(Scaled(a, L) - Scaled(b, L), L)
  }

  /** `Sum` at a precision and scaled value the caller has named. */
  lemma SumIs(a: Component, b: Component, L: nat, v: int)
    requires L == Max(|a.subint|, |b.subint|) && v == Scaled(a, L) + Scaled(b, L)
    ensures Sum(a, b) == Encode(v, L)
  {
  }

  /** `Difference` at a precision and scaled value the caller has named. */
  lemma DifferenceIs(a: Component, b: Component, L: nat, v: int)
    requires L == Max(|a.subint|, |b.subint|) && v == Scaled(a, L) - Scaled(b, L)
    ensures Difference(a, b) == Encode(v, L)
  {
  }

  /** `lhs += &rhs`: extend `lhs` with zero words up to `rhs`'s length, then add word by
      word from the last word of `rhs` up to the first, rippling a carry, and finally
      add `rhs.whole` and the carry into the whole part. */
  method AddAssign(lhs: Component, rhs: Component) returns (r: Component)
    ensures r == Sum(lhs, rhs)
    ensures forall k :: |rhs.subint| <= k < |lhs.subint| ==> r.subint[k] == lhs.subint[k]
  {
    var extended: seq<u32> := lhs.subint;
    if |rhs.subint| > |extended| {
      extended := extended + Zeros(|rhs.subint| - |extended|);
    } else {
      assert extended == lhs.subint + Zeros(0);
    }
    var words, carry := AddWords(extended, rhs.subint);
    var whole := WrapI32(lhs.whole + rhs.whole);
    whole := WrapI32(whole + Bit(carry));
    r := Component(whole, words);
    AddFinish(lhs, rhs, extended, words, carry, lhs.whole + rhs.whole, Bit(carry), whole,
              |extended|, |extended| - |lhs.subint|, |extended| - |rhs.subint|);
  }

  /** The carry chain's result, with the whole parts and the carry added, wrapping, is
      the sum. */
  lemma AddFinish(lhs: Component, rhs: Component, extended: seq<u32>, words: seq<u32>, c: bool,
                    x: int, b: int, whole: int, L: nat, m: nat, mr: nat)
    requires L == Max(|lhs.subint|, |rhs.subint|) == |words|
    requires |lhs.subint| + m == L && |rhs.subint| + mr == L && extended == lhs.subint + Zeros(m)
    requires Nat(words) + Bit(c) * BasePow(L) == Nat(extended) + Nat(rhs.subint) * BasePow(mr)
    requires x == lhs.whole + rhs.whole && b == Bit(c) && whole == WrapI32(WrapI32(x) + b)
    ensures Sum(lhs, rhs) == Component(whole, words)
  {
    ExtendedScaled(lhs, L, m, extended);
    var q := x + b;
    WrapI32Compose(x, b, q);
    AddChainValue(lhs, rhs, extended, words, c, |rhs.subint|, mr, L, q);
  }


  /** The carry chain of `add_assign`: add the words `rs` into the first |rs| of
      `extended`, from the last word up to the first, rippling a carry. The words past
      |rs| are untouched, and the carry out of the first word is returned. */
  method AddWords(extended: seq<u32>, rs: seq<u32>) returns (words: seq<u32>, carry: bool)
    requires |rs| <= |extended|
    ensures |words| == |extended|
    ensures forall i :: |rs| <= i < |words| ==> words[i] == extended[i]
    ensures Nat(words) + Bit(carry) * BasePow(|extended|) == Nat(extended) + Nat(rs) * BasePow(|extended| - |rs|)
  {
    words := extended;
    var n := |rs|;
    ghost var m := |words| - n;
    carry := false;
    var k := n;
    ghost var d, w := 0, m;
    assert rs[k..n] == [];
    while k > 0
      invariant 0 <= k <= n && n + m == |words| == |extended| && k + d == n && w == d + m
      invariant forall i :: 0 <= i < k || n <= i < |words| ==> words[i] == extended[i]
      invariant Nat(words) + Bit(carry) * BasePow(w) == Nat(extended) + Nat(rs[k..n]) * BasePow(m)
    {
      var j := k - 1;
      var (res, next) := CarryingAdd(words[j], rs[j], carry);
      AddStep(words, extended, rs, j, k, n, d, m, w, w + 1, res, carry, next);
      words := words[j := res];
      carry := next;
      k := j;
      d, w := d + 1, w + 1;
    }
    assert rs[k..n] == rs;
  }

  /** `lhs -= &rhs`: as `AddAssign`, with a borrow in place of the carry. */
  method SubAssign(lhs: Component, rhs: Component) returns (r: Component)
    ensures r == Difference(lhs, rhs)
    ensures forall k :: |rhs.subint| <= k < |lhs.subint| ==> r.subint[k] == lhs.subint[k]
  {
    var extended: seq<u32> := lhs.subint;
    if |rhs.subint| > |extended| {
      extended := extended + Zeros(|rhs.subint| - |extended|);
    } else {
      assert extended == lhs.subint + Zeros(0);
    }
    var words, borrow := SubWords(extended, rhs.subint);
    var whole := WrapI32(lhs.whole - rhs.whole);
    whole := WrapI32(whole - Bit(borrow));
    r := Component(whole, words);
    SubFinish(lhs, rhs, extended, words, borrow, lhs.whole - rhs.whole, Bit(borrow), whole,
              |extended|, |extended| - |lhs.subint|, |extended| - |rhs.subint|);
  }

  /** The borrow chain's result, with the whole parts and the borrow subtracted,
      wrapping, is the difference. */
  lemma SubFinish(lhs: Component, rhs: Component, extended: seq<u32>, words: seq<u32>, c: bool,
                    x: int, b: int, whole: int, L: nat, m: nat, mr: nat)
    requires L == Max(|lhs.subint|, |rhs.subint|) == |words|
    requires |lhs.subint| + m == L && |rhs.subint| + mr == L && extended == lhs.subint + Zeros(m)
    requires Nat(words) - Bit(c) * BasePow(L) == Nat(extended) - Nat(rhs.subint) * BasePow(mr)
    requires x == lhs.whole - rhs.whole && b == Bit(c) && whole == WrapI32(WrapI32(x) - b)
    ensures Difference(lhs, rhs) == Component(whole, words)
  {
    ExtendedScaled(lhs, L, m, extended);
    var q := x - b;
    WrapI32ComposeSub(x, b, q);
    SubChainValue(lhs, rhs, extended, words, c, |rhs.subint|, mr, L, q);
  }


  /** The borrow chain of `sub_assign`: subtract the words `rs` from the first |rs| of
      `extended`, from the last word up to the first, rippling a borrow. */
  method SubWords(extended: seq<u32>, rs: seq<u32>) returns (words: seq<u32>, borrow: bool)
    requires |rs| <= |extended|
    ensures |words| == |extended|
    ensures forall i :: |rs| <= i < |words| ==> words[i] == extended[i]
    ensures Nat(words) - Bit(borrow) * BasePow(|extended|) == Nat(extended) - Nat(rs) * BasePow(|extended| - |rs|)
  {
    words := extended;
    var n := |rs|;
    ghost var m := |words| - n;
    borrow := false;
    var k := n;
    ghost var d, w := 0, m;
    assert rs[k..n] == [];
    while k > 0
      invariant 0 <= k <= n && n + m == |words| == |extended| && k + d == n && w == d + m
      invariant forall i :: 0 <= i < k || n <= i < |words| ==> words[i] == extended[i]
      invariant Nat(words) - Bit(borrow) * BasePow(w) == Nat(extended) - Nat(rs[k..n]) * BasePow(m)
    {
      var j := k - 1;
      var (res, next) := BorrowingSub(words[j], rs[j], borrow);
      SubStep(words, extended, rs, j, k, n, d, m, w, w + 1, res, borrow, next);
      words := words[j := res];
      borrow := next;
      k := j;
      d, w := d + 1, w + 1;
    }
    assert rs[k..n] == rs;
  }

  /** By-value `self + rhs`: the operand with more words accumulates the other, which
      gives the same sum either way. */
  method Add(lhs: Component, rhs: Component) returns (r: Component)
    ensures r == Sum(lhs, rhs)
  {
    if |rhs.subint| > |lhs.subint| {
      r := AddAssign(rhs, lhs);
      SumCommutes(rhs, lhs);
    } else {
      r := AddAssign(lhs, rhs);
    }
  }

  /** By-value `self - rhs` as written: when `rhs` has more words it becomes the
      accumulator, so the result is `rhs - self`. */
  method Sub(lhs: Component, rhs: Component) returns (r: Component)
    ensures |rhs.subint| > |lhs.subint| ==> r == Difference(rhs, lhs)
    ensures |rhs.subint| <= |lhs.subint| ==> r == Difference(lhs, rhs)
  {
    if |rhs.subint| > |lhs.subint| {
      r := SubAssign(rhs, lhs);
    } else {
      r := SubAssign(lhs, rhs);
    }
  }

  /** By-value `self - rhs` as evidently intended: `self` is always the minuend. */
  method SubCorrected(lhs: Component, rhs: Component) returns (r: Component)
    ensures r == Difference(lhs, rhs)
  {
    r := SubAssign(lhs, rhs);
  }

  /** Addition does not depend on the order of its operands. */
  lemma SumCommutes(a: Component, b: Component)
    ensures Sum(a, b) == Sum(b, a)
  {
    var L := Max(|a.subint|, |b.subint|);
    SumIs(a, b, L, Scaled(a, L) + Scaled(b, L));
    SumIs(b, a, L, Scaled(a, L) + Scaled(b, L));
  }

  /** `Component::from(int)`: the whole part alone, with no fractional words. */
  function FromI32(x: i32): (r: Component)
    ensures r.subint == [] && Scaled(r, 0) == x
  {
    Component(x, [])
  }

  /** The scaled value of `lhs` at L words is its whole part over its words padded with
      m zero words. */
  lemma ExtendedScaled(lhs: Component, L: nat, m: nat, w: seq<u32>)
    requires |lhs.subint| + m == L && w == lhs.subint + Zeros(m)
    ensures |w| == L && Scaled(lhs, L) == lhs.whole * BasePow(L) + Nat(w)
  {
    NatAppend(lhs.subint, Zeros(m));
    NatZeros(m);
  }

  /** One word of the carry chain keeps the loop invariant of `AddAssign`: word j weighs
      BASE^w, and `rs`'s words j.. sit m words above the end of `words`. */
  lemma AddStep(words: seq<u32>, extended: seq<u32>, rs: seq<u32>, j: nat, k: nat, n: nat,
                d: nat, m: nat, w: nat, w': nat, res: u32, c: bool, c': bool)
    requires j + 1 == k && k + d == n && w == d + m && w' == w + 1 && n + m == |words| && n <= |rs|
    requires j < |extended| && words[j] == extended[j]
    requires res + Bit(c') * BASE == words[j] + rs[j] + Bit(c)
    requires Nat(words) + Bit(c) * BasePow(w) == Nat(extended) + Nat(rs[k..n]) * BasePow(m)
    ensures Nat(words[j := res]) + Bit(c') * BasePow(w') == Nat(extended) + Nat(rs[j..n]) * BasePow(m)
  {
    NatUpdate(words, j, res, w);
    NatCons(rs, j, k, n, d);
    BasePowMul(d, m, w);
    assert BasePow(w') == BasePow(w) * BASE;
    AddStepArith(Nat(words), Nat(words[j := res]), Nat(extended), Bit(c), Bit(c'), res, words[j], rs[j],
              BasePow(d), BasePow(m), BasePow(w), BasePow(w'), Nat(rs[k..n]), Nat(rs[j..n]));
  }

  /** One word of the borrow chain keeps the loop invariant of `SubAssign`. */
  lemma SubStep(words: seq<u32>, extended: seq<u32>, rs: seq<u32>, j: nat, k: nat, n: nat,
                d: nat, m: nat, w: nat, w': nat, res: u32, c: bool, c': bool)
    requires j + 1 == k && k + d == n && w == d + m && w' == w + 1 && n + m == |words| && n <= |rs|
    requires j < |extended| && words[j] == extended[j]
    requires res - Bit(c') * BASE == words[j] - rs[j] - Bit(c)
    requires Nat(words) - Bit(c) * BasePow(w) == Nat(extended) - Nat(rs[k..n]) * BasePow(m)
    ensures Nat(words[j := res]) - Bit(c') * BasePow(w') == Nat(extended) - Nat(rs[j..n]) * BasePow(m)
  {
    NatUpdate(words, j, res, w);
    NatCons(rs, j, k, n, d);
    BasePowMul(d, m, w);
    assert BasePow(w') == BasePow(w) * BASE;
    SubStepArith(Nat(words), Nat(words[j := res]), Nat(extended), Bit(c), Bit(c'), res, words[j], rs[j],
              BasePow(d), BasePow(m), BasePow(w), BasePow(w'), Nat(rs[k..n]), Nat(rs[j..n]));
  }

  /** The arithmetic of one carry step. */
  lemma AddStepArith(nw: int, nw': int, ne: int, c: int, c': int, res: int, e: int, r: int,
                     V: int, M: int, W: int, W': int, R: int, R': int)
    requires nw' == nw + (res - e) * W && W' == W * BASE && V * M == W && R' == r * V + R
    requires res + c' * BASE == e + r + c && nw + c * W == ne + R * M
    ensures nw' + c' * W' == ne + R' * M
  {
    assert c' * W' == (c' * BASE) * W;
    assert (res + c' * BASE) * W == (e + r + c) * W;
    assert (res - e) * W + (c' * BASE) * W == r * W + c * W;
    assert R' * M == r * W + R * M;
  }

  /** The arithmetic of one borrow step. */
  lemma SubStepArith(nw: int, nw': int, ne: int, c: int, c': int, res: int, e: int, r: int,
                     V: int, M: int, W: int, W': int, R: int, R': int)
    requires nw' == nw + (res - e) * W && W' == W * BASE && V * M == W && R' == r * V + R
    requires res - c' * BASE == e - r - c && nw - c * W == ne - R * M
    ensures nw' - c' * W' == ne - R' * M
  {
    assert c' * W' == (c' * BASE) * W;
    assert (res - c' * BASE) * W == (e - r - c) * W;
    assert (res - e) * W - (c' * BASE) * W == -(r * W) - c * W;
    assert R' * M == r * W + R * M;
  }

  /** After the carry chain has run over all n words of `rhs`, the sum is the new words
      under the whole parts plus the final carry. */
  lemma AddChainValue(lhs: Component, rhs: Component, extended: seq<u32>, words: seq<u32>, c: bool,
                      n: nat, m: nat, L: nat, q: int)
    requires q == lhs.whole + rhs.whole + Bit(c)
    requires n == |rhs.subint| && n + m == L && L == |words| == Max(|lhs.subint|, |rhs.subint|)
    requires Scaled(lhs, L) == lhs.whole * BasePow(L) + Nat(extended)
    requires Nat(words) + Bit(c) * BasePow(L) == Nat(extended) + Nat(rhs.subint) * BasePow(m)
    ensures Sum(lhs, rhs) == Component(WrapI32(q), words)
  {
    var v := Scaled(lhs, L) + Scaled(rhs, L);
    assert v == q * BasePow(L) + Nat(words) by {
      ScaledParts(rhs, L, m);
      WholeArith(Scaled(lhs, L), Scaled(rhs, L), lhs.whole, rhs.whole, Bit(c), BasePow(L), Nat(extended),
                 Nat(rhs.subint) * BasePow(m), Nat(words));
    }
    SumFrom(lhs, rhs, L, v, q, words);
  }

  /** After the borrow chain has run over all n words of `rhs`, the difference is the new
      words under the whole parts minus the final borrow. */
  lemma SubChainValue(lhs: Component, rhs: Component, extended: seq<u32>, words: seq<u32>, c: bool,
                      n: nat, m: nat, L: nat, q: int)
    requires q == lhs.whole - rhs.whole - Bit(c)
    requires n == |rhs.subint| && n + m == L && L == |words| == Max(|lhs.subint|, |rhs.subint|)
    requires Scaled(lhs, L) == lhs.whole * BasePow(L) + Nat(extended)
    requires Nat(words) - Bit(c) * BasePow(L) == Nat(extended) - Nat(rhs.subint) * BasePow(m)
    ensures Difference(lhs, rhs) == Component(WrapI32(q), words)
  {
    var v := Scaled(lhs, L) - Scaled(rhs, L);
    assert v == q * BasePow(L) + Nat(words) by {
      ScaledParts(rhs, L, m);
      WholeArithSub(Scaled(lhs, L), Scaled(rhs, L), lhs.whole, rhs.whole, Bit(c), BasePow(L), Nat(extended),
                    Nat(rhs.subint) * BasePow(m), Nat(words));
    }
    DifferenceFrom(lhs, rhs, L, v, q, words);
  }

  /** A sum whose scaled value splits into `q` whole units and the words `w`. */
  lemma SumFrom(a: Component, b: Component, L: nat, v: int, q: int, w: seq<u32>)
    requires L == |w| == Max(|a.subint|, |b.subint|) && v == Scaled(a, L) + Scaled(b, L)
    requires v == q * BasePow(L) + Nat(w)
    ensures Sum(a, b) == Component(WrapI32(q), w)
  {
    SumIs(a, b, L, v);
    EncodeSplit(q, w, v);
  }

  /** A difference whose scaled value splits into `q` whole units and the words `w`. */
  lemma DifferenceFrom(a: Component, b: Component, L: nat, v: int, q: int, w: seq<u32>)
    requires L == |w| == Max(|a.subint|, |b.subint|) && v == Scaled(a, L) - Scaled(b, L)
    requires v == q * BasePow(L) + Nat(w)
    ensures Difference(a, b) == Component(WrapI32(q), w)
  {
    DifferenceIs(a, b, L, v);
    EncodeSplit(q, w, v);
  }

  /** `Scaled` of a component whose words fall m short of L. */
  lemma ScaledParts(c: Component, L: nat, m: nat)
    requires |c.subint| + m == L
    ensures Scaled(c, L) == c.whole * BasePow(L) + Nat(c.subint) * BasePow(m)
  {
  }

  /** The whole parts join the fractional chain: `sl` and `sr` are the scaled operands,
      `ne + nrT == c*P + nw` the chain over the words. */
  lemma WholeArith(sl: int, sr: int, li: int, ri: int, c: int, P: int, ne: int, nrT: int, nw: int)
    requires sl == li * P + ne && sr == ri * P + nrT && ne + nrT == c * P + nw
    ensures sl + sr == (li + ri + c) * P + nw
  {
    assert (li + ri + c) * P == li * P + ri * P + c * P;
  }

  /** The whole parts join the fractional borrow chain `ne - nrT == nw - c*P`. */
  lemma WholeArithSub(sl: int, sr: int, li: int, ri: int, c: int, P: int, ne: int, nrT: int, nw: int)
    requires sl == li * P + ne && sr == ri * P + nrT && ne - nrT == nw - c * P
    ensures sl - sr == (li - ri - c) * P + nw
  {
    assert (li - ri - c) * P == li * P - ri * P - c * P;
  }
}
