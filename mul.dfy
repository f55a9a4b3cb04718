/** `Mul for &Component` (src/num.rs:120-155): a schoolbook multiply of the fractional
    words into a fresh buffer of |a| + |b| zero words, with one carry for the word
    products and another for the additions into the buffer. The whole parts take no
    part: the result's whole part stays 0. */
module Multiply {
  import opened Words
  import opened Positional
  import opened Num

  datatype Option<T> = None | Some(value: T)

  /** How the inner loop's output slice ends: `..=` as written, `..` as evidently intended. */
  datatype RangeEnd = Inclusive | Exclusive

  /** The product the multiply computes: the fractional words of `a` times those of `b`,
      exactly, in |a| + |b| words under a zero whole part. */
  function Product(a: Component, b: Component): (r: Component)
    ensures r.whole == 0 && |r.subint| == |a.subint| + |b.subint|
  {
    Component(0, Digits(Nat(a.subint) * Nat(b.subint), |a.subint| + |b.subint|))
  }

  /** `Product` loses nothing: its words denote the product of the operands' words, so its
      value is the product of the operands' fractional values. */
  lemma ProductValue(a: Component, b: Component)
    ensures Nat(Product(a, b).subint) == Nat(a.subint) * Nat(b.subint)
    ensures Scaled(Product(a, b), |a.subint| + |b.subint|) == Nat(a.subint) * Nat(b.subint)
  {
    var m, n := |a.subint|, |b.subint|;
    var x := Nat(a.subint) * Nat(b.subint);
    var P := BasePow(m + n);
    ProductFits(a.subint, b.subint, x, P);
    NatDigits(x, m + n);
    DivModUnique(x, P, 0, x);
    var p := Product(a, b);
    assert BasePow(0) == 1;
    assert Scaled(p, m + n) == 0 * P + Nat(p.subint) * 1;
  }

  /** The product of an m-word and an n-word number fits in m + n words. */
  lemma ProductFits(xs: seq<u32>, ys: seq<u32>, x: int, P: int)
    requires x == Nat(xs) * Nat(ys) && P == BasePow(|xs| + |ys|)
    ensures 0 <= x < P
  {
    NatBound(xs);
    NatBound(ys);
    BasePowMul(|xs|, |ys|, |xs| + |ys|);
    FitsArith(Nat(xs), Nat(ys), BasePow(|xs|), BasePow(|ys|), x, P);
  }

  lemma FitsArith(u: int, v: int, U: int, V: int, x: int, P: int)
    requires 0 <= u < U && 0 <= v < V && x == u * v && P == U * V
    ensures 0 <= x < P
  {
    MulStrict(u, v, U, V);
  }

  /** Without fractional words on the left the product is all zero words, whatever the
      operands' whole parts. */
  lemma ProductWithoutWords(a: Component, b: Component)
    requires a.subint == []
    ensures Product(a, b) == Component(0, Zeros(|b.subint|))
  {
    NatZeros(|b.subint|);
    DigitsNat(Zeros(|b.subint|));
  }

  /** Two components made from `i32`s multiply to zero with no words. */
  lemma ProductOfIntegers(x: i32, y: i32)
    ensures Product(FromI32(x), FromI32(y)) == Component(0, [])
  {
    ProductWithoutWords(FromI32(x), FromI32(y));
  }

  /** `&a * &b`, with the inner slice ending as `end` says. For each word of `a`, from the
      last, the inner loop walks the slice `out[..hi]` from its end, pairing it with the
      words of `b` from the last and then zeros. As written (`Inclusive`) the slice ends
      one past the buffer on the first pass, so the multiply fails exactly when `a` has
      words; with `Exclusive` it always computes `Product`. */
  method Mul(a: Component, b: Component, end: RangeEnd) returns (r: Option<Component>)
    ensures end == Inclusive ==> (r.None? <==> |a.subint| > 0)
    ensures end == Exclusive ==> r.Some?
    ensures r.Some? ==> r.value == Product(a, b)
  {
    var size := |a.subint| + |b.subint|;
    var out := new u32[size](_ => 0);
    assert out[..] == Zeros(size);
    NatZeros(size);
    var done := MulPasses(out, a.subint, b.subint, end);
    if !done {
      return None;
    }
    r := Some(Component(0, out[..]));
    ProductIs(a, b, out[..]);
  }

  /** The outer loop of `Mul`, over the words of `xs` from the last, into the zeroed
      buffer `out`. It stops, leaving `done` false, where the source panics. */
  method MulPasses(out: array<u32>, xs: seq<u32>, bs: seq<u32>, end: RangeEnd) returns (done: bool)
    requires out.Length == |xs| + |bs| && Nat(out[..]) == 0
    modifies out
    ensures end == Inclusive ==> (!done <==> |xs| > 0)
    ensures end == Exclusive ==> done
    ensures done ==> Nat(out[..]) == Nat(xs) * Nat(bs)
  {
    var m, n := |xs|, |bs|;
    var size := m + n;
    var carry: u32 := 0;
    var bitcarry := false;
    var i := 0;
    assert xs[m..m] == [];
    while i < m
      invariant 0 <= i <= m
      invariant end == Inclusive ==> i == 0
      invariant Nat(out[..]) == Nat(xs[m - i..m]) * Nat(bs)
      invariant carry == 0 && !bitcarry
    {
      var hi := if end == Inclusive then size - i + 1 else size - i;
      if hi > out.Length {
        // `out.subint[..=out_subint_len - i]` is out of range: the source panics here.
        return false;
      }
      var digitA := xs[m - 1 - i];
      ghost var before := Nat(out[..]);
      carry, bitcarry := MulRow(out, hi, bs, i, digitA, carry, bitcarry);
      MulRowEnd(out[..], xs, bs, m, n, i, hi, n, digitA, carry, Bit(bitcarry), before);
      i := i + 1;
    }
    assert xs[m - i..m] == xs;
    done := true;
  }

  /** The inner loop: add `dA` times the words of `b` (then zeros) into `out[..hi]`,
      walking it from its end, the word product carry in `carry` and the addition carry
      in `bitcarry`. The carries come out still owed at weight BASE^(i+hi). */
  method MulRow(out: array<u32>, hi: nat, bs: seq<u32>, i: nat, dA: u32, carry: u32, bitcarry: bool)
      returns (carry': u32, bitcarry': bool)
    requires hi + i == out.Length && |bs| < hi && carry == 0 && !bitcarry
    modifies out
    ensures RowInvariant(out[..], bs, |bs|, i, hi, |bs|, dA, carry', Bit(bitcarry'), old(Nat(out[..])))
  {
    var n := |bs|;
    ghost var before := Nat(out[..]);
    carry', bitcarry' := carry, bitcarry;
    var t := 0;
    ghost var used := 0;
    while t < hi
      invariant 0 <= t <= hi && used == (if t < n then t else n)
      invariant RowInvariant(out[..], bs, n, i, t, used, dA, carry', Bit(bitcarry'), before)
    {
      var p := hi - 1 - t;
      var digitB := if t < n then bs[n - 1 - t] else 0;
      var (res, nextCarry) := CarryingMul(dA, digitB, carry');
      var (word, nextBitcarry) := CarryingAdd(out[p], res, bitcarry');
      ghost var used' := if t < n then t + 1 else n;
      ghost var o := out[..];
      MulStep(o, p, bs, dA, digitB, i, t, t + 1, n, used, used', carry', nextCarry,
              Bit(bitcarry'), Bit(nextBitcarry), res, word, before);
      out[p] := word;
      assert out[..] == o[p := word];
      carry', bitcarry' := nextCarry, nextBitcarry;
      t, used := t + 1, used';
    }
  }

  /** Words that denote the product of the operands' words are `Product`'s. */
  lemma ProductIs(a: Component, b: Component, w: seq<u32>)
    requires |w| == |a.subint| + |b.subint| && Nat(w) == Nat(a.subint) * Nat(b.subint)
    ensures Product(a, b) == Component(0, w)
  {
    DigitsNat(w);
  }

  /** The inner loop's invariant after t steps of the pass for digit `dA` (the word of `a`
      of weight BASE^i), `used` of them over words of `b`: the buffer plus both carries,
      at the weight of the next position, is the buffer at the start of the pass plus
      `dA` times the words of `b` used so far. */
  ghost predicate RowInvariant(o: seq<u32>, bs: seq<u32>, n: nat, i: nat, t: nat, used: nat, dA: int,
                               c: int, bc: int, before: int)
    requires used <= n == |bs|
  {
    Nat(o) + (c + bc) * BasePow(i + t) == before + dA * Nat(bs[n - used..n]) * BasePow(i)
  }

  /** One step of the inner loop keeps its invariant: the word written at position p,
      of weight BASE^(i+t), plus both carries one word up, account for the product of
      digit `dA` with the next word of `b`. */
  lemma MulStep(o: seq<u32>, p: nat, bs: seq<u32>, dA: u32, dB: u32, i: nat, t: nat, t': nat, n: nat,
                used: nat, used': nat, c: u32, c': u32, bc: nat, bc': nat, res: u32, word: u32,
                before: int)
    requires p + 1 + (i + t) == |o| && n == |bs| && t' == t + 1
    requires used == (if t < n then t else n) && used' == (if t < n then t + 1 else n)
    requires dB == (if t < n then bs[n - 1 - t] else 0)
    requires res + c' * BASE == dA * dB + c
    requires word + bc' * BASE == o[p] + res + bc
    requires RowInvariant(o, bs, n, i, t, used, dA, c, bc, before)
    ensures RowInvariant(o[p := word], bs, n, i, t', used', dA, c', bc', before)
  {
    var W := BasePow(i + t);
    NatUpdate(o, p, word, i + t);
    BasePowMul(i, t, i + t);
    assert BasePow(i + t') == W * BASE;
    if t < n {
      NatCons(bs, n - 1 - t, n - t, n, t);
    } else {
      assert bs[n - used'..n] == bs[n - used..n];
    }
    MulStepArith(Nat(o), Nat(o[p := word]), c, c', bc, bc', W, W * BASE, before, dA, dB,
                 Nat(bs[n - used..n]), Nat(bs[n - used'..n]), BasePow(i), BasePow(t), res, word, o[p]);
  }

  lemma MulStepArith(O: int, O': int, c: int, c': int, bc: int, bc': int, W: int, W': int,
                     before: int, dA: int, dB: int, Bt: int, Bt': int, Pi: int, T: int,
                     res: int, word: int, op: int)
    requires O + (c + bc) * W == before + dA * Bt * Pi
    requires res + c' * 0x1_0000_0000 == dA * dB + c
    requires word + bc' * 0x1_0000_0000 == op + res + bc
    requires O' == O + (word - op) * W
    requires W' == W * 0x1_0000_0000 && W == Pi * T && Bt' == dB * T + Bt
    ensures O' + (c' + bc') * W' == before + dA * Bt' * Pi
  {
    assert (c' + bc') * W' == (c' * 0x1_0000_0000 + bc' * 0x1_0000_0000) * W;
    assert (word - op) * W + (c' * 0x1_0000_0000 + bc' * 0x1_0000_0000) * W == (dA * dB + c + bc) * W;
    assert dA * Bt' * Pi == dA * Bt * Pi + dA * dB * W;
  }

  /** After a full pass for the word of `a` at position m-1-i, both carries are spent
      (the partial product fits the buffer) and the buffer holds the words of `a` seen so
      far times `b`. */
  lemma MulRowEnd(o: seq<u32>, xs: seq<u32>, bs: seq<u32>, m: nat, n: nat, i: nat, t: nat, used: nat,
                  dA: u32, c: u32, bc: nat, before: int)
    requires m == |xs| && n == |bs| && i < m && |o| == m + n && i + t == m + n && used == n
    requires dA == xs[m - 1 - i] && bc <= 1
    requires before == Nat(xs[m - i..m]) * Nat(bs)
    requires RowInvariant(o, bs, n, i, t, used, dA, c, bc, before)
    ensures c == 0 && bc == 0
    ensures Nat(o) == Nat(xs[m - (i + 1)..m]) * Nat(bs)
  {
    assert bs[n - used..n] == bs;
    var Na := Nat(xs[m - (i + 1)..m]);
    NatCons(xs, m - 1 - i, m - i, m, i);
    var PN := BasePow(i + t);
    assert Na * Nat(bs) < PN by {
      var front := xs[m - (i + 1)..m];
      assert |front| == i + 1;
      NatBound(front);
      NatBound(bs);
      MulStrict(Na, Nat(bs), BasePow(i + 1), BasePow(n));
      BasePowMul(i + 1, n, i + 1 + n);
      BasePowMonotone(i + 1 + n, i + t);
    }
    RowEndArith(Nat(o), c, bc, PN, before, dA, Nat(bs), BasePow(i), Na, Nat(xs[m - i..m]));
  }

  lemma RowEndArith(O: int, c: int, bc: int, PN: int, before: int, dA: int, Nb: int, Pi: int,
                    Na: int, NaOld: int)
    requires O >= 0 && c >= 0 && bc >= 0 && PN > 0
    requires O + (c + bc) * PN == before + dA * Nb * Pi
    requires before == NaOld * Nb && Na == dA * Pi + NaOld && Na * Nb < PN
    ensures c + bc == 0 && O == Na * Nb
  {
    assert Na * Nb == NaOld * Nb + dA * Nb * Pi;
    if c + bc >= 1 {
      MulAtLeast(c + bc, PN);
    }
  }
}
