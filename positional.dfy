/** Sequences of 32-bit words read as big-endian numbers in base 2^32: the arithmetic
    underneath `Component::subint`, whose first word is the most significant. */
module Positional {
  import opened Words

  /** BASE^n. */
  function BasePow(n: nat): (r: int)
    ensures r >= 1
  {
    if n == 0 then 1 else BasePow(n - 1) * BASE
  }

  lemma {:induction false} BasePowAdd(a: nat, b: nat)
    ensures BasePow(a + b) == BasePow(a) * BasePow(b)
  {
    if b > 0 {
      BasePowAdd(a, b - 1);
      assert BasePow(a + b) == BasePow(a + b - 1) * BASE;
    }
  }

  /** `BasePowAdd` for a sum the caller has already named. */
  lemma BasePowMul(a: nat, b: nat, c: nat)
    requires a + b == c
    ensures BasePow(a) * BasePow(b) == BasePow(c)
  {
    BasePowAdd(a, b);
  }

  lemma BasePowMonotone(a: nat, b: nat)
    requires a <= b
    ensures BasePow(a) <= BasePow(b)
  {
    BasePowAdd(a, b - a);
    MulBound(BasePow(a), 1, BasePow(a), BasePow(b - a));
  }

  /** The number a big-endian word sequence denotes. */
  function Nat(s: seq<u32>): (r: int)
    ensures r >= 0
  {
    if s == [] then 0 else Nat(s[..|s| - 1]) * BASE + s[|s| - 1]
  }

  /** n words denote less than BASE^n. */
  lemma {:induction false} NatBound(s: seq<u32>)
    ensures Nat(s) < BasePow(|s|)
  {
    if s != [] {
      var init := s[..|s| - 1];
      NatBound(init);
      MulBound(Nat(init), BASE, BasePow(|init|) - 1, BASE);
    }
  }

  /** `n` zero words, as `vec![0; n]` and `iter::repeat(0).take(n)` give them. */
  function Zeros(n: nat): (r: seq<u32>)
    ensures |r| == n && forall k :: 0 <= k < n ==> r[k] == 0
  {
    seq(n, _ => 0)
  }

  /** `n` words of 0xFFFFFFFF. */
  function Ones(n: nat): (r: seq<u32>)
    ensures |r| == n && forall k :: 0 <= k < n ==> r[k] == BASE - 1
  {
    seq(n, _ => BASE - 1)
  }

  /** The `n` least significant base-2^32 digits of `v`, most significant first. */
  function Digits(v: nat, n: nat): (r: seq<u32>)
    ensures |r| == n
  {
    if n == 0 then [] else Digits(v / BASE, n - 1) + [v % BASE]
  }

  /** Concatenation shifts the front part up by the length of the back part. */
  lemma {:induction false} NatAppend(s: seq<u32>, t: seq<u32>)
    ensures Nat(s + t) == Nat(s) * BasePow(|t|) + Nat(t)
  {
    if t == [] {
      assert s + t == s;
    } else {
      var t' := t[..|t| - 1];
      assert (s + t)[..|s + t| - 1] == s + t';
      NatAppend(s, t');
      var x, p, y, z := Nat(s), BasePow(|t'|), Nat(t'), t[|t| - 1];
      assert Nat(s + t) == Nat(s + t') * BASE + z;
      assert Nat(s + t') == x * p + y;
      assert Nat(t) == y * BASE + z;
      assert BasePow(|t|) == p * BASE;
      Distribute(x, p, y, BASE);
    }
  }

  lemma Distribute(x: int, p: int, y: int, b: int)
    ensures (x * p + y) * b == x * (p * b) + y * b
  {
  }

  lemma DivMod(x: int, d: int)
    requires d > 0
    ensures x == (x / d) * d + x % d
  {
  }

  /** A word sequence is its first k words shifted up by the other m, plus those m. */
  lemma NatSplit(s: seq<u32>, k: nat, m: nat)
    requires k + m == |s|
    ensures Nat(s) == Nat(s[..k]) * BasePow(m) + Nat(s[k..])
  {
    assert s == s[..k] + s[k..];
    NatAppend(s[..k], s[k..]);
  }

  /** A leading word weighs BASE^(number of words after it). */
  lemma NatPrepend(x: u32, s: seq<u32>)
    ensures Nat([x] + s) == x * BasePow(|s|) + Nat(s)
  {
    NatAppend([x], s);
    assert [x][..0] == [];
    assert Nat([x]) == x;
  }

  /** The words j..n of a sequence are word j, at weight BASE^d, over the words k..n
      after it (k = j + 1, d = n - k). */
  lemma NatCons(s: seq<u32>, j: nat, k: nat, n: nat, d: nat)
    requires j + 1 == k && k + d == n && n <= |s|
    ensures Nat(s[j..n]) == s[j] * BasePow(d) + Nat(s[k..n])
  {
    assert s[j..n] == [s[j]] + s[k..n];
    NatPrepend(s[j], s[k..n]);
  }

  /** Zero words denote 0, so padding at the tail only scales the number. */
  lemma {:induction false} NatZeros(n: nat)
    ensures Nat(Zeros(n)) == 0
  {
    if n > 0 {
      assert Zeros(n)[..n - 1] == Zeros(n - 1);
      NatZeros(n - 1);
    }
  }

  /** All-ones words denote BASE^n - 1. */
  lemma {:induction false} NatOnes(n: nat)
    ensures Nat(Ones(n)) == BasePow(n) - 1
  {
    if n > 0 {
      assert Ones(n)[..n - 1] == Ones(n - 1);
      NatOnes(n - 1);
    }
  }

  /** Word k of a sequence, at its weight BASE^m, between the words before and after it. */
  lemma NatAt(s: seq<u32>, k: nat, m: nat)
    requires k + 1 + m == |s|
    ensures Nat(s) == (Nat(s[..k]) * BASE + s[k]) * BasePow(m) + Nat(s[k + 1..])
  {
    NatSplit(s, k + 1, m);
    assert s[..k + 1][..k] == s[..k];
  }

  /** Replacing word k, whose weight is BASE^m, changes the number by the difference at
      that weight. */
  lemma NatUpdate(s: seq<u32>, k: nat, v: u32, m: nat)
    requires k + 1 + m == |s|
    ensures Nat(s[k := v]) == Nat(s) + (v - s[k]) * BasePow(m)
  {
    var t := s[k := v];
    var front, w, back := Nat(s[..k]) * BASE, BasePow(m), Nat(s[k + 1..]);
    assert Nat(s) == (front + s[k]) * w + back by {
      NatAt(s, k, m);
    }
    assert Nat(t) == (front + v) * w + back by {
      assert t[..k] == s[..k];
      assert t[k + 1..] == s[k + 1..];
      NatAt(t, k, m);
    }
    UpdateArith(front, s[k], v, w, back);
  }

  lemma UpdateArith(f: int, x: int, v: int, w: int, b: int)
    ensures (f + v) * w + b == (f + x) * w + b + (v - x) * w
  {
  }

  /** Digits keeps exactly the number modulo BASE^n. */
  lemma {:induction false} NatDigits(v: nat, n: nat)
    ensures Nat(Digits(v, n)) == v % BasePow(n)
  {
    if n > 0 {
      var d := Digits(v, n);
      assert d[..n - 1] == Digits(v / BASE, n - 1);
      NatDigits(v / BASE, n - 1);
      var Q := BasePow(n - 1);
      var u := v / BASE;
      var hi, lo := u / Q, u % Q;
      DivMod(v, BASE);
      DivMod(u, Q);
      Distribute(hi, Q, lo, BASE);
      MulBound(lo, BASE, Q - 1, BASE);
      DivModUnique(v, Q * BASE, hi, lo * BASE + v % BASE);
    }
  }

  /** Reading a word sequence and writing it back with as many digits gives it back. */
  lemma {:induction false} DigitsNat(s: seq<u32>)
    ensures Digits(Nat(s), |s|) == s
  {
    if s != [] {
      var init := s[..|s| - 1];
      DivModUnique(Nat(s), BASE, Nat(init), s[|s| - 1]);
      DigitsNat(init);
    }
  }
}
