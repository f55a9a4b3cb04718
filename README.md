# Extended-precision fixed-point numbers of gpu-mandelbrot, in Dafny

This project models the number core of the renderer, `src/num.rs`. A `Component` is a
fixed-point real number: a signed 32-bit whole part `int` plus a vector `subint` of
32-bit fractional words, most significant first. Word k weighs 2^(-32(k+1)), and a
missing tail word counts as zero. The model covers these operations:

- addition and subtraction (`add_assign`, `sub_assign` and the `Add`/`Sub` impls);
- the schoolbook multiply of the fractional words (`Mul for &Component`);
- the conversion from `f32`;
- the conversion from `i32`;
- `Complex::square`.

Each operation is proved against a reference definition over integers:

- `Num.Scaled(c, L)` is the value of `c` times 2^(32L).
- `Num.Sum` and `Num.Difference` are the exact scaled sum and difference, re-encoded at
  the longer operand's precision. The whole part wraps at 32 bits.
- `Multiply.Product` is the exact product of the fractional words.
- `FromFloat.Exact` says that a component holds the float's floor plus the computed
  fraction `num - num.floor()` exactly.

Files:

- `words.dfy`: `u32`/`i32`, wrapping, and the `carrying_add`, `borrowing_sub` and
  `carrying_mul` intrinsics.
- `positional.dfy`: big-endian base-2^32 numbers.
- `bits.dfy`: powers of two and `trailing_zeros`.
- `num.dfy`: the component, addition, subtraction and `From<i32>`.
- `num_laws.dfy`: algebraic laws of addition and subtraction.
- `mul.dfy`: the multiply.
- `from_f32.dfy`: `From<f32>`, as written and corrected.
- `complex.dfy`: `Complex::square`.

Where the source panics, the model returns an error value: `Option.None` from the
multiply and `Result.Err` from the float conversion.

Three places in the source do not do what their authors evidently meant (see
"## Findings"). For each, the model keeps the code as written, exhibits the failure,
and proves the intended behaviour of a corrected version.

Converting -0.25 gives whole part -1 and fraction 0.75, whose single word is
`0xC000_0000` (`FromFloat.FromF32ExactMinusQuarter`).

## Model

| member | source | states |
|---|---|---|
| Words.WrapI32 | src/num.rs:60-61 | `i32` `+=` in a release build: a value already in `i32` range is unchanged |
| Words.WrapI32Congruent | src/num.rs:60-61 | the wrapped value differs from the exact one by a whole multiple of 2^32 |
| Words.WrapI32Compose | src/num.rs:60-61 | wrapping after each of two additions equals wrapping once after both |
| Words.CarryingAdd | src/num.rs:55 | `carrying_add`: low word plus carry-out times 2^32 is exactly x + y + carry-in |
| Words.BorrowingSub | src/num.rs:104 | `borrowing_sub`: low word minus borrow-out times 2^32 is exactly x - y - borrow-in |
| Words.CarryingMul | src/num.rs:145 | `carrying_mul`: low word plus high word times 2^32 is exactly x * y + carry, with both words in `u32` |
| Num.EncodeScaled | src/num.rs:8-12 | re-encoding a component's own value at its own precision gives the same component back |
| Num.AddAssign | src/num.rs:45-63 | `lhs += &rhs` gives `Sum(lhs, rhs)`; words of `lhs` past `rhs`'s length are untouched |
| Num.AddWords | src/num.rs:52-58 | the word loop from the last word of `rhs` to the first: the new words plus the carry-out at weight 2^(32L) equal the extended words plus `rhs`'s words aligned at the front; words past `rhs` are unchanged |
| Num.SubAssign | src/num.rs:94-112 | `lhs -= &rhs` gives `Difference(lhs, rhs)`; words of `lhs` past `rhs`'s length are untouched |
| Num.SubWords | src/num.rs:101-107 | the borrowing word loop: the new words minus the borrow-out at weight 2^(32L) equal the extended words minus `rhs`'s words aligned at the front |
| Num.Add | src/num.rs:23-35 | by-value `+` lets the longer operand accumulate and still gives `Sum(lhs, rhs)` |
| Num.SumCommutes | src/num.rs:23-35 | `Sum(a, b) == Sum(b, a)`, which makes `Add`'s operand swap harmless |
| Num.Sub | src/num.rs:80-92 | by-value `-` as written: `Difference(rhs, lhs)` when `rhs` has more words, otherwise `Difference(lhs, rhs)` |
| Num.SubCorrected | src/num.rs:80-92 | by-value `-` with `self` always the minuend gives `Difference(lhs, rhs)` |
| Num.FromI32 | src/num.rs:218-225 | `From<i32>`: no fractional words and value exactly `x` |
| NumLaws.SumValue | src/num.rs:45-63 | when the exact sum fits the `i32` whole part, the sum's scaled value is exactly the sum of the operands' |
| NumLaws.DifferenceValue | src/num.rs:94-112 | likewise for the difference |
| NumLaws.SumScaledUp | src/num.rs:45-63 | read at any precision at least its own, the sum is the operands' sum up to multiples of 2^32 whole units |
| NumLaws.DifferenceScaledUp | src/num.rs:94-112 | likewise for the difference |
| NumLaws.SumIdentity | src/num.rs:45-63 | adding `Component::from(0)` gives the component back |
| NumLaws.DifferenceSelf | src/num.rs:94-112 | `A - A` is whole part 0 and every word 0, at A's length |
| NumLaws.SumAssociative | src/num.rs:45-63 | `(a + b) + c == a + (b + c)`, wrapped whole parts included |
| NumLaws.DifferenceUndoesSum | src/num.rs:45-112 | `(a + b) - b` is `a`, zero-padded to the longer length |
| NumLaws.SumUndoesDifference | src/num.rs:45-112 | `(a - b) + b` is `a`, zero-padded to the longer length |
| NumLaws.IntegerArithmetic | src/num.rs:45-112 | on components without words, `+` and `-` are wrapping `i32` addition and subtraction |
| NumLaws.CarryRipples | src/num.rs:52-61 | adding words `0xFFFFFFFF...` and `0...01` zeroes every word and adds exactly 1 to the whole part |
| NumLaws.SubReversedExample | src/num.rs:80-92 | 0 - 2^-32 is whole -1 with word `0xFFFFFFFF`, but the reversed operands give +2^-32 |
| Multiply.Mul | src/num.rs:120-155 | as written (`..=`), the multiply panics exactly when `self` has fractional words; with `..` it always succeeds; on success it gives `Product(a, b)` |
| Multiply.MulPasses | src/num.rs:132-152 | the outer loop leaves the exact product of the two word sequences in the buffer, or stops where the slice is out of range |
| Multiply.MulRow | src/num.rs:137-150 | one inner pass adds the digit times `rhs`'s words into the slice, with both carries owed at the next weight |
| Multiply.ProductValue | src/num.rs:124-129 | the |a|+|b| result words hold the product of the operands' words exactly: nothing is lost |
| Multiply.ProductFits | src/num.rs:124 | the product of an m-word and an n-word number fits in m + n words |
| Multiply.ProductWithoutWords | src/num.rs:120-155 | without words on the left the product is all zero words, whatever the whole parts |
| Multiply.ProductOfIntegers | src/num.rs:120-155 | two components from `i32`s multiply to zero with no words |
| FromFloat.Exponent | src/num.rs:176 | `(bits >> 23) as u8` is below 256 (the sign bit dropped) |
| FromFloat.Mantissa | src/num.rs:187 | `bits & (u32::MAX >> 9)` is the low 23 bits: below 2^23 and congruent to `bits` modulo 2^23 |
| FromFloat.LowBits | src/num.rs:176-187 | below the sign bit, a pattern is its exponent field times 2^23 plus its mantissa field |
| FromFloat.IsInfinite | src/num.rs:167 | `is_infinite()` holds exactly for the patterns 0x7F80_0000 and 0xFF80_0000 |
| FromFloat.IsNan | src/num.rs:169 | `is_nan()` holds exactly for the patterns above 0x7F80_0000 once the sign bit is dropped |
| FromFloat.ShiftRight | src/num.rs:208 | `fraction >> suboffset` is `fraction / 2^suboffset` rounded down |
| FromFloat.ShiftLeft | src/num.rs:211 | `fraction << (32 - suboffset)` keeps the low 32 bits of `fraction * 2^((32 - suboffset) mod 32)`, and all of them when they fit |
| FromFloat.LowWord | src/num.rs:211 | a non-negative value is congruent to its low 32 bits modulo 2^32, and equal to them when it fits |
| Words.Bit | src/num.rs:61 | `carry as i32` is 1 exactly when the carry is set, and 0 otherwise; likewise the borrow at line 110 |
| FromFloat.Fields | src/num.rs:186-187 | the exponent and mantissa of a pattern built from sign, exponent and mantissa are those fields |
| FromFloat.FloatToI32 | src/num.rs:183 | `int as i32` of an accepted floor is the float's value truncated toward zero, `±(Significand / 2^Shift)` rounded down in magnitude, strictly between -256 and 256 |
| FromFloat.TruncationValue | src/num.rs:183 | the magnitude `as i32` keeps is `Significand / 2^Shift` rounded down, and 0 below 1.0 |
| FromFloat.Layout | src/num.rs:201-212 | the stores: `len` words, `fraction >> s` at `idx`, `fraction << (32 - s)` at `idx + 1` when that word exists, and zero everywhere else; the whole part is kept |
| FromFloat.FromF32 | src/num.rs:165-216 | as written: infinite, NaN and too-large inputs fail with their own error, in that order of checks; any success keeps the truncated floor as the whole part |
| FromFloat.Store | src/num.rs:185-212 | as written: the allocation and stores either fail with an out-of-bounds index or keep the whole part |
| FromFloat.FromF32Fails | src/num.rs:165-216 | as written, every input fails; it fails at the store exactly when the three checks pass |
| FromFloat.StoreFails | src/num.rs:185-212 | the allocation and stores as written always index out of bounds |
| FromFloat.WordCountShort | src/num.rs:192-206 | `subint_bits / 50` never exceeds the first store's index `offset / 32` |
| FromFloat.ExponentAtMostOne | src/num.rs:186 | a fraction of at most 1.0 has a biased exponent of at most 127 |
| FromFloat.FractionZeros | src/num.rs:187 | the shifted `fraction` has at least 8 trailing zero bits |
| FromFloat.FromF32OnePointFive | src/num.rs:165-216 | as written, 1.5 is rejected with an out-of-bounds store |
| FromFloat.Convert | src/num.rs:185-212 | corrected: a fraction that rounded to 1.0 adds 1 to the whole part; there are no words exactly when the fraction is 0 or 1.0 |
| FromFloat.Place | src/num.rs:187-212 | corrected: the `ceil(subint_bits / 32)` words always reach the first store's index `offset / 32`, and number at most 5; the whole part is kept |
| FromFloat.OnlyOneIsOne | src/num.rs:186-192 | of the patterns up to 1.0, only 1.0 has biased exponent 127, the case where `126 - exponent` would wrap |
| Bits.TrailingZeros | src/num.rs:199 | `trailing_zeros`: a non-zero word is at least 2 to the power of its trailing zeros |
| Bits.TrailingZerosSplit | src/num.rs:199 | a non-zero word is an odd number times 2 to the power of its trailing zeros |
| Bits.TrailingZerosShift | src/num.rs:187-199 | shifting a non-zero word up k bits without loss adds exactly k trailing zeros |
| FromFloat.FromF32Exact | src/num.rs:165-216 | the corrected conversion fails exactly when the input is infinite, NaN, or has an integer part of 256 or more in magnitude |
| FromFloat.FromF32ExactValue | src/num.rs:165-216 | every accepted float converts, holding the floor plus the computed fraction exactly: the whole part plus the words equal the truncated floor plus `Significand / 2^Shift` of the fraction pattern; the last word is non-zero |
| FromFloat.FromF32ExactRoundedFraction | src/num.rs:173-174 | for -2^-30 the computed fraction `num - num.floor()` is 1.0, so even the corrected conversion gives 0, not `num` |
| FromFloat.ConvertValue | src/num.rs:185-212 | the corrected placement of any fraction in [0, 1] is exact and trimmed |
| FromFloat.PlaceValue | src/num.rs:187-212 | placed words read exactly `sig / 2^(offset+24)`, and the last word is non-zero |
| FromFloat.SignificandZeros | src/num.rs:187-199 | shifting the significand up 8 bits adds exactly 8 trailing zeros, and it has at most 23 |
| FromFloat.FromF32ExactOnePointFive | src/num.rs:165-216 | 1.5 converts to whole part 1 and words `[0x80000000]` |
| FromFloat.FromF32ExactMinusQuarter | src/num.rs:165-216 | -0.25 converts to whole part -1 and words `[0xC0000000]` (0.75) |
| FromFloat.FromF32ExactTwo | src/num.rs:165-216 | 2.0 converts to whole part 2 and no words |
| FromFloat.FromF32ExactTooLarge | src/num.rs:179-181 | 256.0 is rejected as too large |
| ComplexSquare.Square | src/num.rs:234-239 | `square()` fails as written exactly when either part has words; with `..` it always succeeds; on success it equals `SquareOf(z)` |
| ComplexSquare.SquareValue | src/num.rs:234-239 | the real part's words are the product of the words of `re + im` and `re - im`; the imaginary part is `2 (re + im)` up to multiples of 2^32 whole units |
| ComplexSquare.SquareOfIntegers | src/num.rs:234-239 | for parts without words the square is `0 + (2 (x + y) wrapped) i` |
| ComplexSquare.SquareOfOnePlusI | src/num.rs:234-239 | `1 + 1i` squares to `0 + 4i` under the code's formula |

## Left out

- Floating point: `num.floor()` and `num - num.floor()` are not modelled. `is_infinite` and `is_nan` are modelled on the bit pattern of `num` (`FromFloat.IsInfinite`, `FromFloat.IsNan`). The conversion takes the 32-bit patterns of `num`, its floor and its fractional part as inputs. For a finite `num` it requires the fractional part's pattern to be at most 1.0, the range `num - num.floor()` then produces. For an infinite or NaN `num` it requires nothing, since the conversion stops before it reads the fractional part.
- Panics are not modelled as aborts. The panics of `From<f32>` become `Result.Err` values. The out-of-range slice in the multiply becomes `Option.None`.
- Num.AddAssign: the whole part wraps at 32 bits, as in a release build; a debug build panics on `i32` overflow instead. `Num.SubAssign` is the same.
- FromFloat.FromF32: the `u8` and `usize` arithmetic wraps, as in a release build; a debug build panics at `126 - exponent` for a fraction of 1.0. `FromFloat.ShiftLeft` likewise takes the shift amount modulo 32, the release build's `fraction << 32` when `suboffset` is 0; a debug build panics there. Neither conversion reaches that shift with `suboffset` 0: the as-written one fails before it, and the corrected one stores a second word only when the low `suboffset` bits are not all zero.
- FromFloat.FromF32ExactValue: the corrected conversion holds the floor plus the computed fraction exactly, not `num` itself. For `num` in (-1, 0) the float subtraction `num - num.floor()` (src/num.rs:174) rounds to 24 significant bits. -0.1 (0xBDCC_CCCD) has floor -1.0 and fraction 0x3F66_6666, whose sum is -0.100000024. -2^-30 gets the fraction 1.0 and becomes 0 (`FromFloat.FromF32ExactRoundedFraction`). A conversion exact for every `num` would need the split done without float rounding, which is outside the floating-point operations this model takes as inputs.
- In-place update: `add_assign`, `sub_assign` and `square` work on values, because `Component` is a `Clone` value with no shared state. The `&mut self` methods take the old value and return the new one. The word loops update a local sequence, and the multiply fills a fresh array.
- The wrappers are the same operations on values and have no members of their own: `Add<&Self>` (src/num.rs:14-21), `Add for &Component` (37-43), `AddAssign` by value (65-69), `Sub<&Self>` (71-78), `SubAssign` by value (114-118) and `Mul` by value (157-163).
- ComplexSquare.Square: the imaginary part is computed as the code writes it, `2 (re + im)`, not `2 re im`. There is no corrected version, because a correct one would need a multiply that takes the whole parts into account, and the source has none.
- Multiply.Mul: the whole parts take no part in the product, as in the source. The result's whole part is 0.
- The `Default`, `Clone` and `Debug` derives are not modelled.
- The Rust field names `real` and `imag` are `re` and `im` in the model, because `real` is a Dafny type name.

## Findings

| source | as written | input that shows it | evidently intended | confidence | as-written member | corrected member |
|---|---|---|---|---|---|---|
| src/num.rs:80-92 | by-value `Sub` swaps its operands when `rhs` has more words and returns `rhs - self` | `Component{int:0, subint:[]} - Component{int:0, subint:[1]}` gives +2^-32 instead of -2^-32 | extend `self` and always compute `self - rhs` | not executed | Num.Sub, NumLaws.SubReversedExample | Num.SubCorrected |
| src/num.rs:143 | the inner slice is `out.subint[..=out_subint_len - i]`, one word past the buffer on the first pass | any `self` with at least one fractional word, such as `[1] * [1]`, panics | `..out_subint_len - i`, so word i+j+1 of the product receives `a[i] * b[j]` | not executed | Multiply.Mul (Inclusive) | Multiply.Mul (Exclusive), Multiply.ProductValue |
| src/num.rs:198-211 | `subint_bits / 50` words are allocated, and the trailing zeros are counted in the shifted `fraction`; the first store at `offset / 32` is always out of bounds | 1.5 (floor 1.0, fraction 0.5) | five changes together make the conversion hold the floor plus the computed fraction exactly, in the fewest words: allocate `ceil(subint_bits / 32)` words; count the trailing zeros of the 24-bit significand rather than of the shifted `fraction`; give a zero fraction no words instead of storing the implicit leading bit `1 << 31` that line 187 sets; drop that implicit bit for a subnormal fraction; carry a fraction that rounded up to 1.0 into the whole part, where `126 - exponent` would wrap | not executed | FromFloat.FromF32Fails, FromFloat.FromF32OnePointFive | FromFloat.FromF32Exact, FromFloat.FromF32ExactValue |
