# inter — interval arithmetic, modelled in Dafny

`inter` is a small Rust library for interval arithmetic. An `Interval` is a
closed range `[start, end]`. The library builds intervals from their bounds
or from a centre and a half-width (`epsilon`). It asks whether a value is
contained and compares an interval against a scalar. It also intersects two
intervals and combines them with `+`, `-`, `*`, `/` and unary `-`.

The library has two independent copies of the interval type:

- `src/interval.rs` is the richer one. It computes each lower bound under
  rounding toward −∞ and each upper bound under rounding toward +∞, through
  `Rounding::execute`. Its `*` and `/` fold the `Option`-returning
  `partial_min`/`partial_max` of `std::cmp` over the four corner values. It adds `exact`, `zero`, `one`,
  `intersection`, `epsilon` and a series-based `sin`.
- `src/lib.rs` is simpler. It does no rounding, and its `*` and `/` sort a
  vector of the four corners in place, then take the first and the last
  element.

`src/rounding.rs` maps the four IEEE 754-2008 rounding directions (section
4.3) to the C99 `<fenv.h>` codes, as x86 defines them (section 7.6.3 of
ISO/IEC 9899:1999). It also sets a mode, or runs a closure under a mode. In
`src/utils.rs`, `partial_min`/`partial_max` pick one of two values.

Bounds are `real` throughout the model, so arithmetic is exact. Directed
rounding of an exact value changes nothing, so every
`Rounding::X.execute(f)` inside the interval operations is just `f()`. A
panic (`with_range` on crossed bounds) is an `Err` of a `Result`.

Files:

| file | module | models |
|---|---|---|
| `prelude.dfy` | `Prelude` | `Option`, `Result`, `Ordering` |
| `utils.dfy` | `Utils` | `src/utils.rs`, and the least and greatest element of a sequence |
| `rounding.dfy` | `RoundingControl` | `src/rounding.rs`; the platform register is the field of class `FloatEnv` |
| `real_bounds.dfy` | `RealBounds` | facts of real arithmetic: products and quotients lie between the corner values |
| `interval.dfy` | `Intervals` | `src/interval.rs` |
| `lib.dfy` | `Inter` | `src/lib.rs` |
| `crosscheck.dfy` | `CrossCheck` | the two copies agree |

## Model

| member | source | states |
|---|---|---|
| Utils.PartialMin | src/utils.rs:1-7 | returns one of its arguments; it is `<=` both; it returns `a` whenever `a <= b`, ties included |
| Utils.PartialMax | src/utils.rs:9-15 | returns one of its arguments; it is `>=` both; it returns `a` whenever `a >= b` |
| Utils.MinMaxPartition | src/utils.rs:1-15 | `{partial_min(a,b), partial_max(a,b)}` equals `{a, b}` as a multiset |
| Utils.MinMaxSymmetric | src/utils.rs:1-15 | over a total order, both are symmetric in their arguments |
| Utils.ExtremaDetermined | src/interval.rs:276-309 | the least (greatest) element of a sequence is unique and depends only on its multiset of values |
| RoundingControl.Code | src/rounding.rs:9-14 | each discriminant is one of the four codes 0x0000, 0x0400, 0x0800, 0x0C00 |
| RoundingControl.FromI64 | src/rounding.rs:17-25 | `Some` exactly for the four codes; the decoded mode's code is the input; every other integer is `None` |
| RoundingControl.AsI64 | src/rounding.rs:28 | `n as i64` is `n` modulo 2^64; it equals `n` exactly when `n < 2^63` |
| RoundingControl.FromU64 | src/rounding.rs:27-29 | `Some` exactly for the four codes, with the input as the decoded mode's code; values of 2^63 and above wrap negative and are refused |
| RoundingControl.DecodeCode | src/rounding.rs:9-25 | round trip: `from_i64(m as i64) == Some(m)` and `from_u64(m as u64) == Some(m)` for every mode |
| RoundingControl.CodeInjective | src/rounding.rs:9-14 | two modes have the same code exactly when they are the same mode |
| RoundingControl.FromU64AgreesWithFromI64 | src/rounding.rs:27-29 | below 2^63, `from_u64(n) == from_i64(n)` |
| RoundingControl.FloatEnv.constructor | src/rounding.rs:4-7 | a simulated environment, with a set of accepted codes and an initial mode in the register |
| RoundingControl.FloatEnv.FeSetRound | src/rounding.rs:5 | `fesetround`: an accepted code is written to the register with status 0; otherwise the register is unchanged and the status is nonzero |
| RoundingControl.FloatEnv.Current | src/rounding.rs:33-35 | `current` decodes the register to `Some` of the mode whose code it holds |
| RoundingControl.FloatEnv.Set | src/rounding.rs:37-44 | `Ok` exactly when the platform accepts the code, that is, when `fesetround` reports 0; the register then holds the mode's code, and is otherwise unchanged |
| RoundingControl.FloatEnv.Execute | src/rounding.rs:46-52 | the result is the body's value, from one call with the new mode active; afterwards the register holds what writing back the first call's STATUS leaves, which is ToNearest whenever the mode and ToNearest are accepted |
| RoundingControl.FloatEnv.ExecuteRestoring | src/rounding.rs:46-52 | corrected `execute`: the body's value, with the mode active during the body; the register is restored to its prior value |
| RoundingControl.ExecuteForgetsPriorMode | src/rounding.rs:47-49 | with Upward active, a Downward scope runs the body under Downward, then leaves ToNearest rather than Upward |
| RoundingControl.ExecuteRestoringKeepsPriorMode | src/rounding.rs:46-52 | the corrected scope gives Upward back, even when the body switches to TowardZero |
| RealBounds.ProductInHull | src/interval.rs:276-289 | a product of members of `[a,b]` and `[c,d]` lies between the least and the greatest corner product |
| RealBounds.QuotientInHull | src/interval.rs:296-309 | the same for quotients, when the divisor range keeps away from 0 |
| Intervals.WithRange | src/interval.rs:76-84 | `Ok` exactly when `start <= end`, with the bounds stored unchanged; otherwise the panic of the bare `assert!`, which names no bounds |
| Intervals.WithEpsilon | src/interval.rs:86-89 | `Ok` exactly when `epsilon >= 0`; the result contains the centre |
| Intervals.CenterOfWithEpsilon | src/interval.rs:86-89 | `center` and `epsilon` of `with_epsilon(c, e)` are `c` and `e` |
| Intervals.WithEpsilonOfCenter | src/interval.rs:86-89 | every valid interval is `with_epsilon(center, epsilon)` of itself |
| Intervals.Exact | src/interval.rs:91-94 | a valid interval that contains `value` and nothing else |
| Intervals.ExactIsWithEpsilon | src/interval.rs:91-94 | `exact(v)` is `with_epsilon(v, 0)`, which never panics |
| Intervals.Zero | src/interval.rs:99-101 | a valid interval that contains 0 and nothing else |
| Intervals.IsZero | src/interval.rs:103-105 | true exactly for the interval `zero()` |
| Intervals.One | src/interval.rs:110-112 | a valid interval that contains 1 and nothing else |
| Intervals.Contains | src/interval.rs:128-131 | only a valid interval contains anything; a value a valid interval does not contain lies below its start or above its end |
| Intervals.Width | src/interval.rs:143-146 | `start + width == end`; the width is non-negative exactly when the interval is valid |
| Intervals.Center | src/interval.rs:158-161 | equally far from both bounds, and inside a valid interval |
| Intervals.Epsilon | src/interval.rs:207-210 | the bounds are `center ∓ epsilon`; non-negative exactly when the interval is valid |
| Intervals.Intersection | src/interval.rs:182-195 | `Some` exactly when both are valid and the largest start is at most the smallest end; the result is valid and holds exactly the values in both operands |
| Intervals.IntersectionCommutes | src/interval.rs:178 | `a ∩ b == b ∩ a` |
| Intervals.EqScalar | src/interval.rs:220-225 | `interval == v` exactly when `partial_cmp` reports `Equal` |
| Intervals.PartialCmp | src/interval.rs:227-242 | never `None`; Greater exactly when `v < start`; Equal exactly when contained; for a valid interval, Less exactly when `v > end` |
| Intervals.Add | src/interval.rs:244-256 | valid operands give a valid sum; it encloses `x + y` for every `x` in `a` and `y` in `b` |
| Intervals.AddIsTight | src/interval.rs:244-256 | every value of the sum of valid intervals is a sum of members |
| Intervals.Sub | src/interval.rs:258-270 | adding `b` back gives `a`, which fixes both bounds; the width of the difference is the difference of widths; for valid operands it is valid exactly when the subtrahend is no wider |
| Intervals.SubUndoesAdd | src/interval.rs:244-270 | `(a + b) - b == a` |
| Intervals.SubMissesDifferences | src/interval.rs:404-408 | `[3,4] - [1,2] = [2,2]`, which misses the difference `4 - 1` of members |
| Intervals.Neg | src/interval.rs:312-322 | validity is kept both ways; `x` is in `a` exactly when `-x` is in `-a` |
| Intervals.NegInvolution | src/interval.rs:312-322 | `-(-a) == a` |
| Intervals.FoldMin | src/interval.rs:279 | the fold of `partial_min` returns the accumulator or an element, and is at most all of them |
| Intervals.FoldMax | src/interval.rs:282 | the fold of `partial_max` returns the accumulator or an element, and is at least all of them |
| Intervals.CornerHull | src/interval.rs:276-289 | starting from the first corner and folding over the others gives the least corner as start and the greatest as end, a valid interval |
| Intervals.Mul | src/interval.rs:272-290 | start is the least and end the greatest of the four corner products; the result is valid |
| Intervals.Div | src/interval.rs:292-310 | start is the least and end the greatest of the four corner quotients; the result is valid |
| Intervals.MulEncloses | src/interval.rs:276-289 | the product contains `u * v` for every `u` in `x` and `v` in `y` |
| Intervals.DivEncloses | src/interval.rs:296-309 | for a valid divisor not containing 0: its bounds are nonzero, and the quotient contains `u / v` for every `u` in `x` and `v` in `y` |
| Intervals.MulCommutes | src/interval.rs:272-290 | `x * y == y * x` |
| Intervals.Identities | src/interval.rs:97-112 | `a + zero() == a` and `one() * a == a` for a valid `a` |
| Intervals.TermDivisorI32 | src/interval.rs:330 | `2*i*(2*i+1)` computed in `i32`: in the signed 32-bit range and congruent to the exact product modulo 2^32 |
| Intervals.TermDivisor | src/interval.rs:330 | the exact divisor is at least 6 for every step |
| Intervals.TermDivisorI32Exact | src/interval.rs:329-330 | the 32-bit divisor is exact for steps up to 23170 |
| Intervals.TermDivisorI32Overflows | src/interval.rs:329-330 | at step 23171, inside `1..500_000`, the 32-bit divisor is negative instead of 2147627306 |
| Intervals.FoldRange | src/interval.rs:329-334 | the left fold over an empty range is the initial value; over `lo..hi` it is the step applied to the fold over `lo..hi-1` and `hi-1` |
| Intervals.FoldRangeLoop | src/interval.rs:329-334 | the loop of `fold` computes `FoldRange`, the left fold of the closure over `lo..hi` |
| Intervals.SinStep | src/interval.rs:330-333 | one step of the closure of `sin`, with the exact divisor; an even step keeps a valid accumulator valid |
| Intervals.ScaleAddEncloses | src/interval.rs:333 | `acc * factor + acc` contains `u * f + u` for `u` in `acc` and `f` in `factor` |
| Intervals.SinStepEvenEncloses | src/interval.rs:330-333 | an even step contains `u * (w / d) + u` for every `u` in the accumulator and `w` in `x2`, with `d = 2i(2i+1)` |
| Intervals.SinClosure | src/interval.rs:329-334 | the closure passed to `fold` is defined at every step from 1 on |
| Intervals.Clamp | src/interval.rs:336-337 | the result is in `[-1, 1]`; values inside are kept; values below go to -1, values above to 1 |
| Intervals.ClampMonotone | src/interval.rs:336-337 | the clamp keeps order, so it keeps `start <= end` |
| Intervals.Sin | src/interval.rs:326-340 | the result is the clamp of `FoldRange` of the closure over `1..500_000`, starting from `self`, so both bounds end in `[-1, 1]`; a valid accumulator gives a valid result |
| Intervals.InspectionExamples | src/interval.rs:368-389 | `[1,2]` contains 1.5 and equals it, but not 2.1; its width is 1, centre 1.5 and epsilon 0.5 |
| Intervals.OrderingExamples | src/interval.rs:377-383 | `[1,2] > 0`, `[1,2] < 3` and `[1,2]` compares Equal to 1.5 |
| Intervals.IntersectionExamples | src/interval.rs:168-180 | `[1,2] ∩ [1.5,2.5] = [1.5,2]`; `[1,2] ∩ [3,4]` is None |
| Intervals.ArithmeticExamples | src/interval.rs:397-425 | `[1,2]+[3,4]=[4,6]`, `[3,4]-[1,2]=[2,2]`, `[1,2]*[3,4]=[3,8]`, `[3,4]/[1,2]=[1.5,4]`, `-[1,2]=[-2,-1]` |
| Inter.WithRange | src/lib.rs:34-41 | `Ok` exactly when `start <= end`, with the bounds stored unchanged; otherwise the panic, carrying both bounds |
| Inter.Contains | src/lib.rs:63-66 | only a valid interval contains anything; a value a valid interval does not contain lies below its start or above its end |
| Inter.WithEpsilon | src/lib.rs:44-47 | `Ok` exactly when `epsilon >= 0`; the result has centre `center` and width `2 * epsilon` |
| Inter.Width | src/lib.rs:78-81 | `start + width == end`; non-negative exactly when the interval is valid |
| Inter.Center | src/lib.rs:93-96 | equally far from both bounds, and inside a valid interval |
| Inter.EqScalar | src/lib.rs:106-111 | `interval == v` exactly when `partial_cmp` reports `Equal` |
| Inter.PartialCmp | src/lib.rs:113-128 | never `None`; Greater exactly when `v < start`; Less exactly when `start <= v` and `v > end`; Equal exactly when contained |
| Inter.Add | src/lib.rs:130-140 | valid operands give a valid sum that encloses every sum of members |
| Inter.Sub | src/lib.rs:142-152 | adding `b` back gives `a`, which fixes both bounds; the width of the difference is the difference of widths; for valid operands it is valid exactly when the subtrahend is no wider |
| Inter.SubUndoesAdd | src/lib.rs:134-151 | `(a + b) - b == a` |
| Inter.Neg | src/lib.rs:186-196 | validity is kept both ways; `x` is in `a` exactly when `-x` is in `-a` |
| Inter.NegInvolution | src/lib.rs:190-195 | `-(-a) == a` |
| Inter.Sort | src/lib.rs:161 | sorts the vector in place: ascending, and a permutation of its old contents |
| Inter.SortedExtremes | src/lib.rs:161-166 | the first element of a sorted permutation is the least and the last is the greatest |
| Inter.SortedHull | src/lib.rs:160-166 | sorting the four corners and taking `v[0]` and `v[3]` gives the least and the greatest corner, a valid interval |
| Inter.Mul | src/lib.rs:158-167 | start is the least and end the greatest of the four corner products; the result is valid |
| Inter.Div | src/lib.rs:174-183 | start is the least and end the greatest of the four corner quotients; the result is valid |
| Inter.MulEncloses | src/lib.rs:158-167 | bounds as `Mul` promises them contain every product of members |
| Inter.DivEncloses | src/lib.rs:174-183 | bounds as `Div` promises them contain every quotient of members, for a divisor not containing 0 |
| Inter.InspectionExamples | src/lib.rs:206-228 | `[1,2]` contains 1.5 and equals it, but not 2.1; its width is 1 and centre 1.5; `with_range(2,1)` panics |
| Inter.OrderingExamples | src/lib.rs:215-222 | `[1,2] > 0`, `[1,2] < 3` and `[1,2]` compares Equal to 1.5 |
| Inter.ArithmeticExamples | src/lib.rs:236-264 | `[1,2]+[3,4]=[4,6]`, `[3,4]-[1,2]=[2,2]`, `-[1,2]=[-2,-1]` |
| Inter.MulExample | src/lib.rs:248-252 | `[1,2] * [3,4] = [3,8]` |
| Inter.DivExample | src/lib.rs:254-258 | `[3,4] / [1,2] = [1.5,4]` |
| CrossCheck.Lift | src/lib.rs:22-27 | the same bounds as an interval of the other copy, with the same validity and the same members |
| CrossCheck.MulAgrees | src/lib.rs:158-167 | the sort-based product has exactly the bounds of the fold-based product of src/interval.rs |
| CrossCheck.DivAgrees | src/lib.rs:174-183 | the sort-based quotient has exactly the bounds of the fold-based quotient of src/interval.rs |
| CrossCheck.CommonOperationsAgree | src/lib.rs:63-196 | both copies agree on add, sub, neg, width, center, scalar equality and ordering |
| CrossCheck.FoldExamples | src/interval.rs:410-420 | the fold-based `[1,2]*[3,4]` is `[3,8]` and `[3,4]/[1,2]` is `[1.5,4]` |

## Left out

- `fesetround`/`fegetround` and the hardware effect of directed rounding. The register is a field of `FloatEnv`, and the platform's set of accepted codes is a constructor parameter.
- `Rounding::current`: modelled as a decoding of the simulated register (`FloatEnv.Current`), not as a query of the platform.
- Floating-point semantics: NaN and incomparable values, infinities, and float rounding of `center`, `epsilon` and the arithmetic. Bounds are `real`, so these cases cannot arise:
  - the `unwrap` panics of `mul`/`div` at src/interval.rs:279, 282, 299, 302 and src/lib.rs:161, 177;
  - the `None` branches of `intersection` (src/interval.rs:187) and `partial_cmp` (src/interval.rs:240, src/lib.rs:126).
- src/interval.rs:14-18 imports the `Option`-returning `partial_min`/`partial_max` of `std::cmp`, not those of src/utils.rs: `intersection` tests them with `.is_none()` (src/interval.rs:187) and `mul`/`div` `.unwrap()` them (src/interval.rs:279, 282, 299, 302). The model uses Utils.PartialMin/PartialMax in their place. On every pair of reals the two give the same value: both are `Some` there, and where std's `partial_max` returns its second argument on a tie, that argument equals the first.
- Intervals.Div, Inter.Div: require nonzero divisor bounds. With a zero bound, Rust yields infinities or NaN, which reals cannot express.
- Intervals.Sin, Intervals.SinClosure, Intervals.SinStep: the fold divides by the exact `TermDivisor` instead of the source's wrapping `i32` divisor `2*i*(2*i+1)` (Intervals.TermDivisorI32, see Findings). Up to step 23170 the two agree (Intervals.TermDivisorI32Exact); from step 23171 on, the model follows the corrected recurrence.
- Intervals.Sin: does not state that the series approximates the sine, or that the result encloses it. Only the fold, the divisor arithmetic and the clamp are modelled.
- The commented-out `cos` of src/interval.rs, which is not code.
- `Display` (`"[start, end]"`): depends on Rust's float-to-text formatting.
- Generic trait plumbing: `NumCast`, `cast(2).unwrap()`, `Num`, `FromPrimitive::from_i32` (decoded here via `FromI64`).
- RoundingControl.FloatEnv.Execute: the body is a pure function of the active code that may request one mode switch. A panicking body, and a body that runs further floating-point code, are not modelled.
- Inter.Sort: an insertion sort stands in for the standard library's stable `sort_by`. A sorted permutation of four values is unique, so the vector afterwards is the same.
- The demo programs that print sines and rounding modes, which are I/O only.

## Findings

| source | as written | input that shows it | evidently intended | confidence | as-written member | corrected member |
|---|---|---|---|---|---|---|
| src/rounding.rs:47-49 | `execute` keeps the return value of the first `fesetround`, a status (0 on success), and passes it to `fesetround` afterwards | Upward active; `Rounding::Downward.execute(f)` leaves ToNearest (code 0) in the register | restore the mode that `fegetround` reports before the call | high, not executed | RoundingControl.FloatEnv.Execute, RoundingControl.ExecuteForgetsPriorMode | RoundingControl.FloatEnv.ExecuteRestoring, RoundingControl.ExecuteRestoringKeepsPriorMode |
| src/interval.rs:329-330 | the step counter of `sin` defaults to `i32`, so `2*i*(2*i+1)` exceeds 2^31 - 1 | step `i = 23171` of `1..500_000`: the product 2147627306 wraps to -2147339990 (or panics in a debug build) | the exact positive divisor for every step | medium, not executed | Intervals.TermDivisorI32, Intervals.TermDivisorI32Overflows | Intervals.TermDivisor |
