/** The interval type of src/interval.rs: a closed range `[start, end]` with
    constructors, inspection, intersection, comparison against a scalar,
    the arithmetic operators and the range clamp of `sin`.

    Bounds are `real`. Every bound the source computes inside
    `Rounding::Downward.execute` or `Rounding::Upward.execute` is the exact
    value here: with exact arithmetic, directed rounding changes nothing. */
module Intervals {
  import opened Prelude
  import opened Utils
  import opened RealBounds

  datatype Interval = Interval(start: real, end: real)

  /** The invariant of a properly constructed interval. */
  predicate Valid(i: Interval) {
    i.start <= i.end
  }

  /** The panic of `with_range`: a bare assertion failure, which names
      neither bound. */
  datatype RangeError = InvalidRange

  // ---------------------------------------------------------------------
  // Construction

  /** `with_range`: the interval with exactly these bounds, or the panic
      when `start > end`. */
  function WithRange(start: real, end: real): (r: Result<Interval, RangeError>)
    ensures r.Ok? <==> start <= end
    ensures r.Ok? ==> Valid(r.value) && r.value.start == start && r.value.end == end
  {
    if start <= end then Ok(Interval(start, end)) else Err(InvalidRange)
  }

  /** `with_epsilon`: the interval centred on `center` with half-width
      `epsilon`; a negative `epsilon` trips the check in `with_range`. */
  function WithEpsilon(center: real, epsilon: real): (r: Result<Interval, RangeError>)
    ensures r.Ok? <==> epsilon >= 0.0
    ensures r.Ok? ==> Contains(r.value, center)
  {
    WithRange(center - epsilon, center + epsilon)
  }

  /** `exact`: the interval that holds `value` and nothing else. */
  function Exact(value: real): (r: Interval)
    ensures Valid(r)
    ensures forall x :: Contains(r, x) <==> x == value
  {
    Interval(value, value)
  }

  /** `exact` is `with_epsilon(value, 0)`, which never fails. */
  lemma ExactIsWithEpsilon(value: real)
    ensures WithEpsilon(value, 0.0) == Ok(Exact(value))
  {
  }

  /** `Zero::zero`: the exact interval of 0. */
  function Zero(): (r: Interval)
    ensures Valid(r) && forall x :: Contains(r, x) <==> x == 0.0
  {
    Exact(0.0)
  }

  /** `Zero::is_zero`: both bounds are 0. */
  function IsZero(i: Interval): (b: bool)
    ensures b <==> i == Zero()
  {
    i.start == 0.0 && i.end == 0.0
  }

  /** `One::one`: the exact interval of 1. */
  function One(): (r: Interval)
    ensures Valid(r) && forall x :: Contains(r, x) <==> x == 1.0
  {
    Exact(1.0)
  }

  // ---------------------------------------------------------------------
  // Inspection

  /** `contains`: inclusive at both ends. Only a valid interval contains
      anything, and a value outside a valid interval lies below its start
      or above its end. */
  predicate Contains(i: Interval, value: real): (b: bool)
    ensures b ==> Valid(i)
    ensures Valid(i) && !b ==> value < i.start || i.end < value
  {
    i.start <= value && value <= i.end
  }

  /** `width`: the distance between the bounds, never negative exactly
      when the interval is valid. */
  function Width(i: Interval): (w: real)
    ensures Valid(i) <==> w >= 0.0
    ensures i.start + w == i.end
  {
    i.end - i.start
  }

  /** `center`: the midpoint, equally far from both bounds and inside a
      valid interval. */
  function Center(i: Interval): (c: real)
    ensures c - i.start == i.end - c
    ensures Valid(i) ==> Contains(i, c)
  {
    (i.start + i.end) / 2.0
  }

  /** `epsilon`: half the width, so that the bounds are the centre minus
      and plus epsilon. */
  function Epsilon(i: Interval): (e: real)
    ensures Valid(i) <==> e >= 0.0
    ensures Center(i) - e == i.start && Center(i) + e == i.end
  {
    Width(i) / 2.0
  }

  /** `center` and `epsilon` recover the arguments of `with_epsilon` ... */
  lemma CenterOfWithEpsilon(center: real, epsilon: real)
    requires epsilon >= 0.0
    ensures Center(WithEpsilon(center, epsilon).value) == center
    ensures Epsilon(WithEpsilon(center, epsilon).value) == epsilon
  {
    var i := WithEpsilon(center, epsilon).value;
    assert i.start == center - epsilon && i.end == center + epsilon;
  }

  /** ... and `with_epsilon` rebuilds every valid interval from its centre
      and epsilon. */
  lemma WithEpsilonOfCenter(i: Interval)
    requires Valid(i)
    ensures WithEpsilon(Center(i), Epsilon(i)) == Ok(i)
  {
    var r := WithEpsilon(Center(i), Epsilon(i));
    assert r.Ok?;
    assert r.value.start == i.start && r.value.end == i.end;
  }

  /** `intersection`: the largest start and the smallest end, or `None`
      when they cross. */
  function Intersection(a: Interval, b: Interval): (r: Option<Interval>)
    ensures r.Some? <==> Valid(a) && Valid(b) && a.start <= b.end && b.start <= a.end
    ensures r.Some? ==> Valid(r.value)
    ensures forall x :: (r.Some? && Contains(r.value, x)) <==> Contains(a, x) && Contains(b, x)
  {
    var low := PartialMax(a.start, b.start);
    var high := PartialMin(a.end, b.end);
    if low > high then None else Some(Interval(low, high))
  }

  lemma {:induction false} IntersectionCommutes(a: Interval, b: Interval)
    ensures Intersection(a, b) == Intersection(b, a)
  {
    MinMaxSymmetric(a.start, b.start);
    MinMaxSymmetric(a.end, b.end);
  }

  // ---------------------------------------------------------------------
  // Equality and ordering against a scalar

  /** `PartialEq<T>::eq`: an interval equals every value it contains; this
      agrees with `partial_cmp` reporting `Equal`, as `PartialOrd` asks. */
  function EqScalar(i: Interval, value: real): (r: bool)
    ensures r <==> PartialCmp(i, value) == Some(Equal)
  {
    Contains(i, value)
  }

  /** `PartialOrd<T>::partial_cmp`: Greater when the value lies below the
      start, Less when above the end, Equal when contained. Over a total
      order the final `None` is never reached. */
  function PartialCmp(i: Interval, value: real): (r: Option<Ordering>)
    ensures r.Some?
    ensures r == Some(Greater) <==> value < i.start
    ensures r == Some(Equal) <==> Contains(i, value)
    ensures Valid(i) ==> (r == Some(Less) <==> i.end < value)
  {
    if value < i.start then Some(Greater)
    else if value > i.end then Some(Less)
    else if Contains(i, value) then Some(Equal)
    else None
  }

  // ---------------------------------------------------------------------
  // Arithmetic

  /** `Add`: sums of matching bounds. */
  function Add(a: Interval, b: Interval): (r: Interval)
    ensures Valid(a) && Valid(b) ==> Valid(r)
    ensures forall x, y :: Contains(a, x) && Contains(b, y) ==> Contains(r, x + y)
  {
    Interval(a.start + b.start, a.end + b.end)
  }

  /** Every value of the sum is a sum of values of the operands, so the sum
      encloses exactly the sums. */
  lemma AddIsTight(a: Interval, b: Interval, z: real)
    requires Valid(a) && Valid(b) && Contains(Add(a, b), z)
    ensures exists x, y :: Contains(a, x) && Contains(b, y) && z == x + y
  {
    var x := if z - b.end >= a.start then z - b.end else a.start;
    assert Contains(a, x) && Contains(b, z - x);
  }

  /** `Sub`: differences of MATCHING bounds, `start - start` and
      `end - end`. The result is valid exactly when the subtrahend is no
      wider than the minuend. */
  function Sub(a: Interval, b: Interval): (r: Interval)
    ensures Add(r, b) == a
    ensures Width(r) == Width(a) - Width(b)
    ensures Valid(a) && Valid(b) ==> (Valid(r) <==> Width(b) <= Width(a))
  {
    Interval(a.start - b.start, a.end - b.end)
  }

  /** Sub undoes Add bound by bound. */
  lemma SubUndoesAdd(a: Interval, b: Interval)
    ensures Sub(Add(a, b), b) == a
  {
  }

  /** The matching-bounds rule is not an enclosure of differences:
      `[3,4] - [1,2] = [2,2]`, yet `4 - 1 = 3` is a difference of members. */
  lemma SubMissesDifferences()
    ensures Sub(Interval(3.0, 4.0), Interval(1.0, 2.0)) == Interval(2.0, 2.0)
    ensures Contains(Interval(3.0, 4.0), 4.0) && Contains(Interval(1.0, 2.0), 1.0)
    ensures !Contains(Sub(Interval(3.0, 4.0), Interval(1.0, 2.0)), 4.0 - 1.0)
  {
  }

  /** `Neg`: negates and swaps the bounds. */
  function Neg(a: Interval): (r: Interval)
    ensures Valid(a) <==> Valid(r)
    ensures forall x :: Contains(a, x) <==> Contains(r, -x)
  {
    Interval(-a.end, -a.start)
  }

  lemma NegInvolution(a: Interval)
    ensures Neg(Neg(a)) == a
  {
  }

  /** The left fold of `partial_min` that `Mul` and `Div` run. */
  function FoldMin(acc: real, xs: seq<real>): (r: real)
    decreases |xs|
    ensures r == acc || r in xs
    ensures r <= acc && forall k :: 0 <= k < |xs| ==> r <= xs[k]
  {
    if xs == [] then acc else FoldMin(PartialMin(acc, xs[0]), xs[1..])
  }

  /** The left fold of `partial_max` that `Mul` and `Div` run. */
  function FoldMax(acc: real, xs: seq<real>): (r: real)
    decreases |xs|
    ensures r == acc || r in xs
    ensures r >= acc && forall k :: 0 <= k < |xs| ==> xs[k] <= r
  {
    if xs == [] then acc else FoldMax(PartialMax(acc, xs[0]), xs[1..])
  }

  /** The four corner products, in the order `a*c, a*d, b*c, b*d`. */
  function Products(x: Interval, y: Interval): seq<real> {
    CornerProducts(x.start, x.end, y.start, y.end)
  }

  /** The four corner quotients, in the order `a/c, a/d, b/c, b/d`. */
  function Quotients(x: Interval, y: Interval): seq<real>
    requires y.start != 0.0 && y.end != 0.0
  {
    CornerQuotients(x.start, x.end, y.start, y.end)
  }

  /** The fold both `Mul` and `Div` run over their four corners: the
      first corner is the initial accumulator, `partial_min` (resp.
      `partial_max`) is folded over the other three. */
  function CornerHull(corners: seq<real>): (r: Interval)
    requires |corners| == 4
    ensures IsLeast(r.start, corners) && IsGreatest(r.end, corners)
    ensures Valid(r)
  {
    var lo := FoldMin(corners[0], corners[1..]);
    var hi := FoldMax(corners[0], corners[1..]);
    assert forall k :: 1 <= k < 4 ==> corners[k] == corners[1..][k - 1];
    assert lo in corners[1..] ==> lo in corners;
    assert hi in corners[1..] ==> hi in corners;
    Interval(lo, hi)
  }

  /** `Mul`: the smallest and the largest of the four corner products. */
  function Mul(x: Interval, y: Interval): (r: Interval)
    ensures IsLeast(r.start, Products(x, y)) && IsGreatest(r.end, Products(x, y))
    ensures Valid(r)
  {
    CornerHull(Products(x, y))
  }

  /** `Div`: the smallest and the largest of the four corner quotients. A
      divisor with a zero bound is not modelled. */
  function Div(x: Interval, y: Interval): (r: Interval)
    requires y.start != 0.0 && y.end != 0.0
    ensures IsLeast(r.start, Quotients(x, y)) && IsGreatest(r.end, Quotients(x, y))
    ensures Valid(r)
  {
    CornerHull(Quotients(x, y))
  }

  /** `Mul` encloses every product of members. */
  lemma MulEncloses(x: Interval, y: Interval, u: real, v: real)
    requires Contains(x, u) && Contains(y, v)
    ensures Contains(Mul(x, y), u * v)
  {
    var r := Mul(x, y);
    ProductInHull(x.start, x.end, y.start, y.end, u, v, r.start, r.end);
  }

  /** `Div` encloses every quotient of members when the divisor does not
      contain 0. */
  lemma DivEncloses(x: Interval, y: Interval, u: real, v: real)
    requires Valid(y) && !Contains(y, 0.0)
    requires Contains(x, u) && Contains(y, v)
    ensures y.start != 0.0 && y.end != 0.0
    ensures Contains(Div(x, y), u / v)
  {
    var r := Div(x, y);
    QuotientInHull(x.start, x.end, y.start, y.end, u, v, r.start, r.end);
  }

  lemma MulCommutes(x: Interval, y: Interval)
    ensures Mul(x, y) == Mul(y, x)
  {
    var p, q := Products(x, y), Products(y, x);
    assert p[0] == q[0] && p[1] == q[2] && p[2] == q[1] && p[3] == q[3];
    assert multiset(p) == multiset(q);
    ExtremaDetermined(Mul(x, y).start, p, Mul(y, x).start, q);
    ExtremaDetermined(Mul(x, y).end, p, Mul(y, x).end, q);
  }

  /** `zero()` and `one()` are the identities of `Add` and `Mul`. */
  lemma Identities(a: Interval)
    requires Valid(a)
    ensures Add(a, Zero()) == a
    ensures Mul(One(), a) == a
  {
    var ps := Products(One(), a);
    assert ps == [a.start, a.end, a.start, a.end];
  }

  // ---------------------------------------------------------------------
  // The sine approximation

  /** The upper end (exclusive) of the range `1..500_000` that `sin` folds
      over. */
  const SIN_TERMS: nat := 500_000

  /** The divisor `2*i*(2*i + 1)` of the `i`-th step, as the source computes
      it: `i` takes the default integer type `i32`, so the product wraps
      modulo 2^32 into the signed range. */
  function TermDivisorI32(i: int): (d: int)
    ensures -0x8000_0000 <= d < 0x8000_0000
    ensures (d - 2 * i * (2 * i + 1)) % 0x1_0000_0000 == 0
  {
    var m := (2 * i * (2 * i + 1)) % 0x1_0000_0000;
    if m < 0x8000_0000 then m else m - 0x1_0000_0000
  }

  /** The divisor as intended: the exact product, positive for every step. */
  function TermDivisor(i: int): (d: real)
    requires i >= 1
    ensures d >= 6.0
  {
    (2 * i * (2 * i + 1)) as real
  }

  /** The 32-bit divisor is right up to step 23170 ... */
  lemma TermDivisorI32Exact(i: int)
    requires 1 <= i <= 23170
    ensures TermDivisorI32(i) as real == TermDivisor(i)
  {
    var p := 2 * i * (2 * i + 1);
    ProductMonotone(2 * i, 2 * i + 1, 2 * 23170, 2 * 23170 + 1);
    assert 0 <= p < 0x8000_0000;
    assert p % 0x1_0000_0000 == p;
  }

  lemma ProductMonotone(a: int, b: int, c: int, d: int)
    requires 0 <= a <= c && 0 <= b <= d
    ensures a * b <= c * d
  {
    assert a * b <= c * b;
  }

  /** ... and wraps to a negative number at step 23171, well inside the
      range of steps. */
  lemma TermDivisorI32Overflows()
    ensures 23171 < SIN_TERMS
    ensures TermDivisor(23171) == 2147627306.0
    ensures TermDivisorI32(23171) == -2147339990
  {
  }

  /** `(lo..hi).fold(init, step)`: applies `step` to the accumulator and
      each of `lo, lo + 1, ..., hi - 1` in turn. */
  function FoldRange<A(!new)>(step: (A, int) --> A, init: A, lo: int, hi: int): (r: A)
    requires forall acc, k :: lo <= k < hi ==> step.requires(acc, k)
    decreases hi - lo
    ensures lo >= hi ==> r == init
    ensures lo < hi ==> r == step(FoldRange(step, init, lo, hi - 1), hi - 1)
  {
    if lo >= hi then init else FoldRange(step, step(init, lo), lo + 1, hi)
  }

  /** The loop `fold` runs, proved to compute `FoldRange`. */
  method FoldRangeLoop<A(!new)>(step: (A, int) --> A, init: A, lo: int, hi: int) returns (acc: A)
    requires forall acc, k :: lo <= k < hi ==> step.requires(acc, k)
    ensures acc == FoldRange(step, init, lo, hi)
  {
    acc := init;
    var i := lo;
    while i < hi
      invariant lo <= i && (i <= hi || i == lo)
      invariant FoldRange(step, acc, i, hi) == FoldRange(step, init, lo, hi)
      decreases hi - i
    {
      acc := step(acc, i);
      i := i + 1;
    }
  }

  /** One step of the recurrence of `sin`: the factor `x2 / exact(d)`
      with the divisor `d = 2i(2i+1)`, then `acc*factor + acc` on even steps
      and `acc*factor - acc` on odd ones. The divisor is the exact
      `TermDivisor`, not the 32-bit `TermDivisorI32` the source computes,
      which wraps from step 23171 on. An even step keeps the accumulator
      valid. */
  function SinStep(acc: Interval, x2: Interval, i: int): (r: Interval)
    requires i >= 1
    ensures i % 2 == 0 && Valid(acc) ==> Valid(r)
  {
    var scaled := Mul(acc, Div(x2, Exact(TermDivisor(i))));
    if i % 2 == 0 then Add(scaled, acc) else Sub(scaled, acc)
  }

  /** The exact value of an even step at a member `u` of the accumulator
      and a factor `f`. */
  function EvenTerm(u: real, f: real): real {
    u * f + u
  }

  /** `acc*factor + acc` encloses `u*f + u` for `u` in `acc` and `f` in
      `factor`. */
  lemma ScaleAddEncloses(acc: Interval, factor: Interval, r: Interval, u: real, f: real)
    requires r == Add(Mul(acc, factor), acc)
    requires Contains(acc, u) && Contains(factor, f)
    ensures Contains(r, EvenTerm(u, f))
  {
    MulEncloses(acc, factor, u, f);
  }

  /** An even step encloses the exact recurrence `u * (w / d) + u` for
      every `u` in the accumulator and `w` in `x2`. */
  lemma SinStepEvenEncloses(acc: Interval, x2: Interval, i: int, u: real, w: real)
    requires i >= 1 && i % 2 == 0
    requires Contains(acc, u) && Contains(x2, w)
    ensures Contains(SinStep(acc, x2, i), EvenTerm(u, w / TermDivisor(i)))
  {
    var d := TermDivisor(i);
    var factor := Div(x2, Exact(d));
    assert Contains(factor, w / d) by {
      DivEncloses(x2, Exact(d), w, d);
    }
    ScaleAddEncloses(acc, factor, SinStep(acc, x2, i), u, w / d);
  }

  /** The closure `sin` passes to `fold`, capturing `x2`, with the divisor
      of `SinStep`; it is defined at every step from 1 on. */
  function SinClosure(x2: Interval): (step: (Interval, int) --> Interval)
    ensures forall acc, k :: 1 <= k ==> step.requires(acc, k)
  {
    (acc: Interval, i: int) requires i >= 1 => SinStep(acc, x2, i)
  }

  /** `f.max(-1).min(1)`: the nearest point of `[-1, 1]`. */
  function Clamp(v: real): (c: real)
    ensures -1.0 <= c <= 1.0
    ensures -1.0 <= v <= 1.0 ==> c == v
    ensures v < -1.0 ==> c == -1.0
    ensures v > 1.0 ==> c == 1.0
  {
    PartialMin(PartialMax(v, -1.0), 1.0)
  }

  lemma ClampMonotone(u: real, v: real)
    requires u <= v
    ensures Clamp(u) <= Clamp(v)
  {
  }

  /** `sin`: folds the closure over `1..500_000` starting from `x`, then
      clamps both bounds of the accumulator into `[-1, 1]` in place. */
  method Sin(x: Interval) returns (ret: Interval)
    ensures -1.0 <= ret.start <= 1.0 && -1.0 <= ret.end <= 1.0
    ensures var acc := FoldRange(SinClosure(Mul(x, x)), x, 1, SIN_TERMS);
            ret == Interval(Clamp(acc.start), Clamp(acc.end)) && (Valid(acc) ==> Valid(ret))
  {
    var x2 := Mul(x, x);
    ret := FoldRangeLoop(SinClosure(x2), x, 1, SIN_TERMS);
    if Valid(ret) {
      ClampMonotone(ret.start, ret.end);
    }
    ret := ret.(start := Clamp(ret.start));
    ret := ret.(end := Clamp(ret.end));
  }

  // ---------------------------------------------------------------------
  // The examples of the source's documentation and tests

  lemma InspectionExamples()
    ensures WithRange(2.0, 1.0) == Err(InvalidRange)
    ensures var a := Interval(1.0, 2.0);
            && Contains(a, 1.5) && !Contains(a, 2.1)
            && EqScalar(a, 1.5) && !EqScalar(a, 2.1)
            && Width(a) == 1.0 && Center(a) == 1.5 && Epsilon(a) == 0.5
  {
  }

  lemma OrderingExamples()
    ensures var a := Interval(1.0, 2.0);
            && PartialCmp(a, 0.0) == Some(Greater)
            && PartialCmp(a, 3.0) == Some(Less)
            && PartialCmp(a, 1.5) == Some(Equal)
  {
  }

  lemma IntersectionExamples()
    ensures Intersection(Interval(1.0, 2.0), Interval(1.5, 2.5)) == Some(Interval(1.5, 2.0))
    ensures Intersection(Interval(1.0, 2.0), Interval(3.0, 4.0)) == None
  {
  }

  lemma ArithmeticExamples()
    ensures Add(Interval(1.0, 2.0), Interval(3.0, 4.0)) == Interval(4.0, 6.0)
    ensures Sub(Interval(3.0, 4.0), Interval(1.0, 2.0)) == Interval(2.0, 2.0)
    ensures Mul(Interval(1.0, 2.0), Interval(3.0, 4.0)) == Interval(3.0, 8.0)
    ensures Div(Interval(3.0, 4.0), Interval(1.0, 2.0)) == Interval(1.5, 4.0)
    ensures Neg(Interval(1.0, 2.0)) == Interval(-2.0, -1.0)
  {
    var p := Products(Interval(1.0, 2.0), Interval(3.0, 4.0));
    assert p == [3.0, 4.0, 6.0, 8.0];
    var q := Quotients(Interval(3.0, 4.0), Interval(1.0, 2.0));
    assert q == [3.0, 1.5, 4.0, 2.0];
  }
}
