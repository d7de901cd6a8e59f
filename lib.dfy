/** The interval type of src/lib.rs, a separate and simpler copy of the one
    in src/interval.rs: no directed rounding, no intersection, and `Mul` and
    `Div` sort the four corner values in place and take the first and the
    last of them instead of folding `partial_min`/`partial_max`. */
module Inter {
  import opened Prelude
  import opened Utils
  import opened RealBounds

  datatype Interval = Interval(start: real, end: real)

  /** The invariant of a properly constructed interval. */
  predicate Valid(i: Interval) {
    i.start <= i.end
  }

  /** The panic of `with_range`, with the bounds it refused. */
  datatype RangeError = InvalidRange(start: real, end: real)

  // ---------------------------------------------------------------------
  // Construction

  /** `with_range`: the interval with exactly these bounds, or the panic
      when `start > end`. */
  function WithRange(start: real, end: real): (r: Result<Interval, RangeError>)
    ensures r.Ok? <==> start <= end
    ensures r.Ok? ==> Valid(r.value) && r.value.start == start && r.value.end == end
    ensures r.Err? ==> r.error == InvalidRange(start, end)
  {
    if start <= end then Ok(Interval(start, end)) else Err(InvalidRange(start, end))
  }

  /** `with_epsilon`: the interval of half-width `epsilon` around `center`;
      a negative `epsilon` trips the check in `with_range`. */
  function WithEpsilon(center: real, epsilon: real): (r: Result<Interval, RangeError>)
    ensures r.Ok? <==> epsilon >= 0.0
    ensures r.Ok? ==> Center(r.value) == center && Width(r.value) == 2.0 * epsilon
  {
    WithRange(center - epsilon, center + epsilon)
  }

  // ---------------------------------------------------------------------
  // Inspection

  /** `contains`: inclusive at both ends. Only a valid interval contains
      anything, and a value outside a valid interval lies below its start
      or above its end. */
  predicate Contains(i: Interval, value: real): (b: bool)
    ensures b ==> Valid(i)
    ensures Valid(i) && !b ==> value < i.start || i.end < value
  {
    i.start <= value && value <= i.end
  }

  /** `width`: the distance between the bounds, never negative exactly
      when the interval is valid. */
  function Width(i: Interval): (w: real)
    ensures Valid(i) <==> w >= 0.0
    ensures i.start + w == i.end
  {
    i.end - i.start
  }

  /** `center`: the mean of the bounds, equally far from both and inside a
      valid interval. */
  function Center(i: Interval): (c: real)
    ensures c - i.start == i.end - c
    ensures Valid(i) ==> Contains(i, c)
  {
    (i.start + i.end) / 2.0
  }

  // ---------------------------------------------------------------------
  // Equality and ordering against a scalar

  /** `PartialEq<T>::eq`: an interval equals every value it contains, in
      agreement with `partial_cmp` reporting `Equal`. */
  function EqScalar(i: Interval, value: real): (r: bool)
    ensures r <==> PartialCmp(i, value) == Some(Equal)
  {
    Contains(i, value)
  }

  /** `PartialOrd<T>::partial_cmp`: Greater when the value lies below the
      start, Less when above the end, Equal when contained. Over a total
      order one of the three always applies, so `None` is never returned. */
  function PartialCmp(i: Interval, value: real): (r: Option<Ordering>)
    ensures r.Some?
    ensures r == Some(Greater) <==> value < i.start
    ensures r == Some(Less) <==> i.start <= value && i.end < value
    ensures r == Some(Equal) <==> Contains(i, value)
  {
    if value < i.start then Some(Greater)
    else if value > i.end then Some(Less)
    else if Contains(i, value) then Some(Equal)
    else None
  }

  // ---------------------------------------------------------------------
  // Arithmetic

  /** `Add`: sums of matching bounds, enclosing every sum of members. */
  function Add(a: Interval, b: Interval): (r: Interval)
    ensures Valid(a) && Valid(b) ==> Valid(r)
    ensures forall x, y :: Contains(a, x) && Contains(b, y) ==> Contains(r, x + y)
  {
    Interval(a.start + b.start, a.end + b.end)
  }

  /** `Sub`: differences of matching bounds; valid exactly when the
      subtrahend is no wider than the minuend. */
  function Sub(a: Interval, b: Interval): (r: Interval)
    ensures Add(r, b) == a
    ensures Width(r) == Width(a) - Width(b)
    ensures Valid(a) && Valid(b) ==> (Valid(r) <==> Width(b) <= Width(a))
  {
    Interval(a.start - b.start, a.end - b.end)
  }

  /** `Neg`: negates and swaps the bounds. */
  function Neg(a: Interval): (r: Interval)
    ensures Valid(a) <==> Valid(r)
    ensures forall x :: Contains(a, x) <==> Contains(r, -x)
  {
    Interval(-a.end, -a.start)
  }

  lemma NegInvolution(a: Interval)
    ensures Neg(Neg(a)) == a
  {
  }

  /** Sub undoes Add bound by bound. */
  lemma SubUndoesAdd(a: Interval, b: Interval)
    ensures Sub(Add(a, b), b) == a
  {
  }

  // ---------------------------------------------------------------------
  // Sorting, as `Mul` and `Div` do with `sort_by(partial_cmp)`

  predicate Sorted(s: seq<real>) {
    forall p, q :: 0 <= p < q < |s| ==> s[p] <= s[q]
  }

  /** Sorts `v` in place in ascending order, keeping its elements. */
  method Sort(v: array<real>)
    modifies v
    ensures Sorted(v[..])
    ensures multiset(v[..]) == multiset(old(v[..]))
  {
    var i := 0;
    while i < v.Length
      invariant 0 <= i <= v.Length
      invariant forall p, q :: 0 <= p < q < i ==> v[p] <= v[q]
      invariant multiset(v[..]) == multiset(old(v[..]))
    {
      var j := i;
      while j > 0 && v[j - 1] > v[j]
        invariant 0 <= j <= i
        invariant forall p, q :: 0 <= p < q <= i && p != j && q != j ==> v[p] <= v[q]
        invariant forall q :: j < q <= i ==> v[j] <= v[q]
        invariant multiset(v[..]) == multiset(old(v[..]))
      {
        v[j - 1], v[j] := v[j], v[j - 1];
        j := j - 1;
      }
      i := i + 1;
    }
  }

  /** The first element of a sorted permutation of `cs` is its least and
      the last its greatest. */
  lemma SortedExtremes(s: seq<real>, cs: seq<real>)
    requires Sorted(s) && multiset(s) == multiset(cs) && |s| > 0
    ensures IsLeast(s[0], cs) && IsGreatest(s[|s| - 1], cs)
  {
    assert s[0] in multiset(cs) && s[|s| - 1] in multiset(cs);
    forall k | 0 <= k < |cs|
      ensures s[0] <= cs[k] <= s[|s| - 1]
    {
      assert cs[k] in multiset(s);
      var j :| 0 <= j < |s| && s[j] == cs[k];
    }
  }

  /** Sorts a fresh four-element vector holding `corners` and returns its
      first and last elements as the bounds. */
  method SortedHull(corners: seq<real>) returns (r: Interval)
    requires |corners| == 4
    ensures IsLeast(r.start, corners) && IsGreatest(r.end, corners)
    ensures Valid(r)
  {
    var v := new real[4];
    v[0], v[1], v[2], v[3] := corners[0], corners[1], corners[2], corners[3];
    assert v[..] == corners;
    Sort(v);
    SortedExtremes(v[..], corners);
    r := Interval(v[0], v[3]);
  }

  /** `Mul`: the smallest and the largest of the four corner products. */
  method Mul(x: Interval, y: Interval) returns (r: Interval)
    ensures IsLeast(r.start, CornerProducts(x.start, x.end, y.start, y.end))
    ensures IsGreatest(r.end, CornerProducts(x.start, x.end, y.start, y.end))
    ensures Valid(r)
  {
    r := SortedHull(CornerProducts(x.start, x.end, y.start, y.end));
  }

  /** `Div`: the smallest and the largest of the four corner quotients. A
      divisor with a zero bound is not modelled. */
  method Div(x: Interval, y: Interval) returns (r: Interval)
    requires y.start != 0.0 && y.end != 0.0
    ensures IsLeast(r.start, CornerQuotients(x.start, x.end, y.start, y.end))
    ensures IsGreatest(r.end, CornerQuotients(x.start, x.end, y.start, y.end))
    ensures Valid(r)
  {
    r := SortedHull(CornerQuotients(x.start, x.end, y.start, y.end));
  }

  /** The bounds `Mul` promises enclose every product of members. */
  lemma MulEncloses(x: Interval, y: Interval, r: Interval, u: real, v: real)
    requires IsLeast(r.start, CornerProducts(x.start, x.end, y.start, y.end))
    requires IsGreatest(r.end, CornerProducts(x.start, x.end, y.start, y.end))
    requires Contains(x, u) && Contains(y, v)
    ensures Contains(r, u * v)
  {
    ProductInHull(x.start, x.end, y.start, y.end, u, v, r.start, r.end);
  }

  /** The bounds `Div` promises enclose every quotient of members when the
      divisor does not contain 0. */
  lemma DivEncloses(x: Interval, y: Interval, r: Interval, u: real, v: real)
    requires Valid(y) && !Contains(y, 0.0)
    requires IsLeast(r.start, CornerQuotients(x.start, x.end, y.start, y.end))
    requires IsGreatest(r.end, CornerQuotients(x.start, x.end, y.start, y.end))
    requires Contains(x, u) && Contains(y, v)
    ensures Contains(r, u / v)
  {
    QuotientInHull(x.start, x.end, y.start, y.end, u, v, r.start, r.end);
  }

  // ---------------------------------------------------------------------
  // The tests of the source

  lemma InspectionExamples()
    ensures WithRange(2.0, 1.0) == Err(InvalidRange(2.0, 1.0))
    ensures var a := Interval(1.0, 2.0);
            && Contains(a, 1.5) && !Contains(a, 2.1)
            && EqScalar(a, 1.5) && !EqScalar(a, 2.1)
            && Width(a) == 1.0 && Center(a) == 1.5
    ensures WithEpsilon(1.5, 0.5) == Ok(Interval(1.0, 2.0))
  {
  }

  lemma OrderingExamples()
    ensures var a := Interval(1.0, 2.0);
            && PartialCmp(a, 0.0) == Some(Greater)
            && PartialCmp(a, 3.0) == Some(Less)
            && PartialCmp(a, 1.5) == Some(Equal)
  {
  }

  lemma ArithmeticExamples()
    ensures Add(Interval(1.0, 2.0), Interval(3.0, 4.0)) == Interval(4.0, 6.0)
    ensures Sub(Interval(3.0, 4.0), Interval(1.0, 2.0)) == Interval(2.0, 2.0)
    ensures Neg(Interval(1.0, 2.0)) == Interval(-2.0, -1.0)
  {
  }

  method MulExample() returns (r: Interval)
    ensures r == Interval(3.0, 8.0)
  {
    r := Mul(Interval(1.0, 2.0), Interval(3.0, 4.0));
    var cs := CornerProducts(1.0, 2.0, 3.0, 4.0);
    assert cs[0] == 3.0 && cs[3] == 8.0;
  }

  method DivExample() returns (r: Interval)
    ensures r == Interval(1.5, 4.0)
  {
    r := Div(Interval(3.0, 4.0), Interval(1.0, 2.0));
    var cs := CornerQuotients(3.0, 4.0, 1.0, 2.0);
    assert cs[1] == 1.5 && cs[2] == 4.0;
  }
}
