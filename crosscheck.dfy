/** The two copies of the interval type agree: the sort-based `Mul` and
    `Div` of src/lib.rs give exactly the bounds of the fold-based `Mul` and
    `Div` of src/interval.rs. */
module CrossCheck {
  import opened Utils
  import Intervals
  import Inter

  /** The same bounds, seen as an interval of src/interval.rs. */
  function Lift(i: Inter.Interval): (r: Intervals.Interval)
    ensures Inter.Valid(i) <==> Intervals.Valid(r)
    ensures forall x :: Inter.Contains(i, x) <==> Intervals.Contains(r, x)
  {
    Intervals.Interval(i.start, i.end)
  }

  /** Sorting the corner products and folding `partial_min`/`partial_max`
      over them find the same bounds. */
  method MulAgrees(x: Inter.Interval, y: Inter.Interval) returns (r: Inter.Interval)
    ensures Lift(r) == Intervals.Mul(Lift(x), Lift(y))
  {
    r := Inter.Mul(x, y);
    var f := Intervals.Mul(Lift(x), Lift(y));
    var cs := Intervals.Products(Lift(x), Lift(y));
    ExtremaDetermined(r.start, cs, f.start, cs);
    ExtremaDetermined(r.end, cs, f.end, cs);
  }

  /** The same for the corner quotients. */
  method DivAgrees(x: Inter.Interval, y: Inter.Interval) returns (r: Inter.Interval)
    requires y.start != 0.0 && y.end != 0.0
    ensures Lift(r) == Intervals.Div(Lift(x), Lift(y))
  {
    r := Inter.Div(x, y);
    var f := Intervals.Div(Lift(x), Lift(y));
    var cs := Intervals.Quotients(Lift(x), Lift(y));
    ExtremaDetermined(r.start, cs, f.start, cs);
    ExtremaDetermined(r.end, cs, f.end, cs);
  }

  /** Both copies agree on the operations they define alike. */
  lemma CommonOperationsAgree(a: Inter.Interval, b: Inter.Interval, v: real)
    ensures Lift(Inter.Add(a, b)) == Intervals.Add(Lift(a), Lift(b))
    ensures Lift(Inter.Sub(a, b)) == Intervals.Sub(Lift(a), Lift(b))
    ensures Lift(Inter.Neg(a)) == Intervals.Neg(Lift(a))
    ensures Inter.Width(a) == Intervals.Width(Lift(a))
    ensures Inter.Center(a) == Intervals.Center(Lift(a))
    ensures Inter.PartialCmp(a, v) == Intervals.PartialCmp(Lift(a), v)
    ensures Inter.EqScalar(a, v) == Intervals.EqScalar(Lift(a), v)
  {
  }

  /** `[1,2] * [3,4] = [3,8]` and `[3,4] / [1,2] = [1.5,4]` by the fold
      of src/interval.rs as well. */
  lemma FoldExamples()
    ensures Intervals.Mul(Intervals.Interval(1.0, 2.0), Intervals.Interval(3.0, 4.0))
            == Intervals.Interval(3.0, 8.0)
    ensures Intervals.Div(Intervals.Interval(3.0, 4.0), Intervals.Interval(1.0, 2.0))
            == Intervals.Interval(1.5, 4.0)
  {
    var m := Intervals.Mul(Intervals.Interval(1.0, 2.0), Intervals.Interval(3.0, 4.0));
    var ps := Intervals.Products(Intervals.Interval(1.0, 2.0), Intervals.Interval(3.0, 4.0));
    assert ps[0] == 3.0 && ps[3] == 8.0;
    var d := Intervals.Div(Intervals.Interval(3.0, 4.0), Intervals.Interval(1.0, 2.0));
    var qs := Intervals.Quotients(Intervals.Interval(3.0, 4.0), Intervals.Interval(1.0, 2.0));
    assert qs[1] == 1.5 && qs[2] == 4.0;
  }
}
