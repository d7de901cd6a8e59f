/** Minimum and maximum over a partial order (src/utils.rs), with the
    ordered type taken to be `real`, where the order is total. */
module Utils {

  /** `partial_min`: the first argument when it is no greater, else the second. */
  function PartialMin(a: real, b: real): (r: real)
    ensures r == a || r == b
    ensures r <= a && r <= b
    ensures a <= b ==> r == a
  {
    if a <= b then a else b
  }

  /** `partial_max`: the first argument when it is no smaller, else the second. */
  function PartialMax(a: real, b: real): (r: real)
    ensures r == a || r == b
    ensures r >= a && r >= b
    ensures a >= b ==> r == a
  {
    if a >= b then a else b
  }

  /** Together the two return exactly their arguments, ties included. */
  lemma MinMaxPartition(a: real, b: real)
    ensures multiset{PartialMin(a, b), PartialMax(a, b)} == multiset{a, b}
  {
    if a < b {
      assert PartialMin(a, b) == a && PartialMax(a, b) == b;
    } else if a > b {
      assert PartialMin(a, b) == b && PartialMax(a, b) == a;
      assert multiset{b, a} == multiset{a, b};
    }
  }

  /** Both are symmetric in their arguments over a total order. */
  lemma MinMaxSymmetric(a: real, b: real)
    ensures PartialMin(a, b) == PartialMin(b, a)
    ensures PartialMax(a, b) == PartialMax(b, a)
  {
  }

  /** `m` is the least element of `s`: one of them, and no greater than any. */
  predicate IsLeast(m: real, s: seq<real>) {
    m in s && forall k :: 0 <= k < |s| ==> m <= s[k]
  }

  /** `m` is the greatest element of `s`. */
  predicate IsGreatest(m: real, s: seq<real>) {
    m in s && forall k :: 0 <= k < |s| ==> s[k] <= m
  }

  /** The least and the greatest element depend only on the multiset of
      values, and each is unique. */
  lemma {:induction false} ExtremaDetermined(m1: real, s1: seq<real>, m2: real, s2: seq<real>)
    requires multiset(s1) == multiset(s2)
    ensures IsLeast(m1, s1) && IsLeast(m2, s2) ==> m1 == m2
    ensures IsGreatest(m1, s1) && IsGreatest(m2, s2) ==> m1 == m2
  {
    if IsLeast(m1, s1) && IsLeast(m2, s2) {
      assert m1 in multiset(s2) && m2 in multiset(s1);
      var i :| 0 <= i < |s1| && s1[i] == m2;
      var j :| 0 <= j < |s2| && s2[j] == m1;
    }
    if IsGreatest(m1, s1) && IsGreatest(m2, s2) {
      assert m1 in multiset(s2) && m2 in multiset(s1);
      var i :| 0 <= i < |s1| && s1[i] == m2;
      var j :| 0 <= j < |s2| && s2[j] == m1;
    }
  }
}
