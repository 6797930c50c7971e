/** Cardinalities of finite sets of integers. */
module Sets {
  lemma {:induction false} SubsetSmaller(a: set<int>, b: set<int>)
    requires a <= b
    ensures |a| <= |b|
  {
    assert b * a == a;
    assert |b| == |b - a| + |b * a|;
  }

  /** The integers lo <= x < hi. */
  ghost function Between(lo: int, hi: int): (r: set<int>)
    ensures forall x :: x in r <==> lo <= x < hi
    ensures |r| == if lo <= hi then hi - lo else 0
    decreases if lo <= hi then hi - lo else 0
  {
    if lo >= hi then {} else Between(lo, hi - 1) + {hi - 1}
  }

  lemma {:induction false} IntervalCardinality(s: set<int>, lo: int, hi: int)
    requires lo <= hi && forall x :: x in s ==> lo <= x < hi
    ensures |s| <= hi - lo
  {
    SubsetSmaller(s, Between(lo, hi));
  }
}
