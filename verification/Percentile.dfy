/** Nearest-rank percentiles of a latency sample, in exact arithmetic. */
module Percentile {
  import Sorting

  predicate NotAbove(x: real, y: real) { x <= y }

  /** The sample in ascending order. */
  function Sort(xs: seq<real>): seq<real> {
    Sorting.Sort(NotAbove, xs)
  }

  predicate Ascending(xs: seq<real>) {
    forall i, j :: 0 <= i <= j < |xs| ==> xs[i] <= xs[j]
  }

  function Ceil(x: real): int {
    -(-x).Floor
  }

  /** Position of percentile p in a sorted sample of n: ceil(p / 100 * n), from one, clamped to 1 .. n. */
  function Index(n: nat, p: real): (k: nat)
    requires n > 0
    ensures k < n
  {
    var rank := Ceil(p / 100.0 * n as real);
    (if rank < 1 then 1 else if rank > n then n else rank) - 1
  }

  function Percentile(sorted: seq<real>, p: real): real {
    if sorted == [] then 0.0 else sorted[Index(|sorted|, p)]
  }

  /** What the summary reports for a sample in any order. */
  function OfSample(latencies: seq<real>, p: real): real {
    Percentile(Sort(latencies), p)
  }

  // ----- Sorting -----

  function Insert(x: real, xs: seq<real>): seq<real> {
    Sorting.Insert(NotAbove, x, xs)
  }

  lemma {:induction false} SortMeaning(xs: seq<real>)
    ensures Ascending(Sort(xs)) && |Sort(xs)| == |xs|
    ensures forall y :: y in Sort(xs) <==> y in xs
  {
    Sorting.SortSorted(NotAbove, xs);
    Sorting.SortElements(NotAbove, xs);
  }

  lemma {:induction false} InsertCommutes(x: real, y: real, xs: seq<real>)
    ensures Insert(x, Insert(y, xs)) == Insert(y, Insert(x, xs))
  {
    if xs != [] && x > xs[0] && y > xs[0] {
      InsertCommutes(x, y, xs[1..]);
      assert ([xs[0]] + Insert(y, xs[1..]))[1..] == Insert(y, xs[1..]);
      assert ([xs[0]] + Insert(x, xs[1..]))[1..] == Insert(x, xs[1..]);
    } else {
      assert ([x] + xs)[1..] == xs && ([y] + xs)[1..] == xs;
    }
  }

  /** Any element may be the one inserted last. */
  lemma {:induction false} SortPulls(xs: seq<real>, i: nat)
    requires i < |xs|
    ensures Sort(xs) == Insert(xs[i], Sort(xs[..i] + xs[i + 1..]))
  {
    var rest := xs[..i] + xs[i + 1..];
    if i == 0 {
      assert rest == xs[1..];
    } else {
      SortPulls(xs[1..], i - 1);
      assert xs[1..][..i - 1] + xs[1..][i..] == rest[1..];
      InsertCommutes(xs[0], xs[i], Sort(rest[1..]));
    }
  }

  lemma {:induction false} Pulled(xs: seq<real>, i: nat)
    requires i < |xs|
    ensures multiset(xs[..i] + xs[i + 1..]) == multiset(xs) - multiset{xs[i]}
  {
    assert xs == xs[..i] + [xs[i]] + xs[i + 1..];
  }

  /** Without one occurrence each, permuted samples are permuted still. */
  lemma {:induction false} PermutedRest(xs: seq<real>, ys: seq<real>, i: nat)
    requires xs != [] && multiset(xs) == multiset(ys) && i < |ys| && ys[i] == xs[0]
    ensures multiset(xs[1..]) == multiset(ys[..i] + ys[i + 1..])
  {
    Pulled(xs, 0);
    Pulled(ys, i);
    assert xs[..0] + xs[1..] == xs[1..];
  }

  lemma {:induction false} SortPermuted(xs: seq<real>, ys: seq<real>)
    requires multiset(xs) == multiset(ys)
    ensures Sort(xs) == Sort(ys)
    decreases |xs|
  {
    if xs == [] {
      assert forall y :: y in ys ==> y in multiset(xs);
      assert ys == [];
    } else {
      assert xs[0] in multiset(ys);
      var i :| 0 <= i < |ys| && ys[i] == xs[0];
      PermutedRest(xs, ys, i);
      SortPermuted(xs[1..], ys[..i] + ys[i + 1..]);
      SortPulls(ys, i);
    }
  }

  /** The order in which requests complete does not matter. */
  lemma {:induction false} OrderIndependent(xs: seq<real>, ys: seq<real>, p: real)
    requires multiset(xs) == multiset(ys)
    ensures OfSample(xs, p) == OfSample(ys, p)
  {
    SortPermuted(xs, ys);
  }

  // ----- Meaning -----

  /** How many samples are at or below v. */
  ghost function AtMost(xs: seq<real>, v: real): nat {
    if xs == [] then 0 else (if xs[|xs| - 1] <= v then 1 else 0) + AtMost(xs[..|xs| - 1], v)
  }

  /** k is at least p percent of n. */
  ghost predicate Share(k: nat, n: nat, p: real) {
    100.0 * k as real >= p * n as real
  }

  /** At least p percent of the samples are at or below v. */
  ghost predicate Covers(xs: seq<real>, v: real, p: real) {
    Share(AtMost(xs, v), |xs|, p)
  }

  lemma {:induction false} AtMostBounds(xs: seq<real>, v: real, k: nat)
    requires k <= |xs|
    requires forall i :: 0 <= i < k ==> xs[i] <= v
    ensures k <= AtMost(xs, v) <= |xs|
  {
    if xs == [] {
    } else {
      AtMostBounds(xs[..|xs| - 1], v, if k == |xs| then k - 1 else k);
    }
  }

  lemma {:induction false} AtMostBelow(xs: seq<real>, v: real, k: nat)
    requires k <= |xs|
    requires forall i :: k <= i < |xs| ==> v < xs[i]
    ensures AtMost(xs, v) <= k
  {
    if k < |xs| {
      AtMostBelow(xs[..|xs| - 1], v, k);
    } else {
      AtMostBounds(xs, v, 0);
    }
  }

  lemma {:induction false} AtMostInsert(x: real, xs: seq<real>, v: real)
    ensures AtMost([x] + xs, v) == (if x <= v then 1 else 0) + AtMost(xs, v)
  {
    var ys := [x] + xs;
    if xs == [] {
      assert ys[..0] == [];
    } else {
      assert ys[..|ys| - 1] == [x] + xs[..|xs| - 1];
      AtMostInsert(x, xs[..|xs| - 1], v);
    }
  }

  /** Counting does not change under sorting. */
  lemma {:induction false} AtMostIsCount(xs: seq<real>, v: real)
    ensures AtMost(xs, v) == AtMost(Sort(xs), v)
  {
    if xs == [] {
    } else {
      AtMostIsCount(xs[1..], v);
      assert xs == [xs[0]] + xs[1..];
      AtMostInsert(xs[0], xs[1..], v);
      InsertCounts(xs[0], Sort(xs[1..]), v);
    }
  }

  lemma {:induction false} InsertCounts(x: real, xs: seq<real>, v: real)
    ensures AtMost(Insert(x, xs), v) == (if x <= v then 1 else 0) + AtMost(xs, v)
  {
    if xs == [] || x <= xs[0] {
      AtMostInsert(x, xs, v);
    } else {
      InsertCounts(x, xs[1..], v);
      assert xs == [xs[0]] + xs[1..];
      AtMostInsert(xs[0], xs[1..], v);
      AtMostInsert(xs[0], Insert(x, xs[1..]), v);
    }
  }

  lemma {:induction false} IndexMeaning(n: nat, p: real)
    requires n > 0 && 0.0 < p <= 100.0
    ensures 100.0 * (Index(n, p) + 1) as real >= p * n as real
    ensures 100.0 * Index(n, p) as real < p * n as real
  {
    var x := p / 100.0 * n as real;
    assert x == p * n as real / 100.0;
    assert 0.0 < x <= n as real by {
      assert p * n as real <= 100.0 * n as real;
    }
  }

  lemma {:induction false} SortedMeaning(sorted: seq<real>, p: real)
    requires sorted != [] && Ascending(sorted) && 0.0 < p <= 100.0
    ensures Covers(sorted, Percentile(sorted, p), p)
    ensures forall v :: v < Percentile(sorted, p) ==> !Covers(sorted, v, p)
  {
    var k := Index(|sorted|, p);
    IndexMeaning(|sorted|, p);
    AtMostBounds(sorted, sorted[k], k + 1);
    forall v | v < sorted[k] ensures !Covers(sorted, v, p) {
      AtMostBelow(sorted, v, k);
    }
  }

  lemma {:induction false} AtMostMonotone(xs: seq<real>, v: real, w: real)
    requires v <= w
    ensures AtMost(xs, v) <= AtMost(xs, w)
  {
    if xs == [] {
    } else {
      AtMostMonotone(xs[..|xs| - 1], v, w);
    }
  }

  lemma {:induction false} CoversUp(xs: seq<real>, v: real, w: real, p: real)
    requires v <= w && Covers(xs, v, p)
    ensures Covers(xs, w, p)
  {
    AtMostMonotone(xs, v, w);
  }

  lemma {:induction false} CoversSorted(xs: seq<real>, v: real, p: real)
    ensures Covers(xs, v, p) <==> Covers(Sort(xs), v, p)
  {
    AtMostIsCount(xs, v);
    SortMeaning(xs);
  }

  /**
   For 0 < p <= 100 and a non-empty sample in any order, the percentile is an
   observed value, and the least value at all with at least p percent of the
   samples at or below it.
   */
  lemma {:induction false} NearestRank(xs: seq<real>, p: real)
    requires xs != [] && 0.0 < p <= 100.0
    ensures OfSample(xs, p) in xs
    ensures forall v :: Covers(xs, v, p) <==> OfSample(xs, p) <= v
  {
    var sorted := Sort(xs);
    SortMeaning(xs);
    SortedMeaning(sorted, p);
    var r := Percentile(sorted, p);
    assert r in sorted;
    forall v ensures Covers(xs, v, p) <==> r <= v {
      CoversSorted(xs, v, p);
      if r <= v { CoversUp(sorted, r, v, p); }
    }
  }

  lemma {:induction false} IndexMonotone(n: nat, p: real, q: real)
    requires n > 0 && p <= q
    ensures Index(n, p) <= Index(n, q)
  {
    var x, y := p / 100.0, q / 100.0;
    assert x * n as real <= y * n as real;
  }

  /** Percentiles do not fall as p rises, for any p: below 0 they are the minimum, above 100 the maximum. */
  lemma {:induction false} MonotoneInP(xs: seq<real>, p: real, q: real)
    requires p <= q
    ensures OfSample(xs, p) <= OfSample(xs, q)
  {
    SortMeaning(xs);
    if Sort(xs) != [] { IndexMonotone(|Sort(xs)|, p, q); }
  }

  /** No sample gives zero, and outside its range p gives the least and the greatest value. */
  lemma {:induction false} AtTheEnds(latencies: seq<real>, p: real)
    ensures latencies == [] ==> OfSample(latencies, p) == 0.0
    ensures latencies != [] ==> OfSample(latencies, p) in latencies
    ensures latencies != [] && p <= 0.0 ==> forall x :: x in latencies ==> OfSample(latencies, p) <= x
    ensures latencies != [] && p >= 100.0 ==> forall x :: x in latencies ==> OfSample(latencies, p) >= x
  {
    SortMeaning(latencies);
    if latencies != [] {
      var sorted := Sort(latencies);
      IndexAtTheEnds(|sorted|, p);
      assert sorted[Index(|sorted|, p)] in sorted;
      forall x | x in latencies
        ensures (p <= 0.0 ==> sorted[0] <= x) && (p >= 100.0 ==> sorted[|sorted| - 1] >= x)
      {
        assert x in sorted;
        var i :| 0 <= i < |sorted| && sorted[i] == x;
      }
    }
  }

  lemma {:induction false} IndexAtTheEnds(n: nat, p: real)
    requires n > 0
    ensures p <= 0.0 ==> Index(n, p) == 0
    ensures p >= 100.0 ==> Index(n, p) == n - 1
  {
    var x := p / 100.0 * n as real;
    if p <= 0.0 { assert x <= 0.0; }
    if p >= 100.0 { assert p / 100.0 >= 1.0; assert x >= n as real; }
  }
}
