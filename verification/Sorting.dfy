/** Sorting by an order on the elements. */
module Sorting {
  /**
   x goes before the first element it may precede, so equal elements keep their
   order when `before` holds among them.
   */
  function Insert<T>(before: (T, T) -> bool, x: T, xs: seq<T>): seq<T> {
    if xs == [] || before(x, xs[0]) then [x] + xs else [xs[0]] + Insert(before, x, xs[1..])
  }

  function Sort<T>(before: (T, T) -> bool, xs: seq<T>): seq<T> {
    if xs == [] then [] else Insert(before, xs[0], Sort(before, xs[1..]))
  }

  predicate Sorted<T>(before: (T, T) -> bool, xs: seq<T>) {
    forall i, j :: 0 <= i < j < |xs| ==> before(xs[i], xs[j])
  }

  predicate AllAfter<T>(before: (T, T) -> bool, x: T, xs: seq<T>) {
    forall i :: 0 <= i < |xs| ==> before(x, xs[i])
  }

  ghost predicate Transitive<T(!new)>(before: (T, T) -> bool) {
    forall x, y, z :: before(x, y) && before(y, z) ==> before(x, z)
  }

  /** x can be placed relative to each of xs. */
  ghost predicate Comparable<T>(before: (T, T) -> bool, x: T, xs: seq<T>) {
    forall i :: 0 <= i < |xs| ==> before(x, xs[i]) || before(xs[i], x)
  }

  ghost predicate AllComparable<T>(before: (T, T) -> bool, xs: seq<T>) {
    forall i, j :: 0 <= i < j < |xs| ==> before(xs[i], xs[j]) || before(xs[j], xs[i])
  }

  lemma {:induction false} InsertCons<T>(before: (T, T) -> bool, x: T, y: T, ys: seq<T>)
    ensures Insert(before, x, [y] + ys) == if before(x, y) then [x] + ([y] + ys) else [y] + Insert(before, x, ys)
  {
    assert ([y] + ys)[1..] == ys;
  }

  lemma {:induction false} InsertElements<T(!new)>(before: (T, T) -> bool, x: T, xs: seq<T>)
    ensures |Insert(before, x, xs)| == |xs| + 1
    ensures forall y :: y in Insert(before, x, xs) <==> y == x || y in xs
  {
    if xs == [] || before(x, xs[0]) {
      assert Insert(before, x, xs) == [x] + xs;
    } else {
      InsertElements(before, x, xs[1..]);
      assert xs == [xs[0]] + xs[1..];
    }
  }

  lemma {:induction false} SortElements<T(!new)>(before: (T, T) -> bool, xs: seq<T>)
    ensures |Sort(before, xs)| == |xs|
    ensures forall y :: y in Sort(before, xs) <==> y in xs
  {
    if xs == [] {
      assert Sort(before, xs) == [];
    } else {
      SortElements(before, xs[1..]);
      InsertElements(before, xs[0], Sort(before, xs[1..]));
      assert xs == [xs[0]] + xs[1..];
    }
  }

  lemma {:induction false} InsertAfter<T>(before: (T, T) -> bool, first: T, x: T, xs: seq<T>)
    requires before(first, x) && AllAfter(before, first, xs)
    ensures AllAfter(before, first, Insert(before, x, xs))
  {
    if xs == [] || before(x, xs[0]) {
      assert Insert(before, x, xs) == [x] + xs;
    } else {
      InsertAfter(before, first, x, xs[1..]);
    }
  }

  lemma {:induction false} InsertSorted<T(!new)>(before: (T, T) -> bool, x: T, xs: seq<T>)
    requires Transitive(before) && Comparable(before, x, xs) && Sorted(before, xs)
    ensures Sorted(before, Insert(before, x, xs))
  {
    if xs == [] || before(x, xs[0]) {
      assert AllAfter(before, x, xs);
    } else {
      InsertSorted(before, x, xs[1..]);
      InsertAfter(before, xs[0], x, xs[1..]);
    }
  }

  lemma {:induction false} SortSorted<T(!new)>(before: (T, T) -> bool, xs: seq<T>)
    requires Transitive(before) && AllComparable(before, xs)
    ensures Sorted(before, Sort(before, xs))
  {
    if xs == [] {
      assert Sort(before, xs) == [];
    } else {
      var sorted := Sort(before, xs[1..]);
      SortSorted(before, xs[1..]);
      SortElements(before, xs[1..]);
      assert Comparable(before, xs[0], sorted) by {
        forall i | 0 <= i < |sorted| ensures before(xs[0], sorted[i]) || before(sorted[i], xs[0]) {
          assert sorted[i] in xs[1..];
        }
      }
      InsertSorted(before, xs[0], sorted);
    }
  }
}
