/**
 JavaScript strings as sequences of UTF-16 code units, with the ordering that
 `Array.prototype.sort` uses on strings and the decimal form of an integer.
 */
module Texts {
  import Sorting

  /** One UTF-16 code unit. */
  type Unit = u: int | 0 <= u < 0x10000

  type Text = seq<Unit>

  /** The code units of a literal from the Basic Multilingual Plane. */
  function Ascii(s: string): (t: Text)
    ensures |t| == |s|
  {
    seq(|s|, i requires 0 <= i < |s| => if s[i] as int < 0x10000 then s[i] as int else 0xFFFD)
  }

  ghost predicate Distinct<T>(s: seq<T>) {
    forall i, j :: 0 <= i < j < |s| ==> s[i] != s[j]
  }

  ghost predicate SameElements<T(!new)>(s: seq<T>, t: seq<T>) {
    forall x :: x in s <==> x in t
  }

  lemma {:induction false} Regroup<T>(a: seq<T>, b: seq<T>, c: seq<T>)
    ensures a + b + c == a + (b + c)
  {
  }

  lemma {:induction false} SamePrefix<T>(a: seq<T>, b: seq<T>, c: seq<T>)
    requires a + b == a + c
    ensures b == c
  {
    assert b == (a + b)[|a|..] && c == (a + c)[|a|..];
  }

  lemma {:induction false} DistinctCons<T>(x: T, s: seq<T>)
    ensures Distinct([x] + s) <==> x !in s && Distinct(s)
  {
    var t := [x] + s;
    assert forall i :: 0 <= i < |s| ==> t[i + 1] == s[i];
    if Distinct(t) {
      forall i | 0 <= i < |s| ensures s[i] != x { assert t[0] != t[i + 1]; }
      forall i, j | 0 <= i < j < |s| ensures s[i] != s[j] { assert t[i + 1] != t[j + 1]; }
    }
  }

  // ----- Code-unit order -----

  /** Lexicographic order on code units, the order of `sort()` on strings. */
  predicate Less(a: Text, b: Text) {
    b != [] && (a == [] || a[0] < b[0] || (a[0] == b[0] && Less(a[1..], b[1..])))
  }

  lemma {:induction false} LessIrreflexive(a: Text)
    ensures !Less(a, a)
  {
    if a == [] {
    } else {
      LessIrreflexive(a[1..]);
    }
  }

  lemma {:induction false} LessTransitive(a: Text, b: Text, c: Text)
    requires Less(a, b) && Less(b, c)
    ensures Less(a, c)
  {
    if a == [] || a[0] < b[0] || b[0] < c[0] {
    } else {
      LessTransitive(a[1..], b[1..], c[1..]);
    }
  }

  lemma {:induction false} LessTotal(a: Text, b: Text)
    ensures Less(a, b) || a == b || Less(b, a)
  {
    if a == [] || b == [] || a[0] != b[0] {
    } else {
      LessTotal(a[1..], b[1..]);
      assert a == [a[0]] + a[1..] && b == [b[0]] + b[1..];
    }
  }

  /** Up to k the texts are the same, and there b goes on, and with another unit if a does. */
  ghost predicate FirstDifference(a: Text, b: Text, k: nat) {
    k <= |a| && k < |b| && a[..k] == b[..k] && (k < |a| ==> a[k] != b[k])
  }

  lemma {:induction false} DifferenceCons(a: Text, b: Text, k: nat)
    requires a != [] && b != [] && a[0] == b[0]
    ensures FirstDifference(a, b, k + 1) <==> FirstDifference(a[1..], b[1..], k)
  {
    if k + 1 <= |a| && k + 1 <= |b| {
      assert a[..k + 1] == [a[0]] + a[1..][..k] && b[..k + 1] == [b[0]] + b[1..][..k];
      if a[..k + 1] == b[..k + 1] { assert a[1..][..k] == a[..k + 1][1..] && b[1..][..k] == b[..k + 1][1..]; }
    }
  }

  /** The first difference decides: the smaller code unit, or the text that ends there. */
  lemma {:induction false} LessMeaning(a: Text, b: Text)
    ensures Less(a, b) <==> exists k: nat :: FirstDifference(a, b, k) && (k == |a| || a[k] < b[k])
  {
    if a == [] || b == [] {
      if b != [] { assert FirstDifference(a, b, 0); }
    } else if a[0] != b[0] {
      assert FirstDifference(a, b, 0);
      assert forall k: nat :: FirstDifference(a, b, k) ==> k == 0;
    } else {
      LessMeaning(a[1..], b[1..]);
      forall k: nat ensures FirstDifference(a, b, k + 1) <==> FirstDifference(a[1..], b[1..], k) {
        DifferenceCons(a, b, k);
      }
      if k: nat :| FirstDifference(a[1..], b[1..], k) && (k == |a[1..]| || a[1..][k] < b[1..][k]) {
        assert FirstDifference(a, b, k + 1);
      }
      if k: nat :| FirstDifference(a, b, k) && (k == |a| || a[k] < b[k]) {
        assert k > 0 && FirstDifference(a, b, k - 1 + 1);
      }
    }
  }

  // ----- Sorting -----

  ghost predicate Ascending(s: seq<Text>) {
    forall i, j :: 0 <= i < j < |s| ==> Less(s[i], s[j])
  }

  function Sort(s: seq<Text>): seq<Text> {
    Sorting.Sort(Less, s)
  }

  lemma {:induction false} SortElements(s: seq<Text>)
    ensures forall y :: y in Sort(s) <==> y in s
  {
    Sorting.SortElements(Less, s);
  }

  lemma {:induction false} SortAscending(s: seq<Text>)
    requires Distinct(s)
    ensures Ascending(Sort(s))
  {
    forall x, y, z | Less(x, y) && Less(y, z) ensures Less(x, z) { LessTransitive(x, y, z); }
    forall i, j | 0 <= i < j < |s| ensures Less(s[i], s[j]) || Less(s[j], s[i]) { LessTotal(s[i], s[j]); }
    Sorting.SortSorted(Less, s);
  }

  lemma {:induction false} AscendingDistinct(s: seq<Text>)
    requires Ascending(s)
    ensures Distinct(s)
  {
    forall i, j | 0 <= i < j < |s| ensures s[i] != s[j] {
      LessIrreflexive(s[i]);
    }
  }

  lemma {:induction false} AscendingHeadsAgree(s: seq<Text>, t: seq<Text>)
    requires Ascending(s) && Ascending(t) && SameElements(s, t)
    requires s != [] && t != []
    ensures !Less(s[0], t[0])
  {
    if Less(s[0], t[0]) {
      assert s[0] in t;
      var j :| 0 <= j < |t| && t[j] == s[0];
      LessIrreflexive(t[0]);
      if j > 0 {
        LessTransitive(s[0], t[0], t[j]);
      }
      LessIrreflexive(s[0]);
      assert false;
    }
  }

  /** An ascending list is determined by its elements. */
  lemma {:induction false} AscendingUnique(s: seq<Text>, t: seq<Text>)
    requires Ascending(s) && Ascending(t) && SameElements(s, t)
    ensures s == t
  {
    assert s != [] ==> s[0] in t;
    assert t != [] ==> t[0] in s;
    if s == [] || t == [] {
    } else {
      AscendingHeadsAgree(s, t);
      AscendingHeadsAgree(t, s);
      LessTotal(s[0], t[0]);
      AscendingDistinct(s);
      AscendingDistinct(t);
      forall x ensures x in s[1..] <==> x in t[1..] {
        assert x in s <==> x in t;
        assert x in s <==> x == s[0] || x in s[1..];
        assert x in t <==> x == t[0] || x in t[1..];
      }
      AscendingUnique(s[1..], t[1..]);
    }
  }

  /** Sorting forgets the order its input came in. */
  lemma {:induction false} SortCanonical(s: seq<Text>, t: seq<Text>)
    requires Distinct(s) && Distinct(t) && SameElements(s, t)
    ensures Sort(s) == Sort(t)
  {
    SortAscending(s);
    SortAscending(t);
    SortElements(s);
    SortElements(t);
    AscendingUnique(Sort(s), Sort(t));
  }

  // ----- Decimal integers -----

  predicate IsDigit(u: Unit) { 48 <= u <= 57 }

  function Decimal(n: nat): (t: Text)
    ensures t != [] && forall i :: 0 <= i < |t| ==> IsDigit(t[i])
  {
    if n < 10 then [48 + n] else Decimal(n / 10) + [48 + n % 10]
  }

  lemma {:induction false} DecimalInjective(m: nat, n: nat)
    requires Decimal(m) == Decimal(n)
    ensures m == n
  {
    var a, b := Decimal(m), Decimal(n);
    assert a[|a| - 1] == 48 + m % 10 && b[|b| - 1] == 48 + n % 10;
    assert (m >= 10 <==> |a| > 1) && (n >= 10 <==> |b| > 1);
    if m < 10 {
    } else {
      assert a[..|a| - 1] == Decimal(m / 10) && b[..|b| - 1] == Decimal(n / 10);
      DecimalInjective(m / 10, n / 10);
    }
  }

  /** An integer in decimal, with a leading minus sign when negative. */
  function Integer(n: int): (t: Text)
    ensures t != []
  {
    if n < 0 then [45] + Decimal(-n) else Decimal(n)
  }

  lemma {:induction false} IntegerInjective(m: int, n: int)
    requires Integer(m) == Integer(n)
    ensures m == n
  {
    var a, b := Integer(m), Integer(n);
    assert (m < 0 <==> !IsDigit(a[0])) && (n < 0 <==> !IsDigit(b[0]));
    if m < 0 {
      assert a[1..] == Decimal(-m) && b[1..] == Decimal(-n);
      DecimalInjective(-m, -n);
    } else {
      DecimalInjective(m, n);
    }
  }
}
