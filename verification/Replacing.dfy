/**
 What the replacement loop makes of detected spans in any order, overlapping ones
 among them, and when a detection of the whole leaf hides the leaf.
 */
module Replacing {
  import Sorting
  import opened Texts
  import opened Spans
  import opened StreamProtector
  import opened StreamEquivalence
  import opened Rewriting

  // ----- The spans that are replaced -----

  /** The spans that do not start before a position, in the order given. */
  function Later(spans: seq<Span>, cursor: nat): seq<Span> {
    if spans == [] then []
    else (if spans[0].start >= cursor then [spans[0]] else []) + Later(spans[1..], cursor)
  }

  /** Span k starts first; of those that start together it is the first in the order given. */
  predicate IsFirst(spans: seq<Span>, k: nat) {
    k < |spans| && forall j :: 0 <= j < |spans| ==>
      spans[k].start <= spans[j].start && (spans[j].start == spans[k].start ==> k <= j)
  }

  function FirstIndex(spans: seq<Span>): (k: nat)
    requires spans != []
    ensures IsFirst(spans, k)
  {
    if |spans| == 1 then 0
    else
      var k := FirstIndex(spans[1..]);
      assert forall j :: 0 < j < |spans| ==> spans[j] == spans[1..][j - 1];
      if spans[0].start <= spans[1..][k].start then 0 else k + 1
  }

  function Removed(spans: seq<Span>, k: nat): seq<Span>
    requires k < |spans|
  {
    spans[..k] + spans[k + 1..]
  }

  lemma {:induction false} LaterSize(spans: seq<Span>, cursor: nat)
    ensures |Later(spans, cursor)| <= |spans|
    ensures forall s :: s in Later(spans, cursor) <==> s in spans && s.start >= cursor
  {
    if spans == [] {
    } else {
      LaterSize(spans[1..], cursor);
    }
  }

  /**
   Which spans get replaced: of those that do not start before the end of the last
   one, always the one that starts first, and of several the first given.
   */
  function Chosen(spans: seq<Span>, cursor: nat): seq<Span>
    decreases |spans|
  {
    LaterSize(spans, cursor);
    var rest := Later(spans, cursor);
    if rest == [] then []
    else
      var k := FirstIndex(rest);
      [rest[k]] + Chosen(Removed(rest, k), rest[k].end)
  }

  // ----- Sorting -----

  lemma {:induction false} InsertFront(x: Span, rest: seq<Span>)
    requires rest != [] ==> x.start <= rest[0].start
    ensures Sorting.Insert(StartsFirst, x, rest) == [x] + rest
  {
    assert rest != [] ==> StartsFirst(x, rest[0]);
  }

  /** Sorting puts the first span first and leaves the others sorted. */
  lemma {:induction false} SortFirst(spans: seq<Span>, k: nat)
    requires IsFirst(spans, k)
    ensures SortByStart(spans) == [spans[k]] + SortByStart(Removed(spans, k))
    decreases |spans|
  {
    var x, rest := spans[0], spans[1..];
    if k == 0 {
      Sorting.SortElements(StartsFirst, rest);
      assert SortByStart(rest) != [] ==> SortByStart(rest)[0] in rest;
      InsertFront(x, SortByStart(rest));
      assert Removed(spans, 0) == rest;
    } else {
      assert forall j :: 0 <= j < |rest| ==> rest[j] == spans[j + 1];
      SortFirst(rest, k - 1);
      var others := Removed(rest, k - 1);
      assert Removed(spans, k) == [x] + others && ([x] + others)[1..] == others;
      Sorting.InsertCons(StartsFirst, x, spans[k], SortByStart(others));
    }
  }

  lemma {:induction false} LaterCons(x: Span, rest: seq<Span>, cursor: nat)
    ensures Later([x] + rest, cursor) == if x.start >= cursor then [x] + Later(rest, cursor) else Later(rest, cursor)
  {
    assert ([x] + rest)[1..] == rest && [] + Later(rest, cursor) == Later(rest, cursor);
  }

  lemma {:induction false} LaterInserted(x: Span, rest: seq<Span>, cursor: nat)
    ensures Later(Sorting.Insert(StartsFirst, x, rest), cursor)
         == if x.start >= cursor then Sorting.Insert(StartsFirst, x, Later(rest, cursor)) else Later(rest, cursor)
  {
    if rest == [] {
      LaterCons(x, [], cursor);
      assert Sorting.Insert(StartsFirst, x, rest) == [x] + [];
    } else {
      var y, others := rest[0], rest[1..];
      assert rest == [y] + others;
      LaterCons(y, others, cursor);
      if StartsFirst(x, y) {
        LaterCons(x, rest, cursor);
        Sorting.InsertCons(StartsFirst, x, y, others);
        Sorting.InsertCons(StartsFirst, x, y, Later(others, cursor));
      } else {
        Sorting.InsertCons(StartsFirst, x, y, others);
        LaterInserted(x, others, cursor);
        LaterCons(y, Sorting.Insert(StartsFirst, x, others), cursor);
        Sorting.InsertCons(StartsFirst, x, y, Later(others, cursor));
      }
    }
  }

  lemma {:induction false} LaterSorted(spans: seq<Span>, cursor: nat)
    ensures Later(SortByStart(spans), cursor) == SortByStart(Later(spans, cursor))
  {
    if spans == [] {
      assert SortByStart(spans) == spans == Later(spans, cursor);
    } else {
      var x, rest := spans[0], spans[1..];
      assert spans == [x] + rest;
      LaterCons(x, rest, cursor);
      LaterSorted(rest, cursor);
      LaterInserted(x, SortByStart(rest), cursor);
      if x.start >= cursor { assert ([x] + Later(rest, cursor))[1..] == Later(rest, cursor); }
    }
  }

  // ----- The loop takes the chosen spans -----

  ghost predicate WellFormed(spans: seq<Span>) {
    forall s :: s in spans ==> s.start <= s.end
  }

  /** What starts before an earlier position does not matter. */
  lemma {:induction false} AcceptedLater(spans: seq<Span>, cursor: nat, end: nat)
    requires WellFormed(spans) && cursor <= end
    ensures Accepted(spans, end) == Accepted(Later(spans, cursor), end)
  {
    if spans == [] {
      assert Later(spans, cursor) == spans;
    } else {
      var x, rest := spans[0], spans[1..];
      assert spans == [x] + rest;
      LaterCons(x, rest, cursor);
      AcceptedLater(rest, cursor, if x.start < end then end else x.end);
      assert x.start >= cursor ==> ([x] + Later(rest, cursor))[1..] == Later(rest, cursor);
    }
  }

  lemma {:induction false} SortedWellFormed(spans: seq<Span>)
    requires WellFormed(spans)
    ensures WellFormed(SortByStart(spans))
  {
    Sorting.SortElements(StartsFirst, spans);
  }

  lemma {:induction false} ChosenIsAccepted(spans: seq<Span>, cursor: nat)
    requires WellFormed(spans)
    ensures Chosen(spans, cursor) == Accepted(SortByStart(spans), cursor)
    decreases |spans|
  {
    var rest := Later(spans, cursor);
    LaterSize(spans, cursor);
    SortedWellFormed(spans);
    AcceptedLater(SortByStart(spans), cursor, cursor);
    LaterSorted(spans, cursor);
    if rest == [] {
    } else {
      var k := FirstIndex(rest);
      var s, others := rest[k], Removed(rest, k);
      SortFirst(rest, k);
      assert s in rest && forall r :: r in others ==> r in rest;
      ChosenIsAccepted(others, s.end);
      assert ([s] + SortByStart(others))[1..] == SortByStart(others);
    }
  }

  lemma {:induction false} RewrittenAccepted(e: Engine, x: Text, spans: seq<Span>, cursor: nat)
    requires WellFormed(spans)
    ensures Rewritten(e, x, spans, cursor) == Rewritten(e, x, Accepted(spans, cursor), cursor)
    decreases |spans|
  {
    if spans == [] {
    } else {
      var s, rest := spans[0], spans[1..];
      assert spans == [s] + rest;
      RewrittenCons(e, x, s, rest, cursor);
      if s.start < cursor {
        RewrittenAccepted(e, x, rest, cursor);
      } else {
        RewrittenAccepted(e, x, rest, s.end);
        RewrittenCons(e, x, s, Accepted(rest, s.end), cursor);
      }
    }
  }

  /** What the spans that are replaced are: disjoint, in order, and so many that each other one starts under one. */
  lemma {:induction false} ChosenMeaning(spans: seq<Span>, n: nat)
    requires Within(spans, n)
    ensures var chosen := Chosen(spans, 0);
      && Within(chosen, n) && Disjoint(chosen) && (forall s :: s in chosen ==> s in spans)
      && forall d :: d in spans ==> d in chosen || exists a :: a in chosen && a.start <= d.start < a.end
  {
    var sorted := SortByStart(spans);
    assert WellFormed(spans);
    SortedWellFormed(spans);
    ChosenIsAccepted(spans, 0);
    Sorting.SortElements(StartsFirst, spans);
    assert forall i :: 0 <= i < |sorted| ==> sorted[i] in sorted;
    AcceptedDisjoint(sorted, 0);
    AcceptedElements(sorted, 0);
    Sorting.SortSorted(StartsFirst, spans);
    forall d | d in spans ensures d in Chosen(spans, 0) || UnderOne(Chosen(spans, 0), d) {
      AcceptedUnder(sorted, 0, d);
    }
    assert forall i :: 0 <= i < |Chosen(spans, 0)| ==> Chosen(spans, 0)[i] in Chosen(spans, 0);
  }

  ghost predicate UnderOne(spans: seq<Span>, d: Span) {
    exists a :: a in spans && a.start <= d.start < a.end
  }

  lemma {:induction false} AcceptedUnder(sorted: seq<Span>, lastEnd: int, d: Span)
    requires Sorting.Sorted(StartsFirst, sorted) && d in sorted && d.start >= lastEnd
    ensures d in Accepted(sorted, lastEnd) || UnderOne(Accepted(sorted, lastEnd), d)
  {
    var s, rest := sorted[0], sorted[1..];
    assert sorted == [s] + rest;
    if s.start < lastEnd {
      AcceptedUnder(rest, lastEnd, d);
    } else if d != s {
      assert Accepted(sorted, lastEnd) == [s] + Accepted(rest, s.end);
      assert s.start <= d.start;
      if d.start < s.end {
        assert s in Accepted(sorted, lastEnd);
      } else {
        AcceptedUnder(rest, s.end, d);
      }
    }
  }

  lemma {:induction false} ReplaceableKeeps(e: Engine, x: Text, spans: seq<Span>, n: nat)
    requires Within(spans, n)
    ensures Within(Replaceable(e, x, spans), n) && WellFormed(Replaceable(e, x, spans))
  {
    ReplaceableWithin(e, x, spans, n);
  }

  /**
   What comes out of a text for spans in any order: position by position, the masks
   of the chosen spans, and the units that lie in none of them.
   */
  lemma {:induction false} TransformedAnyOrder(e: Engine, x: Text, spans: seq<Span>)
    requires Within(spans, |x|)
    ensures Transformed(e, x, spans) == Joined(PieceAt(e, x, Chosen(Replaceable(e, x, spans), 0)), 0, |x|)
  {
    var some := Replaceable(e, x, spans);
    ReplaceableKeeps(e, x, spans, |x|);
    SortedWellFormed(some);
    RewrittenAccepted(e, x, SortByStart(some), 0);
    ChosenIsAccepted(some, 0);
    ChosenMeaning(some, |x|);
    RewrittenFrom(e, x, Chosen(some, 0), 0);
  }

  // ----- Detections of the whole leaf -----

  ghost predicate AtStart(spans: seq<Span>) {
    exists s :: s in spans && s.start == 0
  }

  /** Nothing of the text comes out. */
  ghost predicate Hidden(e: Engine, x: Text, spans: seq<Span>) {
    forall i: nat :: i < |x| ==> Inside(Chosen(Replaceable(e, x, spans), 0), i)
  }

  /** Spans found in a text with overlaps removed. */
  ghost predicate Found(spans: seq<Span>, n: nat) {
    Within(spans, n) && Disjoint(spans) && forall s :: s in spans ==> s.start < s.end
  }

  lemma {:induction false} ReplaceableAppend(e: Engine, x: Text, a: seq<Span>, b: seq<Span>)
    ensures Replaceable(e, x, a + b) == Replaceable(e, x, a) + Replaceable(e, x, b)
  {
    if a == [] {
      assert a + b == b;
    } else {
      var s, rest := a[0], a[1..];
      assert a == [s] + rest && a + b == [s] + (rest + b);
      ReplaceableAppend(e, x, rest, b);
      ReplaceableCons(e, x, s, rest);
      ReplaceableCons(e, x, s, rest + b);
      Regroup(IfReplaced(e, x, s), Replaceable(e, x, rest), Replaceable(e, x, b));
    }
  }

  lemma {:induction false} AllLater(spans: seq<Span>, cursor: nat)
    requires forall s :: s in spans ==> s.start >= cursor
    ensures Later(spans, cursor) == spans
  {
    if spans == [] {
    } else {
      assert spans == [spans[0]] + spans[1..];
      AllLater(spans[1..], cursor);
    }
  }

  lemma {:induction false} NoneLater(spans: seq<Span>, cursor: nat)
    requires forall s :: s in spans ==> s.start < cursor
    ensures Later(spans, cursor) == []
  {
    if spans == [] {
    } else {
      assert spans == [spans[0]] + spans[1..];
      NoneLater(spans[1..], cursor);
    }
  }

  lemma {:induction false} LaterAppend(a: seq<Span>, b: seq<Span>, cursor: nat)
    ensures Later(a + b, cursor) == Later(a, cursor) + Later(b, cursor)
  {
    if a == [] {
      assert a + b == b;
    } else {
      var s, rest := a[0], a[1..];
      assert a == [s] + rest && a + b == [s] + (rest + b);
      LaterCons(s, rest, cursor);
      LaterCons(s, rest + b, cursor);
      LaterAppend(rest, b, cursor);
    }
  }

  lemma {:induction false} ChosenFirst(spans: seq<Span>, k: nat)
    requires IsFirst(spans, k)
    ensures Chosen(spans, 0) == [spans[k]] + Chosen(Removed(spans, k), spans[k].end)
  {
    AllLater(spans, 0);
    var j := FirstIndex(spans);
    assert spans[j].start <= spans[k].start && spans[k].start <= spans[j].start;
    assert j == k;
  }

  lemma {:induction false} ChosenNone(spans: seq<Span>, cursor: nat)
    requires forall s :: s in spans ==> s.start < cursor
    ensures Chosen(spans, cursor) == []
  {
    NoneLater(spans, cursor);
  }

  /** No span found starts the text: that of the whole leaf does, and no other starts behind its end. */
  lemma {:induction false} WholeChosen(base: seq<Span>, wholes: seq<Span>, n: nat)
    requires n > 0 && Found(base, n) && !AtStart(base) && Whole(wholes, n) && wholes != []
    ensures Chosen(base + wholes, 0) == [wholes[0]]
  {
    var all, k := base + wholes, |base|;
    assert forall i :: 0 <= i < k ==> all[i] == base[i] && base[i] in base;
    assert forall i :: k <= i < |all| ==> all[i] == wholes[i - k] && IsWhole(wholes[i - k], n);
    ChosenFirst(all, k);
    forall s | s in Removed(all, k) ensures s.start < n {
      var i :| 0 <= i < |all| && all[i] == s;
    }
    ChosenNone(Removed(all, k), n);
  }

  lemma {:induction false} FirstStarts(base: seq<Span>, n: nat)
    requires Found(base, n) && AtStart(base)
    ensures base != [] && base[0].start == 0 < base[0].end
  {
    var s :| s in base && s.start == 0;
    var i :| 0 <= i < |base| && base[i] == s;
    assert base[0] in base;
    assert forall j :: 0 < j < |base| ==> base[0].end <= base[j].start;
  }

  lemma {:induction false} WholesStart(wholes: seq<Span>, n: nat, end: nat)
    requires Whole(wholes, n) && end > 0
    ensures forall w :: w in wholes ==> w.start < end
  {
    forall w | w in wholes ensures w.start < end {
      var j :| 0 <= j < |wholes| && wholes[j] == w;
      assert IsWhole(wholes[j], n);
    }
  }

  lemma {:induction false} ChosenFromStart(s: Span, rest: seq<Span>)
    requires s.start == 0
    ensures Chosen([s] + rest, 0) == [s] + Chosen(rest, s.end)
  {
    var all := [s] + rest;
    assert IsFirst(all, 0);
    ChosenFirst(all, 0);
    assert Removed(all, 0) == rest;
  }

  lemma {:induction false} SameLater(a: seq<Span>, b: seq<Span>, cursor: nat)
    requires Later(a, cursor) == Later(b, cursor)
    ensures Chosen(a, cursor) == Chosen(b, cursor)
  {
  }

  /** One does: then the whole leaf starts before its end, and is passed over. */
  lemma {:induction false} WholePassedOver(base: seq<Span>, wholes: seq<Span>, n: nat)
    requires n > 0 && Found(base, n) && AtStart(base) && Whole(wholes, n)
    ensures Chosen(base + wholes, 0) == Chosen(base, 0)
  {
    FirstStarts(base, n);
    var s, rest := base[0], base[1..];
    assert base == [s] + rest && base + wholes == [s] + (rest + wholes);
    ChosenFromStart(s, rest);
    ChosenFromStart(s, rest + wholes);
    LaterAppend(rest, wholes, s.end);
    WholesStart(wholes, n, s.end);
    NoneLater(wholes, s.end);
    assert Later(rest, s.end) + [] == Later(rest, s.end);
    SameLater(rest + wholes, rest, s.end);
  }

  lemma {:induction false} ReplaceableFound(e: Engine, x: Text, spans: seq<Span>)
    requires Found(spans, |x|)
    ensures Found(Replaceable(e, x, spans), |x|)
  {
    ReplaceableWithin(e, x, spans, |x|);
    ReplaceableDisjoint(e, x, spans);
    ReplaceableFrom(e, x, spans);
  }

  lemma {:induction false} ReplaceableWhole(e: Engine, x: Text, spans: seq<Span>)
    requires Whole(spans, |x|)
    ensures Whole(Replaceable(e, x, spans), |x|)
  {
    var some := Replaceable(e, x, spans);
    ReplaceableFrom(e, x, spans);
    forall i | 0 <= i < |some| ensures IsWhole(some[i], |x|) {
      assert some[i] in spans;
      var j :| 0 <= j < |spans| && spans[j] == some[i];
    }
  }

  lemma {:induction false} RewrittenWhole(e: Engine, x: Text, w: Span)
    requires IsWhole(w, |x|)
    ensures Rewritten(e, x, [w], 0) == Mask(Verdict(e, x, w))
  {
    RewrittenCons(e, x, w, [], 0);
    assert [w] + [] == [w];
    assert Slice(x, 0, 0) == [] && Rewritten(e, x, [], |x|) == [];
  }

  lemma {:induction false} TransformedChosen(e: Engine, x: Text, spans: seq<Span>)
    requires Within(spans, |x|)
    ensures Transformed(e, x, spans) == Rewritten(e, x, Chosen(Replaceable(e, x, spans), 0), 0)
  {
    var some := Replaceable(e, x, spans);
    ReplaceableKeeps(e, x, spans, |x|);
    SortedWellFormed(some);
    RewrittenAccepted(e, x, SortByStart(some), 0);
    ChosenIsAccepted(some, 0);
  }

  lemma {:induction false} AppendWithin(base: seq<Span>, wholes: seq<Span>, n: nat)
    requires Within(base, n) && Whole(wholes, n)
    ensures Within(base + wholes, n)
  {
    var all := base + wholes;
    assert forall i :: |base| <= i < |all| ==> all[i] == wholes[i - |base|] && IsWhole(wholes[i - |base|], n);
  }

  /**
   Spans found in a leaf, and behind them detections of the whole leaf of which some
   is replaced: the leaf becomes the mask of the first of those, unless a replaced
   span starts the leaf. Then the detections of the whole leaf replace nothing.
   */
  lemma {:induction false} WholeLeaf(e: Engine, x: Text, found: seq<Span>, wholes: seq<Span>)
    requires x != [] && Found(found, |x|) && Whole(wholes, |x|) && Replaceable(e, x, wholes) != []
    ensures Transformed(e, x, found + wholes)
         == if AtStart(Replaceable(e, x, found)) then Transformed(e, x, found)
            else Mask(Verdict(e, x, Replaceable(e, x, wholes)[0]))
    ensures Hidden(e, x, found + wholes) <==> !AtStart(Replaceable(e, x, found)) || Hidden(e, x, found)
  {
    var base, rest := Replaceable(e, x, found), Replaceable(e, x, wholes);
    ReplaceableFound(e, x, found);
    ReplaceableWhole(e, x, wholes);
    ReplaceableAppend(e, x, found, wholes);
    AppendWithin(found, wholes, |x|);
    TransformedChosen(e, x, found + wholes);
    TransformedChosen(e, x, found);
    if AtStart(base) {
      WholePassedOver(base, rest, |x|);
    } else {
      WholeChosen(base, rest, |x|);
      assert IsWhole(rest[0], |x|);
      RewrittenWhole(e, x, rest[0]);
      forall i: nat | i < |x| ensures Inside([rest[0]], i) { assert [rest[0]][0] == rest[0]; }
    }
  }

  /** An engine that replaces whatever is detected. */
  ghost function Replacer(mask: Text): Engine {
    Engine(_ => [], (_, _) => Replace(mask), true, 0)
  }

  lemma {:induction false} AllOfThem(mask: Text, x: Text, spans: seq<Span>)
    ensures Replaceable(Replacer(mask), x, spans) == spans
  {
    if spans == [] {
    } else {
      AllOfThem(mask, x, spans[1..]);
      assert spans == [spans[0]] + spans[1..];
    }
  }

  lemma {:induction false} OneFound(first: Span, n: nat)
    requires first.start < first.end <= n
    ensures Found([first], n)
  {
  }

  lemma {:induction false} AddressThenCard(mask: Text, x: Text, email: Span, card: Span)
    requires email.start < email.end <= |x| && IsWhole(card, |x|)
    ensures Transformed(Replacer(mask), x, [email, card])
         == if email.start == 0 then mask + x[email.end..] else mask
  {
    var e := Replacer(mask);
    AllOfThem(mask, x, [email]);
    AllOfThem(mask, x, [card]);
    OneFound(email, |x|);
    assert [email] + [card] == [email, card] && email in [email];
    WholeLeaf(e, x, [email], [card]);
    if email.start == 0 {
      TransformedChosen(e, x, [email]);
      ChosenFromStart(email, []);
      assert [email] + [] == [email];
      RewrittenCons(e, x, email, [], 0);
      assert Slice(x, 0, 0) == [];
    }
  }

  /**
   An address in the middle of a leaf whose decoded text holds a card number: the
   leaf is replaced. The address at its start: the encoded card number comes out.
   */
  lemma {:induction false} EncodedEscapes(mask: Text, x: Text)
    requires |x| == 30
    ensures Transformed(Replacer(mask), x, [Span(5, 20, "email"), Span(0, 30, "card")]) == mask
    ensures Transformed(Replacer(mask), x, [Span(0, 20, "email"), Span(0, 30, "card")]) == mask + x[20..]
  {
    AddressThenCard(mask, x, Span(5, 20, "email"), Span(0, 30, "card"));
    AddressThenCard(mask, x, Span(0, 20, "email"), Span(0, 30, "card"));
  }
}
