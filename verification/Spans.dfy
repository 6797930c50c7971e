/** Detected spans of a text, and the choice among overlapping ones. */
module Spans {
  import Sorting

  type Kind = string

  datatype Span = Span(start: nat, end: nat, kind: Kind)

  /** The spans lie in a text of length n. */
  predicate Within(spans: seq<Span>, n: nat) {
    forall i :: 0 <= i < |spans| ==> spans[i].start <= spans[i].end <= n
  }

  predicate Ordered(spans: seq<Span>) {
    forall i, j :: 0 <= i < j < |spans| ==> spans[i].start <= spans[j].start
  }

  predicate Disjoint(spans: seq<Span>) {
    forall i, j :: 0 <= i < j < |spans| ==> spans[i].end <= spans[j].start
  }

  /** Earlier start first; at the same start, the longer one. */
  predicate Precedes(a: Span, b: Span) {
    a.start < b.start || (a.start == b.start && a.end >= b.end)
  }

  function Sort(spans: seq<Span>): seq<Span> {
    Sorting.Sort(Precedes, spans)
  }

  /** Keep each span that does not start before the end of the last one kept. */
  function Accepted(sorted: seq<Span>, lastEnd: int): seq<Span> {
    if sorted == [] then []
    else if sorted[0].start < lastEnd then Accepted(sorted[1..], lastEnd)
    else [sorted[0]] + Accepted(sorted[1..], sorted[0].end)
  }

  method RemoveOverlaps(detections: seq<Span>) returns (accepted: seq<Span>)
    ensures accepted == Accepted(Sort(detections), -1)
  {
    var sorted := Sort(detections);
    var lastEnd: int := -1;
    accepted := [];
    for i := 0 to |sorted|
      invariant accepted + Accepted(sorted[i..], lastEnd) == Accepted(sorted, -1)
    {
      assert sorted[i..][1..] == sorted[i + 1..];
      if sorted[i].start >= lastEnd {
        assert accepted + ([sorted[i]] + Accepted(sorted[i + 1..], sorted[i].end))
            == accepted + [sorted[i]] + Accepted(sorted[i + 1..], sorted[i].end);
        accepted := accepted + [sorted[i]];
        lastEnd := sorted[i].end;
      }
    }
    assert accepted + Accepted(sorted[|sorted|..], lastEnd) == accepted;
  }

  // ----- Sorting -----

  predicate Sorted(spans: seq<Span>) {
    forall i, j :: 0 <= i < j < |spans| ==> Precedes(spans[i], spans[j])
  }

  lemma {:induction false} SortMeaning(spans: seq<Span>)
    ensures Sorted(Sort(spans))
    ensures forall y :: y in Sort(spans) <==> y in spans
  {
    Sorting.SortSorted(Precedes, spans);
    Sorting.SortElements(Precedes, spans);
  }

  // ----- What is accepted -----

  lemma {:induction false} AcceptedElements(sorted: seq<Span>, lastEnd: int)
    requires forall i :: 0 <= i < |sorted| ==> sorted[i].start <= sorted[i].end
    ensures forall s :: s in Accepted(sorted, lastEnd) ==> s in sorted && s.start >= lastEnd
  {
    if sorted == [] {
    } else {
      AcceptedElements(sorted[1..], if sorted[0].start < lastEnd then lastEnd else sorted[0].end);
    }
  }

  lemma {:induction false} AcceptedDisjoint(sorted: seq<Span>, lastEnd: int)
    requires forall i :: 0 <= i < |sorted| ==> sorted[i].start <= sorted[i].end
    ensures Disjoint(Accepted(sorted, lastEnd))
  {
    if sorted == [] {
    } else {
      if sorted[0].start < lastEnd {
        AcceptedDisjoint(sorted[1..], lastEnd);
      } else {
        AcceptedDisjoint(sorted[1..], sorted[0].end);
        AcceptedElements(sorted[1..], sorted[0].end);
        var rest := Accepted(sorted[1..], sorted[0].end);
        assert forall j :: 0 <= j < |rest| ==> rest[j] in rest;
      }
    }
  }

  /** Span a makes d redundant: it starts no later, reaches past d's start, and from the same start reaches as far. */
  predicate Covers(a: Span, d: Span) {
    Precedes(a, d) && d.start < a.end
  }

  /** A span is kept, or its start lies under a kept span. */
  lemma {:induction false} AcceptedCovers(sorted: seq<Span>, lastEnd: int, d: Span)
    requires Sorted(sorted) && d in sorted && d.start >= lastEnd
    ensures d in Accepted(sorted, lastEnd) || exists a :: a in Accepted(sorted, lastEnd) && Covers(a, d)
  {
    if sorted[0].start < lastEnd {
      AcceptedCovers(sorted[1..], lastEnd, d);
    } else if d != sorted[0] {
      var rest := Accepted(sorted[1..], sorted[0].end);
      assert Accepted(sorted, lastEnd) == [sorted[0]] + rest;
      assert Precedes(sorted[0], d);
      if d.start < sorted[0].end {
        assert sorted[0] in Accepted(sorted, lastEnd) && Covers(sorted[0], d);
      } else {
        AcceptedCovers(sorted[1..], sorted[0].end, d);
        if d !in rest {
          var a :| a in rest && Covers(a, d);
          assert a in Accepted(sorted, lastEnd);
        }
      }
    }
  }

  /**
   What the overlap removal keeps: detected spans only, pairwise disjoint and in
   order, and so many that every other detected span starts under a kept one, which
   starts earlier, or together with it and reaches as far.
   */
  lemma {:induction false} RemoveOverlapsMeaning(detections: seq<Span>)
    requires forall i :: 0 <= i < |detections| ==> detections[i].start <= detections[i].end
    ensures var accepted := Accepted(Sort(detections), -1);
      && Disjoint(accepted)
      && (forall s :: s in accepted ==> s in detections)
      && (forall d :: d in detections ==> d in accepted || exists a :: a in accepted && Covers(a, d))
      && (forall a, d {:trigger Covers(a, d)} :: Covers(a, d) <==>
           d.start < a.end && (a.start < d.start || (a.start == d.start && a.end >= d.end)))
  {
    var sorted := Sort(detections);
    SortMeaning(detections);
    assert forall i :: 0 <= i < |sorted| ==> sorted[i] in sorted;
    AcceptedDisjoint(sorted, -1);
    AcceptedElements(sorted, -1);
    forall d | d in detections
      ensures d in Accepted(sorted, -1) || exists a :: a in Accepted(sorted, -1) && Covers(a, d)
    {
      AcceptedCovers(sorted, -1, d);
    }
  }
}
