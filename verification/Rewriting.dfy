/** What the replacement of spans does to a text, position by position. */
module Rewriting {
  import opened Texts
  import opened Spans
  import opened StreamProtector
  import opened StreamEquivalence

  predicate Inside(spans: seq<Span>, i: nat) {
    exists k :: 0 <= k < |spans| && spans[k].start <= i < spans[k].end
  }

  /** The masks of the spans that start at a position. */
  function MasksAt(e: Engine, text: Text, spans: seq<Span>, i: nat): Text {
    if spans == [] then []
    else
      (if spans[0].start == i then Mask(Verdict(e, text, spans[0])) else [])
      + MasksAt(e, text, spans[1..], i)
  }

  /** The unit at a position, unless a span covers it. */
  function UnitAt(text: Text, spans: seq<Span>, i: nat): Text {
    if i >= |text| || Inside(spans, i) then [] else [text[i]]
  }

  function PieceAt(e: Engine, text: Text, spans: seq<Span>): nat -> Text {
    i => MasksAt(e, text, spans, i) + UnitAt(text, spans, i)
  }

  /** The pieces of the positions from i to n. */
  function Joined(piece: nat -> Text, i: nat, n: nat): Text
    decreases n - i
  {
    if i > n then [] else piece(i) + Joined(piece, i + 1, n)
  }

  ghost predicate Alike(f: nat -> Text, g: nat -> Text, from: nat, n: nat) {
    forall j: nat {:trigger f(j), g(j)} :: from <= j <= n ==> f(j) == g(j)
  }

  ghost predicate Silent(f: nat -> Text, from: nat, to: nat) {
    forall j: nat :: from <= j < to ==> f(j) == []
  }

  lemma {:induction false} JoinedAlike(f: nat -> Text, g: nat -> Text, i: nat, n: nat)
    requires Alike(f, g, i, n)
    ensures Joined(f, i, n) == Joined(g, i, n)
    decreases n - i
  {
    if i > n {
    } else {
      JoinedAlike(f, g, i + 1, n);
    }
  }

  lemma {:induction false} JoinedSkips(f: nat -> Text, i: nat, k: nat, n: nat)
    requires i <= k <= n + 1 && Silent(f, i, k)
    ensures Joined(f, i, n) == Joined(f, k, n)
    decreases k - i
  {
    if i == k {
    } else {
      JoinedSkips(f, i + 1, k, n);
    }
  }

  // ----- One position -----

  ghost predicate AllFrom(spans: seq<Span>, i: nat) {
    forall k :: 0 <= k < |spans| ==> i <= spans[k].start
  }

  lemma {:induction false} InsideCons(s: Span, rest: seq<Span>, i: nat)
    ensures Inside([s] + rest, i) <==> s.start <= i < s.end || Inside(rest, i)
  {
    var all := [s] + rest;
    assert all[0] == s && forall k :: 0 <= k < |rest| ==> all[k + 1] == rest[k];
  }

  lemma {:induction false} MasksCons(e: Engine, text: Text, s: Span, rest: seq<Span>, i: nat)
    ensures MasksAt(e, text, [s] + rest, i)
         == (if s.start == i then Mask(Verdict(e, text, s)) else []) + MasksAt(e, text, rest, i)
  {
    assert ([s] + rest)[1..] == rest;
  }

  lemma {:induction false} NothingBefore(e: Engine, text: Text, spans: seq<Span>, i: nat)
    requires AllFrom(spans, i + 1)
    ensures MasksAt(e, text, spans, i) == [] && !Inside(spans, i)
  {
    if spans == [] {
    } else {
      NothingBefore(e, text, spans[1..], i);
    }
  }

  /** A span that lies before a position says nothing there. */
  lemma {:induction false} PieceBehind(e: Engine, text: Text, s: Span, rest: seq<Span>, i: nat)
    requires s.start < i && s.end <= i
    ensures PieceAt(e, text, [s] + rest)(i) == PieceAt(e, text, rest)(i)
  {
    MasksCons(e, text, s, rest, i);
    InsideCons(s, rest, i);
  }

  /** Within a span nothing comes out. */
  lemma {:induction false} PieceWithin(e: Engine, text: Text, s: Span, rest: seq<Span>, i: nat)
    requires s.start < i < s.end && AllFrom(rest, s.end)
    ensures PieceAt(e, text, [s] + rest)(i) == []
  {
    MasksCons(e, text, s, rest, i);
    NothingBefore(e, text, rest, i);
    InsideCons(s, rest, i);
  }

  /** Where it starts its mask does. */
  lemma {:induction false} PieceHere(e: Engine, text: Text, s: Span, rest: seq<Span>)
    requires AllFrom(rest, s.end) && s.start <= s.end
    ensures PieceAt(e, text, [s] + rest)(s.start)
         == Mask(Verdict(e, text, s)) + if s.start < s.end then [] else PieceAt(e, text, rest)(s.start)
  {
    var i := s.start;
    MasksCons(e, text, s, rest, i);
    InsideCons(s, rest, i);
    if i < s.end { NothingBefore(e, text, rest, i); }
    Regroup(Mask(Verdict(e, text, s)), MasksAt(e, text, rest, i), UnitAt(text, rest, i));
  }

  lemma {:induction false} PiecePlain(e: Engine, text: Text, spans: seq<Span>, i: nat)
    requires AllFrom(spans, i + 1) && i < |text|
    ensures PieceAt(e, text, spans)(i) == [text[i]]
  {
    NothingBefore(e, text, spans, i);
  }

  // ----- All positions -----

  lemma {:induction false} AlikeBehind(e: Engine, text: Text, s: Span, rest: seq<Span>, from: nat, n: nat)
    requires s.start < from && s.end <= from
    ensures Alike(PieceAt(e, text, [s] + rest), PieceAt(e, text, rest), from, n)
  {
    forall j: nat | from <= j <= n ensures PieceAt(e, text, [s] + rest)(j) == PieceAt(e, text, rest)(j) {
      PieceBehind(e, text, s, rest, j);
    }
  }

  lemma {:induction false} SilentWithin(e: Engine, text: Text, s: Span, rest: seq<Span>)
    requires AllFrom(rest, s.end)
    ensures Silent(PieceAt(e, text, [s] + rest), s.start + 1, s.end)
  {
    forall j: nat | s.start + 1 <= j < s.end ensures PieceAt(e, text, [s] + rest)(j) == [] {
      PieceWithin(e, text, s, rest, j);
    }
  }

  lemma {:induction false} JoinedCovered(all: nat -> Text, few: nat -> Text, i: nat, end: nat, n: nat)
    requires i < end <= n && Silent(all, i + 1, end) && Alike(all, few, end, n)
    ensures Joined(all, i, n) == all(i) + Joined(few, end, n)
  {
    JoinedSkips(all, i + 1, end, n);
    JoinedAlike(all, few, end, n);
  }

  lemma {:induction false} JoinedEmpty(all: nat -> Text, few: nat -> Text, i: nat, n: nat, mask: Text)
    requires i <= n && all(i) == mask + few(i) && Alike(all, few, i + 1, n)
    ensures Joined(all, i, n) == mask + Joined(few, i, n)
  {
    JoinedAlike(all, few, i + 1, n);
    Regroup(mask, few(i), Joined(few, i + 1, n));
  }

  lemma {:induction false} JoinedHereCovered(e: Engine, text: Text, s: Span, rest: seq<Span>, n: nat)
    requires s.start < s.end <= n && AllFrom(rest, s.end)
    ensures Joined(PieceAt(e, text, [s] + rest), s.start, n)
         == PieceAt(e, text, [s] + rest)(s.start) + Joined(PieceAt(e, text, rest), s.end, n)
  {
    AlikeBehind(e, text, s, rest, s.end, n);
    SilentWithin(e, text, s, rest);
    JoinedCovered(PieceAt(e, text, [s] + rest), PieceAt(e, text, rest), s.start, s.end, n);
  }

  /** From the start of a span on: its mask, and what follows its end. */
  lemma {:induction false} JoinedHere(e: Engine, text: Text, s: Span, rest: seq<Span>, n: nat)
    requires s.start <= s.end <= n && AllFrom(rest, s.end)
    ensures Joined(PieceAt(e, text, [s] + rest), s.start, n)
         == Mask(Verdict(e, text, s)) + Joined(PieceAt(e, text, rest), s.end, n)
  {
    PieceHere(e, text, s, rest);
    if s.start < s.end {
      JoinedHereCovered(e, text, s, rest, n);
    } else {
      AlikeBehind(e, text, s, rest, s.start + 1, n);
      JoinedEmpty(PieceAt(e, text, [s] + rest), PieceAt(e, text, rest), s.start, n, Mask(Verdict(e, text, s)));
    }
  }

  lemma {:induction false} SliceStep(text: Text, from: nat, to: nat)
    requires from < to && from < |text|
    ensures Slice(text, from, to) == [text[from]] + Slice(text, from + 1, to)
  {
  }

  lemma {:induction false} RewrittenStep(e: Engine, text: Text, spans: seq<Span>, i: nat)
    requires i < |text| && (spans != [] ==> i < spans[0].start)
    ensures Rewritten(e, text, spans, i) == [text[i]] + Rewritten(e, text, spans, i + 1)
  {
    if spans == [] {
      SliceStep(text, i, |text|);
    } else {
      var s := spans[0];
      SliceStep(text, i, s.start);
      Regroup([text[i]], Slice(text, i + 1, s.start),
              Mask(Verdict(e, text, s)) + Rewritten(e, text, spans[1..], s.end));
    }
  }

  lemma {:induction false} FirstLeast(spans: seq<Span>, n: nat, i: nat)
    requires Within(spans, n) && Disjoint(spans) && (spans != [] ==> i <= spans[0].start)
    ensures AllFrom(spans, i)
  {
    if spans != [] {
      assert spans[0].start <= spans[0].end;
      assert forall k :: 0 < k < |spans| ==> spans[0].end <= spans[k].start;
    }
  }

  lemma {:induction false} AfterFirst(s: Span, rest: seq<Span>, n: nat)
    requires Within([s] + rest, n) && Disjoint([s] + rest)
    ensures s.start <= s.end <= n && Within(rest, n) && Disjoint(rest) && AllFrom(rest, s.end)
  {
    var all := [s] + rest;
    assert all[0] == s && forall k :: 0 <= k < |rest| ==> all[k + 1] == rest[k];
  }

  /** Rewriting from a position on does what the positions say. */
  ghost predicate Pointwise(e: Engine, text: Text, spans: seq<Span>, i: nat) {
    Rewritten(e, text, spans, i) == Joined(PieceAt(e, text, spans), i, |text|)
  }

  lemma {:induction false} RewrittenHere(e: Engine, text: Text, s: Span, rest: seq<Span>)
    requires s.start <= s.end <= |text| && AllFrom(rest, s.end) && Pointwise(e, text, rest, s.end)
    ensures Pointwise(e, text, [s] + rest, s.start)
  {
    JoinedHere(e, text, s, rest, |text|);
    RewrittenCons(e, text, s, rest, s.start);
    assert Slice(text, s.start, s.start) == [];
  }

  lemma {:induction false} RewrittenPlain(e: Engine, text: Text, spans: seq<Span>, i: nat)
    requires i < |text| && AllFrom(spans, i + 1) && Pointwise(e, text, spans, i + 1)
    ensures Pointwise(e, text, spans, i)
  {
    PiecePlain(e, text, spans, i);
    RewrittenStep(e, text, spans, i);
  }

  lemma {:induction false} RewrittenUpTo(e: Engine, text: Text, spans: seq<Span>, i: nat, k: nat)
    requires i <= k <= |text| && AllFrom(spans, k) && Pointwise(e, text, spans, k)
    ensures Pointwise(e, text, spans, i)
    decreases k - i
  {
    if i == k {
    } else {
      RewrittenUpTo(e, text, spans, i + 1, k);
      RewrittenPlain(e, text, spans, i);
    }
  }

  lemma {:induction false} RewrittenFrom(e: Engine, text: Text, spans: seq<Span>, i: nat)
    requires i <= |text| && Within(spans, |text|) && Disjoint(spans) && AllFrom(spans, i)
    ensures Pointwise(e, text, spans, i)
    decreases |spans|
  {
    if spans == [] {
      RewrittenEnd(e, text, |text|);
      RewrittenUpTo(e, text, spans, i, |text|);
    } else {
      var s, rest := spans[0], spans[1..];
      assert spans == [s] + rest;
      AfterFirst(s, rest, |text|);
      RewrittenFrom(e, text, rest, s.end);
      RewrittenHere(e, text, s, rest);
      FirstLeast(spans, |text|, s.start);
      RewrittenUpTo(e, text, spans, i, s.start);
    }
  }

  lemma {:induction false} RewrittenEnd(e: Engine, text: Text, i: nat)
    requires i == |text|
    ensures Pointwise(e, text, [], i)
  {
    assert PieceAt(e, text, [])(i) == [];
  }

  // ----- What a text becomes -----

  lemma {:induction false} DisjointCons(s: Span, rest: seq<Span>)
    ensures Disjoint([s] + rest) <==> Disjoint(rest) && forall r :: r in rest ==> s.end <= r.start
  {
    var all := [s] + rest;
    assert all[0] == s && forall k :: 0 <= k < |rest| ==> all[k + 1] == rest[k];
    if Disjoint(all) {
      forall i, j | 0 <= i < j < |rest| ensures rest[i].end <= rest[j].start {
        assert all[i + 1].end <= all[j + 1].start;
      }
    }
  }

  lemma {:induction false} ReplaceableDisjoint(e: Engine, x: Text, spans: seq<Span>)
    requires Disjoint(spans)
    ensures Disjoint(Replaceable(e, x, spans))
  {
    if spans == [] {
    } else {
      assert spans == [spans[0]] + spans[1..];
      DisjointCons(spans[0], spans[1..]);
      ReplaceableDisjoint(e, x, spans[1..]);
      ReplaceableFrom(e, x, spans[1..]);
      DisjointCons(spans[0], Replaceable(e, x, spans[1..]));
    }
  }

  /** The spans replaced are the detected ones whose policy says so. */
  lemma {:induction false} ReplaceableExactly(e: Engine, x: Text, spans: seq<Span>, s: Span)
    ensures s in Replaceable(e, x, spans) <==> s in spans && Verdict(e, x, s).Replace?
  {
    if spans == [] {
    } else {
      ReplaceableExactly(e, x, spans[1..], s);
      assert spans == [spans[0]] + spans[1..];
    }
  }

  /** Position i lies in a detected span that is to be replaced. */
  ghost predicate Masked(e: Engine, x: Text, i: nat) {
    exists s :: s in e.detect(x) && Verdict(e, x, s).Replace? && s.start <= i < s.end
  }

  lemma {:induction false} InsideIsMasked(e: Engine, x: Text, i: nat)
    ensures Inside(Replaceable(e, x, e.detect(x)), i) <==> Masked(e, x, i)
  {
    var spans := Replaceable(e, x, e.detect(x));
    if Inside(spans, i) {
      var k :| 0 <= k < |spans| && spans[k].start <= i < spans[k].end;
      assert spans[k] in spans;
      ReplaceableExactly(e, x, e.detect(x), spans[k]);
    }
    if Masked(e, x, i) {
      var s :| s in e.detect(x) && Verdict(e, x, s).Replace? && s.start <= i < s.end;
      ReplaceableExactly(e, x, e.detect(x), s);
      var k :| 0 <= k < |spans| && spans[k] == s;
    }
  }

  /**
   Replacing disjoint spans leaves every unit outside the replaced ones, in order,
   and none inside them, and puts each mask where its span starts.
   */
  lemma {:induction false} TransformedMeaning(e: Engine, x: Text)
    requires ProperAt(e.detect, x)
    ensures var spans := Replaceable(e, x, e.detect(x));
      && Transformed(e, x, e.detect(x)) == Joined(PieceAt(e, x, spans), 0, |x|)
      && forall i: nat :: i < |x| ==> UnitAt(x, spans, i) == if Masked(e, x, i) then [] else [x[i]]
  {
    var spans := Replaceable(e, x, e.detect(x));
    TransformedOrdered(e, x);
    ReplaceableWithin(e, x, e.detect(x), |x|);
    ReplaceableDisjoint(e, x, e.detect(x));
    RewrittenFrom(e, x, spans, 0);
    forall i: nat | i < |x| ensures UnitAt(x, spans, i) == if Masked(e, x, i) then [] else [x[i]] {
      InsideIsMasked(e, x, i);
    }
  }
}
