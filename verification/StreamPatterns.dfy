/**
 Rules of fixed length, which may look at the text before and after a match. For
 them it is decided exactly when a stream is protected as its text would be in
 one piece.
 */
module StreamPatterns {
  import opened Texts
  import opened Spans
  import opened StreamProtector
  import opened StreamEquivalence
  import opened StreamExactness

  /**
   A match is `size` units of text. Whether they match may depend on up to
   `behind` units before them and up to `ahead` units after them.
   */
  datatype Pattern = Pattern(size: nat, behind: nat, ahead: nat, matches: (Text, Text, Text) -> bool)

  function Before(p: Pattern, x: Text, at: nat): Text
    requires at <= |x|
  {
    x[(if at < p.behind then 0 else at - p.behind)..at]
  }

  function After(p: Pattern, x: Text, end: nat): Text
    requires end <= |x|
  {
    x[end..(if |x| < end + p.ahead then |x| else end + p.ahead)]
  }

  predicate Hit(p: Pattern, x: Text, at: nat) {
    at + p.size <= |x| && p.matches(Before(p, x, at), x[at..at + p.size], After(p, x, at + p.size))
  }

  function SpanAt(p: Pattern, at: nat): Span { Span(at, at + p.size, "pattern") }

  /** Leftmost matches that do not overlap, from a position on. */
  function Hits(p: Pattern, x: Text, from: nat): seq<Span>
    requires p.size > 0
    decreases |x| - from
  {
    if from + p.size > |x| then []
    else if Hit(p, x, from) then [SpanAt(p, from)] + Hits(p, x, from + p.size)
    else Hits(p, x, from + 1)
  }

  ghost function Search(p: Pattern): Detector
    requires p.size > 0
  {
    x => Hits(p, x, 0)
  }

  // ----- What a search finds -----

  lemma {:induction false} HitsProper(p: Pattern, x: Text, from: nat)
    requires p.size > 0
    ensures Within(Hits(p, x, from), |x|) && Disjoint(Hits(p, x, from))
    ensures forall s :: s in Hits(p, x, from) ==> from <= s.start
    decreases |x| - from
  {
    if from + p.size > |x| {
    } else if Hit(p, x, from) {
      HitsProper(p, x, from + p.size);
      ProperCons(SpanAt(p, from), Hits(p, x, from + p.size), |x|);
    } else {
      HitsProper(p, x, from + 1);
    }
  }

  lemma {:induction false} ProperCons(s: Span, rest: seq<Span>, n: nat)
    requires s.start <= s.end <= n && Within(rest, n) && Disjoint(rest)
    requires forall r :: r in rest ==> s.end <= r.start
    ensures Within([s] + rest, n) && Disjoint([s] + rest)
  {
    assert forall j :: 0 <= j < |rest| ==> rest[j] in rest;
  }

  lemma {:induction false} BodyKept(x: Text, y: Text, from: nat, to: nat)
    requires from <= to <= |x|
    ensures (x + y)[from..to] == x[from..to]
  {
  }

  /** A match depends only on the text it looks at. */
  lemma {:induction false} HitLonger(p: Pattern, x: Text, y: Text, at: nat)
    requires at + p.size + p.ahead <= |x|
    ensures Hit(p, x + y, at) <==> Hit(p, x, at)
  {
    var end := at + p.size;
    BodyKept(x, y, if at < p.behind then 0 else at - p.behind, at);
    BodyKept(x, y, at, end);
    BodyKept(x, y, end, end + p.ahead);
  }

  lemma {:induction false} BodyMoved(h: Text, t: Text, from: nat, to: nat, from': nat, to': nat)
    requires from <= to <= |t| && from' == |h| + from && to' == |h| + to
    ensures (h + t)[from'..to'] == t[from..to]
  {
  }

  lemma {:induction false} AfterMoved(p: Pattern, h: Text, t: Text, end: nat, end': nat)
    requires end <= |t| && end' == |h| + end
    ensures After(p, h + t, end') == After(p, t, end)
  {
    var last := if |t| < end + p.ahead then |t| else end + p.ahead;
    BodyMoved(h, t, end, last, end', |h| + last);
  }

  /** Nor on where that text stands: position at of the tail is position at' of the whole. */
  lemma {:induction false} HitMoved(p: Pattern, h: Text, t: Text, at: nat, at': nat)
    requires p.behind <= at && at' == |h| + at
    ensures Hit(p, h + t, at') <==> Hit(p, t, at)
  {
    if at + p.size <= |t| {
      BodyMoved(h, t, at - p.behind, at, at' - p.behind, at');
      AfterMoved(p, h, t, at + p.size, at' + p.size);
      BodyMoved(h, t, at, at + p.size, at', at' + p.size);
    }
  }

  /** More text at the end changes no match that lies, with what it looks at, before it. */
  lemma {:induction false} HitsLonger(p: Pattern, x: Text, y: Text, from: nat, s: Span)
    requires p.size > 0 && s.start + p.size + p.ahead <= |x|
    ensures s in Hits(p, x + y, from) <==> s in Hits(p, x, from)
    decreases s.start - from
  {
    if from > s.start {
      HitsProper(p, x + y, from);
      HitsProper(p, x, from);
    } else {
      HitLonger(p, x, y, from);
      HitsLonger(p, x, y, if Hit(p, x, from) then from + p.size else from + 1, s);
    }
  }

  /** Matches are disjoint, and a long enough hold-back sees each of them with the text after it. */
  lemma {:induction false} SearchLocal(p: Pattern, m: nat)
    requires 0 < p.size && p.size + p.ahead <= m + 1
    ensures Local(Search(p), m)
  {
    var detect := Search(p);
    forall x ensures ProperAt(detect, x) { HitsProper(p, x, 0); }
    forall x, y ensures LocalAt(detect, m, x, y) {
      forall s: Span | s.start + m < |x| ensures s in detect(x + y) <==> s in detect(x) { HitsLonger(p, x, y, 0, s); }
    }
  }

  // ----- Positions the search comes by -----

  /** A search from `from` tries position `at`. */
  ghost predicate Reaches(p: Pattern, x: Text, from: nat, at: nat)
    requires p.size > 0
    decreases at - from
  {
    || from == at
    || (from < at && from + p.size <= |x| && Reaches(p, x, if Hit(p, x, from) then from + p.size else from + 1, at))
  }

  lemma {:induction false} ReachesForward(p: Pattern, x: Text, from: nat, at: nat)
    requires p.size > 0 && Reaches(p, x, from, at)
    ensures from <= at
  {
  }

  /** Whether it does depends on the text just before the end of a match there. */
  lemma {:induction false} ReachesAlike(p: Pattern, x: Text, y: Text, from: nat, at: nat)
    requires p.size > 0 && p.ahead == 0 && Reaches(p, x + y, from, at) && at + p.size <= |x| + 1
    ensures Reaches(p, x, from, at)
    decreases at - from
  {
    if from == at {
    } else {
      HitLonger(p, x, y, from);
      ReachesAlike(p, x, y, if Hit(p, x, from) then from + p.size else from + 1, at);
    }
  }

  lemma {:induction false} ReachesLonger(p: Pattern, x: Text, y: Text, from: nat, at: nat)
    requires p.size > 0 && p.ahead == 0 && Reaches(p, x, from, at)
    ensures Reaches(p, x + y, from, at)
    decreases at - from
  {
    if from == at {
    } else {
      HitLonger(p, x, y, from);
      ReachesLonger(p, x, y, if Hit(p, x, from) then from + p.size else from + 1, at);
    }
  }

  /** The matches before such a position are those of the text before it. */
  lemma {:induction false} ReachesSplit(p: Pattern, h: Text, t: Text, from: nat)
    requires p.size > 0 && p.ahead == 0 && Reaches(p, h + t, from, |h|)
    ensures Hits(p, h + t, from) == Hits(p, h, from) + Hits(p, h + t, |h|)
    decreases |h| - from
  {
    var x, n := h + t, |h|;
    if from == n {
      assert Hits(p, h, from) == [];
    } else {
      var next := if Hit(p, x, from) then from + p.size else from + 1;
      ReachesForward(p, x, next, n);
      ReachesSplit(p, h, t, next);
      if from + p.size <= n {
        HitLonger(p, h, t, from);
        if Hit(p, x, from) { Regroup([SpanAt(p, from)], Hits(p, h, next), Hits(p, x, n)); }
      } else {
        assert Hits(p, h, from) == [] && Hits(p, h, next) == [];
      }
    }
  }

  /** So no match covers it. */
  lemma {:induction false} ReachedIsUncut(p: Pattern, h: Text, t: Text)
    requires p.size > 0 && p.ahead == 0 && Reaches(p, h + t, 0, |h|)
    ensures Uncut(Hits(p, h + t, 0), |h|)
  {
    ReachesSplit(p, h, t, 0);
    HitsProper(p, h, 0);
    HitsProper(p, h + t, |h|);
    var a, b := Hits(p, h, 0), Hits(p, h + t, |h|);
    assert forall i :: 0 <= i < |a| ==> a[i].end <= |h|;
    assert forall i :: 0 <= i < |b| ==> b[i] in b;
  }

  /** A cut that no match covers is such a position, unless no match fits behind it. */
  lemma {:induction false} UncutIsReached(p: Pattern, x: Text, from: nat, c: nat)
    requires p.size > 0 && from <= c && c + p.size <= |x| && Uncut(Hits(p, x, from), c)
    ensures Reaches(p, x, from, c)
    decreases c - from
  {
    if from == c {
    } else if Hit(p, x, from) {
      UncutTail(SpanAt(p, from), Hits(p, x, from + p.size), c);
      UncutIsReached(p, x, from + p.size, c);
    } else {
      UncutIsReached(p, x, from + 1, c);
    }
  }

  lemma {:induction false} UncutTail(s: Span, rest: seq<Span>, c: nat)
    requires Uncut([s] + rest, c)
    ensures (s.end <= c || c <= s.start) && Uncut(rest, c)
  {
    var all := [s] + rest;
    assert all[0] == s && forall i :: 0 <= i < |rest| ==> all[i + 1] == rest[i];
  }

  // ----- Patterns without context -----

  /** The pattern as it matches when nothing stands around its match. */
  function Bare(p: Pattern): Pattern {
    Pattern(p.size, 0, 0, (_, body, _) => p.matches([], body, []))
  }

  lemma {:induction false} BareHit(p: Pattern, x: Text, at: nat)
    ensures Hit(Bare(p), x, at) <==> at + p.size <= |x| && p.matches([], x[at..at + p.size], [])
  {
  }

  lemma {:induction false} HitsMoved(p: Pattern, h: Text, t: Text, from: nat, from': nat)
    requires p.size > 0 && p.behind == 0 && from' == |h| + from
    ensures Hits(p, h + t, from') == Shift(Hits(p, t, from), |h|)
    decreases |t| - from
  {
    if from + p.size > |t| {
      assert Hits(p, t, from) == [];
    } else {
      HitMoved(p, h, t, from, from');
      var step := if Hit(p, t, from) then p.size else 1;
      HitsMoved(p, h, t, from + step, from' + step);
      HitsMovedStep(p, h + t, t, |h|, from, from', step);
    }
  }

  lemma {:induction false} HitsMovedStep(p: Pattern, x: Text, t: Text, n: nat, from: nat, from': nat, step: nat)
    requires p.size > 0 && from + p.size <= |t| && |x| == n + |t| && from' == n + from
    requires Hit(p, x, from') <==> Hit(p, t, from)
    requires step == if Hit(p, t, from) then p.size else 1
    requires Hits(p, x, from' + step) == Shift(Hits(p, t, from + step), n)
    ensures Hits(p, x, from') == Shift(Hits(p, t, from), n)
  {
    if Hit(p, t, from) { ShiftCons(SpanAt(p, from), Hits(p, t, from + step), n); }
  }

  lemma {:induction false} ShiftCons(s: Span, rest: seq<Span>, c: nat)
    ensures Shift([s] + rest, c) == [Moved(s, c)] + Shift(rest, c)
  {
  }

  /** Where no match fits behind the cut, the matches are those before it. */
  lemma {:induction false} HitsOfHead(p: Pattern, h: Text, t: Text, from: nat)
    requires p.size > 0 && p.ahead == 0 && |t| < p.size && Uncut(Hits(p, h + t, from), |h|)
    ensures Hits(p, h + t, from) == Hits(p, h, from)
    decreases |h| + |t| - from
  {
    var x := h + t;
    if from + p.size > |x| {
    } else if Hit(p, x, from) {
      UncutTail(SpanAt(p, from), Hits(p, x, from + p.size), |h|);
      HitLonger(p, h, t, from);
      HitsOfHead(p, h, t, from + p.size);
    } else {
      HitsOfHead(p, h, t, from + 1);
      if from + p.size <= |h| { HitLonger(p, h, t, from); }
    }
  }

  lemma {:induction false} ReachedSplit(p: Pattern, h: Text, t: Text)
    requires p.size > 0 && p.behind == 0 && p.ahead == 0 && Reaches(p, h + t, 0, |h|)
    ensures Hits(p, h + t, 0) == Hits(p, h, 0) + Shift(Hits(p, t, 0), |h|)
  {
    ReachesSplit(p, h, t, 0);
    HitsMoved(p, h, t, 0, |h|);
  }

  lemma {:induction false} BareSplit(p: Pattern, h: Text, t: Text)
    requires p.size > 0 && p.behind == 0 && p.ahead == 0 && Uncut(Hits(p, h + t, 0), |h|)
    ensures Hits(p, h + t, 0) == Hits(p, h, 0) + Shift(Hits(p, t, 0), |h|)
  {
    var after := Hits(p, t, 0);
    if |t| < p.size {
      HitsOfHead(p, h, t, 0);
      assert after == [] && Shift(after, |h|) == [];
      assert Hits(p, h, 0) + [] == Hits(p, h, 0);
    } else {
      UncutIsReached(p, h + t, 0, |h|);
      ReachedSplit(p, h, t);
    }
  }

  /** On every text the pattern finds what its body alone would: the context decides nothing. */
  ghost predicate ContextFree(p: Pattern)
    requires p.size > 0
  {
    forall x: Text {:trigger Hits(p, x, 0)} :: Hits(p, x, 0) == Hits(Bare(p), x, 0)
  }

  /** So it is when the context is not looked at. */
  lemma {:induction false} IgnoringIsContextFree(p: Pattern)
    requires p.size > 0 && forall b, body, a :: p.matches(b, body, a) == p.matches([], body, [])
    ensures ContextFree(p)
  {
    forall x: Text ensures Hits(p, x, 0) == Hits(Bare(p), x, 0) { IgnoringAlike(p, x, 0); }
  }

  lemma {:induction false} IgnoringAlike(p: Pattern, x: Text, from: nat)
    requires p.size > 0 && forall b, body, a :: p.matches(b, body, a) == p.matches([], body, [])
    ensures Hits(p, x, from) == Hits(Bare(p), x, from)
    decreases |x| - from
  {
    BareHit(p, x, from);
    if from + p.size > |x| {
    } else {
      IgnoringAlike(p, x, if Hit(p, x, from) then from + p.size else from + 1);
    }
  }

  lemma {:induction false} ContextFreeSplit(p: Pattern, h: Text, t: Text)
    requires p.size > 0 && ContextFree(p) && Uncut(Hits(p, h + t, 0), |h|)
    ensures Hits(p, h + t, 0) == Hits(p, h, 0) + Shift(Hits(p, t, 0), |h|)
  {
    assert Hits(p, h, 0) == Hits(Bare(p), h, 0) && Hits(p, t, 0) == Hits(Bare(p), t, 0);
    assert Hits(p, h + t, 0) == Hits(Bare(p), h + t, 0);
    BareSplit(Bare(p), h, t);
  }

  /** Such a detector meets the assumptions when its matches are no longer than the hold-back and one unit. */
  lemma {:induction false} SearchBounded(p: Pattern, m: nat)
    requires 0 < p.size <= m + 1 && ContextFree(p)
    ensures Bounded(Search(p), m)
  {
    SearchLocal(Bare(p), m);
    SameLocal(Search(Bare(p)), Search(p), m);
    forall x, c: nat ensures SeparableAt(Search(p), x, c) { ContextFreeSeparable(p, x, c); }
  }

  lemma {:induction false} ContextFreeSeparable(p: Pattern, x: Text, c: nat)
    requires p.size > 0 && ContextFree(p)
    ensures SeparableAt(Search(p), x, c)
  {
    if c <= |x| && Uncut(Hits(p, x, 0), c) {
      assert x == x[..c] + x[c..];
      ContextFreeSplit(p, x[..c], x[c..]);
    }
  }

  lemma {:induction false} SameLocal(f: Detector, g: Detector, m: nat)
    requires Local(f, m) && forall x :: f(x) == g(x)
    ensures Local(g, m)
  {
    forall x ensures ProperAt(g, x) { assert ProperAt(f, x); }
    forall x, y ensures LocalAt(g, m, x, y) { assert LocalAt(f, m, x, y); }
  }

  // ----- When streaming always is one-shot protection -----

  /** Every match is replaced by one unit. */
  ghost function Marker(p: Pattern, m: nat, mark: Unit): Engine
    requires p.size > 0
  {
    Engine(Search(p), (_, _) => Replace([mark]), true, m)
  }

  lemma {:induction false} MarkerMarks(p: Pattern, m: nat, mark: Unit)
    requires p.size > 0
    ensures Marks(Marker(p, m, mark).decide) && Solid(Search(p)) && Orderly(Search(p))
  {
    var e := Marker(p, m, mark);
    forall kind, text ensures exists u: Unit :: e.decide(kind, text) == Replace([u]) {
      assert e.decide(kind, text) == Replace([mark]);
    }
    forall x ensures SolidAt(Search(p), x) {
      HitsProper(p, x, 0);
      HitsSized(p, x, 0);
    }
    forall x ensures ProperAt(Search(p), x) { assert SolidAt(Search(p), x); }
  }

  lemma {:induction false} HitsSized(p: Pattern, x: Text, from: nat)
    requires p.size > 0
    ensures forall s :: s in Hits(p, x, from) ==> s.start < s.end
    decreases |x| - from
  {
    if from + p.size > |x| {
    } else {
      HitsSized(p, x, if Hit(p, x, from) then from + p.size else from + 1);
    }
  }

  lemma {:induction false} MarkerSegment(p: Pattern, m: nat, mark: Unit, x: Text)
    requires p.size > 0
    ensures var e := Marker(p, m, mark); TransformSegment(e, x) == Emission(Rewritten(e, x, Hits(p, x, 0), 0), false)
  {
    MarkerMarks(p, m, mark);
    assert ProperAt(Search(p), x);
    MarkedSegment(Marker(p, m, mark), x);
  }

  lemma {:induction false} UncutCommits(spans: seq<Span>, limit: nat)
    requires Uncut(spans, limit)
    ensures LeastStraddling(spans, limit, limit) == limit
  {
    LeastStraddlingBounds(spans, limit, limit);
  }

  /** The stream may be cut at any position the search comes by. */
  lemma {:induction false} CutsWhereReached(p: Pattern, m: nat, mark: Unit, h: Text, held: Text, later: Text)
    requires 0 < p.size <= m + 1 && p.ahead == 0 && |held| == m && Reaches(p, h + held + later, 0, |h|)
    ensures CommitPoint(Marker(p, m, mark), h + held) == |h|
  {
    var e, all := Marker(p, m, mark), h + held;
    ReachesAlike(p, all, later, 0, |h|);
    ReachedIsUncut(p, h, held);
    UncutCommits(Hits(p, all, 0), |h|);
    assert h != [] ==> Limit(e, all) == |h|;
  }

  /** If such cuts change no matches, a match there does not depend on the text before. */
  lemma {:induction false} CutNeedsNoContext(p: Pattern, m: nat, h: Text, t: Text)
    requires 0 < p.size <= m + 1 && p.ahead == 0 && h != [] && m <= |t|
    requires Reaches(p, h + t, 0, |h|) && CommitsSplit(Marker(p, m, 0))
    ensures Hit(p, h + t, |h|) <==> Hit(p, t, 0)
  {
    var all, later := h + t[..m], t[m..];
    assert h + t == all + later && all[..|h|] == h && all[|h|..] + later == t;
    CutsWhereReached(p, m, 0, h, t[..m], later);
    assert SplitAt(Search(p), all, |h|, later);
    ReachesSplit(p, h, t, 0);
    SamePrefix(Hits(p, h, 0), Hits(p, h + t, |h|), Shift(Hits(p, t, 0), |h|));
    StartsWithHit(p, h + t, |h|);
    StartsWithHit(p, t, 0);
  }

  lemma {:induction false} StartsWithHit(p: Pattern, x: Text, from: nat)
    requires p.size > 0
    ensures Hits(p, x, from) != [] && Hits(p, x, from)[0].start == from <==> Hit(p, x, from)
  {
    if from + p.size <= |x| && !Hit(p, x, from) {
      HitsProper(p, x, from + 1);
      var rest := Hits(p, x, from + 1);
      if rest != [] { assert rest[0] in rest; }
    }
  }

  /** Where a search first goes another way than one without context. */
  lemma {:induction false} Diverges(p: Pattern, x: Text, from: nat) returns (at: nat)
    requires p.size > 0 && Hits(p, x, from) != Hits(Bare(p), x, from)
    ensures at + p.size <= |x| && Reaches(p, x, from, at) && (Hit(p, x, at) <==> !Hit(Bare(p), x, at))
    decreases |x| - from
  {
    if Hit(p, x, from) <==> !Hit(Bare(p), x, from) {
      at := from;
    } else {
      at := Diverges(p, x, if Hit(p, x, from) then from + p.size else from + 1);
      ReachesForward(p, x, if Hit(p, x, from) then from + p.size else from + 1, at);
    }
  }

  lemma {:induction false} ContextSize(p: Pattern, x: Text, at: nat)
    requires at + p.size <= |x|
    ensures |Before(p, x, at)| <= at && |After(p, x, at + p.size)| <= p.ahead
  {
  }

  lemma {:induction false} MatchesAlone(p: Pattern, before: Text, body: Text, after: Text)
    requires |before| == 0 && |after| == 0
    ensures p.matches(before, body, after) == p.matches([], body, [])
  {
    assert before == [] && after == [];
  }

  /** At the start of a text there is no context. */
  lemma {:induction false} StartsBare(p: Pattern, t: Text)
    requires p.ahead == 0
    ensures Hit(p, t, 0) <==> Hit(Bare(p), t, 0)
  {
    BareHit(p, t, 0);
    if 0 + p.size <= |t| {
      ContextSize(p, t, 0);
      MatchesAlone(p, Before(p, t, 0), t[0..0 + p.size], After(p, t, 0 + p.size));
    }
  }

  lemma {:induction false} NoContextAt(p: Pattern, m: nat, h: Text, t: Text)
    requires 0 < p.size <= m + 1 && p.ahead == 0 && m <= |t|
    requires Reaches(p, h + t, 0, |h|) && CommitsSplit(Marker(p, m, 0))
    ensures Hit(p, h + t, |h|) <==> Hit(Bare(p), h + t, |h|)
  {
    StartsBare(p, t);
    HitMoved(Bare(p), h, t, 0, |h|);
    if h == [] {
      assert h + t == t;
    } else {
      CutNeedsNoContext(p, m, h, t);
    }
  }

  lemma {:induction false} NoContextIn(p: Pattern, m: nat, x: Text, at: nat)
    requires 0 < p.size <= m + 1 && p.ahead == 0 && CommitsSplit(Marker(p, m, 0))
    requires at + p.size <= |x| && Reaches(p, x, 0, at)
    ensures Hit(p, x, at) <==> Hit(Bare(p), x, at)
  {
    var filler: Text := seq(m, _ => 0);
    var h, t := x[..at], x[at..] + filler;
    assert h + t == x + filler;
    ReachesLonger(p, x, filler, 0, at);
    HitLonger(p, x, filler, at);
    HitLonger(Bare(p), x, filler, at);
    NoContextAt(p, m, h, t);
  }

  /** A stream that always is one-shot protected has a rule whose context decides nothing. */
  lemma {:induction false} OneShotNeedsContextFree(p: Pattern, m: nat)
    requires 0 < p.size <= m + 1 && p.ahead == 0 && AlwaysOneShot(Marker(p, m, 0))
    ensures ContextFree(p)
  {
    MarkerMarks(p, m, 0);
    OneShotExact(Marker(p, m, 0));
    forall x: Text ensures Hits(p, x, 0) == Hits(Bare(p), x, 0) {
      if Hits(p, x, 0) != Hits(Bare(p), x, 0) {
        var at := Diverges(p, x, 0);
        NoContextIn(p, m, x, at);
        assert false;
      }
    }
  }

  // ----- Matches longer than the hold-back -----

  lemma {:induction false} NothingFound(p: Pattern, x: Text, from: nat)
    requires p.size > 0 && forall i: nat :: from <= i && i + p.size <= |x| ==> !Hit(p, x, i)
    ensures Hits(p, x, from) == []
    decreases |x| - from
  {
    if from + p.size > |x| {
    } else {
      NothingFound(p, x, from + 1);
    }
  }

  /** What is found when a text has one match. */
  lemma {:induction false} OneFound(p: Pattern, x: Text, from: nat, at: nat)
    requires p.size > 0 && from <= at && Hit(p, x, at)
    requires forall i: nat :: i != at && i + p.size <= |x| ==> !Hit(p, x, i)
    ensures Hits(p, x, from) == [SpanAt(p, at)]
    decreases at - from
  {
    if from == at {
      NothingFound(p, x, at + p.size);
    } else {
      OneFound(p, x, from + 1, at);
    }
  }

  lemma {:induction false} FirstFound(p: Pattern, x: Text, from: nat) returns (at: nat)
    requires p.size > 0 && Hits(p, x, from) != [] && forall i: nat :: i < from ==> !Hit(p, x, i)
    ensures Hit(p, x, at) && forall i: nat :: i < at ==> !Hit(p, x, i)
    decreases |x| - from
  {
    if Hit(p, x, from) {
      at := from;
    } else {
      at := FirstFound(p, x, from + 1);
    }
  }

  lemma {:induction false} PlainSegment(e: Engine, x: Text)
    requires e.detect(x) == []
    ensures TransformSegment(e, x) == Emission(x, false)
  {
  }

  /** Where nothing is found, all but the hold-back comes out as it is. */
  lemma {:induction false} PlainPush(e: Engine, head: Text, held: Text)
    requires head != [] && |held| == e.maxMatch && e.detect(head + held) == [] && e.detect(head) == []
    ensures PushStep(e, [], head + held) == (held, Emission(head, false))
  {
    var all, c := head + held, |head|;
    assert [] + all == all && CommitPoint(e, all) == c;
    assert Slice(all, 0, c) == head && Slice(all, c, |all|) == held;
  }

  lemma {:induction false} LastPush(e: Engine, all: Text, held: Text, out: Emission)
    requires PushStep(e, [], all) == (held, out)
    ensures Stream(e, [], [Delta(all)]) == Then(out, FlushStep(e, held))
  {
    assert [Delta(all)][1..] == [];
  }

  lemma {:induction false} PlainDelta(e: Engine, head: Text, held: Text)
    requires head != [] && |held| == e.maxMatch && e.detect(head + held) == [] && e.detect(head) == []
      && e.detect(held) == []
    ensures Stream(e, [], [Delta(head + held)]) == Emission(head + held, false)
  {
    PlainPush(e, head, held);
    LastPush(e, head + held, held, Emission(head, false));
    assert FlushStep(e, held) == Emission(held, false);
  }

  lemma {:induction false} PlainTwo(e: Engine, head: Text, held: Text, last: Text)
    requires head != [] && |held| == e.maxMatch && e.detect(head + held) == [] && e.detect(head) == []
    requires Stream(e, [], [Delta(held + last)]) == Emission(held + last, false)
    ensures Stream(e, [], [Delta(head + held), Delta(last)]) == Emission(head + held + last, false)
  {
    PlainPush(e, head, held);
    StreamTwo(e, head + held, last, held, Emission(head, false));
    Regroup(head, held, last);
  }

  /**
   A match of maxMatch + 2 units or more can pass through unprotected when the
   first delta brings all but its last unit, though in one piece it is replaced.
   */
  lemma {:induction false} LongMatchEscapes(p: Pattern, m: nat, mark: Unit, secret: Text, at: nat)
    requires m + 2 <= p.size && p.ahead == 0 && |secret| == at + p.size && Hit(p, secret, at)
    requires forall i: nat :: i < at ==> !Hit(p, secret, i)
    ensures var e, n := Marker(p, m, mark), |secret| - 1;
      && Stream(e, [], [Delta(secret[..n]), Delta(secret[n..])]) == Emission(secret, false)
      && TransformSegment(e, secret) == Emission(secret[..at] + [mark], false)
  {
    var e, n := Marker(p, m, mark), |secret| - 1;
    LongStream(p, m, mark, secret, at);
    OneFound(p, secret, 0, at);
    OneReplaced(e, secret, SpanAt(p, at));
    assert [mark] + secret[at + p.size..] == [mark];
  }

  lemma {:induction false} LongStream(p: Pattern, m: nat, mark: Unit, secret: Text, at: nat)
    requires m + 2 <= p.size && p.ahead == 0 && |secret| == at + p.size
    requires forall i: nat :: i < at ==> !Hit(p, secret, i)
    ensures var n := |secret| - 1;
      Stream(Marker(p, m, mark), [], [Delta(secret[..n]), Delta(secret[n..])]) == Emission(secret, false)
  {
    var n := |secret| - 1;
    var head, held, last := secret[..n - m], secret[n - m..n], secret[n..];
    assert head + held == secret[..n] && head + held + last == secret;
    PrefixPlain(p, secret, at, n);
    PrefixPlain(p, secret, at, n - m);
    ShortPlain(p, m, mark, held + last);
    PlainTwo(Marker(p, m, mark), head, held, last);
  }

  lemma {:induction false} PrefixPlain(p: Pattern, secret: Text, at: nat, k: nat)
    requires p.size > 0 && p.ahead == 0 && k < |secret| == at + p.size
    requires forall i: nat :: i < at ==> !Hit(p, secret, i)
    ensures Hits(p, secret[..k], 0) == []
  {
    assert secret == secret[..k] + secret[k..];
    forall i: nat | i + p.size <= k ensures !Hit(p, secret[..k], i) { HitLonger(p, secret[..k], secret[k..], i); }
    NothingFound(p, secret[..k], 0);
  }

  lemma {:induction false} ShortPlain(p: Pattern, m: nat, mark: Unit, x: Text)
    requires m < |x| < p.size
    ensures Stream(Marker(p, m, mark), [], [Delta(x)]) == Emission(x, false)
  {
    var c := |x| - m;
    assert x == x[..c] + x[c..];
    PlainDelta(Marker(p, m, mark), x[..c], x[c..]);
  }

  /** One match, replaced: the text around it stays. */
  lemma {:induction false} OneReplaced(e: Engine, x: Text, s: Span)
    requires e.enforced && e.detect(x) == [s] && s.start <= s.end <= |x| && Verdict(e, x, s).Replace?
    ensures TransformSegment(e, x) == Emission(x[..s.start] + (Verdict(e, x, s).mask + x[s.end..]), false)
  {
    assert [s][1..] == [];
    assert Replaceable(e, x, []) == [] && SortByStart([]) == [];
    assert Replaceable(e, x, [s]) == [s] && SortByStart([s]) == [s];
    assert Rewritten(e, x, [], s.end) == x[s.end..];
    assert Slice(x, 0, s.start) == x[..s.start];
  }

  /** Up to its first match a text is one in which a match stands at the end. */
  lemma {:induction false} FirstMatch(p: Pattern, x: Text) returns (secret: Text, at: nat)
    requires p.size > 0 && p.ahead == 0 && Hits(p, x, 0) != []
    ensures |secret| == at + p.size && Hit(p, secret, at) && forall i: nat :: i < at ==> !Hit(p, secret, i)
  {
    at := FirstFound(p, x, 0);
    secret := x[..at + p.size];
    assert x == secret + x[at + p.size..];
    forall i: nat | i <= at ensures Hit(p, secret, i) <==> Hit(p, x, i) { HitLonger(p, secret, x[at + p.size..], i); }
  }

  lemma {:induction false} LongDiffers(p: Pattern, m: nat, secret: Text, at: nat)
    requires m + 2 <= p.size && p.ahead == 0 && |secret| == at + p.size && Hit(p, secret, at)
    requires forall i: nat :: i < at ==> !Hit(p, secret, i)
    ensures var e, n := Marker(p, m, 0), |secret| - 1;
      Stream(e, [], [Delta(secret[..n]), Delta(secret[n..])]) != TransformSegment(e, secret)
  {
    LongMatchEscapes(p, m, 0, secret, at);
    assert |secret[..at] + [0]| < |secret|;
  }

  lemma {:induction false} LongNotOneShot(p: Pattern, m: nat, x: Text)
    requires m + 2 <= p.size && p.ahead == 0 && Hits(p, x, 0) != []
    ensures !AlwaysOneShot(Marker(p, m, 0))
  {
    var secret, at := FirstMatch(p, x);
    var a, b := secret[..|secret| - 1], secret[|secret| - 1..];
    LongDiffers(p, m, secret, at);
    FlattenTwo(a, b);
    assert a + b == secret;
    if AlwaysOneShot(Marker(p, m, 0)) {
      MarkerMarks(p, m, 0);
      MarkerSegment(p, m, 0, secret);
      ComesOutMarked(Marker(p, m, 0), [Delta(a), Delta(b)]);
      assert false;
    }
  }

  /**
   For a rule that finds something in some text, streaming always is one-shot
   protection if and only if a match has at most one unit more than the hold-back
   and the text before a match decides nothing.
   */
  lemma {:induction false} HoldBackExact(p: Pattern, m: nat, x: Text)
    requires p.size > 0 && p.ahead == 0 && Hits(p, x, 0) != []
    ensures AlwaysOneShot(Marker(p, m, 0)) <==> p.size <= m + 1 && ContextFree(p)
  {
    if p.size > m + 1 {
      LongNotOneShot(p, m, x);
    } else if ContextFree(p) {
      SearchBounded(p, m);
      MarkerMarks(p, m, 0);
      BoundedSplits(Marker(p, m, 0));
      OneShotExact(Marker(p, m, 0));
    } else if AlwaysOneShot(Marker(p, m, 0)) {
      OneShotNeedsContextFree(p, m);
      assert false;
    }
  }

  // ----- Rules that need the text before a match -----

  /** Without all its context before it nothing matches, as with a look-behind. */
  ghost predicate NeedsContext(p: Pattern) {
    p.behind > 0 && forall b, body, a :: p.matches(b, body, a) ==> |b| == p.behind
  }

  /** A text in which the rule matches at one position only. */
  ghost predicate OnlyHit(p: Pattern, x: Text, at: nat) {
    Hit(p, x, at) && forall i: nat :: i != at && i + p.size <= |x| ==> !Hit(p, x, i)
  }

  lemma {:induction false} HeadPlain(p: Pattern, h: Text, t: Text)
    requires p.size > 0 && p.ahead == 0 && OnlyHit(p, h + t, |h|)
    ensures Hits(p, h, 0) == []
  {
    forall i: nat | i + p.size <= |h| ensures !Hit(p, h, i) { HitLonger(p, h, t, i); }
    NothingFound(p, h, 0);
  }

  lemma {:induction false} TailPlain(p: Pattern, h: Text, t: Text)
    requires p.size > 0 && NeedsContext(p) && OnlyHit(p, h + t, |h|)
    ensures Hits(p, t, 0) == []
  {
    forall i: nat | i + p.size <= |t| ensures !Hit(p, t, i) {
      if p.behind <= i { HitMoved(p, h, t, i, |h| + i); }
    }
    NothingFound(p, t, 0);
  }

  /**
   A match far shorter than the hold-back escapes: when the end of the held text
   comes to lie in it, the text before it is emitted, and what is held no longer
   has the context that made it a match. That the rule's matches are disjoint and
   seen whole does not help; it is finding the same after a cut that fails.
   */
  lemma {:induction false} LookBehindEscapes(p: Pattern, m: nat, mark: Unit, h: Text, t: Text)
    requires 0 < p.size <= m + 1 && p.ahead == 0 && NeedsContext(p) && OnlyHit(p, h + t, |h|)
    requires m <= |t| < m + p.size
    ensures Local(Search(p), m) && !SeparableAt(Search(p), h + t, |h|)
    ensures var e := Marker(p, m, mark);
      && TransformSegment(e, h + t) == Emission(h + ([mark] + t[p.size..]), false)
      && Stream(e, [], [Delta(h + t)]) == Emission(h + t, false)
  {
    SearchLocal(p, m);
    OneFound(p, h + t, 0, |h|);
    HeadPlain(p, h, t);
    TailPlain(p, h, t);
    NotSeparable(p, h, t);
    ReplacedBehind(p, m, mark, h, t);
    EscapingPush(p, m, mark, h, t);
    EscapingStream(p, m, mark, h, t);
  }

  lemma {:induction false} NotSeparable(p: Pattern, h: Text, t: Text)
    requires p.size > 0 && Hits(p, h + t, 0) == [SpanAt(p, |h|)] && Hits(p, h, 0) == [] && Hits(p, t, 0) == []
    ensures !SeparableAt(Search(p), h + t, |h|)
  {
    assert (h + t)[..|h|] == h && (h + t)[|h|..] == t;
  }

  lemma {:induction false} ReplacedBehind(p: Pattern, m: nat, mark: Unit, h: Text, t: Text)
    requires 0 < p.size <= |t| && Hits(p, h + t, 0) == [SpanAt(p, |h|)]
    ensures TransformSegment(Marker(p, m, mark), h + t) == Emission(h + ([mark] + t[p.size..]), false)
  {
    OneReplaced(Marker(p, m, mark), h + t, SpanAt(p, |h|));
    assert (h + t)[..|h|] == h && (h + t)[|h| + p.size..] == t[p.size..];
  }

  lemma {:induction false} EscapingStream(p: Pattern, m: nat, mark: Unit, h: Text, t: Text)
    requires p.size > 0 && PushStep(Marker(p, m, mark), [], h + t) == (t, Emission(h, false)) && Hits(p, t, 0) == []
    ensures Stream(Marker(p, m, mark), [], [Delta(h + t)]) == Emission(h + t, false)
  {
    var e := Marker(p, m, mark);
    LastPush(e, h + t, t, Emission(h, false));
    assert FlushStep(e, t) == Emission(t, false);
  }

  lemma {:induction false} OneStraddler(s: Span, limit: nat)
    requires s.start <= limit < s.end
    ensures LeastStraddling([s], limit, limit) == s.start
  {
    assert [s][1..] == [];
  }

  lemma {:induction false} EscapingPush(p: Pattern, m: nat, mark: Unit, h: Text, t: Text)
    requires p.size > 0 && m <= |t| < m + p.size && h != []
    requires Hits(p, h + t, 0) == [SpanAt(p, |h|)] && Hits(p, h, 0) == []
    ensures PushStep(Marker(p, m, mark), [], h + t) == (t, Emission(h, false))
  {
    var e, x := Marker(p, m, mark), h + t;
    assert [] + x == x && Limit(e, x) == |x| - m;
    OneStraddler(SpanAt(p, |h|), |x| - m);
    assert Slice(x, 0, |h|) == h && Slice(x, |h|, |x|) == t;
    PlainSegment(e, h);
  }

  // ----- The default rule for assigned secrets -----

  /** A unit of `[A-Za-z0-9._~+/-]`. */
  predicate ValueUnit(u: Unit) {
    || 48 <= u <= 57 || 65 <= u <= 90 || 97 <= u <= 122
    || u == 46 || u == 95 || u == 126 || u == 43 || u == 47 || u == 45
  }

  /** A value of n units right after a key, as the default secret rule looks for it behind the match. */
  ghost function Assigned(key: Text, n: nat): Pattern {
    Pattern(n, |key|, 0, (before, body, _) => before == key && forall i :: 0 <= i < |body| ==> ValueUnit(body[i]))
  }

  lemma {:induction false} AssignedHit(key: Text, n: nat, x: Text, at: nat)
    requires at + n <= |x|
    ensures Hit(Assigned(key, n), x, at)
       <==> |key| <= at && x[at - |key|..at] == key && forall i :: at <= i < at + n ==> ValueUnit(x[i])
  {
    var p := Assigned(key, n);
    var body := x[at..at + n];
    assert forall i :: at <= i < at + n ==> x[i] == body[i - at];
    if at < |key| { assert |Before(p, x, at)| < |key|; }
  }

  lemma {:induction false} AssignedThere(key: Text, secret: Text, filler: Text)
    requires forall i :: 0 <= i < |secret| ==> ValueUnit(secret[i])
    ensures Hit(Assigned(key, |secret|), key + (secret + filler), |key|)
  {
    var x, k, n := key + (secret + filler), |key|, |secret|;
    assert x[0..k] == key;
    forall i | k <= i < k + n ensures ValueUnit(x[i]) { assert x[i] == secret[i - k]; }
    AssignedHit(key, n, x, k);
  }

  lemma {:induction false} NotAssigned(key: Text, secret: Text, filler: Text, at: nat)
    requires secret != [] && at != |key| && at + |secret| <= |key| + |secret| + |filler|
    requires forall i :: 0 <= i < |filler| ==> !ValueUnit(filler[i])
    ensures !Hit(Assigned(key, |secret|), key + (secret + filler), at)
  {
    var x, k, n := key + (secret + filler), |key|, |secret|;
    AssignedHit(key, n, x, at);
    if at > k {
      assert x[at + n - 1] == filler[at - k - 1];
      assert at <= at + n - 1 < at + n;
    }
  }

  /** A text that holds one assignment, with other text behind it. */
  lemma {:induction false} OneAssignment(key: Text, secret: Text, filler: Text)
    requires secret != [] && (forall i :: 0 <= i < |secret| ==> ValueUnit(secret[i]))
    requires forall i :: 0 <= i < |filler| ==> !ValueUnit(filler[i])
    ensures OnlyHit(Assigned(key, |secret|), key + (secret + filler), |key|)
  {
    AssignedThere(key, secret, filler);
    var x := key + (secret + filler);
    forall i: nat | i != |key| && i + |secret| <= |x| ensures !Hit(Assigned(key, |secret|), x, i) {
      NotAssigned(key, secret, filler, i);
    }
  }

  /** However long the hold-back is, a secret of fewer units than it can be streamed out as it is. */
  lemma {:induction false} AssignmentEscapes(key: Text, secret: Text, filler: Text, m: nat, mark: Unit)
    requires key != [] && secret != [] && |secret| <= m <= |secret| + |filler| < m + |secret|
    requires forall i :: 0 <= i < |secret| ==> ValueUnit(secret[i])
    requires forall i :: 0 <= i < |filler| ==> !ValueUnit(filler[i])
    ensures var e, text := Marker(Assigned(key, |secret|), m, mark), key + (secret + filler);
      && TransformSegment(e, text) == Emission(key + ([mark] + filler), false)
      && Stream(e, [], [Delta(text)]) == Emission(text, false)
  {
    var p, t := Assigned(key, |secret|), secret + filler;
    OneAssignment(key, secret, filler);
    LookBehindEscapes(p, m, mark, key, t);
    assert t[|secret|..] == filler;
  }

  /** With the default hold-back of 256: `password: `, a secret of twenty units, and blanks. */
  lemma {:induction false} PasswordEscapes(secret: Text)
    requires |secret| == 20 && forall i :: 0 <= i < |secret| ==> ValueUnit(secret[i])
    ensures var key, blanks := Ascii("password: "), seq(240, _ => 32);
      var e, text := Marker(Assigned(key, 20), 256, 42), key + (secret + blanks);
      && TransformSegment(e, text) == Emission(key + ([42] + blanks), false)
      && Stream(e, [], [Delta(text)]) == Emission(text, false)
  {
    var blanks: Text := seq(240, _ => 32);
    AssignmentEscapes(Ascii("password: "), secret, blanks, 256, 42);
  }
}
