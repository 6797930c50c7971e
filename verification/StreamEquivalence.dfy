/**
 When streaming changes nothing: for a detector that finds matches by looking at
 most `maxMatch` units beyond their first one, and that finds the same
 in two halves of a text cut outside any match, a stream is protected exactly as
 its text would be in one piece, however it is cut into chunks.
 */
module StreamEquivalence {
  import opened Texts
  import opened Spans
  import opened StreamProtector

  function Moved(s: Span, c: nat): Span {
    Span(s.start + c, s.end + c, s.kind)
  }

  function Shift(spans: seq<Span>, c: nat): (r: seq<Span>)
    ensures |r| == |spans|
    ensures forall i :: 0 <= i < |spans| ==> r[i] == Moved(spans[i], c)
  {
    seq(|spans|, i requires 0 <= i < |spans| => Moved(spans[i], c))
  }

  lemma {:induction false} SliceTail(h: Text, t: Text, from: nat, to: nat)
    ensures Slice(h + t, from + |h|, to + |h|) == Slice(t, from, to)
  {
  }

  lemma {:induction false} SliceHead(h: Text, t: Text, from: nat, to: nat)
    requires to <= |h|
    ensures Slice(h + t, from, to) == Slice(h, from, to)
  {
  }

  lemma {:induction false} SliceAcross(h: Text, t: Text, from: nat, to: nat)
    requires from <= |h|
    ensures Slice(h + t, from, to + |h|) == Slice(h, from, |h|) + Slice(t, 0, to)
  {
    var k := if to < |t| then to else |t|;
    assert (h + t)[from..|h| + k] == h[from..] + t[..k];
  }

  // ----- Assumptions on the detector -----

  /** Overlaps have been removed. */
  ghost predicate ProperAt(detect: Detector, x: Text) {
    Within(detect(x), |x|) && Disjoint(detect(x))
  }

  ghost predicate Orderly(detect: Detector) {
    forall x {:trigger ProperAt(detect, x)} :: ProperAt(detect, x)
  }

  /** Nor is a match empty. */
  ghost predicate SolidAt(detect: Detector, x: Text) {
    ProperAt(detect, x) && forall s :: s in detect(x) ==> s.start < s.end
  }

  ghost predicate Solid(detect: Detector) {
    forall x {:trigger SolidAt(detect, x)} :: SolidAt(detect, x)
  }

  /** More text at the end changes no match that starts more than `m` units before it. */
  ghost predicate LocalAt(detect: Detector, m: nat, x: Text, y: Text) {
    forall s: Span :: s.start + m < |x| ==> (s in detect(x + y) <==> s in detect(x))
  }

  /** Cutting outside of every match leaves the matches of the two halves. */
  ghost predicate SeparableAt(detect: Detector, x: Text, c: nat) {
    c <= |x| && Uncut(detect(x), c) ==> detect(x) == detect(x[..c]) + Shift(detect(x[c..]), c)
  }

  /** Matches are disjoint, and the hold-back is long enough to see them whole. */
  ghost predicate Local(detect: Detector, m: nat) {
    && Orderly(detect)
    && (forall x, y {:trigger LocalAt(detect, m, x, y)} :: LocalAt(detect, m, x, y))
  }

  ghost predicate Bounded(detect: Detector, m: nat) {
    && Local(detect, m)
    && (forall x, c: nat {:trigger SeparableAt(detect, x, c)} :: SeparableAt(detect, x, c))
  }

  ghost predicate SolidSpans(spans: seq<Span>, from: nat, n: nat) {
    && Within(spans, n) && Disjoint(spans)
    && forall s :: s in spans ==> from <= s.start < s.end
  }

  lemma {:induction false} SolidCons(s: Span, rest: seq<Span>, from: nat, n: nat)
    requires from <= s.start < s.end <= n && SolidSpans(rest, s.end, n)
    ensures SolidSpans([s] + rest, from, n)
  {
    assert forall j :: 0 <= j < |rest| ==> rest[j] in rest;
  }

  lemma {:induction false} SolidFrom(spans: seq<Span>, from: nat, later: nat, n: nat)
    requires SolidSpans(spans, later, n) && from <= later
    ensures SolidSpans(spans, from, n)
  {
  }

  lemma {:induction false} SolidTail(s: Span, rest: seq<Span>, from: nat, n: nat)
    requires SolidSpans([s] + rest, from, n)
    ensures from <= s.start < s.end <= n && SolidSpans(rest, s.end, n)
  {
    var all := [s] + rest;
    assert all[0] == s && forall j :: 0 <= j < |rest| ==> all[j + 1] == rest[j];
    forall r | r in rest ensures s.end <= r.start < r.end {
      assert r in all;
      var j :| 0 <= j < |rest| && rest[j] == r;
      assert all[j + 1] == r;
    }
  }

  /** The matches of a text are those of its two parts, cut at c. */
  ghost predicate SplitAt(detect: Detector, x: Text, c: nat, later: Text) {
    c <= |x| && detect(x + later) == detect(x[..c]) + Shift(detect(x[c..] + later), c)
  }

  /** So they are whatever text follows. */
  ghost predicate StaysSplit(detect: Detector, x: Text, c: nat) {
    forall later: Text {:trigger SplitAt(detect, x, c, later)} :: SplitAt(detect, x, c, later)
  }

  /** Whatever is committed, its matches and those of the rest of the text are all there are. */
  ghost predicate CommitsSplit(e: Engine) {
    forall all: Text {:trigger CommitPoint(e, all)} ::
      CommitPoint(e, all) > 0 ==> StaysSplit(e.detect, all, CommitPoint(e, all))
  }

  // ----- Rewriting two halves -----

  lemma {:induction false} VerdictInHead(e: Engine, h: Text, t: Text, s: Span)
    requires s.end <= |h|
    ensures Verdict(e, h + t, s) == Verdict(e, h, s)
  {
    SliceHead(h, t, s.start, s.end);
  }

  lemma {:induction false} VerdictInTail(e: Engine, h: Text, t: Text, s: Span)
    ensures Verdict(e, h + t, Moved(s, |h|)) == Verdict(e, t, s)
  {
    SliceTail(h, t, s.start, s.end);
  }

  function IfReplaced(e: Engine, x: Text, s: Span): seq<Span> {
    if Verdict(e, x, s).Replace? then [s] else []
  }

  lemma {:induction false} ReplaceableCons(e: Engine, x: Text, s: Span, rest: seq<Span>)
    ensures Replaceable(e, x, [s] + rest) == IfReplaced(e, x, s) + Replaceable(e, x, rest)
  {
    assert ([s] + rest)[1..] == rest;
  }

  lemma {:induction false} ShiftAppend(a: seq<Span>, b: seq<Span>, c: nat)
    ensures Shift(a + b, c) == Shift(a, c) + Shift(b, c)
  {
  }

  lemma {:induction false} ReplaceableTail(e: Engine, h: Text, t: Text, spans: seq<Span>)
    ensures Replaceable(e, h + t, Shift(spans, |h|)) == Shift(Replaceable(e, t, spans), |h|)
  {
    if spans == [] {
    } else {
      var s, rest := spans[0], spans[1..];
      assert spans == [s] + rest;
      ReplaceableTail(e, h, t, rest);
      ReplaceableTailCons(e, h, t, s, rest);
    }
  }

  lemma {:induction false} ReplaceableTailCons(e: Engine, h: Text, t: Text, s: Span, rest: seq<Span>)
    requires Replaceable(e, h + t, Shift(rest, |h|)) == Shift(Replaceable(e, t, rest), |h|)
    ensures Replaceable(e, h + t, Shift([s] + rest, |h|)) == Shift(Replaceable(e, t, [s] + rest), |h|)
  {
    VerdictInTail(e, h, t, s);
    ReplaceableCons(e, t, s, rest);
    ReplaceableCons(e, h + t, Moved(s, |h|), Shift(rest, |h|));
    assert Shift([s] + rest, |h|) == [Moved(s, |h|)] + Shift(rest, |h|);
    ShiftAppend(IfReplaced(e, t, s), Replaceable(e, t, rest), |h|);
    assert IfReplaced(e, h + t, Moved(s, |h|)) == Shift(IfReplaced(e, t, s), |h|);
  }

  lemma {:induction false} ReplaceableSplit(e: Engine, h: Text, t: Text, a: seq<Span>, b: seq<Span>)
    requires Within(a, |h|)
    ensures Replaceable(e, h + t, a + Shift(b, |h|)) == Replaceable(e, h, a) + Shift(Replaceable(e, t, b), |h|)
  {
    if a == [] {
      assert a + Shift(b, |h|) == Shift(b, |h|);
      ReplaceableTail(e, h, t, b);
    } else {
      var s, rest := a[0], a[1..];
      assert a == [s] + rest;
      ReplaceableSplit(e, h, t, rest, b);
      VerdictInHead(e, h, t, s);
      ReplaceableCons(e, h, s, rest);
      ReplaceableCons(e, h + t, s, rest + Shift(b, |h|));
      Regroup([s], rest, Shift(b, |h|));
      Regroup(IfReplaced(e, h, s), Replaceable(e, h, rest), Shift(Replaceable(e, t, b), |h|));
    }
  }

  /** One replacement: the text before it, the mask, and the rest after it. */
  lemma {:induction false} RewrittenCons(e: Engine, x: Text, s: Span, rest: seq<Span>, cursor: nat)
    ensures Rewritten(e, x, [s] + rest, cursor)
      == if s.start < cursor then Rewritten(e, x, rest, cursor)
         else Slice(x, cursor, s.start) + (Mask(Verdict(e, x, s)) + Rewritten(e, x, rest, s.end))
  {
    assert ([s] + rest)[1..] == rest;
  }

  lemma {:induction false} RewrittenTail(e: Engine, h: Text, t: Text, spans: seq<Span>, cursor: nat)
    ensures Rewritten(e, h + t, Shift(spans, |h|), cursor + |h|) == Rewritten(e, t, spans, cursor)
    decreases |spans|
  {
    if spans == [] {
      SliceTail(h, t, cursor, |t|);
    } else {
      var s, rest := spans[0], spans[1..];
      RewrittenTail(e, h, t, rest, if s.start < cursor then cursor else s.end);
      RewrittenTailCons(e, h, t, s, rest, cursor);
      assert spans == [s] + rest && Shift(spans, |h|) == [Moved(s, |h|)] + Shift(rest, |h|);
    }
  }

  /** Two rewritings that agree on the first span and on the rest agree. */
  lemma {:induction false} RewrittenAlike(e: Engine, x: Text, s: Span, rest: seq<Span>, cursor: nat,
                                          x': Text, s': Span, rest': seq<Span>, cursor': nat)
    requires s.start < cursor <==> s'.start < cursor'
    requires s.start < cursor ==> Rewritten(e, x, rest, cursor) == Rewritten(e, x', rest', cursor')
    requires s.start >= cursor ==>
      && Slice(x, cursor, s.start) == Slice(x', cursor', s'.start) && Verdict(e, x, s) == Verdict(e, x', s')
      && Rewritten(e, x, rest, s.end) == Rewritten(e, x', rest', s'.end)
    ensures Rewritten(e, x, [s] + rest, cursor) == Rewritten(e, x', [s'] + rest', cursor')
  {
    RewrittenCons(e, x, s, rest, cursor);
    RewrittenCons(e, x', s', rest', cursor');
  }

  lemma {:induction false} RewrittenTailCons(e: Engine, h: Text, t: Text, s: Span, rest: seq<Span>, cursor: nat)
    requires var next := if s.start < cursor then cursor else s.end;
      Rewritten(e, h + t, Shift(rest, |h|), next + |h|) == Rewritten(e, t, rest, next)
    ensures Rewritten(e, h + t, [Moved(s, |h|)] + Shift(rest, |h|), cursor + |h|) == Rewritten(e, t, [s] + rest, cursor)
  {
    VerdictInTail(e, h, t, s);
    SliceTail(h, t, cursor, s.start);
    RewrittenAlike(e, h + t, Moved(s, |h|), Shift(rest, |h|), cursor + |h|, t, s, rest, cursor);
  }

  lemma {:induction false} RewrittenAcross(e: Engine, h: Text, t: Text, spans: seq<Span>, cursor: nat)
    requires cursor <= |h|
    ensures Rewritten(e, h + t, Shift(spans, |h|), cursor) == Slice(h, cursor, |h|) + Rewritten(e, t, spans, 0)
  {
    if spans == [] {
      SliceAcross(h, t, cursor, |t|);
    } else {
      var s, rest := spans[0], spans[1..];
      assert spans == [s] + rest && Shift(spans, |h|) == [Moved(s, |h|)] + Shift(rest, |h|);
      RewrittenAcrossCons(e, h, t, s, rest, cursor);
    }
  }

  /** Likewise when one of them has more text before the first span. */
  lemma {:induction false} RewrittenAfter(e: Engine, before: Text, x: Text, s: Span, rest: seq<Span>, cursor: nat,
                                          x': Text, s': Span, rest': seq<Span>, cursor': nat)
    requires cursor <= s.start && cursor' <= s'.start
    requires Slice(x, cursor, s.start) == before + Slice(x', cursor', s'.start)
    requires Verdict(e, x, s) == Verdict(e, x', s') && Rewritten(e, x, rest, s.end) == Rewritten(e, x', rest', s'.end)
    ensures Rewritten(e, x, [s] + rest, cursor) == before + Rewritten(e, x', [s'] + rest', cursor')
  {
    RewrittenCons(e, x, s, rest, cursor);
    RewrittenCons(e, x', s', rest', cursor');
    Regroup(before, Slice(x', cursor', s'.start), Mask(Verdict(e, x, s)) + Rewritten(e, x, rest, s.end));
  }

  lemma {:induction false} RewrittenAcrossCons(e: Engine, h: Text, t: Text, s: Span, rest: seq<Span>, cursor: nat)
    requires cursor <= |h|
    ensures Rewritten(e, h + t, [Moved(s, |h|)] + Shift(rest, |h|), cursor)
         == Slice(h, cursor, |h|) + Rewritten(e, t, [s] + rest, 0)
  {
    RewrittenTail(e, h, t, rest, s.end);
    VerdictInTail(e, h, t, s);
    SliceAcross(h, t, cursor, s.start);
    RewrittenAfter(e, Slice(h, cursor, |h|), h + t, Moved(s, |h|), Shift(rest, |h|), cursor, t, s, rest, 0);
  }

  lemma {:induction false} RewrittenSplit(e: Engine, h: Text, t: Text, a: seq<Span>, b: seq<Span>, cursor: nat)
    requires cursor <= |h| && Within(a, |h|)
    ensures Rewritten(e, h + t, a + Shift(b, |h|), cursor) == Rewritten(e, h, a, cursor) + Rewritten(e, t, b, 0)
    decreases |a|
  {
    if a == [] {
      assert a + Shift(b, |h|) == Shift(b, |h|);
      RewrittenAcross(e, h, t, b, cursor);
    } else {
      var s, rest := a[0], a[1..];
      assert a == [s] + rest;
      RewrittenSplit(e, h, t, rest, b, if s.start < cursor then cursor else s.end);
      RewrittenSplitCons(e, h, t, s, rest, b, cursor);
    }
  }

  lemma {:induction false} RewrittenSplitCons(e: Engine, h: Text, t: Text, s: Span, rest: seq<Span>, b: seq<Span>,
                                              cursor: nat)
    requires cursor <= |h| && s.start <= s.end <= |h|
    requires var next := if s.start < cursor then cursor else s.end;
      Rewritten(e, h + t, rest + Shift(b, |h|), next) == Rewritten(e, h, rest, next) + Rewritten(e, t, b, 0)
    ensures Rewritten(e, h + t, [s] + rest + Shift(b, |h|), cursor)
      == Rewritten(e, h, [s] + rest, cursor) + Rewritten(e, t, b, 0)
  {
    Regroup([s], rest, Shift(b, |h|));
    RewrittenCons(e, h, s, rest, cursor);
    RewrittenCons(e, h + t, s, rest + Shift(b, |h|), cursor);
    VerdictInHead(e, h, t, s);
    SliceHead(h, t, cursor, s.start);
    var mask, tail, last := Mask(Verdict(e, h, s)), Rewritten(e, h, rest, s.end), Rewritten(e, t, b, 0);
    Regroup(mask, tail, last);
    Regroup(Slice(h, cursor, s.start), mask + tail, last);
  }

  // ----- Order -----

  lemma {:induction false} SortOrdered(spans: seq<Span>)
    requires Ordered(spans)
    ensures SortByStart(spans) == spans
  {
    if spans == [] {
    } else {
      SortOrdered(spans[1..]);
    }
  }

  lemma {:induction false} ReplaceableFrom(e: Engine, x: Text, spans: seq<Span>)
    ensures forall s :: s in Replaceable(e, x, spans) ==> s in spans
  {
    if spans == [] {
    } else {
      ReplaceableFrom(e, x, spans[1..]);
    }
  }

  lemma {:induction false} ReplaceableOrdered(e: Engine, x: Text, spans: seq<Span>)
    requires Ordered(spans)
    ensures Ordered(Replaceable(e, x, spans))
  {
    if spans == [] {
    } else {
      var rest := Replaceable(e, x, spans[1..]);
      ReplaceableOrdered(e, x, spans[1..]);
      ReplaceableFrom(e, x, spans[1..]);
      assert forall j :: 0 <= j < |rest| ==> rest[j] in rest;
      assert forall s :: s in spans[1..] ==> spans[0].start <= s.start;
    }
  }

  lemma {:induction false} ReplaceableWithin(e: Engine, x: Text, spans: seq<Span>, n: nat)
    requires Within(spans, n)
    ensures Within(Replaceable(e, x, spans), n)
  {
    ReplaceableFrom(e, x, spans);
    var r := Replaceable(e, x, spans);
    assert forall j :: 0 <= j < |r| ==> r[j] in r;
  }

  lemma {:induction false} TransformedOrdered(e: Engine, x: Text)
    requires ProperAt(e.detect, x)
    ensures Transformed(e, x, e.detect(x)) == Rewritten(e, x, Replaceable(e, x, e.detect(x)), 0)
  {
    assert Ordered(e.detect(x));
    ReplaceableOrdered(e, x, e.detect(x));
    SortOrdered(Replaceable(e, x, e.detect(x)));
  }

  // ----- One piece or two -----

  /** What a text becomes when nothing in it blocks. */
  ghost function Clean(e: Engine, x: Text): Text {
    if e.enforced then Transformed(e, x, e.detect(x)) else x
  }

  ghost predicate Refused(e: Engine, x: Text) {
    e.enforced && Blocks(e, x, e.detect(x))
  }

  lemma {:induction false} SegmentMeaning(e: Engine, x: Text)
    ensures TransformSegment(e, x) == if Refused(e, x) then Emission([], true) else Emission(Clean(e, x), false)
  {
    assert Rewritten(e, x, [], 0) == x;
  }

  lemma {:induction false} TransformedSplit(e: Engine, h: Text, t: Text)
    requires ProperAt(e.detect, h + t) && ProperAt(e.detect, h) && ProperAt(e.detect, t)
    requires e.detect(h + t) == e.detect(h) + Shift(e.detect(t), |h|)
    ensures Transformed(e, h + t, e.detect(h + t)) == Transformed(e, h, e.detect(h)) + Transformed(e, t, e.detect(t))
  {
    TransformedOrdered(e, h + t);
    TransformedOrdered(e, h);
    TransformedOrdered(e, t);
    ReplaceableWithin(e, h, e.detect(h), |h|);
    ReplaceableSplit(e, h, t, e.detect(h), e.detect(t));
    RewrittenSplit(e, h, t, Replaceable(e, h, e.detect(h)), Replaceable(e, t, e.detect(t)), 0);
  }

  lemma {:induction false} BlocksSplit(e: Engine, h: Text, t: Text, a: seq<Span>, b: seq<Span>)
    requires Within(a, |h|)
    ensures Blocks(e, h + t, a + Shift(b, |h|)) <==> Blocks(e, h, a) || Blocks(e, t, b)
  {
    var both := a + Shift(b, |h|);
    forall i | 0 <= i < |a| ensures Verdict(e, h + t, both[i]) == Verdict(e, h, a[i]) {
      VerdictInHead(e, h, t, a[i]);
    }
    forall i | 0 <= i < |b| ensures Verdict(e, h + t, both[|a| + i]) == Verdict(e, t, b[i]) {
      VerdictInTail(e, h, t, b[i]);
    }
    if Blocks(e, h + t, both) {
      var i :| 0 <= i < |both| && Verdict(e, h + t, both[i]).Block?;
      assert i >= |a| ==> Verdict(e, h + t, both[|a| + (i - |a|)]) == Verdict(e, t, b[i - |a|]);
    }
  }

  /** A text whose matches are those of two pieces may be protected piece by piece. */
  lemma {:induction false} CleanSplit(e: Engine, x: Text, c: nat)
    requires SplitAt(e.detect, x, c, [])
    requires ProperAt(e.detect, x) && ProperAt(e.detect, x[..c]) && ProperAt(e.detect, x[c..])
    ensures Refused(e, x) <==> Refused(e, x[..c]) || Refused(e, x[c..])
    ensures Clean(e, x) == Clean(e, x[..c]) + Clean(e, x[c..])
  {
    var h, t := x[..c], x[c..];
    assert x == h + t && x + [] == x && t + [] == t;
    BlocksSplit(e, h, t, e.detect(h), e.detect(t));
    if e.enforced { TransformedSplit(e, h, t); }
  }

  // ----- Streams -----

  /** What is committed now stays outside every match, whatever text follows. */
  lemma {:induction false} CommitStaysUncut(e: Engine, all: Text, later: Text)
    requires Local(e.detect, e.maxMatch)
    ensures var c := CommitPoint(e, all); c <= |all| && Uncut(e.detect(all + later), c)
  {
    var c := CommitPoint(e, all);
    assert ProperAt(e.detect, all) && LocalAt(e.detect, e.maxMatch, all, later);
    CommitUncut(e, all);
    CommitBound(e, all);
    var spans := e.detect(all + later);
    forall i | 0 <= i < |spans| ensures spans[i].end <= c || c <= spans[i].start {
      var s := spans[i];
      assert s in spans;
      if s.start < c {
        assert s in e.detect(all);
        var k :| 0 <= k < |e.detect(all)| && e.detect(all)[k] == s;
      }
    }
  }

  lemma {:induction false} DetectsNothingInNothing(detect: Detector, m: nat)
    requires Bounded(detect, m)
    ensures detect([]) == []
  {
    var none: Text := [];
    assert SeparableAt(detect, none, 0) && ProperAt(detect, none);
    assert none[..0] == none && none[0..] == none;
    assert |detect(none)| == |detect(none)| + |Shift(detect(none), 0)|;
  }

  /** Where matches are bounded nothing that is committed splits them. */
  lemma {:induction false} BoundedSplits(e: Engine)
    requires Bounded(e.detect, e.maxMatch)
    ensures CommitsSplit(e)
  {
    forall all, later: Text ensures SplitAt(e.detect, all, CommitPoint(e, all), later) {
      var x, c := all + later, CommitPoint(e, all);
      CommitStaysUncut(e, all, later);
      assert SeparableAt(e.detect, x, c);
      assert x[..c] == all[..c] && x[c..] == all[c..] + later;
    }
  }

  /** The same block decision and, unless blocked, the same text. */
  ghost predicate Agrees(out: Emission, whole: Emission) {
    out.blocked == whole.blocked && (!whole.blocked ==> out == whole)
  }

  lemma {:induction false} ThenAgrees(a: Emission, b: Emission, a': Emission, b': Emission)
    requires Agrees(a, a') && Agrees(b, b')
    ensures Agrees(Then(a, b), Then(a', b'))
  {
  }

  lemma {:induction false} ThenAssociates(a: Emission, b: Emission, c: Emission)
    ensures Then(Then(a, b), c) == Then(a, Then(b, c))
  {
    Regroup(a.text, b.text, c.text);
  }

  /** The deltas up to each terminator, and up to the end, protected in one piece each; `held` are those so far. */
  ghost function OneShot(e: Engine, held: Text, events: seq<Event>): Emission
    decreases |events|
  {
    if events == [] then TransformSegment(e, held)
    else
      match events[0]
      case Delta(text) => OneShot(e, held + text, events[1..])
      case Terminator => Then(TransformSegment(e, held), OneShot(e, [], events[1..]))
  }

  lemma {:induction false} StaysSplitLonger(detect: Detector, x: Text, c: nat, more: Text)
    requires StaysSplit(detect, x, c)
    ensures StaysSplit(detect, x + more, c) && SplitAt(detect, x, c, [])
  {
    forall later: Text ensures SplitAt(detect, x + more, c, later) {
      assert SplitAt(detect, x, c, more + later);
      Regroup(x, more, later);
      Regroup(x[c..], more, later);
      assert (x + more)[..c] == x[..c] && (x + more)[c..] == x[c..] + more;
    }
  }

  lemma {:induction false} PiecesAgree(e: Engine, x: Text, c: nat)
    requires Orderly(e.detect) && SplitAt(e.detect, x, c, [])
    ensures Agrees(Then(TransformSegment(e, x[..c]), TransformSegment(e, x[c..])), TransformSegment(e, x))
  {
    assert ProperAt(e.detect, x) && ProperAt(e.detect, x[..c]) && ProperAt(e.detect, x[c..]);
    CleanSplit(e, x, c);
    SegmentMeaning(e, x);
    SegmentMeaning(e, x[..c]);
    SegmentMeaning(e, x[c..]);
  }

  lemma {:induction false} EndAgrees(e: Engine, x: Text, c: nat, rest: Emission)
    requires Orderly(e.detect) && SplitAt(e.detect, x, c, [])
    ensures Agrees(Then(TransformSegment(e, x[..c]), Then(TransformSegment(e, x[c..]), rest)),
                   Then(TransformSegment(e, x), rest))
  {
    PiecesAgree(e, x, c);
    ThenAssociates(TransformSegment(e, x[..c]), TransformSegment(e, x[c..]), rest);
    ThenAgrees(Then(TransformSegment(e, x[..c]), TransformSegment(e, x[c..])), rest, TransformSegment(e, x), rest);
  }

  /** What is cut off at such a position may be protected on its own. */
  lemma {:induction false} CutAgrees(e: Engine, x: Text, c: nat, events: seq<Event>)
    requires Orderly(e.detect) && c <= |x| && StaysSplit(e.detect, x, c)
    ensures Agrees(Then(TransformSegment(e, x[..c]), OneShot(e, x[c..], events)), OneShot(e, x, events))
    decreases |events|
  {
    StaysSplitLonger(e.detect, x, c, []);
    if events == [] {
      PiecesAgree(e, x, c);
    } else {
      match events[0]
      case Delta(text) =>
        StaysSplitLonger(e.detect, x, c, text);
        CutAgrees(e, x + text, c, events[1..]);
        assert (x + text)[..c] == x[..c] && (x + text)[c..] == x[c..] + text;
      case Terminator =>
        EndAgrees(e, x, c, OneShot(e, [], events[1..]));
    }
  }

  lemma {:induction false} PushAgrees(e: Engine, pending: Text, chunk: Text, events: seq<Event>, rest: Emission)
    requires Orderly(e.detect) && CommitsSplit(e)
    requires Agrees(rest, OneShot(e, PushStep(e, pending, chunk).0, events))
    ensures Agrees(Then(PushStep(e, pending, chunk).1, rest), OneShot(e, pending + chunk, events))
  {
    var all := pending + chunk;
    var c, held := CommitPoint(e, all), PushStep(e, pending, chunk).0;
    CommitBound(e, all);
    if c > 0 {
      assert Slice(all, 0, c) == all[..c] && held == all[c..];
      CutAgrees(e, all, c, events);
      ThenAgrees(TransformSegment(e, all[..c]), rest, TransformSegment(e, all[..c]), OneShot(e, held, events));
    } else {
      assert [] + rest.text == rest.text;
    }
  }

  lemma {:induction false} FlushAgrees(e: Engine, pending: Text)
    requires e.detect([]) == []
    ensures FlushStep(e, pending) == TransformSegment(e, pending)
  {
    SegmentMeaning(e, pending);
  }

  /** Then a stream is protected as its text in one piece. */
  lemma {:induction false} StreamAgrees(e: Engine, pending: Text, events: seq<Event>)
    requires Orderly(e.detect) && e.detect([]) == [] && CommitsSplit(e)
    ensures Agrees(Stream(e, pending, events), OneShot(e, pending, events))
    decreases |events|
  {
    FlushAgrees(e, pending);
    if events == [] {
    } else {
      match events[0]
      case Delta(text) =>
        var held := PushStep(e, pending, text).0;
        StreamAgrees(e, held, events[1..]);
        PushAgrees(e, pending, text, events[1..], Stream(e, held, events[1..]));
      case Terminator =>
        StreamAgrees(e, [], events[1..]);
        ThenAgrees(FlushStep(e, pending), Stream(e, [], events[1..]),
                   TransformSegment(e, pending), OneShot(e, [], events[1..]));
    }
  }

  /**
   Streaming refines one-shot protection: however the text between two
   terminators is cut into deltas, the stream is blocked exactly when one of
   these texts would be, and otherwise emits exactly what they would become.
   */
  lemma {:induction false} StreamingIsOneShot(e: Engine, events: seq<Event>)
    requires Bounded(e.detect, e.maxMatch)
    ensures Agrees(Stream(e, [], events), OneShot(e, [], events))
  {
    DetectsNothingInNothing(e.detect, e.maxMatch);
    BoundedSplits(e);
    StreamAgrees(e, [], events);
  }

  ghost predicate NoTerminator(events: seq<Event>) {
    forall i :: 0 <= i < |events| ==> events[i].Delta?
  }

  /** Without terminators the stream is one piece. */
  lemma {:induction false} OneShotWhole(e: Engine, held: Text, events: seq<Event>)
    requires NoTerminator(events)
    ensures OneShot(e, held, events) == TransformSegment(e, held + Flatten(events))
    decreases |events|
  {
    if events == [] {
      assert held + Flatten(events) == held;
    } else {
      OneShotWhole(e, held + events[0].text, events[1..]);
      Regroup(held, events[0].text, Flatten(events[1..]));
    }
  }
}
