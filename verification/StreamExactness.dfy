/**
 When a stream always is protected as its text in one piece, exactly: for every
 detector of disjoint matches, with any rules and any look around them, it is if
 and only if whatever is committed has the same matches as in the whole text.
 */
module StreamExactness {
  import opened Texts
  import opened Spans
  import opened StreamProtector
  import opened StreamEquivalence

  ghost function With(e: Engine, decide: Policy, enforced: bool): Engine {
    e.(decide := decide, enforced := enforced)
  }

  /** Streaming is one-shot protection under every policy, however the text is cut. */
  ghost predicate AlwaysOneShot(e: Engine) {
    forall decide: Policy, enforced: bool, events: seq<Event> ::
      Agrees(Stream(With(e, decide, enforced), [], events), OneShot(With(e, decide, enforced), [], events))
  }

  // ----- A policy that tells two lists of matches apart -----

  /** Each match is replaced by a unit. */
  ghost predicate Marks(decide: Policy) {
    forall kind, text :: exists u: Unit :: decide(kind, text) == Replace([u])
  }

  lemma {:induction false} MarkOf(e: Engine, x: Text, s: Span) returns (u: Unit)
    requires Marks(e.decide)
    ensures Verdict(e, x, s) == Replace([u])
  {
    u :| e.decide(s.kind, Slice(x, s.start, s.end)) == Replace([u]);
  }

  /** What is at a position before the first match, and where it starts. */
  lemma {:induction false} RewrittenAt(e: Engine, x: Text, spans: seq<Span>, i: nat, p: nat)
    requires Marks(e.decide) && SolidSpans(spans, i, |x|) && i <= p < |x| && (spans != [] ==> p <= spans[0].start)
    ensures var out := Rewritten(e, x, spans, i);
      && p - i < |out|
      && Replace([out[p - i]])
         == if spans != [] && spans[0].start == p then Verdict(e, x, spans[0]) else Replace([x[p]])
  {
    if spans == [] {
    } else {
      var s := spans[0];
      assert s in spans;
      var u := MarkOf(e, x, s);
      RewrittenCons(e, x, s, spans[1..], i);
      assert spans == [s] + spans[1..];
    }
  }

  /** A first match that the other list does not have there. */
  lemma {:induction false} StartTells(e: Engine, x: Text, a: seq<Span>, b: seq<Span>, i: nat) returns (decide: Policy)
    requires SolidSpans(a, i, |x|) && SolidSpans(b, i, |x|)
    requires a != [] && (b != [] ==> a[0].start < b[0].start)
    ensures Marks(decide) && Rewritten(With(e, decide, true), x, a, i) != Rewritten(With(e, decide, true), x, b, i)
  {
    var p := a[0].start;
    assert a[0] in a;
    var mark: Unit := if x[p] == 0 then 1 else 0;
    decide := (_, _) => Replace([mark]);
    RewrittenAt(With(e, decide, true), x, a, i, p);
    RewrittenAt(With(e, decide, true), x, b, i, p);
  }

  /** Two first matches that start together, but differ. */
  lemma {:induction false} SegmentTells(e: Engine, x: Text, a: seq<Span>, b: seq<Span>, i: nat) returns (decide: Policy)
    requires SolidSpans(a, i, |x|) && SolidSpans(b, i, |x|)
    requires a != [] && b != [] && a[0].start == b[0].start && a[0] != b[0]
    ensures Marks(decide) && Rewritten(With(e, decide, true), x, a, i) != Rewritten(With(e, decide, true), x, b, i)
  {
    var s, r := a[0], b[0];
    assert s in a && r in b;
    var text := Slice(x, s.start, s.end);
    decide := (k, t) => if k == s.kind && t == text then Replace([0]) else Replace([1]);
    assert |text| == s.end - s.start && |Slice(x, r.start, r.end)| == r.end - r.start;
    RewrittenAt(With(e, decide, true), x, a, i, s.start);
    RewrittenAt(With(e, decide, true), x, b, i, s.start);
  }

  /** A common first match does not help to tell. */
  lemma {:induction false} CommonFirst(e: Engine, x: Text, s: Span, a: seq<Span>, b: seq<Span>, i: nat)
    requires i <= s.start && Rewritten(e, x, a, s.end) != Rewritten(e, x, b, s.end)
    ensures Rewritten(e, x, [s] + a, i) != Rewritten(e, x, [s] + b, i)
  {
    var before, mask := Slice(x, i, s.start), Mask(Verdict(e, x, s));
    RewrittenCons(e, x, s, a, i);
    RewrittenCons(e, x, s, b, i);
    Regroup(before, mask, Rewritten(e, x, a, s.end));
    Regroup(before, mask, Rewritten(e, x, b, s.end));
    if Rewritten(e, x, [s] + a, i) == Rewritten(e, x, [s] + b, i) {
      SamePrefix(before + mask, Rewritten(e, x, a, s.end), Rewritten(e, x, b, s.end));
      assert false;
    }
  }

  lemma {:induction false} TellsApart(e: Engine, x: Text, a: seq<Span>, b: seq<Span>, i: nat) returns (decide: Policy)
    requires SolidSpans(a, i, |x|) && SolidSpans(b, i, |x|) && a != b
    ensures Marks(decide) && Rewritten(With(e, decide, true), x, a, i) != Rewritten(With(e, decide, true), x, b, i)
    decreases |a|
  {
    if a == [] || (b != [] && b[0].start < a[0].start) {
      decide := StartTells(e, x, b, a, i);
    } else if b == [] || a[0].start < b[0].start {
      decide := StartTells(e, x, a, b, i);
    } else if a[0] != b[0] {
      decide := SegmentTells(e, x, a, b, i);
    } else {
      var s, a', b' := a[0], a[1..], b[1..];
      assert a == [s] + a' && b == [s] + b';
      SolidTail(s, a', i, |x|);
      SolidTail(s, b', i, |x|);
      decide := TellsApart(e, x, a', b', s.end);
      CommonFirst(With(e, decide, true), x, s, a', b', i);
    }
  }

  // ----- A cut that changes the matches shows under some policy -----

  lemma {:induction false} AllReplaced(e: Engine, x: Text, spans: seq<Span>)
    requires forall s: Span :: Verdict(e, x, s).Replace?
    ensures Replaceable(e, x, spans) == spans && !Blocks(e, x, spans)
  {
    if spans == [] {
    } else {
      AllReplaced(e, x, spans[1..]);
      assert spans == [spans[0]] + spans[1..];
    }
  }

  /** Pushing the rest of a held text is pushing it all. */
  lemma {:induction false} HeldOrPushed(e: Engine, held: Text, more: Text)
    ensures Stream(e, held, [Delta(more)]) == Stream(e, [], [Delta(held + more)])
  {
    assert [] + (held + more) == held + more;
    assert [Delta(more)][1..] == [] && [Delta(held + more)][1..] == [];
  }

  lemma {:induction false} FlattenOne(a: Text)
    ensures Flatten([Delta(a)]) == a
  {
    assert [Delta(a)][1..] == [];
    assert a + [] == a;
  }

  lemma {:induction false} FlattenTwo(a: Text, b: Text)
    ensures Flatten([Delta(a), Delta(b)]) == a + b
  {
    assert [Delta(a), Delta(b)][1..] == [Delta(b)];
    FlattenOne(b);
  }

  lemma {:induction false} StreamTwo(e: Engine, a: Text, b: Text, held: Text, out: Emission)
    requires PushStep(e, [], a) == (held, out)
    ensures Stream(e, [], [Delta(a), Delta(b)]) == Then(out, Stream(e, [], [Delta(held + b)]))
  {
    assert [Delta(a), Delta(b)][1..] == [Delta(b)];
    HeldOrPushed(e, held, b);
  }

  lemma {:induction false} AllMarked(e: Engine, x: Text, spans: seq<Span>)
    requires Marks(e.decide)
    ensures Replaceable(e, x, spans) == spans && !Blocks(e, x, spans)
  {
    forall s: Span ensures Verdict(e, x, s).Replace? { var u := MarkOf(e, x, s); }
    AllReplaced(e, x, spans);
  }

  lemma {:induction false} MarkedSegment(e: Engine, x: Text)
    requires Marks(e.decide) && e.enforced && ProperAt(e.detect, x)
    ensures TransformSegment(e, x) == Emission(Rewritten(e, x, e.detect(x), 0), false)
  {
    AllMarked(e, x, e.detect(x));
    SegmentMeaning(e, x);
    TransformedOrdered(e, x);
  }

  /** A stream without terminators comes out as its text in one piece. */
  lemma {:induction false} ComesOutMarked(e: Engine, events: seq<Event>)
    requires AlwaysOneShot(e) && Orderly(e.detect) && Marks(e.decide) && e.enforced && NoTerminator(events)
    ensures Stream(e, [], events) == Emission(Rewritten(e, Flatten(events), e.detect(Flatten(events)), 0), false)
  {
    assert With(e, e.decide, true) == e;
    assert Agrees(Stream(e, [], events), OneShot(e, [], events));
    OneShotWhole(e, [], events);
    assert [] + Flatten(events) == Flatten(events);
    assert ProperAt(e.detect, Flatten(events));
    MarkedSegment(e, Flatten(events));
  }

  /** So do the part that a first push commits and the rest of the text. */
  lemma {:induction false} PartsComeOut(e: Engine, all: Text, later: Text, h: Text, t: Text)
    requires AlwaysOneShot(e) && Orderly(e.detect) && Marks(e.decide) && e.enforced
    requires CommitPoint(e, all) == |h| > 0 && h + t == all + later && |h| <= |all|
    ensures Rewritten(e, h + t, e.detect(h + t), 0) == Rewritten(e, h, e.detect(h), 0) + Rewritten(e, t, e.detect(t), 0)
  {
    var c := |h|;
    assert h == (h + t)[..c] && t == (h + t)[c..];
    assert [] + all == all && all[..c] == h && all[c..] + later == t;
    HeldAfterPush(e, [], all);
    assert ProperAt(e.detect, h);
    MarkedSegment(e, h);
    StreamTwo(e, all, later, all[c..], TransformSegment(e, h));
    FlattenOne(t);
    FlattenTwo(all, later);
    ComesOutMarked(e, [Delta(t)]);
    ComesOutMarked(e, [Delta(all), Delta(later)]);
  }

  lemma {:induction false} ShiftedSolid(spans: seq<Span>, c: nat, n: nat)
    requires SolidSpans(spans, 0, n)
    ensures SolidSpans(Shift(spans, c), c, c + n)
  {
    var r := Shift(spans, c);
    forall s | s in r ensures c <= s.start < s.end {
      var k :| 0 <= k < |r| && r[k] == s;
      assert spans[k] in spans;
    }
  }

  lemma {:induction false} JoinedSolid(a: seq<Span>, b: seq<Span>, c: nat, n: nat)
    requires SolidSpans(a, 0, c) && SolidSpans(b, c, n) && c <= n
    ensures SolidSpans(a + b, 0, n)
  {
    assert forall k :: 0 <= k < |b| ==> b[k] in b;
  }

  lemma {:induction false} PartsSplit(e: Engine, all: Text, later: Text, h: Text, t: Text)
    requires AlwaysOneShot(e) && Solid(e.detect)
    requires CommitPoint(e, all) == |h| > 0 && h + t == all + later && |h| <= |all|
    ensures e.detect(h + t) == e.detect(h) + Shift(e.detect(t), |h|)
  {
    var x, a, b := h + t, e.detect(h + t), e.detect(h) + Shift(e.detect(t), |h|);
    assert SolidAt(e.detect, x) && SolidAt(e.detect, h) && SolidAt(e.detect, t);
    ShiftedSolid(e.detect(t), |h|, |t|);
    JoinedSolid(e.detect(h), Shift(e.detect(t), |h|), |h|, |x|);
    if a != b {
      var decide := TellsApart(e, x, a, b, 0);
      SplitShows(e, decide, all, later, h, t);
      assert false;
    }
  }

  lemma {:induction false} SplitShows(e: Engine, decide: Policy, all: Text, later: Text, h: Text, t: Text)
    requires AlwaysOneShot(e) && Solid(e.detect) && Marks(decide)
    requires CommitPoint(e, all) == |h| > 0 && h + t == all + later && |h| <= |all|
    ensures var e' := With(e, decide, true);
      Rewritten(e', h + t, e.detect(h + t), 0) == Rewritten(e', h + t, e.detect(h) + Shift(e.detect(t), |h|), 0)
  {
    var e' := With(e, decide, true);
    forall d, b, events ensures Agrees(Stream(With(e', d, b), [], events), OneShot(With(e', d, b), [], events)) {
      assert With(e', d, b) == With(e, d, b);
    }
    forall x ensures ProperAt(e.detect, x) { assert SolidAt(e.detect, x); }
    PartsComeOut(e', all, later, h, t);
    assert ProperAt(e.detect, h);
    RewrittenSplit(e', h, t, e.detect(h), e.detect(t), 0);
  }

  lemma {:induction false} OneShotSplits(e: Engine)
    requires AlwaysOneShot(e) && Solid(e.detect)
    ensures CommitsSplit(e)
  {
    forall all, later: Text | CommitPoint(e, all) > 0 ensures SplitAt(e.detect, all, CommitPoint(e, all), later) {
      var c := CommitPoint(e, all);
      CommitBound(e, all);
      assert all + later == all[..c] + (all[c..] + later);
      PartsSplit(e, all, later, all[..c], all[c..] + later);
    }
  }

  /** There are no more matches than units. */
  lemma {:induction false} MatchCount(spans: seq<Span>, from: nat, n: nat)
    requires SolidSpans(spans, from, n) && from <= n
    ensures |spans| <= n - from
    decreases |spans|
  {
    if spans == [] {
    } else {
      assert spans == [spans[0]] + spans[1..];
      SolidTail(spans[0], spans[1..], from, n);
      MatchCount(spans[1..], spans[0].end, n);
    }
  }

  lemma {:induction false} SplitsOneShot(e: Engine, decide: Policy, enforced: bool, events: seq<Event>)
    requires Solid(e.detect) && CommitsSplit(e)
    ensures Agrees(Stream(With(e, decide, enforced), [], events), OneShot(With(e, decide, enforced), [], events))
  {
    var e' := With(e, decide, enforced);
    assert SolidAt(e.detect, []);
    forall x ensures ProperAt(e.detect, x) { assert SolidAt(e.detect, x); }
    forall all: Text | CommitPoint(e', all) > 0 ensures StaysSplit(e.detect, all, CommitPoint(e', all)) {
      assert CommitPoint(e', all) == CommitPoint(e, all);
    }
    MatchCount(e.detect([]), 0, 0);
    StreamAgrees(e', [], events);
  }

  /**
   Streaming always is one-shot protection if and only if no text is cut where its
   matches, whatever follows, are not those of the two parts.
   */
  lemma {:induction false} OneShotExact(e: Engine)
    requires Solid(e.detect)
    ensures AlwaysOneShot(e) <==> CommitsSplit(e)
  {
    if AlwaysOneShot(e) { OneShotSplits(e); }
    if CommitsSplit(e) {
      forall decide: Policy, enforced: bool, events: seq<Event>
        ensures Agrees(Stream(With(e, decide, enforced), [], events), OneShot(With(e, decide, enforced), [], events))
      {
        SplitsOneShot(e, decide, enforced, events);
      }
    }
  }
}
