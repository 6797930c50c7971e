/**
 What a stream shows, unit by unit: its text is its masks and exactly the units it
 shows. With a detector that loses no match by a cut it hides all that one-shot
 protection does, though it may hide more.
 */
module StreamCoverage {
  import opened Texts
  import opened Spans
  import opened StreamProtector
  import opened StreamEquivalence
  import opened Rewriting

  /** The span as counted from position c. */
  function Rebased(s: Span, c: nat): Span
    requires c <= s.start && c <= s.end
  {
    Span(s.start - c, s.end - c, s.kind)
  }

  /** Cutting outside of every match loses none: each is a match of one of the halves. */
  ghost predicate KeptAt(detect: Detector, x: Text, c: nat) {
    c <= |x| && Uncut(detect(x), c) ==> forall s :: s in detect(x) ==>
      || (s.end <= c && s in detect(x[..c]))
      || (c <= s.start && c <= s.end && Rebased(s, c) in detect(x[c..]))
  }

  ghost predicate Guarded(detect: Detector, m: nat) {
    && Local(detect, m) && detect([]) == []
    && (forall x, c: nat {:trigger KeptAt(detect, x, c)} :: KeptAt(detect, x, c))
  }

  /** No match covers position c, whatever text follows. */
  ghost predicate StaysUncut(e: Engine, x: Text, c: nat) {
    c <= |x| && forall later: Text :: Uncut(e.detect(x + later), c)
  }

  lemma {:induction false} StaysUncutLonger(e: Engine, x: Text, c: nat, more: Text)
    requires StaysUncut(e, x, c)
    ensures StaysUncut(e, x + more, c) && Uncut(e.detect(x), c)
  {
    assert x + [] == x;
    forall later: Text ensures Uncut(e.detect(x + more + later), c) {
      Regroup(x, more, later);
    }
  }

  lemma {:induction false} CommitUncutForEver(e: Engine, all: Text)
    requires Local(e.detect, e.maxMatch)
    ensures StaysUncut(e, all, CommitPoint(e, all))
  {
    CommitStaysUncut(e, all, []);
    forall later: Text ensures Uncut(e.detect(all + later), CommitPoint(e, all)) {
      CommitStaysUncut(e, all, later);
    }
  }

  // ----- Replacing -----

  /** Unit i of the text comes out of its protection as it is. */
  ghost predicate Shown(e: Engine, x: Text, i: int) {
    0 <= i < |x| && !(e.enforced && Masked(e, x, i))
  }

  lemma {:induction false} ShownInHead(e: Engine, h: Text, t: Text, i: int)
    requires KeptAt(e.detect, h + t, |h|) && Uncut(e.detect(h + t), |h|) && Shown(e, h, i)
    ensures Shown(e, h + t, i)
  {
    var x := h + t;
    assert x[..|h|] == h && x[|h|..] == t;
    if e.enforced && Masked(e, x, i) {
      var s :| s in e.detect(x) && Verdict(e, x, s).Replace? && s.start <= i < s.end;
      VerdictInHead(e, h, t, s);
      assert false;
    }
  }

  lemma {:induction false} ShownInTail(e: Engine, h: Text, t: Text, i: int)
    requires KeptAt(e.detect, h + t, |h|) && Uncut(e.detect(h + t), |h|) && Shown(e, t, i)
    ensures Shown(e, h + t, |h| + i)
  {
    var x, c := h + t, |h|;
    assert x[..c] == h && x[c..] == t;
    if e.enforced && Masked(e, x, c + i) {
      var s :| s in e.detect(x) && Verdict(e, x, s).Replace? && s.start <= c + i < s.end;
      var r := Rebased(s, c);
      assert s == Moved(r, c);
      VerdictInTail(e, h, t, r);
      assert false;
    }
  }

  // ----- What comes out -----

  /** The masks of the replaced spans that start at a position of a text. */
  function MasksOf(e: Engine, x: Text, i: nat): Text {
    if x != [] && e.enforced then MasksAt(e, x, Replaceable(e, x, e.detect(x)), i) else []
  }

  function UnitIf(x: Text, i: nat, shown: bool): Text {
    if shown && i < |x| then [x[i]] else []
  }

  ghost function SegmentPiece(e: Engine, x: Text): nat -> Text {
    i => MasksOf(e, x, i) + UnitIf(x, i, Shown(e, x, i))
  }

  lemma {:induction false} JoinedUnits(f: nat -> Text, x: Text, i: nat)
    requires i <= |x| && f(|x|) == [] && forall j: nat {:trigger f(j)} :: j < |x| ==> f(j) == [x[j]]
    ensures Joined(f, i, |x|) == x[i..]
    decreases |x| - i
  {
    if i == |x| {
      assert Joined(f, i + 1, |x|) == [];
    } else {
      JoinedUnits(f, x, i + 1);
      assert f(i) == [x[i]] && x[i..] == [x[i]] + x[i + 1..];
    }
  }

  lemma {:induction false} EnforcedComesOut(e: Engine, x: Text)
    requires ProperAt(e.detect, x) && e.enforced && x != [] && !TransformSegment(e, x).blocked
    ensures TransformSegment(e, x).text == Joined(SegmentPiece(e, x), 0, |x|)
  {
    var spans := Replaceable(e, x, e.detect(x));
    SegmentMeaning(e, x);
    TransformedMeaning(e, x);
    forall i: nat | 0 <= i <= |x| ensures PieceAt(e, x, spans)(i) == SegmentPiece(e, x)(i) {
      if i < |x| { assert UnitAt(x, spans, i) == if Masked(e, x, i) then [] else [x[i]]; }
    }
    JoinedAlike(PieceAt(e, x, spans), SegmentPiece(e, x), 0, |x|);
  }

  /** What comes out of a text in one piece: the masks, and exactly the units shown. */
  lemma {:induction false} ShownComesOut(e: Engine, x: Text)
    requires ProperAt(e.detect, x) && !FlushStep(e, x).blocked
    ensures FlushStep(e, x).text == Joined(SegmentPiece(e, x), 0, |x|)
  {
    if x == [] {
    } else if e.enforced {
      EnforcedComesOut(e, x);
    } else {
      JoinedUnits(SegmentPiece(e, x), x, 0);
    }
  }

  /** Unit i of the stream, counted from the held text on, comes out as it is unless the stream is blocked before. */
  ghost predicate StreamShows(e: Engine, pending: Text, events: seq<Event>, i: int)
    decreases |events|
  {
    if events == [] then Shown(e, pending, i)
    else
      match events[0]
      case Delta(text) =>
        var all, c := pending + text, CommitPoint(e, pending + text);
        if i < c <= |all| then Shown(e, all[..c], i) else c <= |all| && StreamShows(e, all[c..], events[1..], i - c)
      case Terminator => if i < |pending| then Shown(e, pending, i) else StreamShows(e, [], events[1..], i - |pending|)
  }

  /** The masks that come out of the stream at a position of it. */
  ghost function StreamMasks(e: Engine, pending: Text, events: seq<Event>, i: nat): Text
    decreases |events|
  {
    if events == [] then MasksOf(e, pending, i)
    else
      match events[0]
      case Delta(text) =>
        var all, c := pending + text, CommitPoint(e, pending + text);
        if c <= |all| then MasksOfCut(e, all[..c], i,
          if c <= i then StreamMasks(e, all[c..], events[1..], i - c) else [])
        else []
      case Terminator =>
        var c := |pending|;
        MasksOfCut(e, pending, i, if c <= i then StreamMasks(e, [], events[1..], i - c) else [])
  }

  /** The masks of a segment at a position, and those of what follows it. */
  function MasksOfCut(e: Engine, head: Text, i: nat, later: Text): Text {
    (if i <= |head| then MasksOf(e, head, i) else []) + later
  }

  ghost function StreamPiece(e: Engine, pending: Text, events: seq<Event>): nat -> Text {
    i => StreamMasks(e, pending, events, i) + UnitIf(pending + Flatten(events), i, StreamShows(e, pending, events, i))
  }

  // ----- A stream, piece by piece -----

  /** The pieces of p are those of f up to c, and from there on those of g; at c first f and then g. */
  ghost predicate Spliced(p: nat -> Text, f: nat -> Text, c: nat, g: nat -> Text) {
    && p(c) == f(c) + g(0)
    && (forall i: nat :: i < c ==> p(i) == f(i))
    && (forall j: nat {:trigger g(j)} :: 0 < j ==> p(c + j) == g(j))
  }

  lemma {:induction false} JoinedShifted(p: nat -> Text, f: nat -> Text, c: nat, g: nat -> Text, j: nat, k: nat)
    requires Spliced(p, f, c, g) && 0 < j
    ensures Joined(p, c + j, c + k) == Joined(g, j, k)
    decreases k - j
  {
    if j > k {
    } else {
      assert p(c + j) == g(j);
      JoinedShifted(p, f, c, g, j + 1, k);
    }
  }

  lemma {:induction false} JoinedSpliced(p: nat -> Text, f: nat -> Text, c: nat, g: nat -> Text, i: nat, k: nat)
    requires Spliced(p, f, c, g) && i <= c
    ensures Joined(p, i, c + k) == Joined(f, i, c) + Joined(g, 0, k)
    decreases c - i
  {
    if i == c {
      JoinedShifted(p, f, c, g, 1, k);
      Regroup(f(c), g(0), Joined(g, 1, k));
      assert Joined(f, c + 1, c) == [] && f(c) + [] == f(c);
    } else {
      JoinedSpliced(p, f, c, g, i + 1, k);
      Regroup(f(i), Joined(f, i + 1, c), Joined(g, 0, k));
    }
  }

  lemma {:induction false} UnitInHead(head: Text, later: Text, i: nat, shown: bool)
    requires i < |head|
    ensures UnitIf(head + later, i, shown) == UnitIf(head, i, shown)
  {
  }

  lemma {:induction false} UnitInTail(head: Text, later: Text, i: nat, shown: bool)
    ensures UnitIf(head + later, |head| + i, shown) == UnitIf(later, i, shown)
  {
  }

  /** Unit i of a text comes out of its head, or of what follows the head. */
  ghost predicate ShowsCut(e: Engine, head: Text, held: Text, rest: seq<Event>, i: nat) {
    if i < |head| then Shown(e, head, i) else StreamShows(e, held, rest, i - |head|)
  }

  ghost function MasksCut(e: Engine, head: Text, held: Text, rest: seq<Event>, i: nat): Text {
    MasksOfCut(e, head, i, if |head| <= i then StreamMasks(e, held, rest, i - |head|) else [])
  }

  /** The pieces when a segment is emitted and the rest of the stream follows it. */
  ghost function PieceCut(e: Engine, head: Text, held: Text, rest: seq<Event>): nat -> Text {
    i => MasksCut(e, head, held, rest, i) + UnitIf(head + (held + Flatten(rest)), i, ShowsCut(e, head, held, rest, i))
  }

  lemma {:induction false} PieceInHead(e: Engine, head: Text, held: Text, rest: seq<Event>, i: nat)
    requires i < |head|
    ensures PieceCut(e, head, held, rest)(i) == SegmentPiece(e, head)(i)
  {
    UnitInHead(head, held + Flatten(rest), i, Shown(e, head, i));
  }

  lemma {:induction false} PieceInTail(e: Engine, head: Text, held: Text, rest: seq<Event>, i: nat, j: nat)
    requires i == |head| + j
    ensures PieceCut(e, head, held, rest)(i)
         == (if j == 0 then SegmentPiece(e, head)(i) else []) + StreamPiece(e, held, rest)(j)
  {
    var shown := StreamShows(e, held, rest, j);
    assert i - |head| == j;
    assert ShowsCut(e, head, held, rest, i) == shown;
    UnitInTail(head, held + Flatten(rest), j, shown);
    Regroup(if j == 0 then MasksOf(e, head, i) else [], StreamMasks(e, held, rest, j),
            UnitIf(held + Flatten(rest), j, shown));
  }

  lemma {:induction false} CutSplices(e: Engine, head: Text, held: Text, rest: seq<Event>)
    ensures Spliced(PieceCut(e, head, held, rest), SegmentPiece(e, head), |head|, StreamPiece(e, held, rest))
  {
    var p, f, g := PieceCut(e, head, held, rest), SegmentPiece(e, head), StreamPiece(e, held, rest);
    forall i: nat | i < |head| ensures p(i) == f(i) {
      PieceInHead(e, head, held, rest, i);
    }
    forall j: nat ensures p(|head| + j) == (if j == 0 then f(|head|) else []) + g(j) {
      PieceInTail(e, head, held, rest, |head| + j, j);
    }
  }

  lemma {:induction false} CutJoined(e: Engine, head: Text, held: Text, rest: seq<Event>)
    ensures Joined(PieceCut(e, head, held, rest), 0, |head + (held + Flatten(rest))|)
         == Joined(SegmentPiece(e, head), 0, |head|) + Joined(StreamPiece(e, held, rest), 0, |held + Flatten(rest)|)
  {
    CutSplices(e, head, held, rest);
    JoinedSpliced(PieceCut(e, head, held, rest), SegmentPiece(e, head), |head|, StreamPiece(e, held, rest), 0,
                  |held + Flatten(rest)|);
  }

  /** The pieces of a stream are those of a segment and of the rest of the stream. */
  ghost predicate Follows(e: Engine, pending: Text, events: seq<Event>, head: Text, held: Text, rest: seq<Event>) {
    && pending + Flatten(events) == head + (held + Flatten(rest))
    && forall i: nat {:trigger StreamPiece(e, pending, events)(i)} ::
         StreamPiece(e, pending, events)(i) == PieceCut(e, head, held, rest)(i)
  }

  lemma {:induction false} PushFollows(e: Engine, pending: Text, text: Text, rest: seq<Event>, c: nat)
    requires c == CommitPoint(e, pending + text) <= |pending + text|
    ensures Follows(e, pending, [Delta(text)] + rest, (pending + text)[..c], (pending + text)[c..], rest)
  {
    var all, events := pending + text, [Delta(text)] + rest;
    assert events[1..] == rest;
    assert pending + Flatten(events) == all + Flatten(rest) == all[..c] + (all[c..] + Flatten(rest));
  }

  lemma {:induction false} FlushFollows(e: Engine, pending: Text, rest: seq<Event>)
    ensures Follows(e, pending, [Terminator] + rest, pending, [], rest)
  {
    assert ([Terminator] + rest)[1..] == rest;
    assert pending + Flatten(rest) == pending + ([] + Flatten(rest));
  }

  /** The text is what the stream's pieces say. */
  ghost predicate ByPieces(e: Engine, pending: Text, events: seq<Event>, text: Text) {
    text == Joined(StreamPiece(e, pending, events), 0, |pending + Flatten(events)|)
  }

  lemma {:induction false} FollowedComesOut(e: Engine, pending: Text, events: seq<Event>, head: Text, held: Text,
                                            rest: seq<Event>, later: Text)
    requires Follows(e, pending, events, head, held, rest)
    requires ProperAt(e.detect, head) && !FlushStep(e, head).blocked && ByPieces(e, held, rest, later)
    ensures ByPieces(e, pending, events, FlushStep(e, head).text + later)
  {
    var p, n := PieceCut(e, head, held, rest), |pending + Flatten(events)|;
    ShownComesOut(e, head);
    CutJoined(e, head, held, rest);
    JoinedAlike(StreamPiece(e, pending, events), p, 0, n);
  }

  lemma {:induction false} LastComesOut(e: Engine, pending: Text)
    requires ProperAt(e.detect, pending) && !FlushStep(e, pending).blocked
    ensures ByPieces(e, pending, [], FlushStep(e, pending).text)
  {
    ShownComesOut(e, pending);
    assert pending + [] == pending;
    JoinedAlike(StreamPiece(e, pending, []), SegmentPiece(e, pending), 0, |pending|);
  }

  lemma {:induction false} HeldComesOut(e: Engine, pending: Text, events: seq<Event>)
    requires Orderly(e.detect) && !Stream(e, pending, events).blocked
    ensures ByPieces(e, pending, events, Stream(e, pending, events).text)
    decreases |events|
  {
    if events == [] {
      assert ProperAt(e.detect, pending);
      LastComesOut(e, pending);
    } else {
      var rest := events[1..];
      assert events == [events[0]] + rest;
      match events[0]
      case Delta(text) =>
        var all := pending + text;
        CommitBound(e, all);
        var c := CommitPoint(e, all);
        HeldAfterPush(e, pending, text);
        assert ProperAt(e.detect, all[..c]);
        HeldComesOut(e, all[c..], rest);
        PushFollows(e, pending, text, rest, c);
        FollowedComesOut(e, pending, events, all[..c], all[c..], rest, Stream(e, all[c..], rest).text);
      case Terminator =>
        assert ProperAt(e.detect, pending);
        HeldComesOut(e, [], rest);
        FlushFollows(e, pending, rest);
        FollowedComesOut(e, pending, events, pending, [], rest, Stream(e, [], rest).text);
    }
  }

  /** The text of a stream that is not blocked: its masks, and exactly the units it shows, each at its position. */
  lemma {:induction false} StreamComesOut(e: Engine, events: seq<Event>)
    requires Orderly(e.detect) && !Stream(e, [], events).blocked
    ensures Stream(e, [], events).text == Joined(StreamPiece(e, [], events), 0, |Flatten(events)|)
  {
    HeldComesOut(e, [], events);
    assert [] + Flatten(events) == Flatten(events);
  }

  // ----- Compared with one piece -----

  /** The same when the text up to each terminator is protected in one piece. */
  ghost predicate OneShotShows(e: Engine, held: Text, events: seq<Event>, i: int)
    decreases |events|
  {
    if events == [] then Shown(e, held, i)
    else
      match events[0]
      case Delta(text) => OneShotShows(e, held + text, events[1..], i)
      case Terminator => if i < |held| then Shown(e, held, i) else OneShotShows(e, [], events[1..], i - |held|)
  }

  /** A unit that comes out when a piece is protected on its own comes out of the whole. */
  lemma {:induction false} CutShowsHead(e: Engine, x: Text, c: nat, events: seq<Event>, i: int)
    requires Guarded(e.detect, e.maxMatch) && StaysUncut(e, x, c) && Shown(e, x[..c], i)
    ensures OneShotShows(e, x, events, i)
    decreases |events|
  {
    StaysUncutLonger(e, x, c, []);
    assert KeptAt(e.detect, x, c) && x == x[..c] + x[c..];
    ShownInHead(e, x[..c], x[c..], i);
    if events == [] {
    } else {
      match events[0]
      case Delta(text) =>
        StaysUncutLonger(e, x, c, text);
        assert (x + text)[..c] == x[..c];
        CutShowsHead(e, x + text, c, events[1..], i);
      case Terminator =>
    }
  }

  lemma {:induction false} CutShowsTail(e: Engine, x: Text, c: nat, events: seq<Event>, i: int)
    requires Guarded(e.detect, e.maxMatch) && StaysUncut(e, x, c) && OneShotShows(e, x[c..], events, i - c) && c <= i
    ensures OneShotShows(e, x, events, i)
    decreases |events|
  {
    StaysUncutLonger(e, x, c, []);
    assert KeptAt(e.detect, x, c) && x == x[..c] + x[c..];
    if events == [] {
      ShownInTail(e, x[..c], x[c..], i - c);
    } else {
      match events[0]
      case Delta(text) =>
        StaysUncutLonger(e, x, c, text);
        assert (x + text)[c..] == x[c..] + text;
        CutShowsTail(e, x + text, c, events[1..], i);
      case Terminator =>
        if i < |x| { ShownInTail(e, x[..c], x[c..], i - c); }
    }
  }

  lemma {:induction false} StreamShowsLess(e: Engine, pending: Text, events: seq<Event>, i: int)
    requires Guarded(e.detect, e.maxMatch) && StreamShows(e, pending, events, i)
    ensures OneShotShows(e, pending, events, i)
    decreases |events|
  {
    if events == [] {
    } else {
      match events[0]
      case Delta(text) =>
        var all := pending + text;
        CommitUncutForEver(e, all);
        var c := CommitPoint(e, all);
        if i < c {
          CutShowsHead(e, all, c, events[1..], i);
        } else {
          StreamShowsLess(e, all[c..], events[1..], i - c);
          CutShowsTail(e, all, c, events[1..], i);
        }
      case Terminator =>
        if i >= |pending| { StreamShowsLess(e, [], events[1..], i - |pending|); }
    }
  }

  /** Streaming hides whatever one-shot protection does: a unit that a stream shows is shown in one piece too. */
  lemma {:induction false} HiddenIsHidden(e: Engine, events: seq<Event>, i: int)
    requires Guarded(e.detect, e.maxMatch) && StreamShows(e, [], events, i)
    ensures OneShotShows(e, [], events, i)
  {
    StreamShowsLess(e, [], events, i);
  }
}
