/**
 Protection of an incremental text stream. A raw tail is held back so that a
 detection split over chunks is seen whole before any of it is emitted. The
 detector and the policy are arbitrary functions.
 */
module StreamProtector {
  import Sorting
  import opened Texts
  import opened Spans

  type Detector = Text -> seq<Span>

  datatype Action = Allow | Block | Replace(mask: Text)

  /** What to do with a detected segment, by its kind and its text. */
  type Policy = (Kind, Text) -> Action

  datatype Engine = Engine(detect: Detector, decide: Policy, enforced: bool, maxMatch: nat)

  datatype Emission = Emission(text: Text, blocked: bool)

  // ----- One segment -----

  /** `String.prototype.slice` for indices that are not negative. */
  function Slice(text: Text, from: nat, to: nat): Text {
    var hi := if to < |text| then to else |text|;
    if from < hi then text[from..hi] else []
  }

  function Verdict(e: Engine, text: Text, s: Span): Action {
    e.decide(s.kind, Slice(text, s.start, s.end))
  }

  predicate Blocks(e: Engine, text: Text, spans: seq<Span>) {
    exists i :: 0 <= i < |spans| && Verdict(e, text, spans[i]).Block?
  }

  function Replaceable(e: Engine, text: Text, spans: seq<Span>): seq<Span> {
    if spans == [] then []
    else (if Verdict(e, text, spans[0]).Replace? then [spans[0]] else []) + Replaceable(e, text, spans[1..])
  }

  predicate StartsFirst(x: Span, y: Span) { x.start <= y.start }

  function SortByStart(spans: seq<Span>): seq<Span> {
    Sorting.Sort(StartsFirst, spans)
  }

  function Mask(a: Action): Text {
    if a.Replace? then a.mask else []
  }

  /** The text from `cursor` on, with the spans replaced that do not start before it. */
  function Rewritten(e: Engine, text: Text, spans: seq<Span>, cursor: nat): Text {
    if spans == [] then Slice(text, cursor, |text|)
    else if spans[0].start < cursor then Rewritten(e, text, spans[1..], cursor)
    else
      Slice(text, cursor, spans[0].start)
      + (Mask(Verdict(e, text, spans[0])) + Rewritten(e, text, spans[1..], spans[0].end))
  }

  function Transformed(e: Engine, text: Text, spans: seq<Span>): Text {
    Rewritten(e, text, SortByStart(Replaceable(e, text, spans)), 0)
  }

  lemma {:induction false} OneMoreRewritten(e: Engine, text: Text, output: Text, s: Span, rest: seq<Span>, cursor: nat)
    ensures output + Rewritten(e, text, [s] + rest, cursor)
         == if s.start < cursor then output + Rewritten(e, text, rest, cursor)
            else output + Slice(text, cursor, s.start) + Mask(Verdict(e, text, s)) + Rewritten(e, text, rest, s.end)
  {
    assert ([s] + rest)[1..] == rest;
    var head, mask, tail := Slice(text, cursor, s.start), Mask(Verdict(e, text, s)), Rewritten(e, text, rest, s.end);
    Regroup(output, head, mask + tail);
    Regroup(output + head, mask, tail);
  }

  method TransformString(e: Engine, text: Text, items: seq<Span>) returns (output: Text)
    ensures output == Transformed(e, text, items)
  {
    var sorted := SortByStart(Replaceable(e, text, items));
    var cursor: nat := 0;
    output := [];
    for i := 0 to |sorted|
      invariant output + Rewritten(e, text, sorted[i..], cursor) == Rewritten(e, text, sorted, 0)
    {
      var s := sorted[i];
      assert sorted[i..] == [s] + sorted[i + 1..];
      OneMoreRewritten(e, text, output, s, sorted[i + 1..], cursor);
      if s.start >= cursor {
        output := output + Slice(text, cursor, s.start) + Mask(Verdict(e, text, s));
        cursor := s.end;
      }
    }
    assert sorted[|sorted|..] == [];
    output := output + Slice(text, cursor, |text|);
  }

  /** What a complete text becomes. */
  function TransformSegment(e: Engine, text: Text): Emission {
    var spans := e.detect(text);
    if e.enforced && Blocks(e, text, spans) then Emission([], true)
    else if !e.enforced || spans == [] then Emission(text, false)
    else Emission(Transformed(e, text, spans), false)
  }

  // ----- Push and flush -----

  /** The least start among the spans that end after `limit`, or `point` if that is less. */
  function LeastStraddling(spans: seq<Span>, limit: nat, point: nat): nat {
    if spans == [] then point
    else
      LeastStraddling(spans[1..], limit,
        if spans[0].end > limit && spans[0].start < point then spans[0].start else point)
  }

  /** How far the pending text is out of reach of any match that may still grow. */
  function Limit(e: Engine, pending: Text): (limit: nat)
    ensures limit <= |pending|
  {
    if |pending| > e.maxMatch then |pending| - e.maxMatch else 0
  }

  /** How much of the pending text may be emitted. */
  function CommitPoint(e: Engine, pending: Text): (c: nat) {
    LeastStraddling(e.detect(pending), Limit(e, pending), Limit(e, pending))
  }

  /** The tail held and the emission after a push. */
  function PushStep(e: Engine, pending: Text, chunk: Text): (Text, Emission) {
    var all := pending + chunk;
    var c := CommitPoint(e, all);
    if c == 0 then (all, Emission([], false)) else (Slice(all, c, |all|), TransformSegment(e, Slice(all, 0, c)))
  }

  function FlushStep(e: Engine, pending: Text): Emission {
    if pending == [] then Emission([], false) else TransformSegment(e, pending)
  }

  /** What a frame brings to the protector: delta text, or the end of a block of deltas. */
  datatype Event = Delta(text: Text) | Terminator

  /** The tail held and the emission after an event. */
  function EventStep(e: Engine, pending: Text, event: Event): (Text, Emission) {
    match event
    case Delta(text) => PushStep(e, pending, text)
    case Terminator => ([], FlushStep(e, pending))
  }

  class Protector {
    const engine: Engine
    var pending: Text

    constructor (engine: Engine)
      ensures this.engine == engine && pending == []
    {
      this.engine := engine;
      pending := [];
    }

    method Segment(text: Text) returns (out: Emission)
      ensures out == TransformSegment(engine, text)
    {
      var spans := engine.detect(text);
      var blocked := engine.enforced && Blocks(engine, text, spans);
      if blocked { return Emission([], true); }
      if !engine.enforced || spans == [] { return Emission(text, false); }
      var output := TransformString(engine, text, spans);
      return Emission(output, false);
    }

    method Push(text: Text) returns (out: Emission)
      modifies this
      ensures (pending, out) == PushStep(engine, old(pending), text)
    {
      pending := pending + text;
      var commit := CommitPoint(engine, pending);
      if commit == 0 { return Emission([], false); }
      var head := Slice(pending, 0, commit);
      pending := Slice(pending, commit, |pending|);
      out := Segment(head);
    }

    method Flush() returns (out: Emission)
      modifies this
      ensures pending == [] && out == FlushStep(engine, old(pending))
    {
      var tail := pending;
      pending := [];
      if tail == [] { return Emission([], false); }
      out := Segment(tail);
    }

    method Handle(event: Event) returns (out: Emission)
      modifies this
      ensures (pending, out) == EventStep(engine, old(pending), event)
    {
      match event {
        case Delta(text) => out := Push(text);
        case Terminator => out := Flush();
      }
    }
  }

  /** An emission followed by another, unless the first was blocked. */
  function Then(out: Emission, rest: Emission): Emission {
    if out.blocked then out else Emission(out.text + rest.text, rest.blocked)
  }

  /**
   All deltas pushed in turn, the tail flushed before each terminator and at the
   end; the reader stops at the first block.
   */
  function Stream(e: Engine, pending: Text, events: seq<Event>): Emission
    decreases |events|
  {
    if events == [] then FlushStep(e, pending)
    else
      var (held, out) := EventStep(e, pending, events[0]);
      Then(out, Stream(e, held, events[1..]))
  }

  /** One turn of the handler's loop: what it has emitted, and what the rest of the stream adds. */
  lemma {:induction false} StreamTurn(e: Engine, emitted: Text, pending: Text, event: Event, rest: seq<Event>)
    ensures var (held, out) := EventStep(e, pending, event);
      Then(Emission(emitted, false), Stream(e, pending, [event] + rest))
      == if out.blocked then Emission(emitted + out.text, true)
         else Then(Emission(emitted + out.text, false), Stream(e, held, rest))
  {
    var (held, out) := EventStep(e, pending, event);
    assert ([event] + rest)[1..] == rest;
    Regroup(emitted, out.text, Stream(e, held, rest).text);
  }

  /** The stream handler's loop over a protector, with its raw frames already taken apart. */
  method ProtectStream(engine: Engine, events: seq<Event>) returns (out: Emission)
    ensures out == Stream(engine, [], events)
  {
    var protector := new Protector(engine);
    var emitted: Text := [];
    assert events[0..] == events;
    for i := 0 to |events|
      invariant protector.engine == engine
      invariant Stream(engine, [], events)
        == Then(Emission(emitted, false), Stream(engine, protector.pending, events[i..]))
    {
      assert events[i..] == [events[i]] + events[i + 1..];
      StreamTurn(engine, emitted, protector.pending, events[i], events[i + 1..]);
      var piece := protector.Handle(events[i]);
      emitted := emitted + piece.text;
      if piece.blocked { return Emission(emitted, true); }
    }
    var last := protector.Flush();
    return Emission(emitted + last.text, last.blocked);
  }

  /** The delta text of a stream. */
  function Flatten(events: seq<Event>): Text {
    if events == [] then []
    else (if events[0].Delta? then events[0].text else []) + Flatten(events[1..])
  }

  // ----- Where a text may be cut -----

  /** Position c is not inside any of the spans. */
  predicate Uncut(spans: seq<Span>, c: nat) {
    forall i :: 0 <= i < |spans| ==> spans[i].end <= c || c <= spans[i].start
  }

  lemma {:induction false} LeastStraddlingBounds(spans: seq<Span>, limit: nat, point: nat)
    ensures LeastStraddling(spans, limit, point) <= point
    ensures forall i :: 0 <= i < |spans| && spans[i].end > limit ==>
      LeastStraddling(spans, limit, point) <= spans[i].start
    ensures LeastStraddling(spans, limit, point) == point
         || exists i ::
              0 <= i < |spans| && spans[i].end > limit && LeastStraddling(spans, limit, point) == spans[i].start
  {
    if spans == [] {
    } else {
      var next := if spans[0].end > limit && spans[0].start < point then spans[0].start else point;
      LeastStraddlingBounds(spans[1..], limit, next);
      var r := LeastStraddling(spans, limit, point);
      if r != next {
        var i :| 0 <= i < |spans[1..]| && spans[1..][i].end > limit && r == spans[1..][i].start;
        assert spans[i + 1] == spans[1..][i];
      }
      forall i | 0 <= i < |spans| && spans[i].end > limit ensures r <= spans[i].start {
        if i > 0 { assert spans[1..][i - 1] == spans[i]; }
      }
    }
  }

  /** Span j ends after the limit, and no other such span starts before it. */
  predicate FirstStraddler(spans: seq<Span>, limit: nat, j: nat) {
    && j < |spans| && spans[j].end > limit
    && forall i :: 0 <= i < |spans| && spans[i].end > limit ==> spans[j].start <= spans[i].start
  }

  /** A span that ends by the limit reaches over the start of the first one that ends after it. */
  ghost predicate Overlapped(spans: seq<Span>, limit: nat) {
    exists i: nat, j: nat ::
      i < |spans| && spans[i].end <= limit && FirstStraddler(spans, limit, j)
      && spans[i].start < spans[j].start < spans[i].end
  }

  lemma {:induction false} CommitIsFirstStart(spans: seq<Span>, limit: nat, j: nat)
    requires FirstStraddler(spans, limit, j)
    ensures LeastStraddling(spans, limit, limit) == if spans[j].start < limit then spans[j].start else limit
  {
    LeastStraddlingBounds(spans, limit, limit);
  }

  lemma {:induction false} SomeFirstStraddler(spans: seq<Span>, limit: nat)
    requires LeastStraddling(spans, limit, limit) != limit
    ensures exists j: nat :: FirstStraddler(spans, limit, j) && spans[j].start == LeastStraddling(spans, limit, limit)
  {
    LeastStraddlingBounds(spans, limit, limit);
    var j :| 0 <= j < |spans| && spans[j].end > limit && LeastStraddling(spans, limit, limit) == spans[j].start;
    assert FirstStraddler(spans, limit, j);
  }

  /**
   When the commit point cuts a detected span: exactly when a span that ends by
   the limit reaches over the start of the first span that ends after it.
   */
  lemma {:induction false} CommitCutsIff(e: Engine, pending: Text)
    ensures CommitPoint(e, pending) <= |pending|
    ensures Uncut(e.detect(pending), CommitPoint(e, pending)) <==> !Overlapped(e.detect(pending), Limit(e, pending))
  {
    var spans, limit, c := e.detect(pending), Limit(e, pending), CommitPoint(e, pending);
    LeastStraddlingBounds(spans, limit, limit);
    if Overlapped(spans, limit) {
      var i: nat, j: nat :| i < |spans| && spans[i].end <= limit && FirstStraddler(spans, limit, j)
        && spans[i].start < spans[j].start < spans[i].end;
      CommitIsFirstStart(spans, limit, j);
      assert spans[i].start < c < spans[i].end;
    }
    if !Uncut(spans, c) {
      var i :| 0 <= i < |spans| && spans[i].start < c < spans[i].end;
      assert spans[i].end <= limit;
      SomeFirstStraddler(spans, limit);
      var j: nat :| FirstStraddler(spans, limit, j) && spans[j].start == c;
    }
  }

  predicate IsWhole(s: Span, n: nat) { s.start == 0 && s.end == n }

  /** Every detection is of the whole leaf, as for text whose normal form moves offsets. */
  predicate Whole(spans: seq<Span>, n: nat) {
    forall i :: 0 <= i < |spans| ==> IsWhole(spans[i], n)
  }

  /** Two spans overlap only if one of them is the whole leaf. */
  predicate DisjointOrWhole(spans: seq<Span>, n: nat) {
    forall i, j :: 0 <= i < j < |spans| ==>
      IsWhole(spans[i], n) || IsWhole(spans[j], n) || spans[i].end <= spans[j].start || spans[j].end <= spans[i].start
  }

  /** The commit point cuts no span when only whole-leaf spans overlap others. */
  lemma {:induction false} CommitUncut(e: Engine, pending: Text)
    requires Within(e.detect(pending), |pending|) && DisjointOrWhole(e.detect(pending), |pending|)
    ensures CommitPoint(e, pending) <= |pending| && Uncut(e.detect(pending), CommitPoint(e, pending))
  {
    CommitCutsIff(e, pending);
  }

  /**
   What the default filter engine returns never is cut: the spans found with
   overlaps removed, or whole-leaf spans instead of them, followed by whole-leaf
   spans for what was found in the decoded leaf.
   */
  lemma {:induction false} DefaultEngineUncut(e: Engine, pending: Text, found: seq<Span>, base: seq<Span>,
                                              decoded: seq<Span>)
    requires Within(found, |pending|) && (base == Accepted(Spans.Sort(found), -1) || Whole(base, |pending|))
    requires Whole(decoded, |pending|) && e.detect(pending) == base + decoded
    ensures Uncut(e.detect(pending), CommitPoint(e, pending))
  {
    var spans := base + decoded;
    RemoveOverlapsMeaning(found);
    assert forall i :: 0 <= i < |base| ==> base[i] in base;
    assert Within(base, |pending|);
    CommitUncut(e, pending);
  }

  /** An injected engine that reports overlapping spans of a text of twenty units, and would mask them. */
  function OverlappingEngine(): Engine {
    Engine((x: Text) => if |x| == 20 then [Span(2, 8, "a"), Span(5, 20, "b")] else [],
           (_, _) => Replace([42]), true, 10)
  }

  /** With such an engine a push cuts the first span and emits its beginning as it is. */
  lemma {:induction false} OverlapMayBeCut(text: Text)
    requires |text| == 20
    ensures var e := OverlappingEngine();
      && CommitPoint(e, text) == 5 && !Uncut(e.detect(text), 5)
      && PushStep(e, [], text) == (text[5..], Emission(text[..5], false))
  {
    var e, spans := OverlappingEngine(), [Span(2, 8, "a"), Span(5, 20, "b")];
    assert [] + text == text && e.detect(text) == spans;
    assert spans[1..] == [spans[1]] && spans[1..][1..] == [];
    assert LeastStraddling(spans, 10, 10) == LeastStraddling([spans[1]], 10, 10) == LeastStraddling([], 10, 5) == 5;
    assert spans[0].start < 5 < spans[0].end;
    assert Slice(text, 0, 5) == text[..5] && Slice(text, 5, 20) == text[5..];
  }

  /** If no span is longer than `longest`, fewer than maxMatch + longest units are held back, or at most maxMatch. */
  lemma {:induction false} HeldBound(e: Engine, pending: Text, chunk: Text, longest: nat)
    requires Within(e.detect(pending + chunk), |pending + chunk|)
    requires forall s :: s in e.detect(pending + chunk) ==> s.end - s.start <= longest
    ensures |PushStep(e, pending, chunk).0| <= e.maxMatch + (if longest == 0 then 0 else longest - 1)
  {
    var all := pending + chunk;
    LeastStraddlingBounds(e.detect(all), Limit(e, all), Limit(e, all));
  }

  // ----- Nothing is lost or reordered -----

  /** The raw texts that a stream hands to the detector for good, in order. */
  function Committed(e: Engine, pending: Text, events: seq<Event>): Text
    decreases |events|
  {
    if events == [] then pending
    else
      match events[0]
      case Delta(text) =>
        var all := pending + text;
        Slice(all, 0, CommitPoint(e, all)) + Committed(e, PushStep(e, pending, text).0, events[1..])
      case Terminator => pending + Committed(e, [], events[1..])
  }

  /** For every detector and every chunking, the committed segments are the stream, unit for unit. */
  lemma {:induction false} StreamConserves(e: Engine, pending: Text, events: seq<Event>)
    ensures Committed(e, pending, events) == pending + Flatten(events)
    decreases |events|
  {
    if events == [] {
    } else {
      var rest := Flatten(events[1..]);
      match events[0]
      case Delta(text) =>
        var all := pending + text;
        PushSplits(e, pending, text);
        var head, held := Slice(all, 0, CommitPoint(e, all)), PushStep(e, pending, text).0;
        StreamConserves(e, held, events[1..]);
        Regroup(head, held, rest);
        Regroup(pending, text, rest);
      case Terminator =>
        StreamConserves(e, [], events[1..]);
        assert [] + rest == rest;
    }
  }

  lemma {:induction false} CommitBound(e: Engine, pending: Text)
    ensures CommitPoint(e, pending) <= Limit(e, pending)
  {
    LeastStraddlingBounds(e.detect(pending), Limit(e, pending), Limit(e, pending));
  }

  /** A push splits the pending text into what it emits and what it holds. */
  lemma {:induction false} PushSplits(e: Engine, pending: Text, chunk: Text)
    ensures var all := pending + chunk; Slice(all, 0, CommitPoint(e, all)) + PushStep(e, pending, chunk).0 == all
  {
    CommitBound(e, pending + chunk);
  }

  lemma {:induction false} HeldAfterPush(e: Engine, pending: Text, chunk: Text)
    requires CommitPoint(e, pending + chunk) <= |pending + chunk|
    ensures var all, c := pending + chunk, CommitPoint(e, pending + chunk);
      PushStep(e, pending, chunk) == (all[c..], if c == 0 then Emission([], false) else TransformSegment(e, all[..c]))
  {
    var all, c := pending + chunk, CommitPoint(e, pending + chunk);
    assert Slice(all, 0, c) == all[..c] && Slice(all, c, |all|) == all[c..];
  }
}
