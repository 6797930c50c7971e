/**
 When a stream blocks whatever one-shot protection would. Policies see the type and
 the text of a match, so it does exactly when each match, up to these, is found in
 one of the texts that the stream hands to the detector.
 */
module StreamBlocking {
  import opened Texts
  import opened Spans
  import opened StreamProtector
  import opened StreamEquivalence
  import opened StreamExactness
  import opened StreamCoverage

  /** Some match has the type and the text. */
  ghost predicate Found(detect: Detector, x: Text, kind: Kind, text: Text) {
    exists s :: s in detect(x) && s.kind == kind && Slice(x, s.start, s.end) == text
  }

  ghost predicate FoundAmong(detect: Detector, xs: seq<Text>, kind: Kind, text: Text) {
    exists i :: 0 <= i < |xs| && Found(detect, xs[i], kind, text)
  }

  /** A text that is handed to the detector for good, unless it is empty. */
  function Piece(x: Text): seq<Text> {
    if x == [] then [] else [x]
  }

  /** The texts that a stream protects one by one. */
  ghost function Pieces(e: Engine, pending: Text, events: seq<Event>): seq<Text>
    decreases |events|
  {
    if events == [] then Piece(pending)
    else
      match events[0]
      case Delta(text) =>
        var all := pending + text;
        Piece(Slice(all, 0, CommitPoint(e, all))) + Pieces(e, PushStep(e, pending, text).0, events[1..])
      case Terminator => Piece(pending) + Pieces(e, [], events[1..])
  }

  /** The texts that one-shot protection takes in one piece each. */
  function Wholes(held: Text, events: seq<Event>): seq<Text>
    decreases |events|
  {
    if events == [] then [held]
    else
      match events[0]
      case Delta(text) => Wholes(held + text, events[1..])
      case Terminator => [held] + Wholes([], events[1..])
  }

  /** Each match of a whole is found in some piece of the stream. */
  ghost predicate Covered(e: Engine, events: seq<Event>) {
    forall kind, text :: FoundAmong(e.detect, Wholes([], events), kind, text) ==>
      FoundAmong(e.detect, Pieces(e, [], events), kind, text)
  }

  // ----- What blocks -----

  ghost predicate AnyRefused(e: Engine, xs: seq<Text>) {
    exists i :: 0 <= i < |xs| && Refused(e, xs[i])
  }

  lemma {:induction false} AnyOfBoth(e: Engine, a: seq<Text>, b: seq<Text>)
    ensures AnyRefused(e, a + b) <==> AnyRefused(e, a) || AnyRefused(e, b)
  {
    var both := a + b;
    assert forall i :: 0 <= i < |a| ==> both[i] == a[i];
    assert forall i :: 0 <= i < |b| ==> both[|a| + i] == b[i];
    if AnyRefused(e, both) {
      var i :| 0 <= i < |both| && Refused(e, both[i]);
      assert i >= |a| ==> b[i - |a|] == both[i];
    }
  }

  lemma {:induction false} PieceBlocks(e: Engine, x: Text)
    ensures FlushStep(e, x).blocked <==> AnyRefused(e, Piece(x))
  {
    SegmentMeaning(e, x);
    if x != [] { assert Piece(x)[0] == x; }
  }

  lemma {:induction false} PushBlocks(e: Engine, pending: Text, chunk: Text)
    ensures PushStep(e, pending, chunk).1
         == FlushStep(e, Slice(pending + chunk, 0, CommitPoint(e, pending + chunk)))
  {
    CommitBound(e, pending + chunk);
  }

  /** A stream is blocked exactly when one of its pieces is. */
  lemma {:induction false} StreamBlockedIff(e: Engine, pending: Text, events: seq<Event>)
    ensures Stream(e, pending, events).blocked <==> AnyRefused(e, Pieces(e, pending, events))
    decreases |events|
  {
    if events == [] {
      PieceBlocks(e, pending);
    } else {
      match events[0]
      case Delta(text) =>
        var head, held := Slice(pending + text, 0, CommitPoint(e, pending + text)), PushStep(e, pending, text).0;
        PushBlocks(e, pending, text);
        PieceBlocks(e, head);
        StreamBlockedIff(e, held, events[1..]);
        AnyOfBoth(e, Piece(head), Pieces(e, held, events[1..]));
      case Terminator =>
        PieceBlocks(e, pending);
        StreamBlockedIff(e, [], events[1..]);
        AnyOfBoth(e, Piece(pending), Pieces(e, [], events[1..]));
    }
  }

  /** And one-shot protection when one of the wholes is. */
  lemma {:induction false} OneShotBlockedIff(e: Engine, held: Text, events: seq<Event>)
    ensures OneShot(e, held, events).blocked <==> AnyRefused(e, Wholes(held, events))
    decreases |events|
  {
    SegmentMeaning(e, held);
    assert [held][0] == held;
    if events == [] {
    } else {
      match events[0]
      case Delta(text) => OneShotBlockedIff(e, held + text, events[1..]);
      case Terminator =>
        OneShotBlockedIff(e, [], events[1..]);
        AnyOfBoth(e, [held], Wholes([], events[1..]));
    }
  }

  lemma {:induction false} RefusedIff(e: Engine, x: Text)
    requires e.enforced
    ensures Refused(e, x) <==> exists kind, text :: Found(e.detect, x, kind, text) && e.decide(kind, text).Block?
  {
    var spans := e.detect(x);
    if Refused(e, x) {
      var i :| 0 <= i < |spans| && Verdict(e, x, spans[i]).Block?;
      var s := spans[i];
      assert s in spans;
      assert Found(e.detect, x, s.kind, Slice(x, s.start, s.end));
    }
    if kind, text :| Found(e.detect, x, kind, text) && e.decide(kind, text).Block? {
      var s :| s in spans && s.kind == kind && Slice(x, s.start, s.end) == text;
      var i :| 0 <= i < |spans| && spans[i] == s;
      assert Verdict(e, x, spans[i]).Block?;
    }
  }

  lemma {:induction false} AnyRefusedIff(e: Engine, xs: seq<Text>)
    requires e.enforced
    ensures AnyRefused(e, xs)
      <==> exists kind, text :: FoundAmong(e.detect, xs, kind, text) && e.decide(kind, text).Block?
  {
    if AnyRefused(e, xs) {
      var i :| 0 <= i < |xs| && Refused(e, xs[i]);
      RefusedIff(e, xs[i]);
      var kind, text :| Found(e.detect, xs[i], kind, text) && e.decide(kind, text).Block?;
      assert FoundAmong(e.detect, xs, kind, text);
    }
    if kind, text :| FoundAmong(e.detect, xs, kind, text) && e.decide(kind, text).Block? {
      var i :| 0 <= i < |xs| && Found(e.detect, xs[i], kind, text);
      RefusedIff(e, xs[i]);
    }
  }

  // ----- When a stream blocks all that one-shot protection does -----

  /** Under every policy the stream is blocked if its text in one piece would be. */
  ghost predicate Blocking(e: Engine, events: seq<Event>) {
    forall decide: Policy :: BlocksUnder(With(e, decide, true), events)
  }

  ghost predicate BlocksUnder(e: Engine, events: seq<Event>) {
    OneShot(e, [], events).blocked ==> Stream(e, [], events).blocked
  }

  lemma {:induction false} SameCut(e: Engine, decide: Policy, pending: Text, chunk: Text)
    ensures CommitPoint(With(e, decide, true), pending + chunk) == CommitPoint(e, pending + chunk)
    ensures PushStep(With(e, decide, true), pending, chunk).0 == PushStep(e, pending, chunk).0
  {
  }

  lemma {:induction false} SamePieces(e: Engine, decide: Policy, pending: Text, events: seq<Event>)
    ensures Pieces(With(e, decide, true), pending, events) == Pieces(e, pending, events)
    decreases |events|
  {
    if events == [] {
    } else {
      match events[0]
      case Delta(text) =>
        SameCut(e, decide, pending, text);
        SamePieces(e, decide, PushStep(e, pending, text).0, events[1..]);
      case Terminator => SamePieces(e, decide, [], events[1..]);
    }
  }

  lemma {:induction false} CoveredBlocks(e: Engine, events: seq<Event>)
    requires Covered(e, events) && e.enforced
    ensures BlocksUnder(e, events)
  {
    OneShotBlockedIff(e, [], events);
    StreamBlockedIff(e, [], events);
    AnyRefusedIff(e, Wholes([], events));
    AnyRefusedIff(e, Pieces(e, [], events));
  }

  /** The policy that blocks one type and text. */
  ghost function Only(e: Engine, kind: Kind, text: Text): Engine {
    With(e, (k, t) => if k == kind && t == text then Block else Allow, true)
  }

  lemma {:induction false} OnlyTells(e: Engine, events: seq<Event>, kind: Kind, text: Text)
    requires BlocksUnder(Only(e, kind, text), events) && FoundAmong(e.detect, Wholes([], events), kind, text)
    ensures FoundAmong(e.detect, Pieces(e, [], events), kind, text)
  {
    var e' := Only(e, kind, text);
    assert e'.decide(kind, text).Block?;
    AnyRefusedIff(e', Wholes([], events));
    OneShotBlockedIff(e', [], events);
    StreamBlockedIff(e', [], events);
    AnyRefusedIff(e', Pieces(e', [], events));
    SamePieces(e, e'.decide, [], events);
  }

  /**
   A stream is blocked under every policy that would block its text in one piece if
   and only if each match of that text, up to type and text, is a match of a piece.
   */
  lemma {:induction false} BlockingExact(e: Engine, events: seq<Event>)
    ensures Blocking(e, events) <==> Covered(e, events)
  {
    if Covered(e, events) {
      forall decide: Policy ensures BlocksUnder(With(e, decide, true), events) {
        forall kind, text | FoundAmong(e.detect, Wholes([], events), kind, text)
          ensures FoundAmong(e.detect, Pieces(With(e, decide, true), [], events), kind, text)
        {
          SamePieces(e, decide, [], events);
        }
        CoveredBlocks(With(e, decide, true), events);
      }
    }
    if Blocking(e, events) {
      forall kind, text | FoundAmong(e.detect, Wholes([], events), kind, text)
        ensures FoundAmong(e.detect, Pieces(e, [], events), kind, text)
      {
        assert BlocksUnder(Only(e, kind, text), events);
        OnlyTells(e, events, kind, text);
      }
    }
  }

  // ----- A condition on single commits -----

  /** Each match of the text, with more behind it, is found in its part up to c or in the rest. */
  ghost predicate KeepsFound(detect: Detector, x: Text, c: nat, later: Text) {
    c <= |x| && forall kind, text :: Found(detect, x + later, kind, text) ==>
      Found(detect, x[..c], kind, text) || Found(detect, x[c..] + later, kind, text)
  }

  ghost predicate StaysFound(detect: Detector, x: Text, c: nat) {
    forall later: Text {:trigger KeepsFound(detect, x, c, later)} :: KeepsFound(detect, x, c, later)
  }

  /** No commit loses a match, whatever text follows. */
  ghost predicate CommitsKeep(e: Engine) {
    forall all: Text {:trigger CommitPoint(e, all)} ::
      CommitPoint(e, all) > 0 ==> StaysFound(e.detect, all, CommitPoint(e, all))
  }

  lemma {:induction false} StaysFoundLonger(detect: Detector, x: Text, c: nat, more: Text)
    requires c <= |x| && StaysFound(detect, x, c)
    ensures StaysFound(detect, x + more, c) && KeepsFound(detect, x, c, [])
  {
    forall later: Text ensures KeepsFound(detect, x + more, c, later) {
      assert KeepsFound(detect, x, c, more + later);
      Regroup(x, more, later);
      Regroup(x[c..], more, later);
      assert (x + more)[..c] == x[..c] && (x + more)[c..] == x[c..] + more;
    }
  }

  lemma {:induction false} AmongBoth(detect: Detector, a: seq<Text>, b: seq<Text>, kind: Kind, text: Text)
    ensures FoundAmong(detect, a + b, kind, text)
       <==> FoundAmong(detect, a, kind, text) || FoundAmong(detect, b, kind, text)
  {
    var both := a + b;
    assert forall i :: 0 <= i < |a| ==> both[i] == a[i];
    assert forall i :: 0 <= i < |b| ==> both[|a| + i] == b[i];
    if FoundAmong(detect, both, kind, text) {
      var i :| 0 <= i < |both| && Found(detect, both[i], kind, text);
      assert i >= |a| ==> b[i - |a|] == both[i];
    }
  }

  lemma {:induction false} AmongOne(detect: Detector, x: Text, kind: Kind, text: Text)
    ensures FoundAmong(detect, [x], kind, text) <==> Found(detect, x, kind, text)
  {
    assert [x][0] == x;
  }

  lemma {:induction false} AmongPiece(detect: Detector, x: Text, kind: Kind, text: Text)
    requires detect([]) == []
    ensures FoundAmong(detect, Piece(x), kind, text) <==> Found(detect, x, kind, text)
  {
    AmongOne(detect, x, kind, text);
  }

  lemma {:induction false} WholeKept(detect: Detector, x: Text, c: nat, kind: Kind, text: Text)
    requires KeepsFound(detect, x, c, []) && Found(detect, x, kind, text)
    ensures Found(detect, x[..c], kind, text) || Found(detect, x[c..], kind, text)
  {
    assert x + [] == x && x[c..] + [] == x[c..];
  }

  /** What is found in a whole is found in a part cut off of it or in the wholes of the rest. */
  lemma {:induction false} CutKeeps(detect: Detector, x: Text, c: nat, events: seq<Event>, kind: Kind, text: Text)
    requires c <= |x| && StaysFound(detect, x, c) && FoundAmong(detect, Wholes(x, events), kind, text)
    ensures Found(detect, x[..c], kind, text) || FoundAmong(detect, Wholes(x[c..], events), kind, text)
    decreases |events|
  {
    StaysFoundLonger(detect, x, c, []);
    AmongOne(detect, x, kind, text);
    AmongOne(detect, x[c..], kind, text);
    if Found(detect, x, kind, text) { WholeKept(detect, x, c, kind, text); }
    if events == [] {
    } else {
      match events[0]
      case Delta(more) =>
        StaysFoundLonger(detect, x, c, more);
        CutKeeps(detect, x + more, c, events[1..], kind, text);
        assert (x + more)[..c] == x[..c] && (x + more)[c..] == x[c..] + more;
      case Terminator =>
        AmongBoth(detect, [x], Wholes([], events[1..]), kind, text);
        AmongBoth(detect, [x[c..]], Wholes([], events[1..]), kind, text);
    }
  }

  lemma {:induction false} StreamKeeps(e: Engine, pending: Text, events: seq<Event>, kind: Kind, text: Text)
    requires CommitsKeep(e) && e.detect([]) == [] && FoundAmong(e.detect, Wholes(pending, events), kind, text)
    ensures FoundAmong(e.detect, Pieces(e, pending, events), kind, text)
    decreases |events|
  {
    AmongPiece(e.detect, pending, kind, text);
    AmongOne(e.detect, pending, kind, text);
    if events == [] {
    } else {
      match events[0]
      case Delta(more) =>
        PushKeeps(e, pending, more, events[1..], kind, text);
        var head, held := Slice(pending + more, 0, CommitPoint(e, pending + more)), PushStep(e, pending, more).0;
        if FoundAmong(e.detect, Wholes(held, events[1..]), kind, text) {
          StreamKeeps(e, held, events[1..], kind, text);
        }
        AmongBoth(e.detect, Piece(head), Pieces(e, held, events[1..]), kind, text);
      case Terminator =>
        AmongBoth(e.detect, [pending], Wholes([], events[1..]), kind, text);
        if FoundAmong(e.detect, Wholes([], events[1..]), kind, text) {
          StreamKeeps(e, [], events[1..], kind, text);
        }
        AmongBoth(e.detect, Piece(pending), Pieces(e, [], events[1..]), kind, text);
    }
  }

  lemma {:induction false} PushKeeps(e: Engine, pending: Text, more: Text, rest: seq<Event>, kind: Kind, text: Text)
    requires CommitsKeep(e) && e.detect([]) == []
    requires FoundAmong(e.detect, Wholes(pending + more, rest), kind, text)
    ensures FoundAmong(e.detect, Piece(Slice(pending + more, 0, CommitPoint(e, pending + more))), kind, text)
         || FoundAmong(e.detect, Wholes(PushStep(e, pending, more).0, rest), kind, text)
  {
    var all, c := pending + more, CommitPoint(e, pending + more);
    CommitBound(e, all);
    HeldAfterPush(e, pending, more);
    if c == 0 {
      assert all[0..] == all;
    } else {
      CutKeeps(e.detect, all, c, rest, kind, text);
      assert Slice(all, 0, c) == all[..c];
      AmongPiece(e.detect, all[..c], kind, text);
    }
  }

  /** If no commit loses a match, every stream blocks all that one-shot protection does. */
  lemma {:induction false} KeptIsBlocked(e: Engine, events: seq<Event>)
    requires CommitsKeep(e) && e.detect([]) == []
    ensures Blocking(e, events)
  {
    forall kind, text | FoundAmong(e.detect, Wholes([], events), kind, text)
      ensures FoundAmong(e.detect, Pieces(e, [], events), kind, text)
    {
      StreamKeeps(e, [], events, kind, text);
    }
    BlockingExact(e, events);
  }

  /** For a text sent as one delta that is exact: no other cut can make up for a match that is lost. */
  lemma {:induction false} OneDeltaExact(e: Engine, x: Text)
    requires e.detect([]) == []
    ensures CommitPoint(e, x) <= |x| && (Blocking(e, [Delta(x)]) <==> KeepsFound(e.detect, x, CommitPoint(e, x), []))
  {
    var c, events := CommitPoint(e, x), [Delta(x)];
    CommitBound(e, x);
    BlockingExact(e, events);
    assert events[1..] == [] && [] + x == x && x + [] == x && x[c..] + [] == x[c..];
    HeldAfterPush(e, [], x);
    assert Slice(x, 0, c) == x[..c];
    forall kind, text
      ensures FoundAmong(e.detect, Wholes([], events), kind, text) <==> Found(e.detect, x, kind, text)
      ensures FoundAmong(e.detect, Pieces(e, [], events), kind, text)
         <==> Found(e.detect, x[..c], kind, text) || Found(e.detect, x[c..], kind, text)
    {
      AmongOne(e.detect, x, kind, text);
      AmongBoth(e.detect, Piece(x[..c]), Piece(x[c..]), kind, text);
      AmongPiece(e.detect, x[..c], kind, text);
      AmongPiece(e.detect, x[c..], kind, text);
    }
  }

  // ----- A commit may lose a match that a later cut brings back -----

  const A: Unit := 97
  const B: Unit := 98
  const C: Unit := 99

  /** Finds the `b` of `b`, `ab` and `abc`, and nothing in any other text. */
  function FindsB(x: Text): seq<Span> {
    if x == [B] then [Span(0, 1, "b")]
    else if x == [A, B] || x == [A, B, C] then [Span(1, 2, "b")]
    else []
  }

  ghost function Returning(): Engine {
    Engine(FindsB, (_, _) => Allow, true, 1)
  }

  predicate HasB(x: Text) { x == [B] || x == [A, B] || x == [A, B, C] }

  lemma {:induction false} FoundB(x: Text, kind: Kind, text: Text)
    ensures Found(Returning().detect, x, kind, text) <==> HasB(x) && kind == "b" && text == [B]
  {
    var spans := FindsB(x);
    if HasB(x) {
      var s := spans[0];
      assert s in spans && Slice(x, s.start, s.end) == [B];
    }
  }

  /** All but the last unit is committed. */
  lemma {:induction false} CommitsAllButOne(x: Text)
    ensures CommitPoint(Returning(), x) == if x == [] then 0 else |x| - 1
  {
    LeastStraddlingBounds(FindsB(x), Limit(Returning(), x), Limit(Returning(), x));
  }

  lemma {:induction false} PushesAllButOne(pending: Text, chunk: Text)
    requires pending + chunk != []
    ensures var all, n := pending + chunk, |pending + chunk| - 1;
      && Slice(all, 0, CommitPoint(Returning(), all)) == all[..n]
      && PushStep(Returning(), pending, chunk).0 == all[n..]
  {
    var all := pending + chunk;
    CommitsAllButOne(all);
    HeldAfterPush(Returning(), pending, chunk);
  }

  /** What is held when the text so far is `whole`, and nothing was found in it and lost. */
  ghost predicate HeldOf(whole: Text, held: Text) {
    if |whole| <= 1 then held == whole else |held| == 1 && whole[|whole| - 1..] == held && whole != [A, B, C]
  }

  lemma {:induction false} ShortHolds(all: Text, n: nat)
    requires |all| == n + 1
    ensures HasB(all[..n]) || HeldOf(all, all[n..])
  {
    if all == [A, B, C] { assert all[..n] == [A, B]; }
  }

  lemma {:induction false} LongHolds(whole: Text, held: Text, more: Text, all: Text, n: nat)
    requires |whole| >= 2 && HeldOf(whole, held) && all == held + more && |more| == n > 0
    ensures HasB(all[..n]) || HeldOf(whole + more, all[n..])
  {
    var longer := whole + more;
    assert longer[|longer| - 1..] == more[n - 1..] == all[n..];
    if longer == [A, B, C] {
      assert whole == longer[..|whole|] && |whole| == 2 && n == 1;
      assert all[..n] == held == [B];
    }
  }

  /** A push holds the last unit, or has emitted the match. */
  lemma {:induction false} PushHolds(whole: Text, held: Text, more: Text, all: Text, n: nat)
    requires HeldOf(whole, held) && all == held + more && |all| == n + 1
    ensures HasB(all[..n]) || HeldOf(whole + more, all[n..])
  {
    if |whole| <= 1 {
      ShortHolds(all, n);
    } else if more == [] {
      assert whole + more == whole && all[n..] == held;
    } else {
      LongHolds(whole, held, more, all, n);
    }
  }

  predicate AnyB(xs: seq<Text>) {
    exists i :: 0 <= i < |xs| && HasB(xs[i])
  }

  lemma {:induction false} AnyBMeaning(xs: seq<Text>, kind: Kind, text: Text)
    ensures FoundAmong(Returning().detect, xs, kind, text) <==> AnyB(xs) && kind == "b" && text == [B]
  {
    forall i | 0 <= i < |xs|
      ensures Found(Returning().detect, xs[i], kind, text) <==> HasB(xs[i]) && kind == "b" && text == [B]
    {
      FoundB(xs[i], kind, text);
    }
  }

  lemma {:induction false} AnyBCons(x: Text, xs: seq<Text>)
    ensures AnyB([x] + xs) <==> HasB(x) || AnyB(xs)
    ensures AnyB(Piece(x) + xs) <==> HasB(x) || AnyB(xs)
  {
    var all := [x] + xs;
    assert all[0] == x && forall i :: 0 <= i < |xs| ==> all[i + 1] == xs[i];
    assert [] + xs == xs;
  }

  lemma {:induction false} PiecesAfterPush(held: Text, more: Text, rest: seq<Event>, all: Text, n: nat)
    requires all == held + more && |all| == n + 1
    ensures Pieces(Returning(), held, [Delta(more)] + rest) == Piece(all[..n]) + Pieces(Returning(), all[n..], rest)
  {
    PushesAllButOne(held, more);
    assert ([Delta(more)] + rest)[1..] == rest;
  }

  lemma {:induction false} NothingPushed(held: Text, rest: seq<Event>)
    requires held == []
    ensures AnyB(Pieces(Returning(), held, [Delta([])] + rest)) == AnyB(Pieces(Returning(), [], rest))
  {
    var e, none: Text := Returning(), [];
    CommitsAllButOne(none);
    assert none + none == none && ([Delta(none)] + rest)[1..] == rest;
    HeldAfterPush(e, none, none);
    assert Slice(none, 0, 0) == none && none[0..] == none;
    AnyBCons(none, Pieces(e, none, rest));
  }

  lemma {:induction false} HeldFinds(whole: Text, held: Text, events: seq<Event>)
    requires HeldOf(whole, held) && AnyB(Wholes(whole, events))
    ensures AnyB(Pieces(Returning(), held, events))
    decreases |events|, 0
  {
    if events == [] {
      AnyBCons(whole, []);
      AnyBCons(held, []);
    } else {
      var rest := events[1..];
      assert events == [events[0]] + rest;
      match events[0]
      case Delta(more) => DeltaFinds(whole, held, more, rest);
      case Terminator =>
        AnyBCons(whole, Wholes([], rest));
        AnyBCons(held, Pieces(Returning(), [], rest));
        if AnyB(Wholes([], rest)) { HeldFinds([], [], rest); }
    }
  }

  lemma {:induction false} DeltaFinds(whole: Text, held: Text, more: Text, rest: seq<Event>)
    requires HeldOf(whole, held) && AnyB(Wholes(whole + more, rest))
    ensures AnyB(Pieces(Returning(), held, [Delta(more)] + rest))
    decreases |rest|, 1
  {
    var all := held + more;
    if all == [] {
      assert whole + more == [];
      NothingPushed(held, rest);
      HeldFinds([], [], rest);
    } else {
      var n := |all| - 1;
      PushHolds(whole, held, more, all, n);
      if !HasB(all[..n]) { HeldFinds(whole + more, all[n..], rest); }
      EitherFinds(held, more, rest, all, n);
    }
  }

  lemma {:induction false} EitherFinds(held: Text, more: Text, rest: seq<Event>, all: Text, n: nat)
    requires all == held + more && |all| == n + 1 && (HasB(all[..n]) || AnyB(Pieces(Returning(), all[n..], rest)))
    ensures AnyB(Pieces(Returning(), held, [Delta(more)] + rest))
  {
    PiecesAfterPush(held, more, rest, all, n);
    AnyBCons(all[..n], Pieces(Returning(), all[n..], rest));
  }

  /**
   That no commit loses a match is not needed: this engine blocks in every stream
   what it blocks in one piece, though after `ab` the `a` is committed, and with `c`
   behind it the `b` of `abc` is found neither in `a` nor in `bc`.
   */
  lemma {:induction false} KeepingNotNeeded(events: seq<Event>)
    ensures !CommitsKeep(Returning()) && Blocking(Returning(), events)
  {
    var e := Returning();
    CommitsAllButOne([A, B]);
    FoundB([A, B, C], "b", [B]);
    FoundB([A], "b", [B]);
    FoundB([B, C], "b", [B]);
    assert [A, B] + [C] == [A, B, C] && [A, B][..1] == [A] && [A, B][1..] + [C] == [B, C];
    assert !KeepsFound(e.detect, [A, B], 1, [C]);
    forall kind, text | FoundAmong(e.detect, Wholes([], events), kind, text)
      ensures FoundAmong(e.detect, Pieces(e, [], events), kind, text)
    {
      AnyBMeaning(Wholes([], events), kind, text);
      HeldFinds([], [], events);
      AnyBMeaning(Pieces(e, [], events), kind, text);
    }
    BlockingExact(e, events);
  }

  // ----- Detectors that lose no match by a cut -----

  lemma {:induction false} KeptFound(detect: Detector, h: Text, t: Text, s: Span)
    requires KeptAt(detect, h + t, |h|) && Uncut(detect(h + t), |h|) && s in detect(h + t)
    ensures Found(detect, h, s.kind, Slice(h + t, s.start, s.end))
         || Found(detect, t, s.kind, Slice(h + t, s.start, s.end))
  {
    var x, c := h + t, |h|;
    assert x[..c] == h && x[c..] == t;
    if s.end <= c && s in detect(h) {
      SliceHead(h, t, s.start, s.end);
    } else {
      var r := Rebased(s, c);
      assert r in detect(t);
      SliceTail(h, t, r.start, r.end);
    }
  }

  lemma {:induction false} GuardedKeeps(e: Engine)
    requires Guarded(e.detect, e.maxMatch)
    ensures CommitsKeep(e)
  {
    forall all, later: Text ensures KeepsFound(e.detect, all, CommitPoint(e, all), later) {
      var c := CommitPoint(e, all);
      CommitUncutForEver(e, all);
      var h, t := all[..c], all[c..] + later;
      assert all + later == h + t && KeptAt(e.detect, all + later, c);
      forall kind, text | Found(e.detect, all + later, kind, text)
        ensures Found(e.detect, h, kind, text) || Found(e.detect, t, kind, text)
      {
        var s :| s in e.detect(h + t) && s.kind == kind && Slice(h + t, s.start, s.end) == text;
        KeptFound(e.detect, h, t, s);
      }
    }
  }

  /**
   Streaming blocks whatever one-shot protection would: if the text up to some
   terminator, or to the end, would be blocked, the stream is, however it is cut.
   */
  lemma {:induction false} BlockedIsBlocked(e: Engine, events: seq<Event>)
    requires Guarded(e.detect, e.maxMatch) && OneShot(e, [], events).blocked
    ensures Stream(e, [], events).blocked
  {
    GuardedKeeps(e);
    KeptIsBlocked(e, events);
    OneShotBlockedIff(e, [], events);
    assert e.enforced;
    assert With(e, e.decide, true) == e && BlocksUnder(With(e, e.decide, true), events);
  }
}
