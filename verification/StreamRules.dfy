/**
 Rules of a filter engine one by one: matches of varying length, found from left to
 right, which may look at the text around them and are checked by a validator.
 */
module StreamRules {
  import opened Texts
  import opened Spans
  import opened StreamProtector
  import opened StreamEquivalence
  import opened StreamCoverage

  /**
   `length` says how many units match from a position on, none when it is zero,
   given up to `behind` units before the position and up to `reach` units from it.
   */
  datatype Rule = Rule(kind: Kind, behind: nat, reach: nat, length: (Text, Text) -> nat, valid: Text -> bool)

  /** Where the text behind a position begins that a rule looks at. */
  function From(r: Rule, at: nat): (from: nat)
    ensures from <= at
  {
    if at < r.behind then 0 else at - r.behind
  }

  function Before(r: Rule, x: Text, at: nat): Text
    requires at <= |x|
  {
    x[From(r, at)..at]
  }

  function Window(r: Rule, x: Text, at: nat): Text
    requires at <= |x|
  {
    x[at..(if |x| < at + r.reach then |x| else at + r.reach)]
  }

  /** The length of the match at a position, zero when there is none. */
  function Len(r: Rule, x: Text, at: nat): (n: nat)
    requires at <= |x|
    ensures at + n <= |x| && n <= r.reach
  {
    var n := r.length(Before(r, x, at), Window(r, x, at));
    if n <= |Window(r, x, at)| then n else 0
  }

  function SpanOf(r: Rule, at: nat, n: nat): Span { Span(at, at + n, r.kind) }

  /** All matches from a position on, each behind the one before. */
  function Matches(r: Rule, x: Text, from: nat): seq<Span>
    requires from <= |x|
    decreases |x| - from
  {
    if from == |x| then []
    else
      var n := Len(r, x, from);
      if n > 0 then [SpanOf(r, from, n)] + Matches(r, x, from + n) else Matches(r, x, from + 1)
  }

  function Validated(r: Rule, x: Text, spans: seq<Span>): seq<Span> {
    if spans == [] then []
    else
      (if r.valid(Slice(x, spans[0].start, spans[0].end)) then [spans[0]] else []) + Validated(r, x, spans[1..])
  }

  /** The matches that the validator accepts. */
  ghost function Finder(r: Rule): Detector {
    x => Validated(r, x, Matches(r, x, 0))
  }

  // ----- What a rule finds -----

  lemma {:induction false} MatchesSolid(r: Rule, x: Text, from: nat)
    requires from <= |x|
    ensures SolidSpans(Matches(r, x, from), from, |x|)
    decreases |x| - from
  {
    if from == |x| {
    } else {
      var n := Len(r, x, from);
      if n > 0 {
        MatchesSolid(r, x, from + n);
        SolidCons(SpanOf(r, from, n), Matches(r, x, from + n), from, |x|);
      } else {
        MatchesSolid(r, x, from + 1);
        SolidFrom(Matches(r, x, from + 1), from, from + 1, |x|);
      }
    }
  }

  lemma {:induction false} ValidatedSolid(r: Rule, x: Text, spans: seq<Span>, from: nat)
    requires SolidSpans(spans, from, |x|)
    ensures SolidSpans(Validated(r, x, spans), from, |x|)
  {
    if spans == [] {
    } else {
      var s, rest := spans[0], spans[1..];
      assert spans == [s] + rest;
      SolidTail(s, rest, from, |x|);
      ValidatedSolid(r, x, rest, s.end);
      if r.valid(Slice(x, s.start, s.end)) {
        SolidCons(s, Validated(r, x, rest), from, |x|);
      } else {
        SolidFrom(Validated(r, x, rest), from, s.end, |x|);
      }
    }
  }

  lemma {:induction false} ValidatedExactly(r: Rule, x: Text, spans: seq<Span>, s: Span)
    ensures s in Validated(r, x, spans) <==> s in spans && r.valid(Slice(x, s.start, s.end))
  {
    if spans == [] {
    } else {
      ValidatedExactly(r, x, spans[1..], s);
      assert spans == [spans[0]] + spans[1..];
    }
  }

  lemma {:induction false} FinderSolid(r: Rule)
    ensures Solid(Finder(r))
  {
    forall x ensures SolidAt(Finder(r), x) {
      MatchesSolid(r, x, 0);
      ValidatedSolid(r, x, Matches(r, x, 0), 0);
    }
  }

  lemma {:induction false} MatchedIs(r: Rule, x: Text, from: nat, s: Span)
    requires from <= |x| && s in Matches(r, x, from)
    ensures from <= s.start <= |x| && Len(r, x, s.start) > 0 && s == SpanOf(r, s.start, Len(r, x, s.start))
    decreases |x| - from
  {
    var n := Len(r, x, from);
    if n > 0 {
      if s != SpanOf(r, from, n) { MatchedIs(r, x, from + n, s); }
    } else {
      MatchedIs(r, x, from + 1, s);
    }
  }

  /** No match from before reaches over the position. */
  ghost predicate Free(r: Rule, x: Text, at: nat)
    requires at <= |x|
  {
    forall i: nat {:trigger Len(r, x, i)} :: i < at ==> i + Len(r, x, i) <= at
  }

  /** A match is found unless another one reaches over its start. */
  lemma {:induction false} MatchFound(r: Rule, x: Text, from: nat, at: nat)
    requires from <= at <= |x| && Len(r, x, at) > 0 && Free(r, x, at)
    ensures SpanOf(r, at, Len(r, x, at)) in Matches(r, x, from)
    decreases |x| - from
  {
    var n := Len(r, x, from);
    if from == at {
    } else if n > 0 {
      MatchFound(r, x, from + n, at);
    } else {
      MatchFound(r, x, from + 1, at);
    }
  }

  // ----- More text behind -----

  lemma {:induction false} SliceKept(x: Text, y: Text, from: nat, to: nat)
    requires from <= to <= |x|
    ensures (x + y)[from..to] == x[from..to]
  {
  }

  lemma {:induction false} LenLonger(r: Rule, x: Text, y: Text, at: nat)
    requires at + r.reach <= |x|
    ensures Len(r, x + y, at) == Len(r, x, at)
  {
    SliceKept(x, y, From(r, at), at);
    SliceKept(x, y, at, at + r.reach);
  }

  lemma {:induction false} MatchesLonger(r: Rule, x: Text, y: Text, from: nat, s: Span)
    requires from <= |x| && s.start + r.reach <= |x|
    ensures s in Matches(r, x + y, from) <==> s in Matches(r, x, from)
    decreases |x| - from
  {
    if s.start < from {
      MatchesSolid(r, x, from);
      MatchesSolid(r, x + y, from);
    } else if from == |x| {
      if s in Matches(r, x + y, from) { MatchedIs(r, x + y, from, s); }
    } else {
      LenLonger(r, x, y, from);
      var n := Len(r, x, from);
      MatchesLonger(r, x, y, if n > 0 then from + n else from + 1, s);
    }
  }

  /** A long enough hold-back sees every match with the text it looks at. */
  lemma {:induction false} FinderLocal(r: Rule, m: nat)
    requires r.reach <= m + 1
    ensures Local(Finder(r), m)
  {
    FinderSolid(r);
    forall x ensures ProperAt(Finder(r), x) { assert SolidAt(Finder(r), x); }
    forall x, y ensures LocalAt(Finder(r), m, x, y) {
      forall s: Span | s.start + m < |x| ensures s in Finder(r)(x + y) <==> s in Finder(r)(x) {
        FoundLonger(r, m, x, y, s);
      }
    }
  }

  lemma {:induction false} FoundLonger(r: Rule, m: nat, x: Text, y: Text, s: Span)
    requires r.reach <= m + 1 && s.start + m < |x|
    ensures s in Finder(r)(x + y) <==> s in Finder(r)(x)
  {
    MatchesLonger(r, x, y, 0, s);
    ValidatedExactly(r, x, Matches(r, x, 0), s);
    ValidatedExactly(r, x + y, Matches(r, x + y, 0), s);
    if s in Matches(r, x, 0) {
      MatchedIs(r, x, 0, s);
      SliceHead(x, y, s.start, s.end);
    }
  }

  // ----- Cutting -----

  /** Each match that lies in one half of a text is found in that half, whatever else the cut goes through. */
  ghost predicate HalvesKeep(detect: Detector, h: Text, t: Text) {
    forall s :: s in detect(h + t) ==>
      && (s.end <= |h| ==> s in detect(h))
      && (|h| <= s.start && s.start <= s.end ==> Rebased(s, |h|) in detect(t))
  }

  ghost predicate AllHalvesKeep(detect: Detector) {
    forall h, t {:trigger HalvesKeep(detect, h, t)} :: HalvesKeep(detect, h, t)
  }

  /** With less text around it, a match is still the same match: the context only forbids. */
  ghost predicate Forbids(r: Rule) {
    forall before, window, k: nat, l: nat {:trigger r.length(before[k..], window[..l]), r.length(before, window)} ::
      (k <= |before| && 0 < r.length(before, window) <= l <= |window|) ==>
        r.length(before[k..], window[..l]) == r.length(before, window)
  }

  /** A match of n units with the text around it, or with less of it. */
  ghost predicate Loose(r: Rule, x: Text, at: nat, n: nat) {
    at <= |x| && exists k: nat, l: nat :: LooseBy(r, x, at, n, k, l)
  }

  ghost predicate LooseBy(r: Rule, x: Text, at: nat, n: nat, k: nat, l: nat)
    requires at <= |x|
  {
    && k <= |Before(r, x, at)| && 0 < n <= l <= |Window(r, x, at)|
    && r.length(Before(r, x, at)[k..], Window(r, x, at)[..l]) == n
  }

  /** No such match reaches over the start of a match of the same rule. */
  ghost predicate Apart(r: Rule) {
    forall x: Text, i: nat, j: nat, n: nat {:trigger Loose(r, x, i, n), Len(r, x, j)} ::
      i < j < i + n && j <= |x| && Loose(r, x, i, n) ==> Len(r, x, j) == 0
  }

  lemma {:induction false} PrefixIs(a: Text, from: nat, to: nat, later: nat)
    requires from <= to <= later <= |a|
    ensures a[from..later][..to - from] == a[from..to]
  {
  }

  lemma {:induction false} SuffixIs(a: Text, from: nat, later: nat, to: nat)
    requires from <= later <= to <= |a|
    ensures a[from..to][later - from..] == a[later..to]
  {
  }

  /** What a rule looks at in the first part of a text: the same behind, and a first part of it ahead. */
  lemma {:induction false} AroundInHead(r: Rule, h: Text, t: Text, at: nat)
    requires at <= |h|
    ensures var few, all := Window(r, h, at), Window(r, h + t, at); |few| <= |all| && few == all[..|few|]
    ensures Before(r, h, at) == Before(r, h + t, at)
    ensures |Window(r, h, at)| == if |h| < at + r.reach then |h| - at else r.reach
  {
    var x := h + t;
    var to := if |h| < at + r.reach then |h| else at + r.reach;
    var later := if |x| < at + r.reach then |x| else at + r.reach;
    SliceKept(h, t, From(r, at), at);
    SliceKept(h, t, at, to);
    PrefixIs(x, at, to, later);
  }

  lemma {:induction false} SliceMoved(h: Text, t: Text, from: nat, to: nat, from': nat, to': nat)
    requires from <= to <= |t| && from' == |h| + from && to' == |h| + to
    ensures (h + t)[from'..to'] == t[from..to]
  {
  }

  lemma {:induction false} WindowInTail(r: Rule, h: Text, t: Text, at: nat, at': nat)
    requires at <= |t| && at' == |h| + at
    ensures Window(r, t, at) == Window(r, h + t, at')
  {
    var to := if |t| < at + r.reach then |t| else at + r.reach;
    SliceMoved(h, t, at, to, at', |h| + to);
  }

  predicate Suffix(few: Text, all: Text) {
    |few| <= |all| && few == all[|all| - |few|..]
  }

  lemma {:induction false} SuffixInTail(h: Text, t: Text, from: nat, at: nat, from': nat, at': nat)
    requires from <= at <= |t| && from' <= |h| + from && at' == |h| + at
    ensures Suffix(t[from..at], (h + t)[from'..at'])
  {
    var middle := |h| + from;
    SliceMoved(h, t, from, at, middle, at');
    SuffixIs(h + t, from', middle, at');
    assert (at' - from') - (at - from) == middle - from';
  }

  lemma {:induction false} BeforeInTail(r: Rule, h: Text, t: Text, at: nat, at': nat)
    requires at <= |t| && at' == |h| + at
    ensures Suffix(Before(r, t, at), Before(r, h + t, at'))
  {
    SuffixInTail(h, t, From(r, at), at, From(r, at'), at');
  }

  /** And in the last part: the same ahead, and a last part of it behind. */
  lemma {:induction false} AroundInTail(r: Rule, h: Text, t: Text, at: nat, at': nat)
    requires at <= |t| && at' == |h| + at
    ensures Window(r, t, at) == Window(r, h + t, at')
    ensures Suffix(Before(r, t, at), Before(r, h + t, at'))
  {
    WindowInTail(r, h, t, at, at');
    BeforeInTail(r, h, t, at, at');
  }

  lemma {:induction false} LessAround(r: Rule, before: Text, window: Text, before': Text, window': Text)
    requires Forbids(r) && 0 < r.length(before, window) <= |window'| <= |window|
    requires Suffix(before', before) && window' == window[..|window'|]
    ensures r.length(before', window') == r.length(before, window)
  {
  }

  lemma {:induction false} LenInHead(r: Rule, h: Text, t: Text, at: nat)
    requires Forbids(r) && at <= |h| && Len(r, h + t, at) > 0 && at + Len(r, h + t, at) <= |h|
    ensures Len(r, h, at) == Len(r, h + t, at)
  {
    AroundInHead(r, h, t, at);
    LessAround(r, Before(r, h + t, at), Window(r, h + t, at), Before(r, h, at), Window(r, h, at));
  }

  lemma {:induction false} LenInTail(r: Rule, h: Text, t: Text, at: nat, at': nat)
    requires Forbids(r) && at <= |t| && at' == |h| + at && Len(r, h + t, at') > 0
    ensures Len(r, t, at) == Len(r, h + t, at')
  {
    AroundInTail(r, h, t, at, at');
    LessAround(r, Before(r, h + t, at'), Window(r, h + t, at'), Before(r, t, at), Window(r, t, at));
  }

  lemma {:induction false} LooseInHead(r: Rule, h: Text, t: Text, at: nat, n: nat)
    requires at <= |h| && Len(r, h, at) == n > 0
    ensures Loose(r, h + t, at, n)
  {
    AroundInHead(r, h, t, at);
    assert Before(r, h, at)[0..] == Before(r, h, at);
    assert LooseBy(r, h + t, at, n, 0, |Window(r, h, at)|);
  }

  lemma {:induction false} LooseInTail(r: Rule, h: Text, t: Text, at: nat, at': nat, n: nat)
    requires at <= |t| && at' == |h| + at && Len(r, t, at) == n > 0
    ensures Loose(r, h + t, at', n)
  {
    AroundInTail(r, h, t, at, at');
    var all, window := Before(r, h + t, at'), Window(r, h + t, at');
    assert window[..|window|] == window;
    assert LooseBy(r, h + t, at', n, |all| - |Before(r, t, at)|, |window|);
  }

  /** A match with all the text around it is one, too. */
  lemma {:induction false} LenIsLoose(r: Rule, x: Text, at: nat)
    requires at <= |x| && Len(r, x, at) > 0
    ensures Loose(r, x, at, Len(r, x, at))
  {
    LooseInHead(r, x, [], at, Len(r, x, at));
    assert x + [] == x;
  }

  lemma {:induction false} FoundInHead(r: Rule, h: Text, t: Text, at: nat)
    requires Forbids(r) && Apart(r) && at <= |h| && Len(r, h + t, at) > 0 && at + Len(r, h + t, at) <= |h|
    ensures SpanOf(r, at, Len(r, h + t, at)) in Matches(r, h, 0)
  {
    LenInHead(r, h, t, at);
    forall i: nat | i < at ensures i + Len(r, h, i) <= at {
      if Len(r, h, i) > 0 { LooseInHead(r, h, t, i, Len(r, h, i)); }
    }
    MatchFound(r, h, 0, at);
  }

  lemma {:induction false} FoundInTail(r: Rule, h: Text, t: Text, at: nat, at': nat)
    requires Forbids(r) && Apart(r) && at <= |t| && at' == |h| + at && Len(r, h + t, at') > 0
    ensures SpanOf(r, at, Len(r, h + t, at')) in Matches(r, t, 0)
  {
    LenInTail(r, h, t, at, at');
    forall i: nat | i < at ensures i + Len(r, t, i) <= at {
      if Len(r, t, i) > 0 {
        LooseInTail(r, h, t, i, |h| + i, Len(r, t, i));
        assert !(|h| + i < at' < |h| + i + Len(r, t, i));
      }
    }
    MatchFound(r, t, 0, at);
  }

  /** A rule whose context only forbids, and whose matches stand apart, loses no match by a cut. */
  lemma {:induction false} FinderHalves(r: Rule)
    requires Forbids(r) && Apart(r)
    ensures AllHalvesKeep(Finder(r))
  {
    forall h, t ensures HalvesKeep(Finder(r), h, t) {
      forall s | s in Finder(r)(h + t)
        ensures s.end <= |h| ==> s in Finder(r)(h)
        ensures |h| <= s.start && s.start <= s.end ==> Rebased(s, |h|) in Finder(r)(t)
      {
        FoundInHalf(r, h, t, s);
      }
    }
  }

  lemma {:induction false} FoundInHalf(r: Rule, h: Text, t: Text, s: Span)
    requires Forbids(r) && Apart(r) && s in Finder(r)(h + t)
    ensures s.end <= |h| ==> s in Finder(r)(h)
    ensures |h| <= s.start && s.start <= s.end ==> Rebased(s, |h|) in Finder(r)(t)
  {
    FoundIs(r, h + t, s);
    if s.end <= |h| { ValidInHead(r, h, t, s); }
    if |h| <= s.start { ValidInTail(r, h, t, Rebased(s, |h|), s); }
  }

  /** A valid match with all the text around it. */
  ghost predicate IsMatch(r: Rule, x: Text, s: Span) {
    && s.kind == r.kind && s.start < s.end <= |x| && Len(r, x, s.start) == s.end - s.start
    && r.valid(Slice(x, s.start, s.end))
  }

  lemma {:induction false} FoundIs(r: Rule, x: Text, s: Span)
    requires s in Finder(r)(x)
    ensures IsMatch(r, x, s)
  {
    ValidatedExactly(r, x, Matches(r, x, 0), s);
    MatchedIs(r, x, 0, s);
  }

  lemma {:induction false} ValidFound(r: Rule, x: Text, s: Span)
    requires s in Matches(r, x, 0) && r.valid(Slice(x, s.start, s.end))
    ensures s in Finder(r)(x)
  {
    ValidatedExactly(r, x, Matches(r, x, 0), s);
  }

  lemma {:induction false} ValidInHead(r: Rule, h: Text, t: Text, s: Span)
    requires Forbids(r) && Apart(r) && IsMatch(r, h + t, s) && s.end <= |h|
    ensures s in Finder(r)(h)
  {
    FoundInHead(r, h, t, s.start);
    SliceHead(h, t, s.start, s.end);
    ValidFound(r, h, s);
  }

  lemma {:induction false} ValidInTail(r: Rule, h: Text, t: Text, s: Span, s': Span)
    requires Forbids(r) && Apart(r) && s' == Moved(s, |h|) && IsMatch(r, h + t, s')
    ensures s in Finder(r)(t)
  {
    FoundInTail(r, h, t, s.start, s'.start);
    SliceTail(h, t, s.start, s.end);
    ValidFound(r, t, s);
  }
}
