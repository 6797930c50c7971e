/**
 Default rules together in a stream: some that lose nothing, and two that hide each
 other once a text is cut.
 */
module StreamDefaults {
  import opened Texts
  import opened Spans
  import opened StreamProtector
  import opened StreamEquivalence
  import opened StreamExactness
  import opened StreamPatterns
  import StreamLookAround
  import opened StreamCoverage
  import StreamRules
  import opened StreamMerging

  type Rule = StreamRules.Rule

  // ----- Runs of digits -----

  predicate Digit(u: Unit) { 48 <= u <= 57 }

  predicate DigitOrDash(u: Unit) { Digit(u) || u == 45 }

  predicate AllDigits(t: Text) {
    forall i :: 0 <= i < |t| ==> Digit(t[i])
  }

  predicate EndsIn(t: Text, p: Unit -> bool) { t != [] && p(t[|t| - 1]) }

  predicate StartsIn(t: Text, p: Unit -> bool) { t != [] && p(t[0]) }

  function RunLength(n: nat, before: Text, window: Text): nat {
    if n <= |window| && AllDigits(window[..n]) && !EndsIn(before, DigitOrDash) && !StartsIn(window[n..], DigitOrDash)
    then n else 0
  }

  /** `(?<![\d-])\d{n}(?![\d-])` with a validator. */
  function DigitRun(kind: Kind, n: nat, valid: Text -> bool): Rule {
    StreamRules.Rule(kind, 1, n + 1, (before, window) => RunLength(n, before, window), valid)
  }

  lemma {:induction false} RunForbids(n: nat, before: Text, window: Text, k: nat, l: nat)
    requires k <= |before| && 0 < RunLength(n, before, window) <= l <= |window|
    ensures RunLength(n, before[k..], window[..l]) == RunLength(n, before, window)
  {
    assert window[..l][..n] == window[..n];
    assert window[..l][n..] == window[n..l];
  }

  lemma {:induction false} DigitRunForbids(kind: Kind, n: nat, valid: Text -> bool)
    ensures StreamRules.Forbids(DigitRun(kind, n, valid))
  {
    var r := DigitRun(kind, n, valid);
    forall before, window, k: nat, l: nat | k <= |before| && 0 < r.length(before, window) <= l <= |window|
      ensures r.length(before[k..], window[..l]) == r.length(before, window)
    {
      RunForbids(n, before, window, k, l);
    }
  }

  predicate Digits(x: Text, from: nat, to: nat) {
    from <= to <= |x| && forall i :: from <= i < to ==> Digit(x[i])
  }

  /** Neither a digit nor a dash stands next to it. */
  predicate Alone(x: Text, from: nat, to: nat) {
    (0 < from <= |x| ==> !DigitOrDash(x[from - 1])) && (to < |x| ==> !DigitOrDash(x[to]))
  }

  lemma {:induction false} WindowIs(r: Rule, x: Text, at: nat)
    requires at <= |x|
    ensures var window := StreamRules.Window(r, x, at);
      && |window| == (if |x| < at + r.reach then |x| - at else r.reach)
      && forall i :: 0 <= i < |window| ==> window[i] == x[at + i]
  {
  }

  lemma {:induction false} FirstDigits(x: Text, at: nat, window: Text, n: nat, end: nat)
    requires n <= |window| && end == at + n && at + |window| <= |x|
    requires forall i :: 0 <= i < |window| ==> window[i] == x[at + i]
    ensures AllDigits(window[..n]) <==> Digits(x, at, end)
  {
    assert forall i :: at <= i < end ==> x[i] == window[..n][i - at];
  }

  lemma {:induction false} BeforeIs(r: Rule, x: Text, at: nat)
    requires r.behind == 1 && at <= |x|
    ensures StreamRules.Before(r, x, at) == if at == 0 then [] else [x[at - 1]]
  {
  }

  lemma {:induction false} EdgeBehind(r: Rule, x: Text, at: nat, p: Unit -> bool)
    requires r.behind == 1 && at <= |x|
    ensures EndsIn(StreamRules.Before(r, x, at), p) <==> at > 0 && p(x[at - 1])
  {
    BeforeIs(r, x, at);
  }

  lemma {:induction false} EdgeAhead(r: Rule, x: Text, at: nat, n: nat, end: nat, p: Unit -> bool)
    requires at <= |x| && r.reach == n + 1 && end == at + n <= |x|
    ensures var window := StreamRules.Window(r, x, at);
      n <= |window| && (StartsIn(window[n..], p) <==> end < |x| && p(x[end]))
  {
    WindowIs(r, x, at);
  }

  lemma {:induction false} RunAround(kind: Kind, n: nat, valid: Text -> bool, x: Text, at: nat, end: nat)
    requires at <= |x| && 0 < n && end == at + n
    ensures var r := DigitRun(kind, n, valid);
      var before, window := StreamRules.Before(r, x, at), StreamRules.Window(r, x, at);
      && (n <= |window| <==> end <= |x|)
      && (n <= |window| ==> (AllDigits(window[..n]) <==> Digits(x, at, end)))
      && (n <= |window| ==> (!EndsIn(before, DigitOrDash) && !StartsIn(window[n..], DigitOrDash)
           <==> Alone(x, at, end)))
  {
    var r := DigitRun(kind, n, valid);
    var window := StreamRules.Window(r, x, at);
    WindowIs(r, x, at);
    EdgeBehind(r, x, at, DigitOrDash);
    if n <= |window| {
      FirstDigits(x, at, window, n, end);
      EdgeAhead(r, x, at, n, end, DigitOrDash);
    }
  }

  /** What a match of a run with all the text around it is. */
  lemma {:induction false} RunMeaning(kind: Kind, n: nat, valid: Text -> bool, x: Text, at: nat, end: nat)
    requires at <= |x| && 0 < n && end == at + n
    ensures StreamRules.Len(DigitRun(kind, n, valid), x, at) == n <==> Digits(x, at, end) && Alone(x, at, end)
    ensures StreamRules.Len(DigitRun(kind, n, valid), x, at) in {0, n}
  {
    RunAround(kind, n, valid, x, at, end);
  }

  /** And with less of it. */
  lemma {:induction false} LooseRunMeaning(kind: Kind, n: nat, valid: Text -> bool, x: Text, at: nat, end: nat)
    requires at <= end && StreamRules.Loose(DigitRun(kind, n, valid), x, at, end - at)
    ensures end == at + n && Digits(x, at, end)
  {
    var r := DigitRun(kind, n, valid);
    var j: nat, l: nat :| StreamRules.LooseBy(r, x, at, end - at, j, l);
    var window := StreamRules.Window(r, x, at);
    WindowIs(r, x, at);
    assert window[..l][..n] == window[..n];
    FirstDigits(x, at, window, n, end);
  }

  lemma {:induction false} DigitRunApart(kind: Kind, n: nat, valid: Text -> bool)
    ensures StreamRules.Apart(DigitRun(kind, n, valid))
  {
    var r := DigitRun(kind, n, valid);
    forall x: Text, i: nat, j: nat, k: nat | i < j < i + k && j <= |x| && StreamRules.Loose(r, x, i, k)
      ensures StreamRules.Len(r, x, j) == 0
    {
      assert i + k - i == k;
      LooseRunMeaning(kind, n, valid, x, i, i + k);
      RunMeaning(kind, n, valid, x, j, j + n);
      assert Digit(x[j - 1]);
    }
  }

  ghost predicate IsDigitRun(r: Rule) {
    r.reach > 1 && r == DigitRun(r.kind, r.reach - 1, r.valid)
  }

  /** Such a rule, without a validator, as one of fixed length. */
  function Run(n: nat): Pattern {
    Pattern(n, 1, 1, (before, body, after) => |body| == n && RunLength(n, before, body + after) > 0)
  }

  lemma {:induction false} Adjacent(x: Text, from: nat, middle: nat, to: nat)
    requires from <= middle <= to <= |x|
    ensures x[from..middle] + x[middle..to] == x[from..to]
  {
  }

  lemma {:induction false} RunHit(n: nat, x: Text, at: nat, end: nat)
    requires n > 0 && end == at + n
    ensures Hit(Run(n), x, at) <==> Digits(x, at, end) && Alone(x, at, end)
  {
    if end <= |x| {
      var r := DigitRun("run", n, _ => true);
      Adjacent(x, at, end, if |x| < end + 1 then |x| else end + 1);
      assert StreamPatterns.Before(Run(n), x, at) == StreamRules.Before(r, x, at);
      RunMeaning("run", n, _ => true, x, at, end);
    }
  }

  lemma {:induction false} BareRun(n: nat, x: Text, at: nat, end: nat)
    requires n > 0 && end == at + n
    ensures Hit(Bare(Run(n)), x, at) <==> Digits(x, at, end)
  {
    BareHit(Run(n), x, at);
    if end <= |x| {
      var body := x[at..end];
      assert body + [] == body && body[..n] == body && body[n..] == [];
      FirstDigits(x, at, body, n, end);
    }
  }

  lemma {:induction false} RunOnlyForbids(n: nat)
    requires n > 0
    ensures StreamLookAround.OnlyForbids(Run(n))
  {
    var p := Run(n);
    forall b, body, a, k: nat, l: nat | k <= |b| && l <= |a| && p.matches(b, body, a)
      ensures p.matches(b[k..], body, a[..l])
    {
      assert (body + a)[..n + l] == body + a[..l];
      RunForbids(n, b, body + a, k, n + l);
    }
  }

  lemma {:induction false} RunStandsApart(n: nat)
    requires n > 0
    ensures StreamLookAround.StandApart(Run(n))
  {
    var p := Run(n);
    forall x: Text, i: nat, j: nat | Hit(Bare(p), x, i) && StreamLookAround.Overlap(p, i, j) ensures !Hit(p, x, j) {
      BareRun(n, x, i, i + n);
      RunHit(n, x, j, j + n);
      if i < j { assert Digit(x[j - 1]); } else { assert Digit(x[j + n]); }
    }
  }

  /** With no hold-back is a stream always protected as its text in one piece: a cut run of digits may match. */
  lemma {:induction false} RunNeverOneShot(n: nat, m: nat)
    requires n > 0
    ensures !AlwaysOneShot(Marker(Run(n), m, 0))
  {
    var p, zeros, more: Text := Run(n), seq(n, _ => 48), seq(n + 1, _ => 48);
    RunOnlyForbids(n);
    RunStandsApart(n);
    RunHit(n, zeros, 0, n);
    StartsWithHit(p, zeros, 0);
    StreamLookAround.LookAroundExact(p, m, zeros);
    RunHit(n, more, 0, n);
    BareRun(n, more, 0, n);
    StartsWithHit(p, more, 0);
    StartsWithHit(Bare(p), more, 0);
    assert !ContextFree(p) by { assert Hits(p, more, 0) != Hits(Bare(p), more, 0); }
  }

  /** Digits that cover a run standing alone are the run. */
  lemma {:induction false} AloneCovered(x: Text, a: Span, s: Span)
    requires Digits(x, a.start, a.end) && Digits(x, s.start, s.end) && Alone(x, s.start, s.end)
    requires Covers(a, s) && s.start < s.end
    ensures SameExtent(a, s)
  {
  }

  lemma {:induction false} OnlyLooseRun(q: Rule, x: Text, a: Span)
    requires IsDigitRun(q) && OnlyLoose(q, x, a)
    ensures Digits(x, a.start, a.end) && !Alone(x, a.start, a.end)
  {
    LooseRunMeaning(q.kind, q.reach - 1, q.valid, x, a.start, a.end);
    RunMeaning(q.kind, q.reach - 1, q.valid, x, a.start, a.end);
  }

  /** A run that is one only with less around it covers no other run. */
  lemma {:induction false} RunsClear(q: Rule, r: Rule, x: Text, a: Span, s: Span)
    requires IsDigitRun(q) && IsDigitRun(r) && OnlyLoose(q, x, a) && StreamRules.IsMatch(r, x, s)
    ensures !Covers(a, s)
  {
    OnlyLooseRun(q, x, a);
    MatchedRun(r, x, s);
    if Covers(a, s) { AloneCovered(x, a, s); }
  }

  lemma {:induction false} MatchedRun(r: Rule, x: Text, s: Span)
    requires IsDigitRun(r) && StreamRules.IsMatch(r, x, s)
    ensures s.end == s.start + (r.reach - 1) && Digits(x, s.start, s.end) && Alone(x, s.start, s.end)
  {
    RunMeaning(r.kind, r.reach - 1, r.valid, x, s.start, s.start + (r.reach - 1));
  }

  /** Any number of such rules, with any lengths and validators, lose nothing together. */
  lemma {:induction false} DigitRunsGuarded(rules: seq<Rule>, m: nat)
    requires forall i :: 0 <= i < |rules| ==> IsDigitRun(rules[i]) && rules[i].reach <= m + 1
    ensures Guarded(Together(rules), m)
  {
    forall i | 0 <= i < |rules| ensures Careful(rules[i], m) {
      DigitRunForbids(rules[i].kind, rules[i].reach - 1, rules[i].valid);
      DigitRunApart(rules[i].kind, rules[i].reach - 1, rules[i].valid);
    }
    forall x: Text, q: nat, a: Span, s: Span | q < |rules| && OnlyLoose(rules[q], x, a) && s in Together(rules)(x)
      ensures !Covers(a, s)
    {
      var i := KeptIsMatch(rules, x, s);
      RunsClear(rules[q], rules[i], x, a, s);
    }
    ForbiddingGuarded(rules, m);
  }

  /** What is kept is a match of some rule. */
  lemma {:induction false} KeptIsMatch(rules: seq<Rule>, x: Text, s: Span) returns (i: nat)
    requires s in Together(rules)(x)
    ensures i < |rules| && StreamRules.IsMatch(rules[i], x, s)
  {
    var ds := Finders(rules);
    KeptFrom(All(ds, x), s);
    AllExactly(ds, x, s);
    i :| 0 <= i < |ds| && s in ds[i](x);
    StreamRules.FoundIs(rules[i], x, s);
  }

  // ----- Two rules that hide each other -----

  lemma {:induction false} NoMatches(r: Rule, x: Text, from: nat)
    requires from <= |x| && forall i: nat :: from <= i <= |x| ==> StreamRules.Len(r, x, i) == 0
    ensures StreamRules.Matches(r, x, from) == []
    decreases |x| - from
  {
    if from == |x| {
    } else {
      NoMatches(r, x, from + 1);
    }
  }

  ghost predicate OnlyMatch(r: Rule, x: Text, s: Span) {
    && s.kind == r.kind && s.start < s.end <= |x| && StreamRules.Len(r, x, s.start) == s.end - s.start
    && forall i: nat :: i <= |x| && i != s.start ==> StreamRules.Len(r, x, i) == 0
  }

  lemma {:induction false} OneMatch(r: Rule, x: Text, from: nat, s: Span)
    requires from <= s.start && OnlyMatch(r, x, s)
    ensures StreamRules.Matches(r, x, from) == [s]
    decreases |x| - from
  {
    if from == s.start {
      NoMatches(r, x, s.end);
    } else {
      OneMatch(r, x, from + 1, s);
    }
  }

  lemma {:induction false} ValidatedOne(r: Rule, x: Text, s: Span)
    requires r.valid(Slice(x, s.start, s.end))
    ensures StreamRules.Validated(r, x, [s]) == [s]
  {
    assert [s][1..] == [];
  }

  lemma {:induction false} FindsOne(r: Rule, x: Text, s: Span)
    requires OnlyMatch(r, x, s) && r.valid(Slice(x, s.start, s.end))
    ensures StreamRules.Finder(r)(x) == [s]
  {
    OneMatch(r, x, 0, s);
    ValidatedOne(r, x, s);
  }

  lemma {:induction false} FindsNone(r: Rule, x: Text)
    requires forall i: nat :: i <= |x| ==> StreamRules.Len(r, x, i) == 0
    ensures StreamRules.Finder(r)(x) == []
  {
    NoMatches(r, x, 0);
  }

  lemma {:induction false} AllOfTwo(p: Rule, q: Rule, x: Text)
    ensures All(Finders([p, q]), x) == StreamRules.Finder(p)(x) + StreamRules.Finder(q)(x)
  {
    var ds := Finders([p, q]);
    assert ds == [StreamRules.Finder(p), StreamRules.Finder(q)];
    assert ds[1..] == [StreamRules.Finder(q)] && ds[1..][1..] == [];
    assert All(ds[1..][1..], x) == [];
  }

  lemma {:induction false} KeptNone()
    ensures Kept([]) == []
  {
  }

  lemma {:induction false} KeptOne(s: Span)
    ensures Kept([s]) == [s]
  {
    SortOne(s);
    AcceptedTakes(s, [], -1);
    assert [s] + [] == [s];
  }

  lemma {:induction false} SortOne(s: Span)
    ensures Spans.Sort([s]) == [s]
  {
    SortCons(s, []);
    InsertFirst(s, []);
    assert [s] + [] == [s];
  }

  /** Of two that overlap the earlier one is kept. */
  lemma {:induction false} KeptFirst(a: Span, b: Span)
    requires a.start < b.start < a.end
    ensures Kept([a, b]) == [a]
  {
    assert [a, b] == [a] + [b] && [b] + [] == [b];
    SortOne(b);
    SortCons(a, [b]);
    InsertFirst(a, [b]);
    AcceptedTakes(a, [b], -1);
    AcceptedSkips(b, [], a.end);
  }

  /** What two rules find in a text that is cut before the first of them matches. */
  ghost predicate Hides(p: Rule, q: Rule, h: Text, t: Text, a: Span, b: Span) {
    && h != [] && a.start < b.start < a.end <= |t| && b.end <= |t|
    && (forall i: nat :: i <= |h| ==> StreamRules.Len(p, h, i) == 0 && StreamRules.Len(q, h, i) == 0)
    && (forall i: nat :: i <= |h + t| ==> StreamRules.Len(p, h + t, i) == 0)
    && OnlyMatch(q, h + t, Moved(b, |h|)) && OnlyMatch(p, t, a) && OnlyMatch(q, t, b)
    && p.valid(Slice(t, a.start, a.end)) && q.valid(Slice(t, b.start, b.end))
  }

  lemma {:induction false} FindsBoth(p: Rule, q: Rule, x: Text, a: seq<Span>, b: seq<Span>)
    requires StreamRules.Finder(p)(x) == a && StreamRules.Finder(q)(x) == b
    ensures Together([p, q])(x) == Kept(a + b)
  {
    AllOfTwo(p, q, x);
  }

  lemma {:induction false} HeadFinds(p: Rule, q: Rule, h: Text, t: Text, a: Span, b: Span)
    requires Hides(p, q, h, t, a, b)
    ensures Together([p, q])(h) == []
  {
    FindsNone(p, h);
    FindsNone(q, h);
    FindsBoth(p, q, h, [], []);
    KeptNone();
  }

  lemma {:induction false} SecondFinds(p: Rule, q: Rule, x: Text, s: Span)
    requires (forall i: nat :: i <= |x| ==> StreamRules.Len(p, x, i) == 0) && OnlyMatch(q, x, s)
    requires q.valid(Slice(x, s.start, s.end))
    ensures Together([p, q])(x) == [s]
  {
    FindsNone(p, x);
    FindsOne(q, x, s);
    FindsBoth(p, q, x, [], [s]);
    assert [] + [s] == [s];
    KeptOne(s);
  }

  lemma {:induction false} WholeFinds(p: Rule, q: Rule, h: Text, t: Text, a: Span, b: Span)
    requires Hides(p, q, h, t, a, b)
    ensures Together([p, q])(h + t) == [Moved(b, |h|)]
  {
    SliceTail(h, t, b.start, b.end);
    SecondFinds(p, q, h + t, Moved(b, |h|));
  }

  lemma {:induction false} FirstKept(p: Rule, q: Rule, x: Text, a: Span, b: Span)
    requires StreamRules.Finder(p)(x) == [a] && StreamRules.Finder(q)(x) == [b] && a.start < b.start < a.end
    ensures Together([p, q])(x) == [a]
  {
    FindsBoth(p, q, x, [a], [b]);
    assert [a] + [b] == [a, b];
    KeptFirst(a, b);
  }

  lemma {:induction false} TailFinds(p: Rule, q: Rule, h: Text, t: Text, a: Span, b: Span)
    requires Hides(p, q, h, t, a, b)
    ensures Together([p, q])(t) == [a]
  {
    FindsOne(p, t, a);
    FindsOne(q, t, b);
    FirstKept(p, q, t, a, b);
  }

  /** The policy lets the one kind pass and blocks every other. */
  ghost function Passing(rules: seq<Rule>, kind: Kind, m: nat): Engine {
    Engine(Together(rules), (k, _) => if k == kind then Allow else Block, true, m)
  }

  /**
   The text is blocked in one piece, for the match of q. In a stream, p matches once
   the text before it is emitted, takes the place of that match, and is let pass.
   */
  lemma {:induction false} HiddenEscapes(p: Rule, q: Rule, h: Text, t: Text, a: Span, b: Span, kind: Kind, m: nat)
    requires Hides(p, q, h, t, a, b) && p.kind == kind != q.kind && |t| == m
    ensures Loses(Passing([p, q], kind, m), h + t)
  {
    HeadFinds(p, q, h, t, a, b);
    WholeFinds(p, q, h, t, a, b);
    TailFinds(p, q, h, t, a, b);
    PassingEscapes(Passing([p, q], kind, m), h, t, a, Moved(b, |h|));
  }

  lemma {:induction false} PassingEscapes(e: Engine, h: Text, t: Text, a: Span, s: Span)
    requires h != [] && |t| == e.maxMatch && e.enforced
    requires e.detect(h) == [] && e.detect(h + t) == [s] && e.detect(t) == [a] && |h| <= s.start && a.start < |t|
    requires Verdict(e, h + t, s).Block? && Verdict(e, t, a).Allow?
    ensures Loses(e, h + t)
  {
    OneBlocks(e, h + t, s);
    CutBefore(e, h, t, s);
    PassesAsIs(e, t, a);
    LastPush(e, h + t, t, Emission(h, false));
  }

  lemma {:induction false} OneBlocks(e: Engine, x: Text, s: Span)
    requires e.enforced && e.detect(x) == [s] && Verdict(e, x, s).Block?
    ensures TransformSegment(e, x).blocked
  {
    assert Verdict(e, x, [s][0]).Block?;
  }

  lemma {:induction false} CutBefore(e: Engine, h: Text, t: Text, s: Span)
    requires h != [] && |t| == e.maxMatch && e.detect(h + t) == [s] && |h| <= s.start && e.detect(h) == []
    ensures PushStep(e, [], h + t) == (t, Emission(h, false))
  {
    var x := h + t;
    assert [] + x == x && Limit(e, x) == |h|;
    assert Uncut([s], |h|);
    UncutCommits([s], |h|);
    assert Slice(x, 0, |h|) == h && Slice(x, |h|, |x|) == t;
    PlainSegment(e, h);
  }

  lemma {:induction false} PassesAsIs(e: Engine, t: Text, a: Span)
    requires t != [] && e.detect(t) == [a] && Verdict(e, t, a).Allow?
    ensures FlushStep(e, t) == Emission(t, false)
  {
    assert [a][1..] == [];
    assert Replaceable(e, t, [a]) == [];
    SegmentMeaning(e, t);
    assert Rewritten(e, t, [], 0) == t;
  }

  // ----- A smallest example -----

  /** One word, not after certain units. */
  function Word(kind: Kind, word: Text, bad: Unit -> bool): Rule {
    StreamRules.Rule(kind, 1, |word|, (before, window) => if window == word && !EndsIn(before, bad) then |word| else 0,
                     _ => true)
  }

  lemma {:induction false} WordMeaning(kind: Kind, word: Text, bad: Unit -> bool, x: Text, at: nat, end: nat)
    requires at <= |x| && end == at + |word|
    ensures StreamRules.Len(Word(kind, word, bad), x, at)
         == if end <= |x| && x[at..end] == word && !(at > 0 && bad(x[at - 1])) then |word| else 0
  {
    BeforeIs(Word(kind, word, bad), x, at);
  }

  /** A word whose first unit is not repeated in it. */
  predicate Plain(word: Text) { word != [] && forall i :: 0 < i < |word| ==> word[i] != word[0] }

  lemma {:induction false} LooseWord(kind: Kind, word: Text, bad: Unit -> bool, x: Text, at: nat, end: nat)
    requires at <= end && StreamRules.Loose(Word(kind, word, bad), x, at, end - at)
    ensures end == at + |word| <= |x| && x[at..end] == word
  {
    var r := Word(kind, word, bad);
    var k: nat, l: nat :| StreamRules.LooseBy(r, x, at, end - at, k, l);
    assert StreamRules.Window(r, x, at)[..l] == word;
  }

  /** Two occurrences of such a word do not overlap. */
  lemma {:induction false} PlainApart(word: Text, x: Text, i: nat, i': nat, j: nat, j': nat)
    requires Plain(word) && i < j < i' <= |x| && j' <= |x| && i' == i + |word| && j' == j + |word|
    requires x[i..i'] == word
    ensures x[j..j'] != word
  {
    assert x[i..i'][j - i] == x[j] && word[j - i] != word[0];
    assert x[j..j'][0] == x[j];
  }

  lemma {:induction false} WordApart(kind: Kind, word: Text, bad: Unit -> bool)
    requires Plain(word)
    ensures StreamRules.Apart(Word(kind, word, bad))
  {
    var r := Word(kind, word, bad);
    forall x: Text, i: nat, j: nat, n: nat | i < j < i + n && j <= |x| && StreamRules.Loose(r, x, i, n)
      ensures StreamRules.Len(r, x, j) == 0
    {
      assert i + n - i == n;
      LooseWord(kind, word, bad, x, i, i + n);
      WordMeaning(kind, word, bad, x, j, j + |word|);
      if j + |word| <= |x| { PlainApart(word, x, i, i + n, j, j + |word|); }
    }
  }

  lemma {:induction false} WordForbids(kind: Kind, word: Text, bad: Unit -> bool)
    ensures StreamRules.Forbids(Word(kind, word, bad))
  {
    var r := Word(kind, word, bad);
    forall before, window, k: nat, l: nat | k <= |before| && 0 < r.length(before, window) <= l <= |window|
      ensures r.length(before[k..], window[..l]) == r.length(before, window)
    {
      assert window[..l] == window;
    }
  }

  lemma {:induction false} WordGuarded(kind: Kind, word: Text, bad: Unit -> bool, m: nat)
    requires Plain(word) && |word| <= m + 1
    ensures Guarded(Together([Word(kind, word, bad)]), m)
  {
    var r := Word(kind, word, bad);
    WordApart(kind, word, bad);
    WordForbids(kind, word, bad);
    forall x: Text, q: nat, a: Span, s: Span | q < |[r]| && OnlyLoose([r][q], x, a) && s in Together([r])(x)
      ensures !Covers(a, s)
    {
      var i := KeptIsMatch([r], x, s);
      WordClear(kind, word, bad, x, a, s);
    }
    ForbiddingGuarded([r], m);
  }

  lemma {:induction false} WordClear(kind: Kind, word: Text, bad: Unit -> bool, x: Text, a: Span, s: Span)
    requires Plain(word) && OnlyLoose(Word(kind, word, bad), x, a) && StreamRules.IsMatch(Word(kind, word, bad), x, s)
    ensures !Covers(a, s)
  {
    LooseWord(kind, word, bad, x, a.start, a.end);
    WordMeaning(kind, word, bad, x, s.start, s.start + |word|);
    if a.start < s.start < a.end { PlainApart(word, x, a.start, a.end, s.start, s.start + |word|); }
  }

  predicate IsZero(u: Unit) { u == 48 }

  predicate Never(u: Unit) { false }

  /** `12` but not after `0`. */
  function Twelve(): Rule { Word("twelve", [49, 50], IsZero) }

  function TwentyThree(): Rule { Word("twenty-three", [50, 51], Never) }

  lemma {:induction false} DigitLens(x: Text, i: nat)
    requires i <= |x|
    ensures StreamRules.Len(Twelve(), x, i)
         == if i + 2 <= |x| && x[i] == 49 && x[i + 1] == 50 && !(i > 0 && x[i - 1] == 48) then 2 else 0
    ensures StreamRules.Len(TwentyThree(), x, i) == if i + 2 <= |x| && x[i] == 50 && x[i + 1] == 51 then 2 else 0
  {
    WordMeaning("twelve", [49, 50], IsZero, x, i, i + 2);
    WordMeaning("twenty-three", [50, 51], Never, x, i, i + 2);
    if i + 2 <= |x| { assert x[i..i + 2] == [x[i], x[i + 1]]; }
  }

  lemma {:induction false} DigitsHide(h: Text, t: Text)
    requires h == [48] && t == [49, 50, 51]
    ensures Hides(Twelve(), TwentyThree(), h, t, Span(0, 2, "twelve"), Span(1, 3, "twenty-three"))
  {
    var x := h + t;
    assert x == [48, 49, 50, 51];
    forall i: nat | i <= 4
      ensures StreamRules.Len(Twelve(), x, i) == 0
      ensures StreamRules.Len(TwentyThree(), x, i) == if i == 2 then 2 else 0
    {
      DigitLens(x, i);
    }
    forall i: nat | i <= 3
      ensures StreamRules.Len(Twelve(), t, i) == if i == 0 then 2 else 0
      ensures StreamRules.Len(TwentyThree(), t, i) == if i == 1 then 2 else 0
    {
      DigitLens(t, i);
    }
    forall i: nat | i <= 1
      ensures StreamRules.Len(Twelve(), h, i) == 0 && StreamRules.Len(TwentyThree(), h, i) == 0
    {
      DigitLens(h, i);
    }
  }

  /** Each of two rules loses no match by itself, and together they do. */
  lemma {:induction false} MergingLoses(m: nat, text: Text, holdBack: nat)
    requires m >= 1 && text == [48, 49, 50, 51] && holdBack == 3
    ensures Guarded(Together([Twelve()]), m) && Guarded(Together([TwentyThree()]), m)
    ensures Loses(Passing([Twelve(), TwentyThree()], "twelve", holdBack), text)
  {
    WordGuarded("twelve", [49, 50], IsZero, m);
    WordGuarded("twenty-three", [50, 51], Never, m);
    DigitsLose(text, holdBack);
  }

  /** In one piece the text is blocked, and in a stream it comes out as it is. */
  ghost predicate Loses(e: Engine, text: Text) {
    TransformSegment(e, text).blocked && Stream(e, [], [Delta(text)]) == Emission(text, false)
  }

  lemma {:induction false} DigitsLose(text: Text, holdBack: nat)
    requires text == [48, 49, 50, 51] && holdBack == 3
    ensures Loses(Passing([Twelve(), TwentyThree()], "twelve", holdBack), text)
  {
    var h, t := text[..1], text[1..];
    assert text == h + t;
    DigitsHide(h, t);
    DigitsEscape(h, t, text, holdBack);
  }

  lemma {:induction false} DigitsEscape(h: Text, t: Text, text: Text, holdBack: nat)
    requires Hides(Twelve(), TwentyThree(), h, t, Span(0, 2, "twelve"), Span(1, 3, "twenty-three"))
    requires text == h + t && |t| == holdBack
    ensures Loses(Passing([Twelve(), TwentyThree()], "twelve", holdBack), text)
  {
    HiddenEscapes(Twelve(), TwentyThree(), h, t, Span(0, 2, "twelve"), Span(1, 3, "twenty-three"), "twelve", holdBack);
  }

  // ----- A telephone number and a card number -----

  predicate Alphanumeric(u: Unit) { Digit(u) || 65 <= u <= 90 || 97 <= u <= 122 || u == 95 }

  predicate PhoneEdge(u: Unit) { Alphanumeric(u) || u == 43 || u == 45 }

  predicate DigitsAt(t: Text, from: nat, n: nat) { from + n <= |t| && forall i :: from <= i < from + n ==> Digit(t[i]) }

  predicate MobileDigit(u: Unit) { u in {48, 49, 54, 55, 56, 57} }

  /** `010.1234.5678`, one of the shapes of the default telephone rule. */
  predicate PhoneShape(t: Text) {
    && |t| == 13 && t[0] == 48 && t[1] == 49 && t[3] == 46 && t[8] == 46
    && MobileDigit(t[2]) && DigitsAt(t, 4, 4) && DigitsAt(t, 9, 4)
  }

  /** `4242 4242 4242 4242`, one of the shapes of the default card rule. */
  predicate CardShape(t: Text) {
    && |t| == 19 && t[4] == 32 && t[9] == 32 && t[14] == 32
    && DigitsAt(t, 0, 4) && DigitsAt(t, 5, 4) && DigitsAt(t, 10, 4) && DigitsAt(t, 15, 4)
  }

  function ShapeLength(n: nat, shape: Text -> bool, before: Text, window: Text, edge: Unit -> bool,
                       end: Unit -> bool): nat {
    if n <= |window| && shape(window[..n]) && !EndsIn(before, edge) && !StartsIn(window[n..], end) then n else 0
  }

  /** A shape of n units that has no unit of one kind before it and none of another behind it. */
  function Shape(kind: Kind, n: nat, shape: Text -> bool, edge: Unit -> bool, end: Unit -> bool,
                 valid: Text -> bool): Rule {
    StreamRules.Rule(kind, 1, n + 1, (before, window) => ShapeLength(n, shape, before, window, edge, end), valid)
  }

  predicate PhoneEnd(u: Unit) { Alphanumeric(u) || u == 45 }

  function Phone(valid: Text -> bool): Rule { Shape("phone", 13, PhoneShape, PhoneEdge, PhoneEnd, valid) }

  function Card(valid: Text -> bool): Rule { Shape("card", 19, CardShape, Alphanumeric, Alphanumeric, valid) }

  lemma {:induction false} ShapeMeaning(kind: Kind, n: nat, shape: Text -> bool, edge: Unit -> bool, end: Unit -> bool,
                                        valid: Text -> bool, x: Text, at: nat, to: nat)
    requires at <= |x| && to == at + n
    ensures StreamRules.Len(Shape(kind, n, shape, edge, end, valid), x, at)
         == if to <= |x| && shape(x[at..to]) && !(at > 0 && edge(x[at - 1])) && !(to < |x| && end(x[to])) then n else 0
  {
    var r := Shape(kind, n, shape, edge, end, valid);
    var window := StreamRules.Window(r, x, at);
    WindowIs(r, x, at);
    EdgeBehind(r, x, at, edge);
    if to <= |x| {
      assert window[..n] == x[at..to];
      EdgeAhead(r, x, at, n, to, end);
    }
  }

  /** A telephone number that runs into a card number, and blanks. */
  predicate PhoneThenCard(t: Text) {
    && |t| >= 28 && PhoneShape(t[..13]) && CardShape(t[9..28])
    && forall i :: 28 <= i < |t| ==> t[i] == 32
  }

  lemma {:induction false} UnitsOf(t: Text)
    requires PhoneThenCard(t)
    ensures t[0] == 48 && t[1] == 49 && Digit(t[2]) && t[3] == 46 && t[8] == 46 && t[13] == 32 && t[18] == 32
      && t[23] == 32
    ensures forall i :: 4 <= i < 8 || 9 <= i < 13 || 14 <= i < 18 || 19 <= i < 23 || 24 <= i < 28 ==> Digit(t[i])
  {
    var p, c := t[..13], t[9..28];
    assert forall i :: 0 <= i < 13 ==> t[i] == p[i];
    assert forall i :: 9 <= i < 28 ==> t[i] == c[i - 9];
  }

  /** Dots tell where a telephone number is. */
  lemma {:induction false} OnePhone(x: Text, at: nat, to: nat, off: nat, t: Text)
    requires PhoneThenCard(t) && off <= |x| && x[off..] == t && (forall i :: 0 <= i < off ==> x[i] == 43)
    requires to == at + 13 <= |x| && PhoneShape(x[at..to])
    ensures at == off
  {
    UnitsOf(t);
    assert forall i :: off <= i < |x| ==> x[i] == t[i - off];
    var w := x[at..to];
    assert w[3] == x[at + 3] && w[8] == x[at + 8];
  }

  /** And blanks before digits where a card number is. */
  lemma {:induction false} OneCard(x: Text, at: nat, to: nat, off: nat, t: Text)
    requires PhoneThenCard(t) && off <= |x| && x[off..] == t && (forall i :: 0 <= i < off ==> x[i] == 43)
    requires to == at + 19 <= |x| && CardShape(x[at..to])
    ensures at == off + 9
  {
    UnitsOf(t);
    assert forall i :: off <= i < |x| ==> x[i] == t[i - off];
    var w := x[at..to];
    assert w[4] == x[at + 4] && w[5] == x[at + 5] && w[9] == x[at + 9] && w[14] == x[at + 14] && w[15] == x[at + 15];
  }

  lemma {:induction false} PhoneLens(valid: Text -> bool, x: Text, off: nat, t: Text, i: nat)
    requires PhoneThenCard(t) && off <= |x| && x[off..] == t && (forall j :: 0 <= j < off ==> x[j] == 43) && i <= |x|
    ensures StreamRules.Len(Phone(valid), x, i) == if off == 0 && i == 0 then 13 else 0
  {
    UnitsOf(t);
    ShapeMeaning("phone", 13, PhoneShape, PhoneEdge, PhoneEnd, valid, x, i, i + 13);
    if i + 13 <= |x| && PhoneShape(x[i..i + 13]) { OnePhone(x, i, i + 13, off, t); }
    if off == 0 && i == 0 { assert x == t; }
    if off > 0 && i == off { assert x[i - 1] == 43; }
  }

  lemma {:induction false} CardLens(valid: Text -> bool, x: Text, off: nat, t: Text, i: nat)
    requires PhoneThenCard(t) && off <= |x| && x[off..] == t && (forall j :: 0 <= j < off ==> x[j] == 43) && i <= |x|
    ensures StreamRules.Len(Card(valid), x, i) == if i == off + 9 then 19 else 0
  {
    UnitsOf(t);
    ShapeMeaning("card", 19, CardShape, Alphanumeric, Alphanumeric, valid, x, i, i + 19);
    if i + 19 <= |x| && CardShape(x[i..i + 19]) { OneCard(x, i, i + 19, off, t); }
    if i == off + 9 {
      assert x[i..i + 19] == t[9..28];
      assert x[i - 1] == t[8];
      assert i + 19 < |x| ==> x[i + 19] == t[28];
    }
  }

  lemma {:induction false} PhoneHides(validPhone: Text -> bool, validCard: Text -> bool, t: Text)
    requires PhoneThenCard(t) && validPhone(t[..13]) && validCard(t[9..28])
    ensures Hides(Phone(validPhone), Card(validCard), [43], t, Span(0, 13, "phone"), Span(9, 28, "card"))
  {
    var h: Text := [43];
    var x := h + t;
    assert x[1..] == t && t[0..] == t;
    forall i: nat | i <= |x|
      ensures StreamRules.Len(Phone(validPhone), x, i) == 0
      ensures StreamRules.Len(Card(validCard), x, i) == if i == 10 then 19 else 0
    {
      PhoneLens(validPhone, x, 1, t, i);
      CardLens(validCard, x, 1, t, i);
    }
    forall i: nat | i <= |t|
      ensures StreamRules.Len(Phone(validPhone), t, i) == if i == 0 then 13 else 0
      ensures StreamRules.Len(Card(validCard), t, i) == if i == 9 then 19 else 0
    {
      PhoneLens(validPhone, t, 0, t, i);
      CardLens(validCard, t, 0, t, i);
    }
    forall i: nat | i <= |h|
      ensures StreamRules.Len(Phone(validPhone), h, i) == 0 && StreamRules.Len(Card(validCard), h, i) == 0
    {
      ShapeMeaning("phone", 13, PhoneShape, PhoneEdge, PhoneEnd, validPhone, h, i, i + 13);
      ShapeMeaning("card", 19, CardShape, Alphanumeric, Alphanumeric, validCard, h, i, i + 19);
    }
  }

  /**
   A card number behind `+` and a telephone number is blocked in one piece, where the
   `+` forbids the telephone number. In a stream that emits the `+` first, the
   telephone number matches and hides the card number, which comes out as it is.
   */
  lemma {:induction false} PhoneHidesCard(validPhone: Text -> bool, validCard: Text -> bool, t: Text)
    requires PhoneThenCard(t) && validPhone(t[..13]) && validCard(t[9..28])
    ensures Loses(Passing([Phone(validPhone), Card(validCard)], "phone", |t|), [43] + t)
  {
    PhoneHides(validPhone, validCard, t);
    HiddenEscapes(Phone(validPhone), Card(validCard), [43], t, Span(0, 13, "phone"), Span(9, 28, "card"),
                  "phone", |t|);
  }

  lemma {:induction false} WithBlanks(a: Text, n: nat)
    requires |a| == 28 && PhoneShape(a[..13]) && CardShape(a[9..])
    ensures PhoneThenCard(a + seq(n, _ => 32))
  {
    var t := a + seq(n, _ => 32);
    assert t[..13] == a[..13] && t[9..28] == a[9..];
  }

  lemma {:induction false} PhoneIn(a: Text)
    requires a == Ascii("010.1234.4242 4242 4242 4242")
    ensures PhoneShape(a[..13])
  {
    var p := a[..13];
    assert forall i :: 0 <= i < 13 ==> p[i] == a[i];
  }

  lemma {:induction false} CardIn(a: Text)
    requires a == Ascii("010.1234.4242 4242 4242 4242")
    ensures CardShape(a[9..])
  {
    var c := a[9..];
    assert |c| == 19 && forall i :: 0 <= i < 19 ==> c[i] == a[9 + i];
  }

  /** `010.1234.4242 4242 4242 4242` and blanks up to the default hold-back is such a text. */
  lemma {:induction false} DefaultInput()
    ensures var t := Ascii("010.1234.4242 4242 4242 4242") + seq(228, _ => 32); |t| == 256 && PhoneThenCard(t)
  {
    var a := Ascii("010.1234.4242 4242 4242 4242");
    PhoneIn(a);
    CardIn(a);
    WithBlanks(a, 228);
  }
}
