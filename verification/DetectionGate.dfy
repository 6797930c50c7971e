/** The detection benchmark: scoring a labelled corpus, and the regression gate on its ratios. */
module DetectionGate {
  import Texts

  type Kind = string

  datatype Expectation = Expectation(kind: Kind, present: bool)

  datatype Case = Case(text: string, labels: seq<Expectation>)

  datatype Counts = Counts(tp: nat, fp: nat, fn: nat)

  const ZERO := Counts(0, 0, 0)

  function Plus(a: Counts, b: Counts): Counts {
    Counts(a.tp + b.tp, a.fp + b.fp, a.fn + b.fn)
  }

  lemma {:induction false} PlusZero(a: Counts)
    ensures Plus(a, ZERO) == a && Plus(ZERO, a) == a
  {
    assert a == Counts(a.tp, a.fp, a.fn);
  }

  type Engine = string -> set<Kind>

  // ----- Sums of counts -----

  function Total<T>(f: T -> Counts, xs: seq<T>): Counts {
    if xs == [] then ZERO else Plus(Total(f, xs[..|xs| - 1]), f(xs[|xs| - 1]))
  }

  lemma {:induction false} TotalSnoc<T>(f: T -> Counts, xs: seq<T>, x: T)
    ensures Total(f, xs + [x]) == Plus(Total(f, xs), f(x))
  {
    assert (xs + [x])[..|xs|] == xs;
  }

  lemma {:induction false} TotalAdds<T>(f: T -> Counts, a: seq<T>, b: seq<T>)
    ensures Total(f, a + b) == Plus(Total(f, a), Total(f, b))
    decreases |b|
  {
    if b == [] {
      assert a + b == a;
    } else {
      var before, last := b[..|b| - 1], b[|b| - 1];
      assert b == before + [last] && a + b == a + before + [last];
      TotalAdds(f, a, before);
      TotalSnoc(f, a + before, last);
      TotalSnoc(f, before, last);
    }
  }

  lemma {:induction false} TotalPulls<T>(f: T -> Counts, a: seq<T>, x: T, b: seq<T>)
    ensures Total(f, a + [x] + b) == Plus(Total(f, a + b), f(x))
  {
    TotalAdds(f, a + [x], b);
    TotalSnoc(f, a, x);
    TotalAdds(f, a, b);
  }

  lemma {:induction false} SameWithout<T>(before: seq<T>, a: seq<T>, x: T, b: seq<T>)
    requires multiset(before + [x]) == multiset(a + [x] + b)
    ensures multiset(before) == multiset(a + b)
  {
    assert multiset(before) + multiset{x} == multiset(a + b) + multiset{x};
    forall y ensures multiset(before)[y] == multiset(a + b)[y] {
      assert (multiset(before) + multiset{x})[y] == (multiset(a + b) + multiset{x})[y];
    }
  }

  lemma {:induction false} TotalOrderFree<T>(f: T -> Counts, xs: seq<T>, ys: seq<T>)
    requires multiset(xs) == multiset(ys)
    ensures Total(f, xs) == Total(f, ys)
    decreases |xs|
  {
    if xs == [] {
      assert forall y :: y in ys ==> y in multiset(xs);
      assert ys == [];
    } else {
      var before, last := xs[..|xs| - 1], xs[|xs| - 1];
      assert xs == before + [last];
      assert last in multiset(ys);
      var i :| 0 <= i < |ys| && ys[i] == last;
      var a, b := ys[..i], ys[i + 1..];
      assert ys == a + [last] + b;
      SameWithout(before, a, last, b);
      TotalOrderFree(f, before, a + b);
      TotalPulls(f, a, last, b);
    }
  }

  // ----- Scoring -----

  /** What one expectation adds to its own kind. */
  function Mark(present: bool, hit: bool): Counts {
    if present then (if hit then Counts(1, 0, 0) else Counts(0, 0, 1))
    else if hit then Counts(0, 1, 0) else ZERO
  }

  /** What one expectation adds to a kind. */
  function LabelCounts(e: Expectation, detected: set<Kind>, kind: Kind): Counts {
    if e.kind == kind then Mark(e.present, kind in detected) else ZERO
  }

  function ByLabel(detected: set<Kind>, kind: Kind): Expectation -> Counts {
    e => LabelCounts(e, detected, kind)
  }

  function CaseCounts(labels: seq<Expectation>, detected: set<Kind>, kind: Kind): Counts {
    Total(ByLabel(detected, kind), labels)
  }

  function ByCase(engine: Engine, kind: Kind): Case -> Counts {
    (c: Case) => CaseCounts(c.labels, engine(c.text), kind)
  }

  function CorpusCounts(engine: Engine, cases: seq<Case>, kind: Kind): Counts {
    Total(ByCase(engine, kind), cases)
  }

  function Entry(perType: map<Kind, Counts>, kind: Kind): Counts {
    if kind in perType then perType[kind] else ZERO
  }

  ghost function KindsOf(labels: seq<Expectation>): set<Kind> {
    set e | e in labels :: e.kind
  }

  ghost function AllKinds(cases: seq<Case>): set<Kind> {
    set c, e | c in cases && e in c.labels :: e.kind
  }

  ghost predicate AddsCase(perType: map<Kind, Counts>, scores: map<Kind, Counts>, labels: seq<Expectation>,
                           detected: set<Kind>) {
    && scores.Keys == perType.Keys + KindsOf(labels)
    && forall k {:trigger Entry(scores, k)} ::
       Entry(scores, k) == Plus(Entry(perType, k), CaseCounts(labels, detected, k))
  }

  function WithLabel(scores: map<Kind, Counts>, e: Expectation, detected: set<Kind>): map<Kind, Counts> {
    scores[e.kind := Plus(Entry(scores, e.kind), Mark(e.present, e.kind in detected))]
  }

  lemma {:induction false} OwnEntry(scores: map<Kind, Counts>, e: Expectation, detected: set<Kind>)
    ensures Entry(WithLabel(scores, e, detected), e.kind)
      == Plus(Entry(scores, e.kind), LabelCounts(e, detected, e.kind))
  {
    assert LabelCounts(e, detected, e.kind) == Mark(e.present, e.kind in detected);
    assert e.kind in WithLabel(scores, e, detected);
  }

  lemma {:induction false} OtherEntry(scores: map<Kind, Counts>, e: Expectation, detected: set<Kind>, kind: Kind)
    requires kind != e.kind
    ensures Entry(WithLabel(scores, e, detected), kind) == Plus(Entry(scores, kind), LabelCounts(e, detected, kind))
  {
    PlusZero(Entry(scores, kind));
    assert LabelCounts(e, detected, kind) == ZERO;
  }

  lemma {:induction false} LabelEntry(scores: map<Kind, Counts>, e: Expectation, detected: set<Kind>, kind: Kind)
    ensures Entry(WithLabel(scores, e, detected), kind) == Plus(Entry(scores, kind), LabelCounts(e, detected, kind))
  {
    if kind == e.kind { OwnEntry(scores, e, detected); } else { OtherEntry(scores, e, detected, kind); }
  }

  lemma {:induction false} PlusAssociative(a: Counts, b: Counts, c: Counts)
    ensures Plus(Plus(a, b), c) == Plus(a, Plus(b, c))
  {
  }

  lemma {:induction false} EntryAdds(before: Counts, after: Counts, labels: seq<Expectation>, e: Expectation,
                                     detected: set<Kind>, kind: Kind)
    requires after == Plus(Plus(before, CaseCounts(labels, detected, kind)), LabelCounts(e, detected, kind))
    ensures after == Plus(before, CaseCounts(labels + [e], detected, kind))
  {
    PlusAssociative(before, CaseCounts(labels, detected, kind), LabelCounts(e, detected, kind));
    TotalSnoc(ByLabel(detected, kind), labels, e);
  }

  lemma {:induction false} AddsNothing(perType: map<Kind, Counts>, detected: set<Kind>)
    ensures AddsCase(perType, perType, [], detected)
  {
    assert KindsOf([]) == {};
    forall k ensures Entry(perType, k) == Plus(Entry(perType, k), CaseCounts([], detected, k)) {
      PlusZero(Entry(perType, k));
    }
  }

  lemma {:induction false} KindsSnoc(labels: seq<Expectation>, e: Expectation)
    ensures KindsOf(labels + [e]) == KindsOf(labels) + {e.kind}
  {
    forall k ensures k in KindsOf(labels + [e]) <==> k in KindsOf(labels) || k == e.kind {
      assert e in labels + [e];
    }
  }

  lemma {:induction false} AddsLabelKeys(perType: map<Kind, Counts>, scores: map<Kind, Counts>,
                                         labels: seq<Expectation>, e: Expectation, detected: set<Kind>)
    requires scores.Keys == perType.Keys + KindsOf(labels)
    ensures WithLabel(scores, e, detected).Keys == perType.Keys + KindsOf(labels + [e])
  {
    KindsSnoc(labels, e);
  }

  lemma {:induction false} AddsLabelEntry(perType: map<Kind, Counts>, scores: map<Kind, Counts>,
                                          labels: seq<Expectation>, e: Expectation, detected: set<Kind>, k: Kind)
    requires Entry(scores, k) == Plus(Entry(perType, k), CaseCounts(labels, detected, k))
    ensures Entry(WithLabel(scores, e, detected), k) == Plus(Entry(perType, k), CaseCounts(labels + [e], detected, k))
  {
    LabelEntry(scores, e, detected, k);
    EntryAdds(Entry(perType, k), Entry(WithLabel(scores, e, detected), k), labels, e, detected, k);
  }

  lemma {:induction false} AddsLabel(perType: map<Kind, Counts>, scores: map<Kind, Counts>,
                                     labels: seq<Expectation>, e: Expectation, detected: set<Kind>)
    requires AddsCase(perType, scores, labels, detected)
    ensures AddsCase(perType, WithLabel(scores, e, detected), labels + [e], detected)
  {
    AddsLabelKeys(perType, scores, labels, e, detected);
    forall k
      ensures Entry(WithLabel(scores, e, detected), k) == Plus(Entry(perType, k), CaseCounts(labels + [e], detected, k))
    {
      AddsLabelEntry(perType, scores, labels, e, detected, k);
    }
  }

  /** One expectation of a case, after those in `labels`. */
  method ScoreLabel(ghost perType: map<Kind, Counts>, scores: map<Kind, Counts>, ghost labels: seq<Expectation>,
                    e: Expectation, detected: set<Kind>) returns (next: map<Kind, Counts>)
    requires AddsCase(perType, scores, labels, detected)
    ensures AddsCase(perType, next, labels + [e], detected)
  {
    AddsLabel(perType, scores, labels, e, detected);
    next := WithLabel(scores, e, detected);
  }

  method ScoreCase(labels: seq<Expectation>, detected: set<Kind>, perType: map<Kind, Counts>)
      returns (scores: map<Kind, Counts>)
    ensures AddsCase(perType, scores, labels, detected)
  {
    scores := perType;
    AddsNothing(perType, detected);
    ghost var seen: seq<Expectation> := [];
    for i := 0 to |labels|
      invariant seen == labels[..i]
      invariant AddsCase(perType, scores, seen, detected)
    {
      scores := ScoreLabel(perType, scores, seen, labels[i], detected);
      seen := seen + [labels[i]];
    }
    assert seen == labels;
  }

  ghost predicate ScoresOf(perType: map<Kind, Counts>, engine: Engine, cases: seq<Case>, scored: set<Kind>) {
    && perType.Keys == scored + AllKinds(cases)
    && forall k {:trigger Entry(perType, k)} :: Entry(perType, k) == CorpusCounts(engine, cases, k)
  }

  lemma {:induction false} ScoresSnoc(engine: Engine, cases: seq<Case>, c: Case, scored: set<Kind>,
                                      before: map<Kind, Counts>, after: map<Kind, Counts>)
    requires ScoresOf(before, engine, cases, scored) && AddsCase(before, after, c.labels, engine(c.text))
    ensures ScoresOf(after, engine, cases + [c], scored)
  {
    assert AllKinds(cases + [c]) == AllKinds(cases) + KindsOf(c.labels);
    forall k ensures Entry(after, k) == CorpusCounts(engine, cases + [c], k) {
      TotalSnoc(ByCase(engine, k), cases, c);
      assert Entry(before, k) == CorpusCounts(engine, cases, k);
    }
  }

  /** The scored and the labelled kinds have an entry, no other has, and every entry is the count over the corpus. */
  method ScoreCorpus(engine: Engine, cases: seq<Case>, scored: set<Kind>) returns (perType: map<Kind, Counts>)
    ensures ScoresOf(perType, engine, cases, scored)
  {
    perType := map k | k in scored :: ZERO;
    for i := 0 to |cases|
      invariant ScoresOf(perType, engine, cases[..i], scored)
    {
      var before := perType;
      perType := ScoreCase(cases[i].labels, engine(cases[i].text), perType);
      ScoresSnoc(engine, cases[..i], cases[i], scored, before, perType);
      assert cases[..i + 1] == cases[..i] + [cases[i]];
    }
    assert cases[..|cases|] == cases;
  }

  // ----- Conservation -----

  ghost function Labels(labels: seq<Expectation>, kind: Kind, present: bool): nat {
    if labels == [] then 0
    else
      Labels(labels[..|labels| - 1], kind, present)
      + if labels[|labels| - 1] == Expectation(kind, present) then 1 else 0
  }

  ghost function AllLabels(cases: seq<Case>, kind: Kind, present: bool): nat {
    if cases == [] then 0
    else AllLabels(cases[..|cases| - 1], kind, present) + Labels(cases[|cases| - 1].labels, kind, present)
  }

  lemma {:induction false} CaseConserves(labels: seq<Expectation>, detected: set<Kind>, kind: Kind)
    ensures var c := CaseCounts(labels, detected, kind);
      c.tp + c.fn == Labels(labels, kind, true) && c.fp <= Labels(labels, kind, false)
  {
    if labels == [] {
    } else {
      CaseConserves(labels[..|labels| - 1], detected, kind);
    }
  }

  /** Every label is counted once: tp + fn are the present ones, and fp never exceeds the absent ones. */
  lemma {:induction false} CorpusConserves(engine: Engine, cases: seq<Case>, kind: Kind)
    ensures var c := CorpusCounts(engine, cases, kind);
      c.tp + c.fn == AllLabels(cases, kind, true) && c.fp <= AllLabels(cases, kind, false)
  {
    if cases == [] {
    } else {
      CorpusConserves(engine, cases[..|cases| - 1], kind);
      var last := cases[|cases| - 1];
      CaseConserves(last.labels, engine(last.text), kind);
    }
  }

  /** The labels of the texts in which the engine finds the kind, or of those in which it does not. */
  ghost function LabelsWhere(engine: Engine, cases: seq<Case>, kind: Kind, present: bool, found: bool): nat {
    if cases == [] then 0
    else
      var last := cases[|cases| - 1];
      LabelsWhere(engine, cases[..|cases| - 1], kind, present, found)
      + if (kind in engine(last.text)) == found then Labels(last.labels, kind, present) else 0
  }

  lemma {:induction false} CaseExactly(labels: seq<Expectation>, detected: set<Kind>, kind: Kind)
    ensures CaseCounts(labels, detected, kind)
         == if kind in detected then Counts(Labels(labels, kind, true), Labels(labels, kind, false), 0)
            else Counts(0, 0, Labels(labels, kind, true))
  {
    if labels == [] {
    } else {
      CaseExactly(labels[..|labels| - 1], detected, kind);
    }
  }

  /**
   What is counted: as true positives the present labels of the texts the engine
   finds the kind in, as false negatives those of the other texts, and as false
   positives the absent labels of the texts it finds the kind in.
   */
  lemma {:induction false} CountsExactly(engine: Engine, cases: seq<Case>, kind: Kind)
    ensures CorpusCounts(engine, cases, kind)
         == Counts(LabelsWhere(engine, cases, kind, true, true), LabelsWhere(engine, cases, kind, false, true),
                   LabelsWhere(engine, cases, kind, true, false))
  {
    if cases == [] {
    } else {
      CountsExactly(engine, cases[..|cases| - 1], kind);
      CaseExactly(cases[|cases| - 1].labels, engine(cases[|cases| - 1].text), kind);
    }
  }

  /** Scoring two corpora one after the other adds up. */
  lemma {:induction false} CorpusAdds(engine: Engine, a: seq<Case>, b: seq<Case>, kind: Kind)
    ensures CorpusCounts(engine, a + b, kind) == Plus(CorpusCounts(engine, a, kind), CorpusCounts(engine, b, kind))
  {
    TotalAdds(ByCase(engine, kind), a, b);
  }

  /** The order of the cases does not matter. */
  lemma {:induction false} CorpusOrderFree(engine: Engine, cases: seq<Case>, others: seq<Case>, kind: Kind)
    requires multiset(cases) == multiset(others)
    ensures CorpusCounts(engine, cases, kind) == CorpusCounts(engine, others, kind)
  {
    TotalOrderFree(ByCase(engine, kind), cases, others);
  }

  // ----- The gate -----

  datatype Ratios = Ratios(precision: real, recall: real)

  /** `part` over `part + rest`, and one when there is neither. */
  function Share(part: nat, rest: nat): real {
    if part + rest == 0 then 1.0 else part as real / (part + rest) as real
  }

  function RatiosOf(c: Counts): (r: Ratios)
    ensures 0.0 <= r.precision <= 1.0 && 0.0 <= r.recall <= 1.0
  {
    Ratios(Share(c.tp, c.fp), Share(c.tp, c.fn))
  }

  /** x is the share of `part` in `whole`; of nothing every share is one. */
  ghost predicate IsShare(x: real, part: nat, whole: nat) {
    if whole == 0 then x == 1.0 else x * whole as real == part as real
  }

  lemma {:induction false} ShareExactly(part: nat, rest: nat, whole: nat)
    requires whole == part + rest
    ensures IsShare(Share(part, rest), part, whole)
  {
  }

  /** Precision is the share of the present labels among those found, recall that of those found among the present. */
  lemma {:induction false} RatiosExactly(engine: Engine, cases: seq<Case>, kind: Kind)
    ensures var ratios := RatiosOf(CorpusCounts(engine, cases, kind));
      var hits := LabelsWhere(engine, cases, kind, true, true);
      && IsShare(ratios.precision, hits, hits + LabelsWhere(engine, cases, kind, false, true))
      && IsShare(ratios.recall, hits, AllLabels(cases, kind, true))
  {
    var c := CorpusCounts(engine, cases, kind);
    CountsExactly(engine, cases, kind);
    CorpusConserves(engine, cases, kind);
    ShareExactly(c.tp, c.fp, c.tp + c.fp);
    ShareExactly(c.tp, c.fn, c.tp + c.fn);
  }

  /** The nearest whole number of millionths, halves going up. */
  function Millionths(x: real): int {
    (x * 1000000.0 + 0.5).Floor
  }

  function Round(x: real): real {
    Millionths(x) as real / 1000000.0
  }

  const EPSILON := 0.000000001

  function BuildBaseline(scores: map<Kind, Ratios>): map<Kind, Ratios> {
    map k | k in scores :: Ratios(Round(scores[k].precision), Round(scores[k].recall))
  }

  predicate Regresses(live: real, base: real) {
    Round(live) < Round(base) - EPSILON
  }

  datatype Metric = Precision | Recall

  function MetricOf(r: Ratios, metric: Metric): real {
    match metric
    case Precision => r.precision
    case Recall => r.recall
  }

  datatype Regression = Regression(kind: Kind, metric: Metric, baseline: real, current: real)

  /** r is a metric of a kind known to the baseline that fell below it, with both values. */
  predicate Regressed(live: map<Kind, Ratios>, baseline: map<Kind, Ratios>, r: Regression) {
    && r.kind in live && r.kind in baseline
    && r.current == MetricOf(live[r.kind], r.metric) && r.baseline == MetricOf(baseline[r.kind], r.metric)
    && Regresses(r.current, r.baseline)
  }

  /** The regressions of one kind. */
  method CompareKind(live: map<Kind, Ratios>, baseline: map<Kind, Ratios>, kind: Kind)
      returns (regressions: seq<Regression>)
    requires kind in live && kind in baseline
    ensures forall r :: r in regressions <==> r.kind == kind && Regressed(live, baseline, r)
    ensures Texts.Distinct(regressions)
  {
    regressions := [];
    if Regresses(live[kind].precision, baseline[kind].precision) {
      regressions := [Regression(kind, Precision, baseline[kind].precision, live[kind].precision)];
    }
    if Regresses(live[kind].recall, baseline[kind].recall) {
      regressions := regressions + [Regression(kind, Recall, baseline[kind].recall, live[kind].recall)];
    }
  }

  /** `order` lists the kinds of the live scores, each once. */
  method CompareToBaseline(live: map<Kind, Ratios>, baseline: map<Kind, Ratios>, order: seq<Kind>)
      returns (ok: bool, regressions: seq<Regression>, newTypes: seq<Kind>)
    requires forall k :: k in order <==> k in live
    requires Texts.Distinct(order)
    ensures forall r :: r in regressions <==> Regressed(live, baseline, r)
    ensures Texts.Distinct(regressions)
    ensures ok <==> !exists r :: Regressed(live, baseline, r)
    ensures forall k :: k in newTypes <==> k in live && k !in baseline
    ensures Texts.Distinct(newTypes)
  {
    regressions, newTypes := [], [];
    for i := 0 to |order|
      invariant forall k :: k in newTypes <==> k in order[..i] && k !in baseline
      invariant forall r :: r in regressions <==> r.kind in order[..i] && Regressed(live, baseline, r)
      invariant Texts.Distinct(regressions) && Texts.Distinct(newTypes)
    {
      var k := order[i];
      assert order[..i + 1] == order[..i] + [k];
      if k !in baseline {
        newTypes := newTypes + [k];
      } else {
        var more := CompareKind(live, baseline, k);
        regressions := regressions + more;
      }
    }
    assert order[..|order|] == order;
    ok := regressions == [];
    assert regressions != [] ==> Regressed(live, baseline, regressions[0]);
  }

  lemma {:induction false} MillionthsBounds(x: real)
    ensures Round(x) - 0.0000005 <= x < Round(x) + 0.0000005
  {
  }

  lemma {:induction false} RoundIdempotent(x: real)
    ensures Round(Round(x)) == Round(x)
  {
    var k := Millionths(x);
    assert Round(x) * 1000000.0 + 0.5 == k as real + 0.5;
    assert (k as real + 0.5).Floor == k;
  }

  /** The epsilon never matters: rounded values differ by whole millionths. */
  lemma {:induction false} RegressesExactly(live: real, base: real)
    ensures Regresses(live, base) <==> Millionths(live) < Millionths(base)
  {
    var a, b := Millionths(live), Millionths(base);
    if a < b {
      assert a as real + 1.0 <= b as real;
    }
  }

  /** Scores open the gate against a baseline built from themselves. */
  lemma {:induction false} OwnBaselinePasses(scores: map<Kind, Ratios>)
    ensures !exists r :: Regressed(scores, BuildBaseline(scores), r)
  {
    forall r ensures !Regressed(scores, BuildBaseline(scores), r) {
      if r.kind in scores { RoundIdempotent(MetricOf(scores[r.kind], r.metric)); }
    }
  }

  /** A kind that passes has lost less than a millionth of either ratio. */
  lemma {:induction false} PassBounds(live: map<Kind, Ratios>, baseline: map<Kind, Ratios>, kind: Kind)
    requires kind in live && kind in baseline
    requires !exists r: Regression :: r.kind == kind && Regressed(live, baseline, r)
    ensures live[kind].precision > baseline[kind].precision - 0.000001
    ensures live[kind].recall > baseline[kind].recall - 0.000001
  {
    var p := Regression(kind, Precision, baseline[kind].precision, live[kind].precision);
    var r := Regression(kind, Recall, baseline[kind].recall, live[kind].recall);
    assert !Regressed(live, baseline, p) && !Regressed(live, baseline, r);
    MetricBound(p.current, p.baseline);
    MetricBound(r.current, r.baseline);
  }

  lemma {:induction false} MetricBound(live: real, base: real)
    requires !Regresses(live, base)
    ensures live > base - 0.000001
  {
    RegressesExactly(live, base);
    MillionthsBounds(live);
    MillionthsBounds(base);
    assert Round(live) >= Round(base);
  }

  // ----- The gate on two engines and one corpus -----

  /** The scores of a corpus, with the ratios of every kind. */
  function ScoreRatios(perType: map<Kind, Counts>): map<Kind, Ratios> {
    map k | k in perType :: RatiosOf(perType[k])
  }

  /** Every present label the first detection hits is hit by the second, and no absent label newly so. */
  ghost predicate NoWorseOn(labels: seq<Expectation>, first: set<Kind>, second: set<Kind>) {
    forall e :: e in labels ==>
      if e.present then e.kind in first ==> e.kind in second else e.kind in second ==> e.kind in first
  }

  ghost predicate NoWorse(cases: seq<Case>, first: Engine, second: Engine) {
    forall c :: c in cases ==> NoWorseOn(c.labels, first(c.text), second(c.text))
  }

  ghost predicate CountsNoWorse(a: Counts, b: Counts) {
    a.tp <= b.tp && b.fp <= a.fp && b.fn <= a.fn
  }

  lemma {:induction false} CaseNoWorse(labels: seq<Expectation>, first: set<Kind>, second: set<Kind>, kind: Kind)
    requires NoWorseOn(labels, first, second)
    ensures CountsNoWorse(CaseCounts(labels, first, kind), CaseCounts(labels, second, kind))
  {
    if labels == [] {
      assert CaseCounts(labels, first, kind) == CaseCounts(labels, second, kind) == ZERO;
    } else {
      var before, e := labels[..|labels| - 1], labels[|labels| - 1];
      CaseNoWorse(before, first, second, kind);
      assert e in labels;
      assert CountsNoWorse(LabelCounts(e, first, kind), LabelCounts(e, second, kind));
    }
  }

  lemma {:induction false} CorpusNoWorse(cases: seq<Case>, first: Engine, second: Engine, kind: Kind)
    requires NoWorse(cases, first, second)
    ensures CountsNoWorse(CorpusCounts(first, cases, kind), CorpusCounts(second, cases, kind))
  {
    if cases == [] {
      assert CorpusCounts(first, cases, kind) == CorpusCounts(second, cases, kind) == ZERO;
    } else {
      var before, c := cases[..|cases| - 1], cases[|cases| - 1];
      CorpusNoWorse(before, first, second, kind);
      assert c in cases;
      CaseNoWorse(c.labels, first(c.text), second(c.text), kind);
    }
  }

  lemma {:induction false} ProductsOrdered(a: nat, b: nat, c: nat, d: nat)
    requires a <= b && c <= d
    ensures a * c <= b * d
  {
    assert a * c <= b * c;
    assert b * c <= b * d;
  }

  lemma {:induction false} CrossOrdered(part: nat, rest: nat, part': nat, rest': nat)
    requires part <= part' && rest' <= rest
    ensures part * (part' + rest') <= part' * (part + rest)
  {
    ProductsOrdered(part, part', rest', rest);
    assert part * (part' + rest') == part * part' + part * rest';
    assert part' * (part + rest) == part * part' + part' * rest;
  }

  lemma {:induction false} ShareMonotone(part: nat, rest: nat, part': nat, rest': nat)
    requires part <= part' && rest' <= rest
    ensures Share(part, rest) <= Share(part', rest')
  {
    if part' + rest' == 0 {
      assert Share(part', rest') == 1.0;
      ShareAtMostOne(part, rest);
    } else if part + rest == 0 {
      assert Share(part', rest') == part' as real / part' as real == 1.0;
    } else {
      CrossOrdered(part, rest, part', rest');
      QuotientsOrdered(part, part + rest, part', part' + rest');
    }
  }

  lemma {:induction false} ShareAtMostOne(part: nat, rest: nat)
    ensures 0.0 <= Share(part, rest) <= 1.0
  {
  }

  /** Fractions are ordered as their cross products are. */
  lemma {:induction false} QuotientsOrdered(a: nat, d: nat, a': nat, d': nat)
    requires d > 0 && d' > 0
    ensures a as real / d as real <= a' as real / d' as real <==> a * d' <= a' * d
  {
    var x, x' := a as real / d as real, a' as real / d' as real;
    var dd := d as real * d' as real;
    assert x * dd == a as real * d' as real == (a * d') as real;
    assert x' * dd == a' as real * d as real == (a' * d) as real;
    if x <= x' { assert x * dd <= x' * dd; } else { assert x * dd > x' * dd; }
  }

  lemma {:induction false} NoRegression(live: real, base: real)
    requires base <= live
    ensures !Regresses(live, Round(base))
  {
    RoundIdempotent(base);
    RegressesExactly(live, Round(base));
    assert base * 1000000.0 <= live * 1000000.0;
  }

  /**
   An engine that hits every present label the pinned one hit, and no absent
   label it did not, opens the gate on the same corpus.
   */
  lemma {:induction false} NoWorsePasses(cases: seq<Case>, scored: set<Kind>, first: Engine, second: Engine,
                                         pinned: map<Kind, Counts>, live: map<Kind, Counts>)
    requires ScoresOf(pinned, first, cases, scored) && ScoresOf(live, second, cases, scored)
    requires NoWorse(cases, first, second)
    ensures !exists r :: Regressed(ScoreRatios(live), BuildBaseline(ScoreRatios(pinned)), r)
  {
    var now, baseline := ScoreRatios(live), BuildBaseline(ScoreRatios(pinned));
    if r :| Regressed(now, baseline, r) {
      var a, b := pinned[r.kind], live[r.kind];
      assert a == Entry(pinned, r.kind) && b == Entry(live, r.kind);
      CorpusNoWorse(cases, first, second, r.kind);
      ShareMonotone(a.tp, a.fp, b.tp, b.fp);
      ShareMonotone(a.tp, a.fn, b.tp, b.fn);
      NoRegression(MetricOf(RatiosOf(b), r.metric), MetricOf(RatiosOf(a), r.metric));
      assert false;
    }
  }

  // ----- What the rounding hides -----

  function Hits(tp: nat, n: nat): int
    requires n > 0
  {
    Millionths(tp as real / n as real)
  }

  lemma {:induction false} HitsEnds(n: nat)
    requires n > 0
    ensures Hits(0, n) == 0 && Hits(n, n) == 1000000
  {
    assert n as real / n as real == 1.0;
  }

  /** One more of at most a million labels is at least one more millionth. */
  lemma {:induction false} OneMoreShows(tp: nat, more: nat, n: nat)
    requires 0 < n <= 1000000 && tp < more
    ensures Hits(tp, n) < Hits(more, n)
  {
    var step := 1000000.0 / n as real;
    var x, y := tp as real / n as real * 1000000.0, more as real / n as real * 1000000.0;
    assert x == tp as real * step && y == more as real * step;
    AtLeastOne(step, n as real);
    assert y - x == (more - tp) as real * step >= step;
    FloorApart(x + 0.5, y + 0.5);
  }

  lemma {:induction false} AtLeastOne(x: real, n: real)
    requires 0.0 < n <= x * n
    ensures x >= 1.0
  {
    assert (x - 1.0) * n >= 0.0;
  }

  lemma {:induction false} FloorApart(x: real, y: real)
    requires y >= x + 1.0
    ensures x.Floor < y.Floor
  {
    assert x.Floor as real <= x && y < y.Floor as real + 1.0;
  }

  /** More than a million labels cannot all show: some one more leaves the millionths as they are. */
  lemma {:induction false} SomeOneHidden(n: nat, upTo: nat) returns (tp: nat)
    requires n > 0 && upTo <= n && Hits(upTo, n) < upTo + Hits(0, n)
    ensures tp < n && Hits(tp + 1, n) <= Hits(tp, n)
    decreases upTo
  {
    if Hits(upTo, n) <= Hits(upTo - 1, n) { tp := upTo - 1; } else { tp := SomeOneHidden(n, upTo - 1); }
  }

  /** Against a baseline that hit b of n present labels, hitting a of them is reported as a recall regression. */
  predicate RecallReported(a: nat, b: nat, n: nat)
    requires a <= n && b <= n
  {
    Regresses(Share(a, n - a), Round(Share(b, n - b)))
  }

  lemma {:induction false} ReportedIsFewer(a: nat, b: nat, n: nat)
    requires a <= n && b <= n && n > 0
    ensures RecallReported(a, b, n) <==> Hits(a, n) < Hits(b, n)
  {
    RoundIdempotent(Share(b, n - b));
    RegressesExactly(Share(a, n - a), Round(Share(b, n - b)));
  }

  lemma {:induction false} LossReported(a: nat, b: nat, n: nat)
    requires a <= n && b <= n <= 1000000
    ensures RecallReported(a, b, n) <==> a < b
  {
    if n == 0 {
      assert !RecallReported(0, 0, 0);
    } else {
      ReportedIsFewer(a, b, n);
      if a < b { OneMoreShows(a, b, n); } else if b < a { OneMoreShows(b, a, n); }
    }
  }

  /**
   The gate reports exactly the losses of recall when, and only when, the kind has
   at most a million present labels.
   */
  lemma {:induction false} RecallGateExact(n: nat)
    ensures (forall a: nat, b: nat :: a <= n && b <= n ==> (RecallReported(a, b, n) <==> a < b)) <==> n <= 1000000
  {
    if n == 0 {
      assert !RecallReported(0, 0, 0);
    } else if n <= 1000000 {
      forall a: nat, b: nat | a <= n && b <= n ensures RecallReported(a, b, n) <==> a < b { LossReported(a, b, n); }
    } else {
      HitsEnds(n);
      var tp := SomeOneHidden(n, n);
      ReportedIsFewer(tp, tp + 1, n);
      assert !RecallReported(tp, tp + 1, n);
    }
  }

  /** The entry of a kind says how many of its present labels were hit. */
  lemma {:induction false} EntryRecall(perType: map<Kind, Counts>, engine: Engine, cases: seq<Case>, scored: set<Kind>,
                                       kind: Kind)
    requires ScoresOf(perType, engine, cases, scored) && kind in perType
    ensures var tp, n := perType[kind].tp, AllLabels(cases, kind, true);
      tp <= n && ScoreRatios(perType)[kind].recall == Share(tp, n - tp)
  {
    assert perType[kind] == Entry(perType, kind);
    CorpusConserves(engine, cases, kind);
  }

  lemma {:induction false} SharesCompared(live: real, pinned: real, a: nat, b: nat, n: nat)
    requires a <= n && b <= n <= 1000000 && live == Share(a, n - a) && pinned == Share(b, n - b)
    ensures Regresses(live, Round(pinned)) <==> a < b
  {
    LossReported(a, b, n);
  }

  lemma {:induction false} RecallCompared(cases: seq<Case>, scored: set<Kind>, first: Engine, second: Engine,
                                          pinned: map<Kind, Counts>, live: map<Kind, Counts>, kind: Kind)
    requires ScoresOf(pinned, first, cases, scored) && ScoresOf(live, second, cases, scored)
    requires kind in pinned && kind in live && AllLabels(cases, kind, true) <= 1000000
    ensures Regresses(ScoreRatios(live)[kind].recall, Round(ScoreRatios(pinned)[kind].recall))
       <==> live[kind].tp < pinned[kind].tp
  {
    EntryRecall(pinned, first, cases, scored, kind);
    EntryRecall(live, second, cases, scored, kind);
    SharesCompared(ScoreRatios(live)[kind].recall, ScoreRatios(pinned)[kind].recall,
                   live[kind].tp, pinned[kind].tp, AllLabels(cases, kind, true));
  }

  lemma {:induction false} RecallRegressed(live: map<Kind, Ratios>, pinned: map<Kind, Ratios>, kind: Kind)
    requires kind in live && kind in pinned
    ensures var baseline := BuildBaseline(pinned);
      Regressed(live, baseline, Regression(kind, Recall, baseline[kind].recall, live[kind].recall))
      <==> Regresses(live[kind].recall, Round(pinned[kind].recall))
  {
  }

  /** On one corpus, the recall of a kind is listed exactly when the live engine hits fewer of its present labels. */
  lemma {:induction false} LostRecallListed(cases: seq<Case>, scored: set<Kind>, first: Engine, second: Engine,
                                            pinned: map<Kind, Counts>, live: map<Kind, Counts>, kind: Kind)
    requires ScoresOf(pinned, first, cases, scored) && ScoresOf(live, second, cases, scored)
    requires kind in pinned && kind in live && AllLabels(cases, kind, true) <= 1000000
    ensures var now, baseline := ScoreRatios(live), BuildBaseline(ScoreRatios(pinned));
      live[kind].tp < pinned[kind].tp
      <==> Regressed(now, baseline, Regression(kind, Recall, baseline[kind].recall, now[kind].recall))
  {
    RecallCompared(cases, scored, first, second, pinned, live, kind);
    RecallRegressed(ScoreRatios(live), ScoreRatios(pinned), kind);
  }
}
