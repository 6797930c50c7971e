/**
 Rules of fixed length whose context only forbids a match, behind it, ahead of it or
 both. For those whose matches stand apart it is decided, by their length and by what
 the context decides, when a stream always is protected as its text in one piece.
 */
module StreamLookAround {
  import opened Texts
  import opened Spans
  import opened StreamProtector
  import opened StreamEquivalence
  import opened StreamExactness
  import opened StreamPatterns

  /** With less text around it a match still is one. */
  ghost predicate OnlyForbids(p: Pattern) {
    forall b, body, a, k: nat, l: nat {:trigger p.matches(b[k..], body, a[..l]), p.matches(b, body, a)} ::
      k <= |b| && l <= |a| && p.matches(b, body, a) ==> p.matches(b[k..], body, a[..l])
  }

  /** Stretches of text of the size of a match, from i and from j on, overlap. */
  predicate Overlap(p: Pattern, i: nat, j: nat) {
    i != j && i < j + p.size && j < i + p.size
  }

  /** No match overlaps a text that would match by itself. */
  ghost predicate StandApart(p: Pattern) {
    forall x: Text, i: nat, j: nat {:trigger Hit(Bare(p), x, i), Hit(p, x, j)} ::
      Hit(Bare(p), x, i) && Overlap(p, i, j) ==> !Hit(p, x, j)
  }

  // ----- Matches with less text around them -----

  lemma {:induction false} Prefixes(a: Text, from: nat, to: nat, later: nat)
    requires from <= to <= later <= |a|
    ensures a[from..later][..to - from] == a[from..to]
  {
  }

  lemma {:induction false} HitIsBare(p: Pattern, x: Text, i: nat)
    requires OnlyForbids(p) && Hit(p, x, i)
    ensures Hit(Bare(p), x, i)
  {
    var b, body, a := StreamPatterns.Before(p, x, i), x[i..i + p.size], StreamPatterns.After(p, x, i + p.size);
    assert p.matches(b[|b|..], body, a[..0]);
    assert b[|b|..] == [] && a[..0] == [];
    BareHit(p, x, i);
  }

  lemma {:induction false} AfterShorter(p: Pattern, x: Text, y: Text, end: nat)
    requires end <= |x|
    ensures var few, all := StreamPatterns.After(p, x, end), StreamPatterns.After(p, x + y, end);
      |few| <= |all| && few == all[..|few|]
  {
    var to := if |x| < end + p.ahead then |x| else end + p.ahead;
    var later := if |x + y| < end + p.ahead then |x + y| else end + p.ahead;
    BodyKept(x, y, end, to);
    Prefixes(x + y, end, to, later);
  }

  lemma {:induction false} HitShorter(p: Pattern, x: Text, y: Text, i: nat)
    requires OnlyForbids(p) && Hit(p, x + y, i) && i + p.size <= |x|
    ensures Hit(p, x, i)
  {
    var end := i + p.size;
    AfterShorter(p, x, y, end);
    BodyKept(x, y, if i < p.behind then 0 else i - p.behind, i);
    BodyKept(x, y, i, end);
    var b, a := StreamPatterns.Before(p, x + y, i), StreamPatterns.After(p, x + y, end);
    var n := |StreamPatterns.After(p, x, end)|;
    assert p.matches(b[0..], x[i..end], a[..n]);
    assert b[0..] == b;
  }

  lemma {:induction false} BareLonger(p: Pattern, x: Text, y: Text, i: nat)
    requires i + p.size <= |x|
    ensures Hit(Bare(p), x + y, i) <==> Hit(Bare(p), x, i)
  {
    HitLonger(Bare(p), x, y, i);
  }

  // ----- What is found -----

  lemma {:induction false} FoundIsHit(p: Pattern, x: Text, from: nat, s: Span)
    requires p.size > 0 && s in Hits(p, x, from)
    ensures s == SpanAt(p, s.start) && Hit(p, x, s.start)
    decreases |x| - from
  {
    if Hit(p, x, from) {
      if s != SpanAt(p, from) { FoundIsHit(p, x, from + p.size, s); }
    } else {
      FoundIsHit(p, x, from + 1, s);
    }
  }

  lemma {:induction false} HitIsFound(p: Pattern, x: Text, from: nat, i: nat)
    requires p.size > 0 && OnlyForbids(p) && StandApart(p) && from <= i && Hit(p, x, i)
    ensures SpanAt(p, i) in Hits(p, x, from)
    decreases i - from
  {
    if from == i {
    } else if Hit(p, x, from) {
      HitIsBare(p, x, i);
      assert !Overlap(p, i, from);
      HitIsFound(p, x, from + p.size, i);
    } else {
      HitIsFound(p, x, from + 1, i);
    }
  }

  lemma {:induction false} FoundIff(p: Pattern, x: Text, i: nat)
    requires p.size > 0 && OnlyForbids(p) && StandApart(p)
    ensures SpanAt(p, i) in Hits(p, x, 0) <==> Hit(p, x, i)
  {
    if Hit(p, x, i) { HitIsFound(p, x, 0, i); }
    if SpanAt(p, i) in Hits(p, x, 0) { FoundIsHit(p, x, 0, SpanAt(p, i)); }
  }

  /** No match goes over the end of a text that would match by itself. */
  lemma {:induction false} UncutBehind(p: Pattern, x: Text, i: nat)
    requires p.size > 0 && StandApart(p) && Hit(Bare(p), x, i)
    ensures Uncut(Hits(p, x, 0), i + p.size)
  {
    var spans := Hits(p, x, 0);
    forall k | 0 <= k < |spans| ensures spans[k].end <= i + p.size || i + p.size <= spans[k].start {
      assert spans[k] in spans;
      FoundIsHit(p, x, 0, spans[k]);
      assert !Overlap(p, i, spans[k].start);
    }
  }

  // ----- Cuts -----

  /** If no commit changes the matches, a text may be cut where no match is, with the hold-back behind it. */
  lemma {:induction false} CutSplits(p: Pattern, m: nat, x: Text, c: nat)
    requires p.size > 0 && CommitsSplit(Marker(p, m, 0)) && 0 < c && c + m <= |x| && Uncut(Hits(p, x[..c + m], 0), c)
    ensures Hits(p, x, 0) == Hits(p, x[..c], 0) + Shift(Hits(p, x[c..], 0), c)
  {
    var e, all, later := Marker(p, m, 0), x[..c + m], x[c + m..];
    UncutCommits(Hits(p, all, 0), c);
    assert Limit(e, all) == c == CommitPoint(e, all);
    assert SplitAt(Search(p), all, c, later);
    assert all + later == x && all[..c] == x[..c] && all[c..] + later == x[c..];
  }

  lemma {:induction false} InHead(p: Pattern, h: seq<Span>, t: seq<Span>, c: nat, i: nat)
    requires p.size > 0 && i + p.size <= c
    ensures SpanAt(p, i) in h + Shift(t, c) <==> SpanAt(p, i) in h
  {
    var tail := Shift(t, c);
    forall s | s in tail ensures s != SpanAt(p, i) {
      var k :| 0 <= k < |tail| && tail[k] == s;
    }
  }

  lemma {:induction false} InTail(p: Pattern, h: seq<Span>, t: seq<Span>, c: nat)
    requires p.size > 0 && forall s :: s in h ==> s.start < c
    ensures SpanAt(p, c) in h + Shift(t, c) <==> SpanAt(p, 0) in t
  {
    var tail := Shift(t, c);
    if SpanAt(p, c) in tail {
      var k :| 0 <= k < |tail| && tail[k] == SpanAt(p, c);
      assert tail[k] == Moved(t[k], c) && t[k] == SpanAt(p, 0);
    }
    if SpanAt(p, 0) in t {
      var k :| 0 <= k < |t| && t[k] == SpanAt(p, 0);
      assert tail[k] == Moved(t[k], c) == SpanAt(p, c);
    }
  }

  lemma {:induction false} FarAheadDecidesNothing(p: Pattern, m: nat, x: Text, i: nat, end: nat)
    requires p.size > 0 && OnlyForbids(p) && StandApart(p) && CommitsSplit(Marker(p, m, 0))
    requires end == i + p.size && end + m <= |x| && Hit(Bare(p), x, i)
    ensures Hit(p, x, i) <==> Hit(p, x[..end], i)
  {
    var all := x[..end + m];
    assert x == all + x[end + m..];
    BareLonger(p, all, x[end + m..], i);
    UncutBehind(p, all, i);
    CutSplits(p, m, x, end);
    InHead(p, Hits(p, x[..end], 0), Hits(p, x[end..], 0), end, i);
    FoundIff(p, x, i);
    FoundIff(p, x[..end], i);
  }

  /** If no commit changes the matches, the text ahead of a match decides nothing. */
  lemma {:induction false} AheadDecidesNothing(p: Pattern, m: nat, x: Text, i: nat, end: nat)
    requires p.size > 0 && OnlyForbids(p) && StandApart(p) && CommitsSplit(Marker(p, m, 0))
    requires end == i + p.size && Hit(Bare(p), x, i)
    ensures end <= |x| && (Hit(p, x, i) <==> Hit(p, x[..end], i))
  {
    var filler: Text := seq(m, _ => 0);
    var longer := x + filler;
    assert x == x[..end] + x[end..] && longer[..end] == x[..end];
    BareLonger(p, x, filler, i);
    FarAheadDecidesNothing(p, m, longer, i, end);
    if Hit(p, x, i) { HitShorter(p, x[..end], x[end..], i); }
    if Hit(p, longer, i) { HitShorter(p, x, filler, i); }
  }

  /** So the text ahead may be cut anywhere. */
  lemma {:induction false} HitInPrefix(p: Pattern, m: nat, x: Text, n: nat, j: nat)
    requires p.size > 0 && OnlyForbids(p) && StandApart(p) && CommitsSplit(Marker(p, m, 0))
    requires n <= |x| && Hit(p, x[..n], j)
    ensures Hit(p, x, j)
  {
    var end := j + p.size;
    assert x == x[..n] + x[n..] && x[..n][..end] == x[..end];
    HitIsBare(p, x[..n], j);
    BareLonger(p, x[..n], x[n..], j);
    AheadDecidesNothing(p, m, x[..n], j, end);
    AheadDecidesNothing(p, m, x, j, end);
  }

  /** Also the start of a text that would match by itself may be a cut. */
  lemma {:induction false} UncutBefore(p: Pattern, m: nat, x: Text, n: nat, i: nat)
    requires p.size > 0 && OnlyForbids(p) && StandApart(p) && CommitsSplit(Marker(p, m, 0))
    requires n <= |x| && Hit(Bare(p), x, i)
    ensures Uncut(Hits(p, x[..n], 0), i)
  {
    var spans := Hits(p, x[..n], 0);
    forall k | 0 <= k < |spans| ensures spans[k].end <= i || i <= spans[k].start {
      assert spans[k] in spans;
      FoundIsHit(p, x[..n], 0, spans[k]);
      HitInPrefix(p, m, x, n, spans[k].start);
      assert !Overlap(p, i, spans[k].start);
    }
  }

  lemma {:induction false} StartsBefore(p: Pattern, x: Text)
    requires p.size > 0
    ensures forall s :: s in Hits(p, x, 0) ==> s.start < |x|
  {
    forall s | s in Hits(p, x, 0) ensures s.start < |x| { FoundIsHit(p, x, 0, s); }
  }

  lemma {:induction false} FarBehindDecidesNothing(p: Pattern, m: nat, x: Text, i: nat)
    requires p.size > 0 && OnlyForbids(p) && StandApart(p) && CommitsSplit(Marker(p, m, 0))
    requires 0 < i && i + m <= |x| && Hit(Bare(p), x, i)
    ensures Hit(p, x, i) <==> Hit(p, x[i..], 0)
  {
    UncutBefore(p, m, x, i + m, i);
    CutSplits(p, m, x, i);
    StartsBefore(p, x[..i]);
    InTail(p, Hits(p, x[..i], 0), Hits(p, x[i..], 0), i);
    FoundIff(p, x, i);
    FoundIff(p, x[i..], 0);
  }

  /** Nor does the text behind it: whatever would match by itself is a match. */
  lemma {:induction false} NothingDecides(p: Pattern, m: nat, x: Text, i: nat)
    requires p.size > 0 && OnlyForbids(p) && StandApart(p) && CommitsSplit(Marker(p, m, 0)) && Hit(Bare(p), x, i)
    ensures Hit(p, x, i)
  {
    var filler: Text := seq(m, _ => 0);
    var longer := x + filler;
    BareLonger(p, x, filler, i);
    MatchesAtStart(p, m, longer, i);
    if i == 0 {
      assert longer[0..] == longer;
    } else {
      FarBehindDecidesNothing(p, m, longer, i);
    }
    HitShorter(p, x, filler, i);
  }

  lemma {:induction false} MatchesAtStart(p: Pattern, m: nat, x: Text, i: nat)
    requires p.size > 0 && OnlyForbids(p) && StandApart(p) && CommitsSplit(Marker(p, m, 0)) && Hit(Bare(p), x, i)
    ensures i <= |x| && Hit(p, x[i..], 0)
  {
    var t, body := x[i..], x[i..i + p.size];
    assert t[..p.size] == body && t[0..0 + p.size] == body && body[0..0 + p.size] == body;
    BareHit(p, x, i);
    BareHit(p, t, 0);
    AheadDecidesNothing(p, m, t, 0, p.size);
    ContextSize(p, body, 0);
    MatchesAlone(p, StreamPatterns.Before(p, body, 0), body, StreamPatterns.After(p, body, p.size));
  }

  lemma {:induction false} SameHits(p: Pattern, x: Text, from: nat)
    requires p.size > 0 && forall i: nat :: Hit(p, x, i) <==> Hit(Bare(p), x, i)
    ensures Hits(p, x, from) == Hits(Bare(p), x, from)
    decreases |x| - from
  {
    if from + p.size > |x| {
    } else {
      SameHits(p, x, if Hit(p, x, from) then from + p.size else from + 1);
    }
  }

  // ----- The length of a match -----

  /** A text as short as a match that matches: cut inside, it would match nowhere. */
  lemma {:induction false} LongSplits(p: Pattern, m: nat, body: Text)
    requires p.size >= m + 2 && |body| == p.size && Hit(p, body, 0)
    ensures !CommitsSplit(Marker(p, m, 0))
  {
    var n := p.size - 1;
    var c := n - m;
    var all, later, e := body[..n], body[n..], Marker(p, m, 0);
    assert Hits(p, all, 0) == [] && Limit(e, all) == c;
    assert CommitPoint(e, all) == c;
    assert all + later == body;
    assert Hits(p, body, 0) != [];
    assert Hits(p, all[..c], 0) == [] && Hits(p, all[c..] + later, 0) == [];
    assert !SplitAt(Search(p), all, c, later);
  }

  lemma {:induction false} BodyMatches(p: Pattern, x: Text, i: nat)
    requires p.size > 0 && OnlyForbids(p) && Hit(p, x, i)
    ensures Hit(p, x[i..i + p.size], 0)
  {
    var body := x[i..i + p.size];
    HitIsBare(p, x, i);
    BareHit(p, x, i);
    assert body[0..0 + p.size] == body;
    ContextSize(p, body, 0);
    MatchesAlone(p, StreamPatterns.Before(p, body, 0), body, StreamPatterns.After(p, body, p.size));
  }

  lemma {:induction false} SplitsBounds(p: Pattern, m: nat, x: Text)
    requires p.size > 0 && OnlyForbids(p) && Hits(p, x, 0) != [] && CommitsSplit(Marker(p, m, 0))
    ensures p.size <= m + 1
  {
    var s := Hits(p, x, 0)[0];
    assert s in Hits(p, x, 0);
    FoundIsHit(p, x, 0, s);
    BodyMatches(p, x, s.start);
    if p.size >= m + 2 { LongSplits(p, m, x[s.start..s.start + p.size]); }
  }

  /**
   For a rule that finds something in some text, whose context only forbids and whose
   matches stand apart, streaming always is one-shot protection if and only if a match
   has at most one unit more than the hold-back and no context decides anything.
   */
  lemma {:induction false} LookAroundExact(p: Pattern, m: nat, x: Text)
    requires p.size > 0 && OnlyForbids(p) && StandApart(p) && Hits(p, x, 0) != []
    ensures AlwaysOneShot(Marker(p, m, 0)) <==> p.size <= m + 1 && ContextFree(p)
  {
    MarkerMarks(p, m, 0);
    OneShotExact(Marker(p, m, 0));
    if CommitsSplit(Marker(p, m, 0)) {
      SplitsBounds(p, m, x);
      forall y: Text ensures Hits(p, y, 0) == Hits(Bare(p), y, 0) {
        forall i: nat ensures Hit(p, y, i) <==> Hit(Bare(p), y, i) {
          if Hit(p, y, i) { HitIsBare(p, y, i); }
          if Hit(Bare(p), y, i) { NothingDecides(p, m, y, i); }
        }
        SameHits(p, y, 0);
      }
    }
    if p.size <= m + 1 && ContextFree(p) {
      SearchBounded(p, m);
      BoundedSplits(Marker(p, m, 0));
    }
  }
}
