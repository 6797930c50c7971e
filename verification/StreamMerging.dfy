/**
 Several rules together: what they find is put in one list, and overlaps are removed.
 A match that only appears because a text was cut can push out one that was kept, so
 rules that lose no match each by itself may lose one together.
 */
module StreamMerging {
  import Sorting
  import opened Texts
  import opened Spans
  import opened StreamProtector
  import opened StreamEquivalence
  import opened StreamExactness
  import opened StreamCoverage
  import opened StreamRules

  /** What all detectors find, one after the other. */
  function All(ds: seq<Detector>, x: Text): seq<Span> {
    if ds == [] then [] else ds[0](x) + All(ds[1..], x)
  }

  /** What is kept of it. */
  function Kept(spans: seq<Span>): seq<Span> { Accepted(Spans.Sort(spans), -1) }

  ghost function Merged(ds: seq<Detector>): Detector {
    x => Kept(All(ds, x))
  }

  // ----- What is kept -----

  lemma {:induction false} AllExactly(ds: seq<Detector>, x: Text, s: Span)
    ensures s in All(ds, x) <==> exists i :: 0 <= i < |ds| && s in ds[i](x)
  {
    if ds == [] {
    } else {
      AllExactly(ds[1..], x, s);
      if i :| 0 <= i < |ds| && s in ds[i](x) {
        assert i > 0 ==> ds[1..][i - 1] == ds[i];
      }
      if i :| 0 <= i < |ds[1..]| && s in ds[1..][i](x) {
        assert ds[i + 1] == ds[1..][i];
      }
    }
  }

  ghost predicate AllSolid(ds: seq<Detector>) {
    forall i :: 0 <= i < |ds| ==> Solid(ds[i])
  }

  ghost predicate Fit(spans: seq<Span>, n: nat) {
    forall s :: s in spans ==> s.start < s.end <= n
  }

  lemma {:induction false} AllFit(ds: seq<Detector>, x: Text)
    requires AllSolid(ds)
    ensures Fit(All(ds, x), |x|)
  {
    forall s | s in All(ds, x) ensures s.start < s.end <= |x| {
      AllExactly(ds, x, s);
      var i :| 0 <= i < |ds| && s in ds[i](x);
      assert SolidAt(ds[i], x);
    }
  }

  lemma {:induction false} KeptMeaning(spans: seq<Span>, n: nat)
    requires Fit(spans, n)
    ensures Within(Kept(spans), n) && Disjoint(Kept(spans)) && forall s :: s in Kept(spans) ==> s in spans
    ensures forall d :: d in spans ==> d in Kept(spans) || exists a :: a in Kept(spans) && Covers(a, d)
  {
    assert forall i :: 0 <= i < |spans| ==> spans[i] in spans;
    RemoveOverlapsMeaning(spans);
    var kept := Kept(spans);
    assert forall i :: 0 <= i < |kept| ==> kept[i] in kept;
  }

  lemma {:induction false} KeptFrom(spans: seq<Span>, s: Span)
    requires s in Kept(spans)
    ensures s in spans
  {
    AcceptedFrom(Spans.Sort(spans), -1);
    SortMeaning(spans);
  }

  lemma {:induction false} KeptApart(spans: seq<Span>, n: nat, a: Span, b: Span)
    requires Fit(spans, n) && a in Kept(spans) && b in Kept(spans) && a != b
    ensures a.end <= b.start || b.end <= a.start
  {
    KeptMeaning(spans, n);
    var kept := Kept(spans);
    var i :| 0 <= i < |kept| && kept[i] == a;
    var j :| 0 <= j < |kept| && kept[j] == b;
  }

  // ----- The first of several with one extent -----

  predicate SameExtent(a: Span, b: Span) { a.start == b.start && a.end == b.end }

  function Alike(spans: seq<Span>, s: Span): seq<Span> {
    if spans == [] then []
    else (if SameExtent(spans[0], s) then [spans[0]] else []) + Alike(spans[1..], s)
  }

  lemma {:induction false} AlikeCons(x: Span, rest: seq<Span>, s: Span)
    ensures Alike([x] + rest, s) == (if SameExtent(x, s) then [x] else []) + Alike(rest, s)
  {
    assert ([x] + rest)[1..] == rest;
  }

  lemma {:induction false} AlikeInsert(x: Span, spans: seq<Span>, s: Span)
    ensures Alike(Sorting.Insert(Precedes, x, spans), s) == (if SameExtent(x, s) then [x] else []) + Alike(spans, s)
  {
    AlikeCons(x, spans, s);
    if spans == [] || Precedes(x, spans[0]) {
    } else {
      AlikeInsert(x, spans[1..], s);
      AlikeCons(spans[0], Sorting.Insert(Precedes, x, spans[1..]), s);
    }
  }

  /** Sorting keeps the order of spans with one extent. */
  lemma {:induction false} AlikeSort(spans: seq<Span>, s: Span)
    ensures Alike(Spans.Sort(spans), s) == Alike(spans, s)
  {
    if spans == [] {
    } else {
      AlikeSort(spans[1..], s);
      AlikeInsert(spans[0], Spans.Sort(spans[1..]), s);
    }
  }

  lemma {:induction false} AcceptedIsFirst(sorted: seq<Span>, lastEnd: int, n: nat, s: Span)
    requires Fit(sorted, n) && s in Accepted(sorted, lastEnd)
    ensures Alike(sorted, s) != [] && Alike(sorted, s)[0] == s && s.start >= lastEnd
  {
    var first, rest := sorted[0], sorted[1..];
    assert sorted == [first] + rest && first in sorted;
    AlikeCons(first, rest, s);
    if first.start < lastEnd {
      AcceptedIsFirst(rest, lastEnd, n, s);
    } else if s != first {
      AcceptedIsFirst(rest, first.end, n, s);
    }
  }

  /** Of the spans with one extent only the first found can be kept. */
  lemma {:induction false} KeptIsFirst(spans: seq<Span>, n: nat, s: Span)
    requires Fit(spans, n) && s in Kept(spans)
    ensures Alike(spans, s) != [] && Alike(spans, s)[0] == s
  {
    SortMeaning(spans);
    AcceptedIsFirst(Spans.Sort(spans), -1, n, s);
    AlikeSort(spans, s);
  }

  lemma {:induction false} AlikeAppend(a: seq<Span>, b: seq<Span>, s: Span)
    ensures Alike(a + b, s) == Alike(a, s) + Alike(b, s)
  {
    if a == [] {
      assert a + b == b;
    } else {
      AlikeAppend(a[1..], b, s);
      assert a == [a[0]] + a[1..] && a + b == [a[0]] + (a[1..] + b);
      AlikeCons(a[0], a[1..] + b, s);
    }
  }

  lemma {:induction false} AlikeMember(spans: seq<Span>, s: Span, a: Span)
    ensures a in Alike(spans, s) <==> a in spans && SameExtent(a, s)
  {
    if spans == [] {
    } else {
      AlikeMember(spans[1..], s, a);
      assert spans == [spans[0]] + spans[1..];
    }
  }

  /** Which detector found it first: none before it found anything of that extent. */
  ghost predicate FirstOwner(ds: seq<Detector>, x: Text, s: Span, i: nat) {
    && i < |ds| && s in ds[i](x)
    && forall j, a :: 0 <= j < i && a in ds[j](x) ==> !SameExtent(a, s)
  }

  lemma {:induction false} FirstHasOwner(ds: seq<Detector>, x: Text, s: Span) returns (i: nat)
    requires Alike(All(ds, x), s) != [] && Alike(All(ds, x), s)[0] == s
    ensures FirstOwner(ds, x, s, i)
  {
    var own := Alike(ds[0](x), s);
    AlikeAppend(ds[0](x), All(ds[1..], x), s);
    AlikeMember(ds[0](x), s, s);
    if own != [] {
      assert own[0] == s;
      i := 0;
    } else {
      var k := FirstHasOwner(ds[1..], x, s);
      forall a | a in ds[0](x) ensures !SameExtent(a, s) { AlikeMember(ds[0](x), s, a); }
      assert forall j :: 0 <= j < |ds[1..]| ==> ds[1..][j] == ds[j + 1];
      i := k + 1;
    }
  }

  /** One detector finds at most one span of an extent. */
  lemma {:induction false} OnePerExtent(detect: Detector, x: Text, a: Span, b: Span)
    requires SolidAt(detect, x) && a in detect(x) && b in detect(x) && SameExtent(a, b)
    ensures a == b
  {
    var spans := detect(x);
    var i :| 0 <= i < |spans| && spans[i] == a;
    var j :| 0 <= j < |spans| && spans[j] == b;
  }

  // ----- A part of a text -----

  /** Each detector by itself finds in the part what it found there in the whole. */
  ghost predicate PartKeeps(ds: seq<Detector>, x: Text, y: Text, off: nat) {
    forall i, s :: 0 <= i < |ds| && s in ds[i](x) && off <= s.start <= s.end <= off + |y| ==>
      Rebased(s, off) in ds[i](y)
  }

  /** The match is found in the part only: more text around it forbids it. */
  ghost predicate New(ds: seq<Detector>, x: Text, y: Text, off: nat, a: Span) {
    exists i :: 0 <= i < |ds| && a in ds[i](y) && Moved(a, off) !in ds[i](x)
  }

  /** What is kept of the whole and lies in the part is kept of the part. */
  ghost predicate KeepsPart(ds: seq<Detector>, x: Text, y: Text, off: nat) {
    forall s :: s in Merged(ds)(x) && off <= s.start <= s.end <= off + |y| ==> Rebased(s, off) in Merged(ds)(y)
  }

  /** A match that is new in the part, and kept of it, takes the place of one kept of the whole. */
  ghost predicate Pushes(ds: seq<Detector>, x: Text, y: Text, off: nat, a: Span, s: Span) {
    && a in Merged(ds)(y) && New(ds, x, y, off, a)
    && s in Merged(ds)(x) && off <= s.start <= s.end <= off + |y|
    && Moved(a, off) != s && Covers(Moved(a, off), s)
  }

  lemma {:induction false} PushedOut(ds: seq<Detector>, x: Text, y: Text, off: nat, a: Span, s: Span)
    requires AllSolid(ds) && Pushes(ds, x, y, off, a, s)
    ensures !KeepsPart(ds, x, y, off)
  {
    AllFit(ds, x);
    AllFit(ds, y);
    KeptMeaning(All(ds, x), |x|);
    assert s.start < s.end;
    if Rebased(s, off) in Merged(ds)(y) {
      KeptApart(All(ds, y), |y|, a, Rebased(s, off));
      assert false;
    }
  }

  lemma {:induction false} InPart(ds: seq<Detector>, x: Text, y: Text, off: nat, s: Span)
    requires PartKeeps(ds, x, y, off) && s in All(ds, x) && off <= s.start <= s.end <= off + |y|
    ensures Rebased(s, off) in All(ds, y)
  {
    AllExactly(ds, x, s);
    var i :| 0 <= i < |ds| && s in ds[i](x);
    AllExactly(ds, y, Rebased(s, off));
  }

  lemma {:induction false} NotNew(ds: seq<Detector>, x: Text, y: Text, off: nat, a: Span)
    requires a in All(ds, y) && !New(ds, x, y, off, a)
    ensures Moved(a, off) in All(ds, x)
  {
    AllExactly(ds, y, a);
    var i :| 0 <= i < |ds| && a in ds[i](y);
    AllExactly(ds, x, Moved(a, off));
  }

  /** Of two spans with one extent the part keeps the same as the whole, unless one is new. */
  lemma {:induction false} TieKept(ds: seq<Detector>, x: Text, y: Text, off: nat, a: Span, s: Span)
    requires AllSolid(ds) && PartKeeps(ds, x, y, off)
    requires a in Merged(ds)(y) && !New(ds, x, y, off, a) && s in Merged(ds)(x) && SameExtent(Moved(a, off), s)
    requires off <= s.start <= s.end <= off + |y|
    ensures Moved(a, off) == s
  {
    AllFit(ds, x);
    AllFit(ds, y);
    KeptIsFirst(All(ds, x), |x|, s);
    KeptIsFirst(All(ds, y), |y|, a);
    var i := FirstHasOwner(ds, x, s);
    var j := FirstHasOwner(ds, y, a);
    var s' := Rebased(s, off);
    assert s' in ds[i](y);
    assert Moved(a, off) in ds[j](x) && SameExtent(s', a);
    if j == i {
      assert SolidAt(ds[i], y);
      OnePerExtent(ds[i], y, a, s');
    }
  }

  /** What the part does not keep was pushed out by a new match, perhaps by way of others before it. */
  lemma {:induction false} FindPush(ds: seq<Detector>, x: Text, y: Text, off: nat, s: Span) returns (a: Span,
                                    pushed: Span)
    requires AllSolid(ds) && PartKeeps(ds, x, y, off) && Uncut(Merged(ds)(x), off)
    requires s in Merged(ds)(x) && off <= s.start <= s.end <= off + |y| && Rebased(s, off) !in Merged(ds)(y)
    ensures Pushes(ds, x, y, off, a, pushed)
    decreases s.start
  {
    a := FindCover(ds, x, y, off, s);
    if New(ds, x, y, off, a) {
      pushed := s;
    } else {
      var b := FindEarlier(ds, x, y, off, s, a);
      EarlierFails(ds, x, y, off, s, a, b);
      a, pushed := FindPush(ds, x, y, off, b);
    }
  }

  lemma {:induction false} FindKept(spans: seq<Span>, n: nat, d: Span) returns (a: Span)
    requires Fit(spans, n) && d in spans
    ensures a in Kept(spans) && (a == d || Covers(a, d))
  {
    KeptMeaning(spans, n);
    a :| a in Kept(spans) && (a == d || Covers(a, d));
  }

  /** What is kept in its place. */
  lemma {:induction false} FindCover(ds: seq<Detector>, x: Text, y: Text, off: nat, s: Span) returns (a: Span)
    requires AllSolid(ds) && PartKeeps(ds, x, y, off)
    requires s in Merged(ds)(x) && off <= s.start <= s.end <= off + |y| && Rebased(s, off) !in Merged(ds)(y)
    ensures a in Merged(ds)(y) && Covers(Moved(a, off), s) && Moved(a, off) != s
  {
    AllFit(ds, x);
    AllFit(ds, y);
    KeptMeaning(All(ds, x), |x|);
    InPart(ds, x, y, off, s);
    a := FindKept(All(ds, y), |y|, Rebased(s, off));
  }

  /** If that is not new, the whole kept something before it, and not the one looked for. */
  lemma {:induction false} FindEarlier(ds: seq<Detector>, x: Text, y: Text, off: nat, s: Span, a: Span)
        returns (b: Span)
    requires AllSolid(ds) && PartKeeps(ds, x, y, off) && s in Merged(ds)(x) && off <= s.start <= s.end <= off + |y|
    requires a in Merged(ds)(y) && !New(ds, x, y, off, a) && Covers(Moved(a, off), s) && Moved(a, off) != s
    ensures b in Merged(ds)(x) && b != s && Covers(b, Moved(a, off)) && Moved(a, off) !in Merged(ds)(x)
  {
    AllFit(ds, x);
    AllFit(ds, y);
    KeptMeaning(All(ds, x), |x|);
    KeptMeaning(All(ds, y), |y|);
    NotNew(ds, x, y, off, a);
    if Moved(a, off) in Merged(ds)(x) { KeptApart(All(ds, x), |x|, Moved(a, off), s); }
    b :| b in Merged(ds)(x) && Covers(b, Moved(a, off));
    if b == s { TieKept(ds, x, y, off, a, s); }
  }

  lemma {:induction false} EarlierFails(ds: seq<Detector>, x: Text, y: Text, off: nat, s: Span, a: Span, b: Span)
    requires AllSolid(ds) && Uncut(Merged(ds)(x), off) && s in Merged(ds)(x) && b in Merged(ds)(x) && b != s
    requires off <= s.start <= s.end <= off + |y| && a in Merged(ds)(y) && Moved(a, off) !in Merged(ds)(x)
    requires Covers(Moved(a, off), s) && Covers(b, Moved(a, off))
    ensures off <= b.start < s.start && b.start <= b.end <= off + |y| && Rebased(b, off) !in Merged(ds)(y)
  {
    AllFit(ds, x);
    AllFit(ds, y);
    KeptMeaning(All(ds, x), |x|);
    KeptMeaning(All(ds, y), |y|);
    KeptApart(All(ds, x), |x|, b, s);
    var kept := Merged(ds)(x);
    var k :| 0 <= k < |kept| && kept[k] == b;
    var b' := Rebased(b, off);
    if b' in Merged(ds)(y) && b' != a { KeptApart(All(ds, y), |y|, b', a); }
  }

  /** A part keeps what the whole keeps exactly when no new match pushes one out. */
  lemma {:induction false} PartKeptIff(ds: seq<Detector>, x: Text, y: Text, off: nat)
    requires AllSolid(ds) && PartKeeps(ds, x, y, off) && Uncut(Merged(ds)(x), off)
    ensures KeepsPart(ds, x, y, off) <==> !exists a, s :: Pushes(ds, x, y, off, a, s)
  {
    if a, s :| Pushes(ds, x, y, off, a, s) { PushedOut(ds, x, y, off, a, s); }
    if s :| s in Merged(ds)(x) && off <= s.start <= s.end <= off + |y| && Rebased(s, off) !in Merged(ds)(y) {
      var a, pushed := FindPush(ds, x, y, off, s);
    }
  }

  // ----- More text behind -----

  /** The spans that start by a position. */
  function Early(spans: seq<Span>, k: nat): seq<Span> {
    if spans == [] then [] else (if spans[0].start <= k then [spans[0]] else []) + Early(spans[1..], k)
  }

  lemma {:induction false} EarlyCons(x: Span, rest: seq<Span>, k: nat)
    ensures Early([x] + rest, k) == (if x.start <= k then [x] else []) + Early(rest, k)
  {
    assert ([x] + rest)[1..] == rest;
  }

  lemma {:induction false} EarlyMember(spans: seq<Span>, k: nat, s: Span)
    ensures s in Early(spans, k) <==> s in spans && s.start <= k
  {
    if spans == [] {
    } else {
      EarlyMember(spans[1..], k, s);
      assert spans == [spans[0]] + spans[1..];
    }
  }

  lemma {:induction false} EarlyAppend(a: seq<Span>, b: seq<Span>, k: nat)
    ensures Early(a + b, k) == Early(a, k) + Early(b, k)
  {
    if a == [] {
      assert a + b == b;
    } else {
      EarlyAppend(a[1..], b, k);
      assert a == [a[0]] + a[1..] && a + b == [a[0]] + (a[1..] + b);
      EarlyCons(a[0], a[1..] + b, k);
    }
  }

  lemma {:induction false} InsertFirst(x: Span, spans: seq<Span>)
    requires forall s :: s in spans ==> Precedes(x, s)
    ensures Sorting.Insert(Precedes, x, spans) == [x] + spans
  {
    if spans != [] { assert spans[0] in spans; }
  }

  lemma {:induction false} EarlyInsert(x: Span, spans: seq<Span>, k: nat)
    requires Sorted(spans)
    ensures Early(Sorting.Insert(Precedes, x, spans), k)
         == if x.start <= k then Sorting.Insert(Precedes, x, Early(spans, k)) else Early(spans, k)
  {
    EarlyCons(x, spans, k);
    if spans == [] || Precedes(x, spans[0]) {
      forall s | s in Early(spans, k) ensures Precedes(x, s) {
        EarlyMember(spans, k, s);
        var i :| 0 <= i < |spans| && spans[i] == s;
      }
      InsertFirst(x, Early(spans, k));
    } else {
      var first, rest := spans[0], spans[1..];
      assert spans == [first] + rest;
      EarlyInsert(x, rest, k);
      EarlyCons(first, rest, k);
      EarlyCons(first, Sorting.Insert(Precedes, x, rest), k);
      Sorting.InsertCons(Precedes, x, first, Early(rest, k));
    }
  }

  lemma {:induction false} EarlySort(spans: seq<Span>, k: nat)
    ensures Early(Spans.Sort(spans), k) == Spans.Sort(Early(spans, k))
  {
    if spans == [] {
    } else {
      var first, rest := spans[0], spans[1..];
      assert spans == [first] + rest;
      EarlyCons(first, rest, k);
      SortCons(first, rest);
      EarlySort(rest, k);
      SortMeaning(rest);
      EarlyInsert(first, Spans.Sort(rest), k);
      if first.start <= k { SortCons(first, Early(rest, k)); }
      assert first.start > k ==> Early(spans, k) == Early(rest, k);
    }
  }

  lemma {:induction false} SortCons(x: Span, spans: seq<Span>)
    ensures Spans.Sort([x] + spans) == Sorting.Insert(Precedes, x, Spans.Sort(spans))
  {
    assert ([x] + spans)[1..] == spans;
  }

  lemma {:induction false} EarlyNone(spans: seq<Span>, k: nat)
    requires forall s :: s in spans ==> s.start > k
    ensures Early(spans, k) == []
  {
    if spans == [] {
    } else {
      EarlyNone(spans[1..], k);
      assert spans[0] in spans;
    }
  }

  lemma {:induction false} AcceptedFrom(sorted: seq<Span>, lastEnd: int)
    ensures forall s :: s in Accepted(sorted, lastEnd) ==> s in sorted
  {
    if sorted == [] {
    } else {
      AcceptedFrom(sorted[1..], if sorted[0].start < lastEnd then lastEnd else sorted[0].end);
      assert sorted == [sorted[0]] + sorted[1..];
    }
  }

  lemma {:induction false} EarlyAccepted(sorted: seq<Span>, lastEnd: int, k: nat)
    requires Sorted(sorted)
    ensures Early(Accepted(sorted, lastEnd), k) == Accepted(Early(sorted, k), lastEnd)
  {
    if sorted == [] {
    } else {
      var first, rest := sorted[0], sorted[1..];
      assert sorted == [first] + rest;
      EarlyCons(first, rest, k);
      if first.start > k {
        AcceptedFrom(sorted, lastEnd);
        assert forall i :: 0 <= i < |sorted| ==> sorted[i].start >= first.start;
        EarlyNone(sorted, k);
        EarlyNone(Accepted(sorted, lastEnd), k);
      } else if first.start < lastEnd {
        EarlyAccepted(rest, lastEnd, k);
        AcceptedSkips(first, Early(rest, k), lastEnd);
      } else {
        EarlyAccepted(rest, first.end, k);
        EarlyCons(first, Accepted(rest, first.end), k);
        AcceptedTakes(first, Early(rest, k), lastEnd);
      }
    }
  }

  lemma {:induction false} AcceptedSkips(first: Span, rest: seq<Span>, lastEnd: int)
    requires first.start < lastEnd
    ensures Accepted([first] + rest, lastEnd) == Accepted(rest, lastEnd)
  {
    assert ([first] + rest)[1..] == rest;
  }

  lemma {:induction false} AcceptedTakes(first: Span, rest: seq<Span>, lastEnd: int)
    requires first.start >= lastEnd
    ensures Accepted([first] + rest, lastEnd) == [first] + Accepted(rest, first.end)
  {
    assert ([first] + rest)[1..] == rest;
  }

  /** What is kept early on depends on the early spans only. */
  lemma {:induction false} EarlyKept(spans: seq<Span>, k: nat)
    ensures Early(Kept(spans), k) == Kept(Early(spans, k))
  {
    SortMeaning(spans);
    EarlyAccepted(Spans.Sort(spans), -1, k);
    EarlySort(spans, k);
  }

  lemma {:induction false} EarlySolid(spans: seq<Span>, from: nat, n: nat, k: nat)
    requires SolidSpans(spans, from, n)
    ensures SolidSpans(Early(spans, k), from, n)
  {
    if spans == [] {
    } else {
      var s, rest := spans[0], spans[1..];
      assert spans == [s] + rest;
      SolidTail(s, rest, from, n);
      EarlySolid(rest, s.end, n, k);
      if s.start <= k {
        SolidCons(s, Early(rest, k), from, n);
      } else {
        SolidFrom(Early(rest, k), from, s.end, n);
      }
    }
  }

  /** Ordered spans are determined by which they are. */
  lemma {:induction false} SolidSame(a: seq<Span>, b: seq<Span>, from: nat, n: nat)
    requires SolidSpans(a, from, n) && SolidSpans(b, from, n) && SameElements(a, b)
    ensures a == b
  {
    if a == [] {
      NoElements(b);
    } else {
      SolidHeads(a, b, from, n);
      var s, rest, rest' := a[0], a[1..], b[1..];
      assert a == [s] + rest && b == [s] + rest';
      SolidTail(s, rest, from, n);
      SolidTail(s, rest', from, n);
      forall x ensures x in rest <==> x in rest' {
        assert x in a <==> x == s || x in rest;
        assert x in b <==> x == s || x in rest';
      }
      SolidSame(rest, rest', s.end, n);
    }
  }

  lemma {:induction false} SomeElement<T>(xs: seq<T>) returns (x: T)
    requires xs != []
    ensures x in xs
  {
    x := xs[0];
  }

  lemma {:induction false} NoElements<T(!new)>(xs: seq<T>)
    requires forall x :: x !in xs
    ensures xs == []
  {
    if xs != [] {
      var x := SomeElement(xs);
      assert false;
    }
  }

  lemma {:induction false} SolidHeads(a: seq<Span>, b: seq<Span>, from: nat, n: nat)
    requires SolidSpans(a, from, n) && SolidSpans(b, from, n) && SameElements(a, b) && a != []
    ensures b != [] && a[0] == b[0]
  {
    assert a[0] in b;
    assert b[0] in a;
    var i :| 0 <= i < |b| && b[i] == a[0];
    var j :| 0 <= j < |a| && a[j] == b[0];
    assert a[0].start < a[0].end && b[0].start < b[0].end;
  }

  lemma {:induction false} DetectorEarly(detect: Detector, m: nat, x: Text, y: Text, k: nat)
    requires Solid(detect) && Local(detect, m) && k + m < |x|
    ensures Early(detect(x + y), k) == Early(detect(x), k)
  {
    var a, b := Early(detect(x + y), k), Early(detect(x), k);
    assert SolidAt(detect, x) && SolidAt(detect, x + y) && LocalAt(detect, m, x, y);
    EarlySolid(detect(x), 0, |x|, k);
    EarlySolid(detect(x + y), 0, |x + y|, k);
    forall s ensures s in a <==> s in b {
      EarlyMember(detect(x), k, s);
      EarlyMember(detect(x + y), k, s);
    }
    SolidSame(a, b, 0, |x + y|);
  }

  ghost predicate AllLocal(ds: seq<Detector>, m: nat) {
    forall i :: 0 <= i < |ds| ==> Local(ds[i], m)
  }

  lemma {:induction false} AllEarly(ds: seq<Detector>, m: nat, x: Text, y: Text, k: nat)
    requires AllSolid(ds) && AllLocal(ds, m) && k + m < |x|
    ensures Early(All(ds, x + y), k) == Early(All(ds, x), k)
  {
    if ds == [] {
    } else {
      assert forall i :: 0 <= i < |ds[1..]| ==> ds[1..][i] == ds[i + 1];
      AllEarly(ds[1..], m, x, y, k);
      DetectorEarly(ds[0], m, x, y, k);
      EarlyAppend(ds[0](x), All(ds[1..], x), k);
      EarlyAppend(ds[0](x + y), All(ds[1..], x + y), k);
    }
  }

  /** Merging keeps the hold-back long enough. */
  lemma {:induction false} MergedLocal(ds: seq<Detector>, m: nat)
    requires AllSolid(ds) && AllLocal(ds, m)
    ensures Local(Merged(ds), m)
  {
    forall x ensures ProperAt(Merged(ds), x) {
      AllFit(ds, x);
      KeptMeaning(All(ds, x), |x|);
    }
    forall x, y ensures LocalAt(Merged(ds), m, x, y) {
      forall s: Span | s.start + m < |x| ensures s in Merged(ds)(x + y) <==> s in Merged(ds)(x) {
        MergedEarly(ds, m, x, y, s);
      }
    }
  }

  lemma {:induction false} MergedEarly(ds: seq<Detector>, m: nat, x: Text, y: Text, s: Span)
    requires AllSolid(ds) && AllLocal(ds, m) && s.start + m < |x|
    ensures s in Merged(ds)(x + y) <==> s in Merged(ds)(x)
  {
    AllEarly(ds, m, x, y, s.start);
    EarlyKept(All(ds, x), s.start);
    EarlyKept(All(ds, x + y), s.start);
    EarlyMember(Kept(All(ds, x)), s.start, s);
    EarlyMember(Kept(All(ds, x + y)), s.start, s);
  }

  // ----- When merging loses no match -----

  ghost predicate AllKeepHalves(ds: seq<Detector>) {
    forall i :: 0 <= i < |ds| ==> AllHalvesKeep(ds[i])
  }

  /** A cut between what is kept makes a new match push out one of those. */
  ghost predicate PushesAcross(ds: seq<Detector>, h: Text, t: Text) {
    && Uncut(Merged(ds)(h + t), |h|)
    && ((exists a, s :: Pushes(ds, h + t, h, 0, a, s)) || (exists a, s :: Pushes(ds, h + t, t, |h|, a, s)))
  }

  lemma {:induction false} HalvesArePart(ds: seq<Detector>, h: Text, t: Text)
    requires AllKeepHalves(ds)
    ensures PartKeeps(ds, h + t, h, 0) && PartKeeps(ds, h + t, t, |h|)
  {
    forall i, s | 0 <= i < |ds| && s in ds[i](h + t)
      ensures s.start <= s.end <= |h| ==> Rebased(s, 0) in ds[i](h)
      ensures |h| <= s.start <= s.end ==> Rebased(s, |h|) in ds[i](t)
    {
      assert AllHalvesKeep(ds[i]) && HalvesKeep(ds[i], h, t);
      assert Rebased(s, 0) == s;
    }
  }

  lemma {:induction false} MergedKeptIff(ds: seq<Detector>, h: Text, t: Text)
    requires AllSolid(ds) && AllKeepHalves(ds)
    ensures KeptAt(Merged(ds), h + t, |h|) <==> !PushesAcross(ds, h, t)
  {
    var x := h + t;
    if Uncut(Merged(ds)(x), |h|) {
      HalvesArePart(ds, h, t);
      AllFit(ds, x);
      KeptMeaning(All(ds, x), |x|);
      KeptStarts(ds, x);
      PartKeptIff(ds, x, h, 0);
      PartKeptIff(ds, x, t, |h|);
      PartsAreKept(ds, h, t);
    }
  }

  lemma {:induction false} KeptStarts(ds: seq<Detector>, x: Text)
    ensures Uncut(Merged(ds)(x), 0)
  {
  }

  lemma {:induction false} PartsAreKept(ds: seq<Detector>, h: Text, t: Text)
    requires AllSolid(ds) && Uncut(Merged(ds)(h + t), |h|)
    ensures KeptAt(Merged(ds), h + t, |h|) <==> KeepsPart(ds, h + t, h, 0) && KeepsPart(ds, h + t, t, |h|)
  {
    var x, c := h + t, |h|;
    assert x[..c] == h && x[c..] == t;
    AllFit(ds, x);
    KeptMeaning(All(ds, x), |x|);
    var kept := Merged(ds)(x);
    forall s | s in kept ensures s.start < s.end <= |x| && (s.end <= c || c <= s.start) {
      var i :| 0 <= i < |kept| && kept[i] == s;
    }
    assert forall s: Span {:trigger Rebased(s, 0)} :: Rebased(s, 0) == s;
  }

  /**
   Detectors that lose no match each by itself lose none together exactly when no
   cut between what is kept makes a new match push one out.
   */
  lemma {:induction false} MergingExact(ds: seq<Detector>, m: nat)
    requires AllSolid(ds) && AllLocal(ds, m) && AllKeepHalves(ds)
    ensures Guarded(Merged(ds), m) <==> forall h, t :: !PushesAcross(ds, h, t)
  {
    MergedLocal(ds, m);
    NothingInNothing(ds);
    if Guarded(Merged(ds), m) {
      forall h, t ensures !PushesAcross(ds, h, t) {
        assert KeptAt(Merged(ds), h + t, |h|);
        MergedKeptIff(ds, h, t);
      }
    }
    if forall h, t :: !PushesAcross(ds, h, t) {
      forall x, c: nat ensures KeptAt(Merged(ds), x, c) {
        if c <= |x| {
          assert x == x[..c] + x[c..] && !PushesAcross(ds, x[..c], x[c..]);
          MergedKeptIff(ds, x[..c], x[c..]);
        }
      }
    }
  }

  lemma {:induction false} NothingInNothing(ds: seq<Detector>)
    requires AllSolid(ds)
    ensures Merged(ds)([]) == []
  {
    var none: Text := [];
    AllFit(ds, none);
    KeptMeaning(All(ds, none), |none|);
    NoElements(Merged(ds)(none));
  }

  // ----- Rules together -----

  ghost function Finders(rules: seq<Rule>): seq<Detector> {
    seq(|rules|, i requires 0 <= i < |rules| => Finder(rules[i]))
  }

  /** What the filter engine finds: the matches of all rules, overlaps removed. */
  ghost function Together(rules: seq<Rule>): Detector { Merged(Finders(rules)) }

  lemma {:induction false} TogetherSolid(rules: seq<Rule>)
    ensures Solid(Together(rules))
  {
    var ds := Finders(rules);
    forall i | 0 <= i < |ds| ensures Solid(ds[i]) { FinderSolid(rules[i]); }
    forall x ensures SolidAt(Together(rules), x) {
      AllFit(ds, x);
      KeptMeaning(All(ds, x), |x|);
    }
  }

  /** For any rules together it is decided by what is committed whether streaming is one-shot protection. */
  lemma {:induction false} TogetherExact(e: Engine, rules: seq<Rule>)
    requires e.detect == Together(rules)
    ensures AlwaysOneShot(e) <==> CommitsSplit(e)
  {
    TogetherSolid(rules);
    OneShotExact(e);
  }

  /** A match only with less text around it. */
  ghost predicate OnlyLoose(r: Rule, x: Text, a: Span) {
    LooseSpan(r, x, a) && Len(r, x, a.start) != a.end - a.start
  }

  /** No match that is one only with less text around it covers one that is kept. */
  ghost predicate Clear(rules: seq<Rule>) {
    forall x: Text, q: nat, a: Span, s: Span {:trigger OnlyLoose(rules[q], x, a), s in Together(rules)(x)} ::
      q < |rules| && OnlyLoose(rules[q], x, a) && s in Together(rules)(x) ==> !Covers(a, s)
  }

  ghost predicate Careful(r: Rule, m: nat) {
    r.reach <= m + 1 && Forbids(r) && Apart(r)
  }

  lemma {:induction false} FindersFit(rules: seq<Rule>, m: nat)
    requires forall i :: 0 <= i < |rules| ==> Careful(rules[i], m)
    ensures AllSolid(Finders(rules)) && AllLocal(Finders(rules), m) && AllKeepHalves(Finders(rules))
  {
    forall i | 0 <= i < |rules|
      ensures Solid(Finder(rules[i])) && Local(Finder(rules[i]), m) && AllHalvesKeep(Finder(rules[i]))
    {
      FinderSolid(rules[i]);
      FinderLocal(rules[i], m);
      FinderHalves(rules[i]);
    }
  }

  /** A valid match of a rule with the text around it, or with less of it. */
  ghost predicate LooseSpan(r: Rule, x: Text, a: Span) {
    && a.kind == r.kind && a.start < a.end <= |x| && r.valid(Slice(x, a.start, a.end))
    && Loose(r, x, a.start, a.end - a.start)
  }

  lemma {:induction false} LooseBeyond(r: Rule, h: Text, t: Text, a: Span)
    requires IsMatch(r, h, a)
    ensures LooseSpan(r, h + t, a)
  {
    LooseInHead(r, h, t, a.start, a.end - a.start);
    SliceHead(h, t, a.start, a.end);
  }

  lemma {:induction false} LooseBehind(r: Rule, h: Text, t: Text, a: Span, a': Span)
    requires IsMatch(r, t, a) && a' == Moved(a, |h|)
    ensures LooseSpan(r, h + t, a')
  {
    LooseInTail(r, h, t, a.start, a'.start, a'.end - a'.start);
    SliceTail(h, t, a.start, a.end);
  }

  /** What a rule finds in the first part of a text and not in the whole is a match there only with less around it. */
  lemma {:induction false} NewInHead(r: Rule, h: Text, t: Text, a: Span)
    requires Apart(r) && a in Finder(r)(h) && a !in Finder(r)(h + t)
    ensures OnlyLoose(r, h + t, a)
  {
    FoundIs(r, h, a);
    LooseBeyond(r, h, t, a);
    NotFoundLoose(r, h + t, a);
  }

  lemma {:induction false} NewInTail(r: Rule, h: Text, t: Text, a: Span, a': Span)
    requires Apart(r) && a in Finder(r)(t) && a' == Moved(a, |h|) && a' !in Finder(r)(h + t)
    ensures OnlyLoose(r, h + t, a')
  {
    FoundIs(r, t, a);
    LooseBehind(r, h, t, a, a');
    NotFoundLoose(r, h + t, a');
  }

  lemma {:induction false} NotFoundLoose(r: Rule, x: Text, a: Span)
    requires Apart(r) && LooseSpan(r, x, a) && a !in Finder(r)(x)
    ensures OnlyLoose(r, x, a)
  {
    if Len(r, x, a.start) == a.end - a.start { FoundWhole(r, x, a); }
  }

  /** A valid match is found, since no other of its rule reaches over its start. */
  lemma {:induction false} FoundWhole(r: Rule, x: Text, s: Span)
    requires Apart(r) && IsMatch(r, x, s)
    ensures s in Finder(r)(x)
  {
    forall i: nat | i < s.start ensures i + Len(r, x, i) <= s.start {
      if Len(r, x, i) > 0 { LenIsLoose(r, x, i); }
    }
    MatchFound(r, x, 0, s.start);
    ValidFound(r, x, s);
  }

  lemma {:induction false} NoPush(rules: seq<Rule>, m: nat, h: Text, t: Text)
    requires (forall i :: 0 <= i < |rules| ==> Careful(rules[i], m)) && Clear(rules)
    ensures !PushesAcross(Finders(rules), h, t)
  {
    forall a, s ensures !Pushes(Finders(rules), h + t, h, 0, a, s) { NoPushInHead(rules, m, h, t, a, s); }
    forall a, s ensures !Pushes(Finders(rules), h + t, t, |h|, a, s) { NoPushInTail(rules, m, h, t, a, s); }
  }

  lemma {:induction false} NotCovered(rules: seq<Rule>, x: Text, q: nat, a: Span, s: Span)
    requires Clear(rules) && q < |rules| && OnlyLoose(rules[q], x, a) && s in Together(rules)(x)
    ensures !Covers(a, s)
  {
  }

  lemma {:induction false} NoPushInHead(rules: seq<Rule>, m: nat, h: Text, t: Text, a: Span, s: Span)
    requires (forall i :: 0 <= i < |rules| ==> Careful(rules[i], m)) && Clear(rules)
    ensures !Pushes(Finders(rules), h + t, h, 0, a, s)
  {
    var ds := Finders(rules);
    if Pushes(ds, h + t, h, 0, a, s) {
      var i := Finds(ds, h + t, h, 0, a);
      assert Careful(rules[i], m) && Moved(a, 0) == a;
      NewInHead(rules[i], h, t, a);
      NotCovered(rules, h + t, i, a, s);
      assert false;
    }
  }

  lemma {:induction false} Finds(ds: seq<Detector>, x: Text, y: Text, off: nat, a: Span) returns (i: nat)
    requires New(ds, x, y, off, a)
    ensures i < |ds| && a in ds[i](y) && Moved(a, off) !in ds[i](x)
  {
    i :| 0 <= i < |ds| && a in ds[i](y) && Moved(a, off) !in ds[i](x);
  }

  lemma {:induction false} NoPushInTail(rules: seq<Rule>, m: nat, h: Text, t: Text, a: Span, s: Span)
    requires (forall i :: 0 <= i < |rules| ==> Careful(rules[i], m)) && Clear(rules)
    ensures !Pushes(Finders(rules), h + t, t, |h|, a, s)
  {
    var ds := Finders(rules);
    if Pushes(ds, h + t, t, |h|, a, s) {
      var i := Finds(ds, h + t, t, |h|, a);
      assert Careful(rules[i], m);
      NewInTail(rules[i], h, t, a, Moved(a, |h|));
      NotCovered(rules, h + t, i, Moved(a, |h|), s);
      assert false;
    }
  }

  /**
   Rules whose context only forbids, and whose matches stand apart, lose no match by
   a cut when none that a cut lets match covers one that is kept: then a stream
   blocks and hides all that one-shot protection does.
   */
  lemma {:induction false} ForbiddingGuarded(rules: seq<Rule>, m: nat)
    requires (forall i :: 0 <= i < |rules| ==> Careful(rules[i], m)) && Clear(rules)
    ensures Guarded(Together(rules), m)
  {
    FindersFit(rules, m);
    forall h, t ensures !PushesAcross(Finders(rules), h, t) { NoPush(rules, m, h, t); }
    MergingExact(Finders(rules), m);
  }
}
