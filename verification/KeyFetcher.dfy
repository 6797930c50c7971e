/**
 The guarded key-material fetcher: a cached document with a time to live, one
 shared fetch in flight, and a cooldown between outbound fetches.
 */
module KeyFetcher {
  import opened Options

  type Doc = string

  datatype Config = Config(ttlMs: int, cooldownMs: int)

  datatype Cached = Cached(doc: Doc, fetchedAt: int)

  /** `lastAttempt` is None before the first fetch. */
  datatype State = State(cache: Option<Cached>, lastAttempt: Option<int>, inflight: bool)

  const START := State(None, None, false)

  /** What a call of `get` does: serve a document, wait for the shared fetch (which it may have started), or fail. */
  datatype Reply = Serve(doc: Doc) | Join | Launch | CoolingDown

  datatype Event = Get(t: int) | Succeed(t: int, doc: Doc) | Fail(t: int)

  predicate InCooldown(cfg: Config, s: State, t: int) {
    s.lastAttempt.Some? && t - s.lastAttempt.value < cfg.cooldownMs
  }

  function ReplyTo(cfg: Config, s: State, t: int): Reply {
    if s.cache.Some? && t - s.cache.value.fetchedAt < cfg.ttlMs then Serve(s.cache.value.doc)
    else if s.inflight then Join
    else if !InCooldown(cfg, s, t) then Launch
    else if s.cache.Some? then Serve(s.cache.value.doc)
    else CoolingDown
  }

  function Step(cfg: Config, s: State, e: Event): State {
    match e
    case Get(t) => if ReplyTo(cfg, s, t) == Launch then s.(lastAttempt := Some(t), inflight := true) else s
    case Succeed(t, doc) => s.(cache := Some(Cached(doc, t)), inflight := false)
    case Fail(_) => s.(inflight := false)
  }

  class Fetcher {
    const cfg: Config
    var cache: Option<Doc>
    var fetchedAt: int
    var lastAttemptAt: Option<int>
    var inflight: bool

    function Current(): State
      reads this
    {
      State(if cache.Some? then Some(Cached(cache.value, fetchedAt)) else None, lastAttemptAt, inflight)
    }

    constructor (cfg: Config)
      ensures this.cfg == cfg && Current() == START
    {
      this.cfg := cfg;
      cache, fetchedAt, lastAttemptAt, inflight := None, 0, None, false;
    }

    method Get(t: int) returns (reply: Reply)
      modifies this
      ensures reply == ReplyTo(cfg, old(Current()), t)
      ensures Current() == Step(cfg, old(Current()), Event.Get(t))
    {
      if cache.Some? && t - fetchedAt < cfg.ttlMs { return Serve(cache.value); }
      if inflight { return Join; }
      if lastAttemptAt.Some? && t - lastAttemptAt.value < cfg.cooldownMs {
        if cache.Some? { return Serve(cache.value); }
        return CoolingDown;
      }
      lastAttemptAt, inflight := Some(t), true;
      return Launch;
    }

    method Fulfilled(t: int, text: Doc)
      modifies this
      ensures Current() == Step(cfg, old(Current()), Succeed(t, text))
    {
      cache, fetchedAt, inflight := Some(text), t, false;
    }

    method Rejected(t: int)
      modifies this
      ensures Current() == Step(cfg, old(Current()), Fail(t))
    {
      inflight := false;
    }
  }

  // ----- Runs -----

  ghost function StateAfter(cfg: Config, run: seq<Event>): State {
    if run == [] then START else Step(cfg, StateAfter(cfg, run[..|run| - 1]), run[|run| - 1])
  }

  /** The clock does not go back, and a fetch ends only while one is in flight. */
  ghost predicate IsRun(cfg: Config, run: seq<Event>) {
    && (forall i, j :: 0 <= i <= j < |run| ==> run[i].t <= run[j].t)
    && forall i :: 0 <= i < |run| && !run[i].Get? ==> StateAfter(cfg, run[..i]).inflight
  }

  lemma {:induction false} RunPrefix(cfg: Config, run: seq<Event>, n: nat)
    requires IsRun(cfg, run) && n <= |run|
    ensures IsRun(cfg, run[..n])
  {
    forall i | 0 <= i < n && !run[..n][i].Get? ensures StateAfter(cfg, run[..n][..i]).inflight {
      assert run[..n][..i] == run[..i];
    }
  }

  /** Event i is a `get` that starts an outbound fetch. */
  ghost predicate Launches(cfg: Config, run: seq<Event>, i: nat)
    requires i < |run|
  {
    run[i].Get? && ReplyTo(cfg, StateAfter(cfg, run[..i]), run[i].t) == Launch
  }

  // ----- Outbound fetches -----

  ghost predicate LastLaunch(cfg: Config, run: seq<Event>, i: nat) {
    && i < |run| && Launches(cfg, run, i)
    && forall j :: i < j < |run| ==> !Launches(cfg, run, j)
  }

  lemma {:induction false} SameLaunches(cfg: Config, run: seq<Event>, before: seq<Event>, e: Event, i: nat)
    requires run == before + [e] && i < |before|
    ensures Launches(cfg, before, i) <==> Launches(cfg, run, i)
  {
    assert before[..i] == run[..i];
  }

  /** `lastAttempt` is the time of the latest launch, and is absent before the first. */
  ghost predicate AttemptKnown(cfg: Config, run: seq<Event>) {
    var s := StateAfter(cfg, run);
    if s.lastAttempt.None? then forall i :: 0 <= i < |run| ==> !Launches(cfg, run, i)
    else exists i: nat :: LastLaunch(cfg, run, i) && run[i].t == s.lastAttempt.value
  }

  lemma {:induction false} AttemptIsLastLaunch(cfg: Config, run: seq<Event>)
    ensures AttemptKnown(cfg, run)
  {
    if run == [] {
      assert StateAfter(cfg, run) == START;
    } else {
      var n := |run| - 1;
      AttemptIsLastLaunch(cfg, run[..n]);
      if Launches(cfg, run, n) {
        assert LastLaunch(cfg, run, n);
      } else {
        AttemptKept(cfg, run, run[..n], run[n]);
      }
    }
  }

  lemma {:induction false} AttemptKept(cfg: Config, run: seq<Event>, before: seq<Event>, e: Event)
    requires run == before + [e] && run[..|before|] == before && !Launches(cfg, run, |before|)
      && AttemptKnown(cfg, before)
    ensures AttemptKnown(cfg, run)
  {
    forall i: nat | i < |before| ensures Launches(cfg, before, i) <==> Launches(cfg, run, i) {
      SameLaunches(cfg, run, before, e, i);
    }
    if StateAfter(cfg, before).lastAttempt.Some? {
      var i: nat :| LastLaunch(cfg, before, i) && before[i].t == StateAfter(cfg, before).lastAttempt.value;
      assert LastLaunch(cfg, run, i);
    }
  }

  /** Outbound fetches start at least `cooldownMs` apart, whether or not they succeed. */
  lemma {:induction false} FetchesSpaced(cfg: Config, run: seq<Event>, i: nat, j: nat)
    requires IsRun(cfg, run) && i < j < |run| && Launches(cfg, run, i) && Launches(cfg, run, j)
    ensures run[j].t - run[i].t >= cfg.cooldownMs
  {
    var before := run[..j];
    AttemptIsLastLaunch(cfg, before);
    assert before[..i] == run[..i];
    assert Launches(cfg, before, i);
    var k: nat :| LastLaunch(cfg, before, k) && before[k].t == StateAfter(cfg, before).lastAttempt.value;
    assert i <= k;
  }

  ghost function LaunchCount(cfg: Config, run: seq<Event>, from: nat, n: nat): nat
    requires from <= n <= |run|
    decreases n
  {
    if n == from then 0 else LaunchCount(cfg, run, from, n - 1) + if Launches(cfg, run, n - 1) then 1 else 0
  }

  /** `count` fetches, each a cooldown after the one before, fit into `span`. */
  ghost predicate Fits(cfg: Config, count: int, span: int) {
    (count - 1) * cfg.cooldownMs <= span
  }

  lemma {:induction false} OneMoreFits(cfg: Config, count: int, span: int, more: int)
    requires Fits(cfg, count, span) && more >= cfg.cooldownMs
    ensures Fits(cfg, count + 1, span + more)
  {
    assert count * cfg.cooldownMs == (count - 1) * cfg.cooldownMs + cfg.cooldownMs;
  }

  lemma {:induction false} CountedLaunches(cfg: Config, run: seq<Event>, from: nat, n: nat) returns (last: nat)
    requires IsRun(cfg, run) && from <= n <= |run| && LaunchCount(cfg, run, from, n) > 0
    ensures from <= last < n && Launches(cfg, run, last)
    ensures Fits(cfg, LaunchCount(cfg, run, from, n), run[last].t - run[from].t)
    decreases n
  {
    var before := LaunchCount(cfg, run, from, n - 1);
    if !Launches(cfg, run, n - 1) {
      last := CountedLaunches(cfg, run, from, n - 1);
    } else {
      last := n - 1;
      if before == 0 {
        assert Fits(cfg, 1, 0);
      } else {
        var i := CountedLaunches(cfg, run, from, n - 1);
        FetchesSpaced(cfg, run, i, n - 1);
        OneMoreFits(cfg, before, run[i].t - run[from].t, run[n - 1].t - run[i].t);
      }
    }
  }

  /** However many calls arrive, n outbound fetches take at least (n - 1) cooldowns. */
  lemma {:induction false} FetchRate(cfg: Config, run: seq<Event>, from: nat, to: nat)
    requires IsRun(cfg, run) && from <= to < |run| && LaunchCount(cfg, run, from, to + 1) > 0
    ensures (LaunchCount(cfg, run, from, to + 1) - 1) * cfg.cooldownMs <= run[to].t - run[from].t
  {
    var last := CountedLaunches(cfg, run, from, to + 1);
    assert run[last].t <= run[to].t;
  }

  ghost function Ended(run: seq<Event>): nat {
    if run == [] then 0 else Ended(run[..|run| - 1]) + if run[|run| - 1].Get? then 0 else 1
  }

  /** At any moment the fetches started exceed those ended by one or none. */
  lemma {:induction false} OneInFlight(cfg: Config, run: seq<Event>)
    requires IsRun(cfg, run)
    ensures LaunchCount(cfg, run, 0, |run|) == Ended(run) + if StateAfter(cfg, run).inflight then 1 else 0
  {
    if run == [] {
    } else {
      var n := |run| - 1;
      RunPrefix(cfg, run, n);
      OneInFlight(cfg, run[..n]);
      CountPrefix(cfg, run, n, n);
    }
  }

  lemma {:induction false} CountPrefix(cfg: Config, run: seq<Event>, m: nat, n: nat)
    requires n <= m <= |run|
    ensures LaunchCount(cfg, run[..m], 0, n) == LaunchCount(cfg, run, 0, n)
  {
    if n == 0 {
    } else {
      CountPrefix(cfg, run, m, n - 1);
      assert run[..m][..n - 1] == run[..n - 1];
    }
  }

  // ----- Age of what is served -----

  ghost predicate LastSuccess(run: seq<Event>, i: nat) {
    && i < |run| && run[i].Succeed?
    && forall j :: i < j < |run| ==> !run[j].Succeed?
  }

  /** No fetch failed after event i. */
  ghost predicate NoFailureSince(run: seq<Event>, i: nat) {
    forall j :: i < j < |run| ==> !run[j].Fail?
  }

  ghost predicate CacheIs(cfg: Config, run: seq<Event>, i: nat) {
    var s := StateAfter(cfg, run);
    && LastSuccess(run, i) && s.cache == Some(Cached(run[i].doc, run[i].t))
    && (NoFailureSince(run, i) && !s.inflight && s.lastAttempt.Some? ==> s.lastAttempt.value <= run[i].t)
  }

  /** The cache holds the latest success, if there is one. */
  ghost predicate CacheKnown(cfg: Config, run: seq<Event>) {
    if StateAfter(cfg, run).cache.Some? then exists i: nat :: CacheIs(cfg, run, i)
    else forall i :: 0 <= i < |run| ==> !run[i].Succeed?
  }

  lemma {:induction false} CacheIsLastSuccess(cfg: Config, run: seq<Event>)
    requires IsRun(cfg, run)
    ensures CacheKnown(cfg, run)
  {
    if run == [] {
      assert StateAfter(cfg, run) == START;
    } else {
      var n := |run| - 1;
      var before, e := run[..n], run[n];
      RunPrefix(cfg, run, n);
      CacheIsLastSuccess(cfg, before);
      assert StateAfter(cfg, run) == Step(cfg, StateAfter(cfg, before), e);
      if e.Succeed? {
        AttemptNotLater(cfg, before, e.t);
        assert CacheIs(cfg, run, n);
      } else if StateAfter(cfg, before).cache.Some? {
        var i: nat :| CacheIs(cfg, before, i);
        CacheKept(cfg, run, before, e, i);
      }
    }
  }

  lemma {:induction false} AttemptNotLater(cfg: Config, run: seq<Event>, t: int)
    requires forall i :: 0 <= i < |run| ==> run[i].t <= t
    ensures StateAfter(cfg, run).lastAttempt.Some? ==> StateAfter(cfg, run).lastAttempt.value <= t
  {
    AttemptIsLastLaunch(cfg, run);
  }

  lemma {:induction false} CacheKept(cfg: Config, run: seq<Event>, before: seq<Event>, e: Event, i: nat)
    requires run == before + [e] && CacheIs(cfg, before, i) && !e.Succeed?
    requires StateAfter(cfg, run) == Step(cfg, StateAfter(cfg, before), e)
    ensures CacheIs(cfg, run, i)
  {
    assert LastSuccess(run, i);
    if NoFailureSince(run, i) {
      assert run[|before|] == e && !e.Fail?;
      assert NoFailureSince(before, i);
    }
  }

  /**
   Whatever `get` serves is the document of the latest successful fetch, and it
   is younger than max(ttlMs, cooldownMs) unless a fetch has failed since.
   */
  lemma {:induction false} ServedIsFresh(cfg: Config, run: seq<Event>, t: int)
    requires IsRun(cfg, run + [Get(t)]) && ReplyTo(cfg, StateAfter(cfg, run), t).Serve?
    ensures exists i: nat ::
      && LastSuccess(run, i) && ReplyTo(cfg, StateAfter(cfg, run), t) == Serve(run[i].doc)
      && (NoFailureSince(run, i) ==> t - run[i].t < cfg.ttlMs || t - run[i].t < cfg.cooldownMs)
  {
    assert (run + [Get(t)])[..|run|] == run;
    RunPrefix(cfg, run + [Get(t)], |run|);
    CacheIsLastSuccess(cfg, run);
    var i: nat :| CacheIs(cfg, run, i);
    assert LastSuccess(run, i);
  }

  /** The latest fetch was event k, and event f ended it. */
  ghost predicate LastFetchEnded(cfg: Config, run: seq<Event>, k: nat, f: nat) {
    LastLaunch(cfg, run, k) && k < f < |run| && !run[f].Get?
  }

  ghost predicate FetchEnded(cfg: Config, run: seq<Event>) {
    exists k: nat, f: nat :: LastFetchEnded(cfg, run, k, f)
  }

  /** A fetch is in flight exactly when there is a latest one and it has not ended. */
  ghost predicate InflightIs(cfg: Config, run: seq<Event>) {
    var s := StateAfter(cfg, run);
    s.inflight <==> s.lastAttempt.Some? && !FetchEnded(cfg, run)
  }

  lemma {:induction false} InflightMeaning(cfg: Config, run: seq<Event>)
    requires IsRun(cfg, run)
    ensures InflightIs(cfg, run)
  {
    if run == [] {
      assert StateAfter(cfg, run) == START;
    } else {
      var n := |run| - 1;
      RunPrefix(cfg, run, n);
      InflightMeaning(cfg, run[..n]);
      if Launches(cfg, run, n) {
        assert !FetchEnded(cfg, run) by { LaunchNotEnded(cfg, run); }
      } else {
        InflightStep(cfg, run, run[..n], run[n]);
      }
    }
  }

  lemma {:induction false} LaunchNotEnded(cfg: Config, run: seq<Event>)
    requires run != [] && Launches(cfg, run, |run| - 1)
    ensures !FetchEnded(cfg, run)
  {
    if k: nat, f: nat :| LastFetchEnded(cfg, run, k, f) {
      assert false;
    }
  }

  lemma {:induction false} InflightStep(cfg: Config, run: seq<Event>, before: seq<Event>, e: Event)
    requires run == before + [e] && run[..|before|] == before && !Launches(cfg, run, |before|)
    requires InflightIs(cfg, before) && (!e.Get? ==> StateAfter(cfg, before).inflight)
    ensures InflightIs(cfg, run)
  {
    assert StateAfter(cfg, run) == Step(cfg, StateAfter(cfg, before), e);
    AttemptIsLastLaunch(cfg, before);
    if StateAfter(cfg, before).lastAttempt.Some? {
      var k: nat :| LastLaunch(cfg, before, k) && before[k].t == StateAfter(cfg, before).lastAttempt.value;
      LaterEnd(cfg, run, before, e, k);
    }
  }

  /** An event that starts no fetch leaves the latest one as it was, unless it ends it. */
  lemma {:induction false} LaterEnd(cfg: Config, run: seq<Event>, before: seq<Event>, e: Event, k: nat)
    requires run == before + [e] && LastLaunch(cfg, before, k) && !Launches(cfg, run, |before|)
    ensures FetchEnded(cfg, run) <==> !e.Get? || FetchEnded(cfg, before)
  {
    var n := |before|;
    forall i: nat | i < n ensures Launches(cfg, before, i) <==> Launches(cfg, run, i) {
      SameLaunches(cfg, run, before, e, i);
    }
    assert LastLaunch(cfg, run, k);
    if !e.Get? { assert LastFetchEnded(cfg, run, k, n); }
    if l: nat, f: nat :| LastFetchEnded(cfg, run, l, f) && f < n {
      assert l == k;
      assert LastFetchEnded(cfg, before, k, f);
    }
    if l: nat, f: nat :| LastFetchEnded(cfg, before, l, f) {
      assert l == k;
      assert LastFetchEnded(cfg, run, k, f);
    }
  }

  // ----- Every answer -----

  /** The document of the latest success, if there is one. */
  ghost predicate Latest(run: seq<Event>, doc: Doc, t: int) {
    exists i: nat :: LastSuccess(run, i) && run[i].doc == doc && run[i].t == t
  }

  /** Some fetch has started, and the latest has not ended. */
  ghost predicate Fetching(cfg: Config, run: seq<Event>) {
    (exists k: nat :: LastLaunch(cfg, run, k)) && !FetchEnded(cfg, run)
  }

  /** A fetch has started less than a cooldown before t. */
  ghost predicate CoolsDown(cfg: Config, run: seq<Event>, t: int) {
    exists k: nat :: k < |run| && Launches(cfg, run, k) && t - run[k].t < cfg.cooldownMs
  }

  lemma {:induction false} FetchingIs(cfg: Config, run: seq<Event>)
    requires IsRun(cfg, run)
    ensures StateAfter(cfg, run).inflight <==> Fetching(cfg, run)
  {
    InflightMeaning(cfg, run);
    AttemptIsLastLaunch(cfg, run);
    if StateAfter(cfg, run).lastAttempt.Some? {
      var k: nat :| LastLaunch(cfg, run, k) && run[k].t == StateAfter(cfg, run).lastAttempt.value;
    }
  }

  lemma {:induction false} CoolsDownIs(cfg: Config, run: seq<Event>, t: int)
    requires forall i, j :: 0 <= i <= j < |run| ==> run[i].t <= run[j].t
    ensures InCooldown(cfg, StateAfter(cfg, run), t) <==> CoolsDown(cfg, run, t)
  {
    AttemptIsLastLaunch(cfg, run);
    if StateAfter(cfg, run).lastAttempt.Some? {
      var k: nat :| LastLaunch(cfg, run, k) && run[k].t == StateAfter(cfg, run).lastAttempt.value;
      if l: nat :| l < |run| && Launches(cfg, run, l) && t - run[l].t < cfg.cooldownMs {
        assert l <= k && run[l].t <= run[k].t;
      }
    }
  }

  lemma {:induction false} LatestIs(cfg: Config, run: seq<Event>, doc: Doc, t: int)
    requires IsRun(cfg, run)
    ensures StateAfter(cfg, run).cache == Some(Cached(doc, t)) <==> Latest(run, doc, t)
  {
    CacheIsLastSuccess(cfg, run);
    if StateAfter(cfg, run).cache.Some? {
      var c: nat :| CacheIs(cfg, run, c);
      if i: nat :| LastSuccess(run, i) && run[i].doc == doc && run[i].t == t { assert i == c; }
    }
  }

  /** What `get` answers, in terms of the events alone. */
  ghost predicate IsAnswer(cfg: Config, run: seq<Event>, t: int, reply: Reply) {
    if exists doc, at :: Latest(run, doc, at) && t - at < cfg.ttlMs
    then reply.Serve? && exists at :: Latest(run, reply.doc, at)
    else if Fetching(cfg, run) then reply == Join
    else if !CoolsDown(cfg, run, t) then reply == Launch
    else if exists doc, at :: Latest(run, doc, at) then reply.Serve? && exists at :: Latest(run, reply.doc, at)
    else reply == CoolingDown
  }

  /**
   Every answer: the document of the latest success while it is younger than its
   time to live; else a wait while the latest fetch has not ended; else a new fetch,
   unless one has started less than a cooldown before; then the latest document, or
   a refusal when there has been none.
   */
  lemma {:induction false} GetExactly(cfg: Config, run: seq<Event>, t: int)
    requires IsRun(cfg, run + [Get(t)])
    ensures IsAnswer(cfg, run, t, ReplyTo(cfg, StateAfter(cfg, run), t))
  {
    var whole, s := run + [Get(t)], StateAfter(cfg, run);
    assert whole[..|run|] == run;
    RunPrefix(cfg, whole, |run|);
    FetchingIs(cfg, run);
    CoolsDownIs(cfg, run, t);
    forall doc, at ensures s.cache == Some(Cached(doc, at)) <==> Latest(run, doc, at) { LatestIs(cfg, run, doc, at); }
    if s.cache.Some? { assert Latest(run, s.cache.value.doc, s.cache.value.fetchedAt); }
  }

  /** There is but one such answer. */
  lemma {:induction false} OneAnswer(cfg: Config, run: seq<Event>, t: int, a: Reply, b: Reply)
    requires IsAnswer(cfg, run, t, a) && IsAnswer(cfg, run, t, b)
    ensures a == b
  {
    if a.Serve? && b.Serve? {
      var p :| Latest(run, a.doc, p);
      var q :| Latest(run, b.doc, q);
      var i: nat :| LastSuccess(run, i) && run[i].doc == a.doc;
      var j: nat :| LastSuccess(run, j) && run[j].doc == b.doc;
      assert i == j;
    }
  }

  /** The latest fetch failed, and started less than a cooldown before t. */
  ghost predicate RecentFailure(cfg: Config, run: seq<Event>, t: int) {
    exists k: nat, f: nat :: LastFetchEnded(cfg, run, k, f) && run[f].Fail? && t - run[k].t < cfg.cooldownMs
  }

  /**
   When a stale document is served: one that is as old as both durations is
   served exactly when the latest fetch failed and started less than a cooldown
   ago.
   */
  lemma {:induction false} StaleServedIff(cfg: Config, run: seq<Event>, i: nat, t: int)
    requires IsRun(cfg, run + [Get(t)]) && LastSuccess(run, i)
    requires t - run[i].t >= cfg.ttlMs && t - run[i].t >= cfg.cooldownMs
    ensures ReplyTo(cfg, StateAfter(cfg, run), t) == Serve(run[i].doc) <==> RecentFailure(cfg, run, t)
  {
    var whole := run + [Get(t)];
    assert whole[..|run|] == run;
    RunPrefix(cfg, whole, |run|);
    CacheIsLastSuccess(cfg, run);
    var c: nat :| CacheIs(cfg, run, c);
    assert c == i;
    AttemptIsLastLaunch(cfg, run);
    InflightMeaning(cfg, run);
    assert forall j :: 0 <= j < |run| ==> run[j] == whole[j];
    if ReplyTo(cfg, StateAfter(cfg, run), t) == Serve(run[i].doc) {
      var k: nat :| LastLaunch(cfg, run, k) && run[k].t == StateAfter(cfg, run).lastAttempt.value;
      var l: nat, f: nat :| LastFetchEnded(cfg, run, l, f);
      assert l == k && i < k;
      assert run[f].Fail?;
      assert RecentFailure(cfg, run, t);
    }
  }

  /** After a failed fetch a document of any age may be served for the length of the cooldown. */
  lemma {:induction false} FailureServesStale(cfg: Config, age: int, doc: Doc)
    requires 0 < cfg.cooldownMs <= age && cfg.ttlMs <= age
    ensures var run := [Get(0), Succeed(0, doc), Get(age), Fail(age)];
      IsRun(cfg, run + [Get(age)]) && ReplyTo(cfg, StateAfter(cfg, run), age) == Serve(doc)
  {
    var run := [Get(0), Succeed(0, doc), Get(age), Fail(age)];
    var whole := run + [Get(age)];
    assert whole[..0] == [] && whole[..1] == [Get(0)] && whole[..1][..0] == [];
    assert whole[..2] == [Get(0), Succeed(0, doc)] && whole[..2][..1] == whole[..1];
    assert whole[..3] == [Get(0), Succeed(0, doc), Get(age)] && whole[..3][..2] == whole[..2];
    assert whole[..4] == run && run[..3] == whole[..3];
    assert StateAfter(cfg, whole[..1]) == State(None, Some(0), true);
    assert StateAfter(cfg, whole[..2]) == State(Some(Cached(doc, 0)), Some(0), false);
    assert StateAfter(cfg, whole[..3]) == State(Some(Cached(doc, 0)), Some(age), true);
    assert StateAfter(cfg, run) == State(Some(Cached(doc, 0)), Some(age), false);
  }
}
