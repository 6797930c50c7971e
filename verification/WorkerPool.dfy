/**
 The load driver's worker pool: workers share a counter of issued requests and
 interleave at their await points. A step is what one worker does between two
 awaits.
 */
module WorkerPool {
  import opened Sets

  datatype Worker = Ready | Waiting(index: int) | Stopped

  /** One finished request: which, whether it succeeded, and how long it took. */
  datatype Completion = Completion(index: int, ok: bool, elapsed: real)

  datatype Config = Config(total: int, warmup: int, concurrency: nat)

  /** `history` lists the completions in order; the other fields are the driver's variables. */
  datatype State = State(
    issued: nat, completed: nat, latencies: seq<real>, failed: bool,
    workers: seq<Worker>, history: seq<Completion>)

  ghost predicate Init(cfg: Config, s: State) {
    s == State(0, 0, [], false, seq(cfg.concurrency, _ => Ready), [])
  }

  /** A worker takes the next index, or stops when none is left. */
  ghost predicate Take(cfg: Config, s: State, s': State, w: nat) {
    && w < |s.workers| && s.workers[w].Ready?
    && if s.issued >= cfg.total then s' == s.(workers := s.workers[w := Stopped])
       else s' == s.(issued := s.issued + 1, workers := s.workers[w := Waiting(s.issued)])
  }

  /** The response has arrived; completions after the first `warmup` are sampled. */
  ghost predicate Finish(cfg: Config, s: State, s': State, w: nat, elapsed: real) {
    && w < |s.workers| && s.workers[w].Waiting?
    && s' == State(
         s.issued, s.completed + 1,
         if s.completed + 1 > cfg.warmup then s.latencies + [elapsed] else s.latencies,
         s.failed, s.workers[w := Ready],
         s.history + [Completion(s.workers[w].index, true, elapsed)])
  }

  /** The request failed: it counts as completed, is never sampled, and the driver will throw. */
  ghost predicate Fail(s: State, s': State, w: nat) {
    && w < |s.workers| && s.workers[w].Waiting?
    && s' == s.(completed := s.completed + 1, failed := true, workers := s.workers[w := Ready],
                history := s.history + [Completion(s.workers[w].index, false, 0.0)])
  }

  ghost predicate Step(cfg: Config, s: State, s': State, w: nat, elapsed: real) {
    Take(cfg, s, s', w) || Finish(cfg, s, s', w, elapsed) || Fail(s, s', w)
  }

  ghost predicate Next(cfg: Config, s: State, s': State) {
    exists w: nat, elapsed: real :: Step(cfg, s, s', w, elapsed)
  }

  ghost predicate IsRun(cfg: Config, run: seq<State>) {
    && run != [] && Init(cfg, run[0])
    && forall i :: 0 <= i < |run| - 1 ==> Next(cfg, run[i], run[i + 1])
  }

  // ----- Invariant -----

  ghost function InFlight(s: State): set<int> {
    set w | 0 <= w < |s.workers| && s.workers[w].Waiting?
  }

  /** Index i has been issued and is waiting at some worker or completed. */
  ghost predicate AtWorker(s: State, i: int) {
    exists w :: 0 <= w < |s.workers| && s.workers[w] == Waiting(i)
  }

  ghost predicate InHistory(s: State, i: int) {
    exists k :: 0 <= k < |s.history| && s.history[k].index == i
  }

  /** The sample that a completion history leaves. */
  ghost function Sample(history: seq<Completion>, warmup: int): seq<real> {
    if history == [] then []
    else
      var n := |history| - 1;
      Sample(history[..n], warmup) + if history[n].ok && n + 1 > warmup then [history[n].elapsed] else []
  }

  /** Every issued index is in exactly one place: at one worker, or once in the history. */
  ghost predicate Placed(s: State) {
    && (forall i :: AtWorker(s, i) || InHistory(s, i) <==> 0 <= i < s.issued)
    && (forall i :: AtWorker(s, i) ==> !InHistory(s, i))
    && (forall v, w :: 0 <= v < w < |s.workers| && s.workers[v].Waiting? ==> s.workers[v] != s.workers[w])
    && (forall j, k :: 0 <= j < k < |s.history| ==> s.history[j].index != s.history[k].index)
  }

  ghost predicate Counted(cfg: Config, s: State) {
    && |s.workers| == cfg.concurrency
    && s.issued <= (if cfg.total < 0 then 0 else cfg.total)
    && (forall w :: 0 <= w < |s.workers| && s.workers[w].Stopped? ==> s.issued >= cfg.total)
    && s.completed == |s.history|
    && s.issued == s.completed + |InFlight(s)|
    && s.latencies == Sample(s.history, cfg.warmup)
    && (s.failed <==> exists k :: 0 <= k < |s.history| && !s.history[k].ok)
  }

  // ----- Placement -----

  lemma {:induction false} TakePlaces(cfg: Config, s: State, s': State, w: nat)
    requires Placed(s) && Take(cfg, s, s', w)
    ensures Placed(s')
  {
    forall i ensures AtWorker(s', i) <==> AtWorker(s, i) || (s'.issued > s.issued && i == s.issued) {
      if AtWorker(s, i) {
        var v :| 0 <= v < |s.workers| && s.workers[v] == Waiting(i);
        assert s'.workers[v] == Waiting(i);
      }
      if s'.issued > s.issued && i == s.issued { assert s'.workers[w] == Waiting(i); }
    }
    forall i ensures InHistory(s', i) <==> InHistory(s, i) { }
    forall v | 0 <= v < |s.workers| && s.workers[v].Waiting? ensures s.workers[v].index < s.issued {
      assert AtWorker(s, s.workers[v].index);
    }
  }

  /** Worker w hands its index over to the history. */
  ghost predicate HandsOver(s: State, s': State, w: nat, c: Completion) {
    && w < |s.workers| && s.workers[w] == Waiting(c.index)
    && s'.issued == s.issued && s'.workers == s.workers[w := Ready] && s'.history == s.history + [c]
  }

  lemma {:induction false} HandedOver(s: State, s': State, w: nat, c: Completion, i: int)
    requires Placed(s) && HandsOver(s, s', w, c)
    ensures AtWorker(s', i) <==> AtWorker(s, i) && i != c.index
    ensures InHistory(s', i) <==> InHistory(s, i) || i == c.index
  {
    if AtWorker(s, i) && i != c.index {
      var v :| 0 <= v < |s.workers| && s.workers[v] == Waiting(i);
      assert s'.workers[v] == Waiting(i);
    }
    if InHistory(s, i) {
      var k :| 0 <= k < |s.history| && s.history[k].index == i;
      assert s'.history[k].index == i;
    }
    assert s'.history[|s.history|].index == c.index;
  }

  lemma {:induction false} HandOverPlaces(s: State, s': State, w: nat, c: Completion)
    requires Placed(s) && HandsOver(s, s', w, c)
    ensures Placed(s')
  {
    assert AtWorker(s, c.index);
    forall i
      ensures (AtWorker(s', i) <==> AtWorker(s, i) && i != c.index)
           && (InHistory(s', i) <==> InHistory(s, i) || i == c.index)
    {
      HandedOver(s, s', w, c, i);
    }
    forall k | 0 <= k < |s.history| ensures s.history[k].index != c.index {
      assert InHistory(s, s.history[k].index);
    }
  }

  // ----- Counting -----

  lemma {:induction false} TakeCounts(cfg: Config, s: State, s': State, w: nat)
    requires Counted(cfg, s) && Take(cfg, s, s', w)
    ensures Counted(cfg, s')
  {
    if s.issued >= cfg.total {
      assert InFlight(s') == InFlight(s);
    } else {
      assert InFlight(s') == InFlight(s) + {w};
      assert w !in InFlight(s);
    }
  }

  lemma {:induction false} HandOverCounts(s: State, s': State, w: nat, c: Completion, warmup: int)
    requires HandsOver(s, s', w, c)
    ensures |InFlight(s')| == |InFlight(s)| - 1
    ensures Sample(s'.history, warmup)
         == Sample(s.history, warmup) + if c.ok && |s.history| + 1 > warmup then [c.elapsed] else []
  {
    assert InFlight(s') == InFlight(s) - {w} && w in InFlight(s);
    assert s'.history[..|s.history|] == s.history;
  }

  lemma {:induction false} FinishCounts(cfg: Config, s: State, s': State, w: nat, elapsed: real)
    requires Counted(cfg, s) && Finish(cfg, s, s', w, elapsed)
    ensures Counted(cfg, s')
  {
    HandOverCounts(s, s', w, Completion(s.workers[w].index, true, elapsed), cfg.warmup);
    assert s.failed ==> exists k :: 0 <= k < |s.history| && !s.history[k].ok && s'.history[k] == s.history[k];
  }

  lemma {:induction false} FailCounts(cfg: Config, s: State, s': State, w: nat)
    requires Counted(cfg, s) && Fail(s, s', w)
    ensures Counted(cfg, s')
  {
    HandOverCounts(s, s', w, Completion(s.workers[w].index, false, 0.0), cfg.warmup);
    assert !s'.history[|s.history|].ok;
  }

  lemma {:induction false} NextKeeps(cfg: Config, s: State, s': State)
    requires Placed(s) && Counted(cfg, s) && Next(cfg, s, s')
    ensures Placed(s') && Counted(cfg, s')
  {
    var w: nat, elapsed: real :| Step(cfg, s, s', w, elapsed);
    if Take(cfg, s, s', w) {
      TakePlaces(cfg, s, s', w);
      TakeCounts(cfg, s, s', w);
    } else if Finish(cfg, s, s', w, elapsed) {
      HandOverPlaces(s, s', w, Completion(s.workers[w].index, true, elapsed));
      FinishCounts(cfg, s, s', w, elapsed);
    } else {
      HandOverPlaces(s, s', w, Completion(s.workers[w].index, false, 0.0));
      FailCounts(cfg, s, s', w);
    }
  }

  lemma {:induction false} RunInv(cfg: Config, run: seq<State>, n: nat)
    requires IsRun(cfg, run) && n < |run|
    ensures Placed(run[n]) && Counted(cfg, run[n])
  {
    if n == 0 {
      assert InFlight(run[0]) == {};
    } else {
      RunInv(cfg, run, n - 1);
      assert Next(cfg, run[n - 1], run[n - 1 + 1]);
      NextKeeps(cfg, run[n - 1], run[n]);
    }
  }

  // ----- Results -----

  /** At any moment no index is lost or issued twice, and no more than `concurrency` requests are in flight. */
  lemma {:induction false} NoIndexLost(cfg: Config, run: seq<State>, n: nat)
    requires IsRun(cfg, run) && n < |run|
    ensures Placed(run[n]) && |InFlight(run[n])| <= cfg.concurrency
    ensures run[n].completed + |InFlight(run[n])| == run[n].issued
  {
    RunInv(cfg, run, n);
    IntervalCardinality(InFlight(run[n]), 0, |run[n].workers|);
  }

  ghost predicate AllStopped(s: State) {
    forall w :: 0 <= w < |s.workers| ==> s.workers[w].Stopped?
  }

  ghost predicate Over(s: State, i: int) {
    exists k :: 0 <= k < |s.history| && s.history[k].index == i
      && forall j :: 0 <= j < |s.history| && s.history[j].index == i ==> j == k
  }

  /** When all workers have stopped, every index below `total` has completed exactly once. */
  lemma {:induction false} AllDone(cfg: Config, run: seq<State>, n: nat)
    requires IsRun(cfg, run) && n < |run| && AllStopped(run[n]) && cfg.concurrency > 0 && cfg.total >= 0
    ensures run[n].completed == cfg.total == |run[n].history|
    ensures forall i :: 0 <= i < cfg.total ==> Over(run[n], i)
  {
    var s := run[n];
    RunInv(cfg, run, n);
    assert s.workers[0].Stopped?;
    assert InFlight(s) == {};
    forall i | 0 <= i < cfg.total ensures Over(s, i) {
      assert AtWorker(s, i) || InHistory(s, i);
      assert !AtWorker(s, i);
      var k :| 0 <= k < |s.history| && s.history[k].index == i;
    }
  }

  function Elapsed(history: seq<Completion>): seq<real> {
    seq(|history|, k requires 0 <= k < |history| => history[k].elapsed)
  }

  function Without(xs: seq<real>, n: nat): seq<real> {
    if n <= |xs| then xs[n..] else []
  }

  lemma {:induction false} WithoutAppend(xs: seq<real>, x: real, n: nat)
    ensures Without(xs + [x], n) == Without(xs, n) + if |xs| + 1 > n then [x] else []
  {
    if n <= |xs| { assert (xs + [x])[n..] == xs[n..] + [x]; }
  }

  lemma {:induction false} SampleOfSuccesses(history: seq<Completion>, warmup: nat)
    requires forall k :: 0 <= k < |history| ==> history[k].ok
    ensures Sample(history, warmup) == Without(Elapsed(history), warmup)
  {
    if history == [] {
    } else {
      var n := |history| - 1;
      var before, last := history[..n], history[n];
      SampleOfSuccesses(before, warmup);
      assert Elapsed(history) == Elapsed(before) + [last.elapsed];
      WithoutAppend(Elapsed(before), last.elapsed, warmup);
    }
  }

  /**
   A finished run without errors samples exactly the latencies of all
   completions but the first `warmup`, in order: max(0, total - warmup) of them.
   */
  lemma {:induction false} ExactSample(cfg: Config, run: seq<State>, n: nat)
    requires IsRun(cfg, run) && n < |run| && AllStopped(run[n]) && !run[n].failed
    requires cfg.concurrency > 0 && cfg.total >= 0 && cfg.warmup >= 0
    ensures run[n].latencies == Without(Elapsed(run[n].history), cfg.warmup)
    ensures |run[n].latencies| == if cfg.total > cfg.warmup then cfg.total - cfg.warmup else 0
  {
    RunInv(cfg, run, n);
    AllDone(cfg, run, n);
    SampleOfSuccesses(run[n].history, cfg.warmup);
  }

  // ----- Every run ends -----

  /** Steps still possible: two for each index not yet taken, one for each request in flight, one for each worker. */
  ghost function Remaining(cfg: Config, s: State): int {
    2 * ((if cfg.total < 0 then 0 else cfg.total) - s.issued) + |InFlight(s)| + |Running(s)|
  }

  ghost function Running(s: State): set<int> {
    set w | 0 <= w < |s.workers| && !s.workers[w].Stopped?
  }

  lemma {:induction false} StopDecreases(s: State, s': State, w: nat)
    requires w < |s.workers| && s.workers[w].Ready? && s'.workers == s.workers[w := Stopped]
    ensures |InFlight(s')| == |InFlight(s)| && |Running(s')| == |Running(s)| - 1
  {
    assert InFlight(s') == InFlight(s);
    assert Running(s') == Running(s) - {w} && w in Running(s);
  }

  lemma {:induction false} IssueDecreases(s: State, s': State, w: nat, index: nat)
    requires w < |s.workers| && s.workers[w].Ready? && s'.workers == s.workers[w := Waiting(index)]
    ensures |InFlight(s')| == |InFlight(s)| + 1 && |Running(s')| == |Running(s)|
  {
    assert InFlight(s') == InFlight(s) + {w} && w !in InFlight(s);
    assert Running(s') == Running(s);
  }

  lemma {:induction false} TakeDecreases(cfg: Config, s: State, s': State, w: nat)
    requires Counted(cfg, s) && Take(cfg, s, s', w)
    ensures Remaining(cfg, s') == Remaining(cfg, s) - 1
  {
    if s.issued >= cfg.total { StopDecreases(s, s', w); } else { IssueDecreases(s, s', w, s.issued); }
  }

  lemma {:induction false} HandOverDecreases(cfg: Config, s: State, s': State, w: nat, c: Completion)
    requires HandsOver(s, s', w, c)
    ensures Remaining(cfg, s') == Remaining(cfg, s) - 1
  {
    HandOverCounts(s, s', w, c, cfg.warmup);
    assert Running(s') == Running(s);
  }

  lemma {:induction false} StepDecreases(cfg: Config, s: State, s': State)
    requires Counted(cfg, s) && Next(cfg, s, s')
    ensures Remaining(cfg, s') == Remaining(cfg, s) - 1
  {
    var w: nat, elapsed: real :| Step(cfg, s, s', w, elapsed);
    if Take(cfg, s, s', w) {
      TakeDecreases(cfg, s, s', w);
    } else {
      HandOverDecreases(cfg, s, s', w, s'.history[|s.history|]);
    }
  }

  lemma {:induction false} RunRemaining(cfg: Config, run: seq<State>, n: nat)
    requires IsRun(cfg, run) && n < |run|
    ensures Remaining(cfg, run[n]) == Remaining(cfg, run[0]) - n
  {
    if n == 0 {
    } else {
      RunRemaining(cfg, run, n - 1);
      RunInv(cfg, run, n - 1);
      assert Next(cfg, run[n - 1], run[n - 1 + 1]);
      StepDecreases(cfg, run[n - 1], run[n]);
    }
  }

  ghost predicate MayStep(cfg: Config, s: State) {
    exists s' :: Next(cfg, s, s')
  }

  lemma {:induction false} CanStep(cfg: Config, s: State)
    requires !AllStopped(s)
    ensures MayStep(cfg, s)
  {
    var w :| 0 <= w < |s.workers| && !s.workers[w].Stopped?;
    var s' := if s.workers[w].Waiting? then
                s.(completed := s.completed + 1, failed := true, workers := s.workers[w := Ready],
                   history := s.history + [Completion(s.workers[w].index, false, 0.0)])
              else if s.issued >= cfg.total then s.(workers := s.workers[w := Stopped])
              else s.(issued := s.issued + 1, workers := s.workers[w := Waiting(s.issued)]);
    assert Step(cfg, s, s', w, 0.0);
    assert Next(cfg, s, s');
  }

  /**
   Whatever the interleaving, a run takes exactly 2 * total + concurrency steps
   to the end: until then some worker can move, and there all have stopped.
   */
  lemma {:induction false} RunLength(cfg: Config, run: seq<State>)
    requires IsRun(cfg, run) && cfg.total >= 0
    ensures |run| - 1 <= 2 * cfg.total + cfg.concurrency
    ensures AllStopped(run[|run| - 1]) <==> cfg.concurrency == 0 || |run| - 1 == 2 * cfg.total + cfg.concurrency
    ensures !AllStopped(run[|run| - 1]) ==> MayStep(cfg, run[|run| - 1])
  {
    var n := |run| - 1;
    var s := run[n];
    RunInv(cfg, run, n);
    RunRemaining(cfg, run, n);
    assert InFlight(run[0]) == {};
    assert Running(run[0]) == Between(0, cfg.concurrency);
    if AllStopped(s) {
      assert InFlight(s) == {} && Running(s) == {};
      if cfg.concurrency > 0 { assert s.workers[0].Stopped?; }
    } else {
      CanStep(cfg, s);
      var w :| 0 <= w < |s.workers| && !s.workers[w].Stopped?;
      assert w in Running(s);
    }
  }
}
