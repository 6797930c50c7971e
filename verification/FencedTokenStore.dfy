/**
 The shared token store: `mutate` reads a version counter, then the whole record
 map, runs the mutation on that snapshot and applies the resulting diff by one
 server-side script that is fenced on the version. Any number of calls
 interleave between these steps, with no lock; each call retries on a conflict.
 */
module FencedTokenStore {
  import opened Options
  import opened TokenVault

  const MAX_MUTATE_RETRIES: nat := 64

  datatype Phase =
    | Starting
    | HasVersion(expected: Option<nat>)
    | HasSnapshot(expected: Option<nat>, tokens: Tokens)
    | Applied(reply: Reply) // the script ran; its own reply and the release of the lock are still to come
    | Returned(reply: Reply)
    | Conflicted
    | Failed

  /** A call of `mutate`; `begun` is how many commits the log held when it began. */
  datatype Call = Call(ask: Ask, begun: nat, attempt: nat, phase: Phase)

  /** The two server keys (an absent version is None), the calls, and the commits in order. */
  datatype State = State(version: Option<nat>, hash: Tokens, calls: seq<Call>, log: seq<Commit>)

  // ----- Steps -----

  ghost predicate Begin(s: State, s': State, ask: Ask) {
    s' == s.(calls := s.calls + [Call(ask, |s.log|, 0, Starting)])
  }

  ghost predicate GetVersion(s: State, s': State, i: nat) {
    && i < |s.calls| && s.calls[i].phase.Starting?
    && s' == s.(calls := s.calls[i := s.calls[i].(phase := HasVersion(s.version))])
  }

  ghost predicate LoadTokens(s: State, s': State, i: nat) {
    && i < |s.calls| && s.calls[i].phase.HasVersion?
    && s' == s.(calls := s.calls[i := s.calls[i].(phase := HasSnapshot(s.calls[i].phase.expected, s.hash))])
  }

  /** The mutation ran on the snapshot at `now` and left the diff `d`. */
  ghost predicate Ran(c: Call, now: int, retention: int, d: Diff) {
    && c.phase.HasSnapshot?
    && Apply(c.phase.tokens, d) == Effect(c.phase.tokens, c.ask, now, retention)
  }

  /** The script finds the expected version: it applies the diff and moves the version. */
  ghost predicate Committed(s: State, s': State, i: nat, now: int, retention: int, d: Diff) {
    && i < |s.calls| && Ran(s.calls[i], now, retention, d) && s.version == s.calls[i].phase.expected
    && s' == State(
         Some(if s.version.None? then 1 else s.version.value + 1),
         Apply(s.hash, d),
         s.calls[i := s.calls[i].(phase := Applied(ReplyTo(s.calls[i].phase.tokens, s.calls[i].ask, now)))],
         s.log + [Commit(i, s.calls[i].ask, now)])
  }

  /** The script finds another version and changes nothing: the call starts over, or gives up. */
  ghost predicate Rejected(s: State, s': State, i: nat) {
    && i < |s.calls| && s.calls[i].phase.HasSnapshot? && s.version != s.calls[i].phase.expected
    && var c := s.calls[i];
       var next := if c.attempt + 1 < MAX_MUTATE_RETRIES then Starting else Conflicted;
       s' == s.(calls := s.calls[i := c.(attempt := c.attempt + 1, phase := next)])
  }

  ghost predicate Return(s: State, s': State, i: nat) {
    && i < |s.calls| && s.calls[i].phase.Applied?
    && s' == s.(calls := s.calls[i := s.calls[i].(phase := Returned(s.calls[i].phase.reply))])
  }

  /** Any other error fails the call, at any point before it returns. */
  ghost predicate Fail(s: State, s': State, i: nat) {
    && i < |s.calls| && !s.calls[i].phase.Returned? && !s.calls[i].phase.Conflicted?
    && s' == s.(calls := s.calls[i := s.calls[i].(phase := Failed)])
  }

  ghost predicate CallStep(s: State, s': State, i: nat, now: int, retention: int, d: Diff) {
    || GetVersion(s, s', i) || LoadTokens(s, s', i) || Committed(s, s', i, now, retention, d)
    || Rejected(s, s', i) || Return(s, s', i) || Fail(s, s', i)
  }

  ghost predicate Next(s: State, s': State, retention: int) {
    || (exists ask :: Begin(s, s', ask))
    || (exists i: nat, now: int, d: Diff :: CallStep(s, s', i, now, retention, d))
  }

  const EMPTY := State(None, map[], [], [])

  // ----- Invariant -----

  /** The fence value after n commits. */
  function VersionAfter(n: nat): Option<nat> {
    if n == 0 then None else Some(n)
  }

  /** What a version read earlier says: it is that of some moment since the call's last retry. */
  ghost predicate ExpectedAt(c: Call, log: seq<Commit>, n: nat) {
    c.begun + c.attempt <= n <= |log|
  }

  ghost predicate SnapshotOf(tokens: Tokens, log: seq<Commit>, retention: int, n: nat, m: nat) {
    n <= m <= |log| && tokens == Replay(map[], log[..m], retention)
  }

  /** Commit `at` is the call's, its only one, and the call answered what the serial history answers there. */
  ghost predicate LoggedOnce(i: nat, c: Call, reply: Reply, log: seq<Commit>, retention: int, at: nat) {
    && c.begun <= at < |log| && log[at].call == i && log[at].ask == c.ask
    && (forall k :: 0 <= k < |log| && log[k].call == i ==> k == at)
    && reply == ReplyTo(Replay(map[], log[..at], retention), log[at].ask, log[at].now)
  }

  ghost predicate NotLogged(i: nat, log: seq<Commit>) {
    forall k :: 0 <= k < |log| ==> log[k].call != i
  }

  ghost predicate CallInv(i: nat, c: Call, log: seq<Commit>, retention: int) {
    && c.begun + c.attempt <= |log|
    && match c.phase
       case Starting => c.attempt < MAX_MUTATE_RETRIES && NotLogged(i, log)
       case HasVersion(expected) =>
         && c.attempt < MAX_MUTATE_RETRIES && NotLogged(i, log)
         && exists n: nat :: ExpectedAt(c, log, n) && expected == VersionAfter(n)
       case HasSnapshot(expected, tokens) =>
         && c.attempt < MAX_MUTATE_RETRIES && NotLogged(i, log)
         && exists n: nat, m: nat ::
              ExpectedAt(c, log, n) && expected == VersionAfter(n) && SnapshotOf(tokens, log, retention, n, m)
       case Applied(reply) => exists at: nat :: LoggedOnce(i, c, reply, log, retention, at)
       case Returned(reply) => exists at: nat :: LoggedOnce(i, c, reply, log, retention, at)
       case Conflicted => c.attempt == MAX_MUTATE_RETRIES && NotLogged(i, log)
       case Failed => NotLogged(i, log) || exists at: nat, reply :: LoggedOnce(i, c, reply, log, retention, at)
  }

  ghost predicate Inv(s: State, retention: int) {
    && s.version == VersionAfter(|s.log|)
    && s.hash == Replay(map[], s.log, retention)
    && (forall k :: 0 <= k < |s.log| ==> s.log[k].call < |s.calls|)
    && (forall i :: 0 <= i < |s.calls| ==> CallInv(i, s.calls[i], s.log, retention))
  }

  // ----- Every step keeps it -----

  /** A commit of another call keeps what is known of call i. */
  lemma {:induction false} CallInvGrows(i: nat, c: Call, log: seq<Commit>, e: Commit, retention: int)
    requires CallInv(i, c, log, retention) && e.call != i
    ensures CallInv(i, c, log + [e], retention)
  {
    var log' := log + [e];
    match c.phase
    case Starting =>
    case HasVersion(expected) =>
      var n: nat :| ExpectedAt(c, log, n) && expected == VersionAfter(n);
      assert ExpectedAt(c, log', n);
    case HasSnapshot(expected, tokens) =>
      var n: nat, m: nat :| ExpectedAt(c, log, n) && expected == VersionAfter(n)
        && SnapshotOf(tokens, log, retention, n, m);
      assert log'[..m] == log[..m];
      assert ExpectedAt(c, log', n) && SnapshotOf(tokens, log', retention, n, m);
    case Applied(reply) =>
      var at: nat :| LoggedOnce(i, c, reply, log, retention, at);
      LoggedOnceGrows(i, c, reply, log, e, retention, at);
    case Returned(reply) =>
      var at: nat :| LoggedOnce(i, c, reply, log, retention, at);
      LoggedOnceGrows(i, c, reply, log, e, retention, at);
    case Conflicted =>
    case Failed =>
      if !NotLogged(i, log) {
        var at: nat, reply :| LoggedOnce(i, c, reply, log, retention, at);
        LoggedOnceGrows(i, c, reply, log, e, retention, at);
      }
  }

  lemma {:induction false} LoggedOnceGrows(i: nat, c: Call, reply: Reply, log: seq<Commit>, e: Commit, retention: int,
                                           at: nat)
    requires LoggedOnce(i, c, reply, log, retention, at) && e.call != i
    ensures LoggedOnce(i, c, reply, log + [e], retention, at)
  {
    assert (log + [e])[..at] == log[..at];
  }

  lemma {:induction false} BeginKeepsInv(s: State, s': State, ask: Ask, retention: int)
    requires Inv(s, retention) && Begin(s, s', ask)
    ensures Inv(s', retention)
  {
    assert NotLogged(|s.calls|, s.log);
    assert CallInv(|s.calls|, s'.calls[|s.calls|], s.log, retention);
  }

  /** Steps that only move one call. */
  lemma {:induction false} ReadKeepsInv(s: State, s': State, i: nat, retention: int)
    requires Inv(s, retention) && (GetVersion(s, s', i) || LoadTokens(s, s', i) || Rejected(s, s', i))
    ensures Inv(s', retention)
  {
    var c, c', log := s.calls[i], s'.calls[i], s.log;
    assert CallInv(i, c, log, retention);
    if GetVersion(s, s', i) {
      assert ExpectedAt(c', log, |log|);
    } else if LoadTokens(s, s', i) {
      var n: nat :| ExpectedAt(c, log, n) && c.phase.expected == VersionAfter(n);
      assert log[..|log|] == log;
      assert ExpectedAt(c', log, n) && SnapshotOf(s.hash, log, retention, n, |log|);
    } else {
      var n: nat, m: nat :| ExpectedAt(c, log, n) && c.phase.expected == VersionAfter(n)
        && SnapshotOf(c.phase.tokens, log, retention, n, m);
      assert n != |log|;
    }
    assert CallInv(i, c', log, retention);
  }

  /** Returning and failing keep what is known of the call's commit. */
  lemma {:induction false} SettleKeepsInv(s: State, s': State, i: nat, retention: int)
    requires Inv(s, retention) && (Return(s, s', i) || Fail(s, s', i))
    ensures Inv(s', retention)
  {
    var c, c', log := s.calls[i], s'.calls[i], s.log;
    assert CallInv(i, c, log, retention);
    if !NotLogged(i, log) {
      var at: nat, reply :|
        LoggedOnce(i, c, reply, log, retention, at) && (c.phase.Applied? ==> reply == c.phase.reply);
      assert LoggedOnce(i, c', reply, log, retention, at);
    }
    assert CallInv(i, c', log, retention);
  }

  /** When the fence passes, the snapshot is the stored map. */
  lemma {:induction false} FenceExact(s: State, i: nat, retention: int)
    requires Inv(s, retention) && i < |s.calls| && s.calls[i].phase.HasSnapshot?
      && s.version == s.calls[i].phase.expected
    ensures s.calls[i].phase.tokens == s.hash
  {
    var c := s.calls[i];
    assert CallInv(i, c, s.log, retention);
    var n: nat, m: nat :| ExpectedAt(c, s.log, n) && c.phase.expected == VersionAfter(n)
      && SnapshotOf(c.phase.tokens, s.log, retention, n, m);
    assert m == |s.log| && s.log[..m] == s.log;
  }

  lemma {:induction false} CommittedCall(s: State, s': State, i: nat, now: int, retention: int, d: Diff)
    requires Inv(s, retention) && Committed(s, s', i, now, retention, d)
    ensures CallInv(i, s'.calls[i], s'.log, retention)
  {
    FenceExact(s, i, retention);
    assert CallInv(i, s.calls[i], s.log, retention);
    assert s'.log[..|s.log|] == s.log;
    assert LoggedOnce(i, s'.calls[i], s'.calls[i].phase.reply, s'.log, retention, |s.log|);
  }

  lemma {:induction false} CommittedKeepsInv(s: State, s': State, i: nat, now: int, retention: int, d: Diff)
    requires Inv(s, retention) && Committed(s, s', i, now, retention, d)
    ensures Inv(s', retention)
  {
    var e := Commit(i, s.calls[i].ask, now);
    FenceExact(s, i, retention);
    assert s'.log[..|s.log|] == s.log;
    CommittedCall(s, s', i, now, retention, d);
    forall j | 0 <= j < |s'.calls| && j != i ensures CallInv(j, s'.calls[j], s'.log, retention) {
      assert CallInv(j, s.calls[j], s.log, retention);
      CallInvGrows(j, s.calls[j], s.log, e, retention);
    }
  }

  lemma {:induction false} NextKeepsInv(s: State, s': State, retention: int)
    requires Inv(s, retention) && Next(s, s', retention)
    ensures Inv(s', retention)
  {
    if ask :| Begin(s, s', ask) {
      BeginKeepsInv(s, s', ask, retention);
    } else {
      var i: nat, now: int, d: Diff :| CallStep(s, s', i, now, retention, d);
      if Committed(s, s', i, now, retention, d) {
        CommittedKeepsInv(s, s', i, now, retention, d);
      } else if Return(s, s', i) || Fail(s, s', i) {
        SettleKeepsInv(s, s', i, retention);
      } else {
        ReadKeepsInv(s, s', i, retention);
      }
    }
  }

  ghost predicate StepAt(run: seq<State>, retention: int, i: nat)
    requires i + 1 < |run|
  {
    Next(run[i], run[i + 1], retention)
  }

  ghost predicate IsRun(run: seq<State>, retention: int) {
    && run != [] && run[0] == EMPTY
    && forall i :: 0 <= i < |run| - 1 ==> StepAt(run, retention, i)
  }

  lemma {:induction false} RunInv(run: seq<State>, retention: int, n: nat)
    requires IsRun(run, retention) && n < |run|
    ensures Inv(run[n], retention)
  {
    if n == 0 {
    } else {
      RunInv(run, retention, n - 1);
      assert StepAt(run, retention, n - 1);
      NextKeepsInv(run[n - 1], run[n], retention);
    }
  }

  // ----- Results -----

  /** What a call may conclude from how it stands about the commits of the serial history. */
  ghost predicate Serial(i: nat, c: Call, log: seq<Commit>, retention: int) {
    match c.phase
    case Applied(reply) => exists at: nat :: LoggedOnce(i, c, reply, log, retention, at)
    case Returned(reply) => exists at: nat :: LoggedOnce(i, c, reply, log, retention, at)
    case Failed => NotLogged(i, log) || exists at: nat, reply :: LoggedOnce(i, c, reply, log, retention, at)
    case _ => NotLogged(i, log)
  }

  /**
   In every state of every run the stored map is the serial replay of the
   commits. Every call that returned is committed exactly once, after it began,
   with the answer the serial history gives there; no call is committed twice;
   one that gave up on conflicts is not committed, and one that failed otherwise
   may or may not be.
   */
  lemma {:induction false} Serializable(run: seq<State>, retention: int, n: nat)
    requires IsRun(run, retention) && n < |run|
    ensures run[n].hash == Replay(map[], run[n].log, retention)
    ensures forall i :: 0 <= i < |run[n].calls| ==> Serial(i, run[n].calls[i], run[n].log, retention)
  {
    RunInv(run, retention, n);
    forall i | 0 <= i < |run[n].calls| ensures Serial(i, run[n].calls[i], run[n].log, retention) {
      assert CallInv(i, run[n].calls[i], run[n].log, retention);
    }
  }

  /** The run in which one call applies its diff and then fails, as when the script's reply is lost. */
  ghost function LostReply(ask: Ask, now: int, retention: int): seq<State> {
    var reply, tokens := ReplyTo(map[], ask, now), Effect(map[], ask, now, retention);
    [ EMPTY,
      State(None, map[], [Call(ask, 0, 0, Starting)], []),
      State(None, map[], [Call(ask, 0, 0, HasVersion(None))], []),
      State(None, map[], [Call(ask, 0, 0, HasSnapshot(None, map[]))], []),
      State(Some(1), tokens, [Call(ask, 0, 0, Applied(reply))], [Commit(0, ask, now)]),
      State(Some(1), tokens, [Call(ask, 0, 0, Failed)], [Commit(0, ask, now)]) ]
  }

  lemma {:induction false} LostReplySteps(ask: Ask, now: int, retention: int)
    ensures var run := LostReply(ask, now, retention);
      && Next(run[1], run[2], retention) && Next(run[2], run[3], retention) && Next(run[4], run[5], retention)
  {
    var run, d := LostReply(ask, now, retention), Diff(map[], {});
    assert CallStep(run[1], run[2], 0, now, retention, d) by { assert GetVersion(run[1], run[2], 0); }
    assert CallStep(run[2], run[3], 0, now, retention, d) by { assert LoadTokens(run[2], run[3], 0); }
    assert CallStep(run[4], run[5], 0, now, retention, d) by { assert Fail(run[4], run[5], 0); }
  }

  lemma {:induction false} LostReplyCommits(ask: Ask, now: int, retention: int)
    ensures var run := LostReply(ask, now, retention); Next(run[3], run[4], retention)
  {
    var run, tokens := LostReply(ask, now, retention), Effect(map[], ask, now, retention);
    var d := Diff(tokens, {});
    assert Apply(map[], d) == tokens;
    assert Committed(run[3], run[4], 0, now, retention, d);
    assert CallStep(run[3], run[4], 0, now, retention, d);
  }

  lemma {:induction false} FiveSteps(run: seq<State>, retention: int)
    requires |run| == 6 && run[0] == EMPTY && Next(run[0], run[1], retention) && Next(run[1], run[2], retention)
    requires Next(run[2], run[3], retention) && Next(run[3], run[4], retention) && Next(run[4], run[5], retention)
    ensures IsRun(run, retention)
  {
    forall i | 0 <= i < |run| - 1 ensures StepAt(run, retention, i) {
      assert i == 0 || i == 1 || i == 2 || i == 3 || i == 4;
    }
  }

  /** A call that fails may have changed the stored map. */
  lemma {:induction false} FailedMayBeCommitted(ask: Ask, now: int, retention: int)
    ensures var run := LostReply(ask, now, retention);
      && IsRun(run, retention) && run[5].calls[0].phase.Failed? && !NotLogged(0, run[5].log)
      && run[5].hash == Effect(map[], ask, now, retention)
  {
    LostReplyBegins(ask, now, retention);
    LostReplySteps(ask, now, retention);
    LostReplyCommits(ask, now, retention);
    FiveSteps(LostReply(ask, now, retention), retention);
    LostReplyEnds(ask, now, retention);
  }

  lemma {:induction false} LostReplyBegins(ask: Ask, now: int, retention: int)
    ensures var run := LostReply(ask, now, retention); Next(run[0], run[1], retention)
  {
    var run := LostReply(ask, now, retention);
    assert Begin(run[0], run[1], ask);
  }

  lemma {:induction false} LostReplyEnds(ask: Ask, now: int, retention: int)
    ensures var last := LostReply(ask, now, retention)[5];
      last.calls[0].phase.Failed? && !NotLogged(0, last.log) && last.hash == Effect(map[], ask, now, retention)
  {
    assert LostReply(ask, now, retention)[5].log[0].call == 0;
  }

  /** A call that gives up has seen at least MAX_MUTATE_RETRIES other commits since it began, and changed nothing. */
  lemma {:induction false} GivesUpOnlyUnderContention(run: seq<State>, retention: int, n: nat, i: nat)
    requires IsRun(run, retention) && n < |run| && i < |run[n].calls| && run[n].calls[i].phase.Conflicted?
    ensures |run[n].log| >= run[n].calls[i].begun + MAX_MUTATE_RETRIES && NotLogged(i, run[n].log)
  {
    RunInv(run, retention, n);
    assert CallInv(i, run[n].calls[i], run[n].log, retention);
  }

  /** A rejection is the last one exactly at the sixty-fourth attempt. */
  lemma {:induction false} RejectedExactly(run: seq<State>, retention: int, n: nat, s': State, i: nat)
    requires IsRun(run, retention) && n < |run| && Rejected(run[n], s', i)
    ensures run[n].calls[i].attempt < 64
    ensures s'.calls[i].phase == if run[n].calls[i].attempt == 63 then Conflicted else Starting
  {
    RunInv(run, retention, n);
    assert CallInv(i, run[n].calls[i], run[n].log, retention);
  }

  lemma {:induction false} NextGrows(s: State, s': State, retention: int)
    requires Next(s, s', retention)
    ensures s.log <= s'.log && |s.calls| <= |s'.calls|
    ensures forall j :: 0 <= j < |s.calls| ==> s'.calls[j].begun == s.calls[j].begun
    ensures forall j :: |s.calls| <= j < |s'.calls| ==> s'.calls[j].begun == |s.log|
  {
    if ask :| Begin(s, s', ask) {
    } else {
      var i: nat, now: int, d: Diff :| CallStep(s, s', i, now, retention, d);
    }
  }

  /** A call that begins after another has returned is committed after it. */
  lemma {:induction false} RealTimeOrder(run: seq<State>, retention: int, n: nat, m: nat, i: nat, j: nat, a: nat,
                                         b: nat)
    requires IsRun(run, retention) && n <= m < |run|
    requires i < |run[n].calls| <= j < |run[m].calls|
    requires run[n].calls[i].phase.Returned? && run[m].calls[j].phase.Returned?
    requires LoggedOnce(i, run[n].calls[i], run[n].calls[i].phase.reply, run[n].log, retention, a)
    requires LoggedOnce(j, run[m].calls[j], run[m].calls[j].phase.reply, run[m].log, retention, b)
    ensures a < b
  {
    BegunLater(run, retention, n, m, j);
  }

  lemma {:induction false} BegunStep(s: State, s': State, retention: int, j: nat, bound: nat)
    requires Next(s, s', retention) && j < |s'.calls| && bound <= |s.log|
    requires j < |s.calls| ==> bound <= s.calls[j].begun
    ensures bound <= s'.calls[j].begun
  {
    NextGrows(s, s', retention);
  }

  lemma {:induction false} BegunLater(run: seq<State>, retention: int, n: nat, m: nat, j: nat)
    requires IsRun(run, retention) && n <= m < |run| && |run[n].calls| <= j < |run[m].calls|
    ensures run[m].calls[j].begun >= |run[n].log|
  {
    assert StepAt(run, retention, m - 1);
    LogGrows(run, retention, n, m - 1);
    if j < |run[m - 1].calls| { BegunLater(run, retention, n, m - 1, j); }
    BegunStep(run[m - 1], run[m], retention, j, |run[n].log|);
  }

  lemma {:induction false} LogGrows(run: seq<State>, retention: int, n: nat, m: nat)
    requires IsRun(run, retention) && n <= m < |run|
    ensures |run[n].log| <= |run[m].log|
  {
    if n == m {
    } else {
      LogGrows(run, retention, n, m - 1);
      assert StepAt(run, retention, m - 1);
      NextGrows(run[m - 1], run[m], retention);
    }
  }

  /** The script applied the diff of call i, and the call has not ended. */
  ghost predicate InScript(s: State, i: nat) {
    i < |s.calls| && s.calls[i].phase.Applied?
  }

  lemma {:induction false} NewCommitInScript(s: State, s': State, retention: int, i: nat)
    requires Next(s, s', retention) && NotLogged(i, s.log) && !NotLogged(i, s'.log)
    ensures InScript(s', i)
  {
    if ask :| Begin(s, s', ask) {
    } else {
      var u: nat, now: int, d: Diff :| CallStep(s, s', u, now, retention, d);
      assert Committed(s, s', u, now, retention, d) && u == i;
    }
  }

  lemma {:induction false} CommittedWasInScript(run: seq<State>, retention: int, n: nat, i: nat) returns (m: nat)
    requires IsRun(run, retention) && n < |run| && !NotLogged(i, run[n].log)
    ensures m <= n && InScript(run[m], i)
  {
    assert n > 0;
    assert StepAt(run, retention, n - 1);
    if NotLogged(i, run[n - 1].log) {
      NewCommitInScript(run[n - 1], run[n], retention, i);
      m := n;
    } else {
      m := CommittedWasInScript(run, retention, n - 1, i);
    }
  }

  lemma {:induction false} StaysLogged(run: seq<State>, retention: int, m: nat, n: nat, i: nat)
    requires IsRun(run, retention) && m <= n < |run| && !NotLogged(i, run[m].log)
    ensures !NotLogged(i, run[n].log)
    decreases n - m
  {
    if m == n {
    } else {
      StaysLogged(run, retention, m, n - 1, i);
      assert StepAt(run, retention, n - 1);
      NextGrows(run[n - 1], run[n], retention);
      var k :| 0 <= k < |run[n - 1].log| && run[n - 1].log[k].call == i;
      assert run[n].log[k].call == i;
    }
  }

  /** A call that failed is among the commits of the stored map exactly when the script had applied its diff before. */
  lemma {:induction false} FailedCommittedIff(run: seq<State>, retention: int, n: nat, i: nat)
    requires IsRun(run, retention) && n < |run| && i < |run[n].calls| && run[n].calls[i].phase.Failed?
    ensures !NotLogged(i, run[n].log) <==> exists m: nat :: m < n && InScript(run[m], i)
  {
    if !NotLogged(i, run[n].log) {
      var m := CommittedWasInScript(run, retention, n, i);
      assert m < n && InScript(run[m], i);
    }
    if m: nat :| m < n && InScript(run[m], i) {
      RunInv(run, retention, m);
      assert CallInv(i, run[m].calls[i], run[m].log, retention);
      StaysLogged(run, retention, m, n, i);
    }
  }

  /**
   Deterministic calls from any number of concurrent writers, undisturbed by
   purge or expiry: the stored map has exactly one record per value asked for,
   whose token every call for that value returned.
   */
  lemma {:induction false} ConcurrentDeterministic(run: seq<State>, retention: int, n: nat,
                                                   derive: (Kind, Plaintext) -> Token, i: nat)
    requires IsRun(run, retention) && n < |run| && i < |run[n].calls|
    requires Injective(derive) && Derived(run[n].log, derive) && Undisturbed(run[n].log, retention)
    requires run[n].calls[i].ask.Tokenize? && run[n].calls[i].phase.Returned?
    ensures var ask, reply, hash := run[n].calls[i].ask, run[n].calls[i].phase.reply, run[n].hash;
      && reply.Tokenized? && reply.token == derive(ask.kind, ask.plaintext) && reply.token in hash
      && hash[reply.token].kind == ask.kind && hash[reply.token].envelope.plaintext == ask.plaintext
      && forall t :: t in hash && hash[t].kind == ask.kind && hash[t].envelope.plaintext == ask.plaintext ==>
         t == reply.token
  {
    var s := run[n];
    var ask := s.calls[i].ask;
    RunInv(run, retention, n);
    assert CallInv(i, s.calls[i], s.log, retention);
    var at: nat :| LoggedOnce(i, s.calls[i], s.calls[i].phase.reply, s.log, retention, at);
    RepeatReuses(s.log, derive, retention, at);
    assert AskedFor(s.log, ask.kind, ask.plaintext);
    OneRecordPerValue(s.log, derive, retention, ask.kind, ask.plaintext);
    var token := derive(ask.kind, ask.plaintext);
    forall t | t in s.hash && s.hash[t].kind == ask.kind && s.hash[t].envelope.plaintext == ask.plaintext
      ensures t == token
    {
      OneRecordEach(s.log, derive, retention, t, token);
    }
  }

  // ----- A call that runs alone -----

  lemma {:induction false} OneMore(run: seq<State>, s: State, retention: int)
    requires IsRun(run, retention) && Next(run[|run| - 1], s, retention)
    ensures IsRun(run + [s], retention)
  {
    var longer := run + [s];
    forall i | 0 <= i < |longer| - 1 ensures StepAt(longer, retention, i) {
      if i < |run| - 1 { assert StepAt(run, retention, i); }
    }
  }

  /** Between two states call i alone has moved: it did its work on the stored map and returned the answer. */
  ghost predicate Succeeds(s: State, t: State, i: nat, now: int, retention: int)
    requires i < |s.calls|
  {
    var ask := s.calls[i].ask;
    && t.hash == Effect(s.hash, ask, now, retention) && t.log == s.log + [Commit(i, ask, now)]
    && |t.calls| == |s.calls| && t.calls[i].phase == Returned(ReplyTo(s.hash, ask, now))
    && forall j :: 0 <= j < |s.calls| && j != i ==> t.calls[j] == s.calls[j]
  }

  /** What any mutation changes can be told as a diff. */
  lemma {:induction false} SomeDiff(tokens: Tokens, after: Tokens) returns (d: Diff)
    ensures Apply(tokens, d) == after
  {
    d := Diff(after, tokens.Keys - after.Keys);
  }

  /** With the version and the map as they are stored the script commits. */
  lemma {:induction false} CurrentCommits(run: seq<State>, i: nat, now: int, retention: int, reply: Reply)
    returns (applied: State)
    requires IsRun(run, retention) && i < |run[|run| - 1].calls|
    requires var s := run[|run| - 1];
      s.calls[i].phase == HasSnapshot(s.version, s.hash) && reply == ReplyTo(s.hash, s.calls[i].ask, now)
    ensures IsRun(run + [applied], retention)
    ensures var s := run[|run| - 1];
      && applied.hash == Effect(s.hash, s.calls[i].ask, now, retention)
      && applied.log == s.log + [Commit(i, s.calls[i].ask, now)]
      && applied.calls == s.calls[i := s.calls[i].(phase := Applied(reply))]
  {
    var s := run[|run| - 1];
    var c := s.calls[i];
    var d := SomeDiff(s.hash, Effect(s.hash, c.ask, now, retention));
    applied := State(
      Some(if s.version.None? then 1 else s.version.value + 1), Apply(s.hash, d),
      s.calls[i := c.(phase := Applied(reply))], s.log + [Commit(i, c.ask, now)]);
    assert CallStep(s, applied, i, now, retention, d) by { assert Committed(s, applied, i, now, retention, d); }
    OneMore(run, applied, retention);
  }

  lemma {:induction false} CurrentSucceeds(run: seq<State>, i: nat, now: int, retention: int)
    returns (longer: seq<State>)
    requires IsRun(run, retention) && i < |run[|run| - 1].calls|
    requires var s := run[|run| - 1]; s.calls[i].phase == HasSnapshot(s.version, s.hash)
    ensures IsRun(longer, retention) && run <= longer
    ensures Succeeds(run[|run| - 1], longer[|longer| - 1], i, now, retention)
  {
    var s, d := run[|run| - 1], Diff(map[], {});
    var reply := ReplyTo(s.hash, s.calls[i].ask, now);
    var applied := CurrentCommits(run, i, now, retention, reply);
    var returned := applied.(calls := applied.calls[i := applied.calls[i].(phase := Returned(reply))]);
    assert CallStep(applied, returned, i, now, retention, d) by { assert Return(applied, returned, i); }
    OneMore(run + [applied], returned, retention);
    longer := run + [applied] + [returned];
  }

  lemma {:induction false} StartingSucceeds(run: seq<State>, i: nat, now: int, retention: int)
    returns (longer: seq<State>)
    requires IsRun(run, retention) && i < |run[|run| - 1].calls| && run[|run| - 1].calls[i].phase.Starting?
    ensures IsRun(longer, retention) && run <= longer
    ensures Succeeds(run[|run| - 1], longer[|longer| - 1], i, now, retention)
  {
    var s, d := run[|run| - 1], Diff(map[], {});
    var versioned := s.(calls := s.calls[i := s.calls[i].(phase := HasVersion(s.version))]);
    assert CallStep(s, versioned, i, now, retention, d) by { assert GetVersion(s, versioned, i); }
    OneMore(run, versioned, retention);
    var loaded := versioned.(calls := versioned.calls[i := versioned.calls[i].(phase := HasSnapshot(s.version,
      s.hash))]);
    assert CallStep(versioned, loaded, i, now, retention, d) by { assert LoadTokens(versioned, loaded, i); }
    OneMore(run + [versioned], loaded, retention);
    longer := CurrentSucceeds(run + [versioned] + [loaded], i, now, retention);
    assert run <= run + [versioned] + [loaded];
  }

  /** A call whose snapshot is out of date starts over. */
  lemma {:induction false} StaleSucceeds(run: seq<State>, i: nat, now: int, retention: int)
    returns (longer: seq<State>)
    requires IsRun(run, retention) && i < |run[|run| - 1].calls|
    requires var s := run[|run| - 1];
      s.calls[i].phase.HasSnapshot? && s.version != s.calls[i].phase.expected && s.calls[i].attempt < 63
    ensures IsRun(longer, retention) && run <= longer
    ensures Succeeds(run[|run| - 1], longer[|longer| - 1], i, now, retention)
  {
    var s, d := run[|run| - 1], Diff(map[], {});
    var c := s.calls[i];
    var again := s.(calls := s.calls[i := c.(attempt := c.attempt + 1, phase := Starting)]);
    assert CallStep(s, again, i, now, retention, d) by { assert Rejected(s, again, i); }
    OneMore(run, again, retention);
    longer := StartingSucceeds(run + [again], i, now, retention);
    assert run <= run + [again];
  }

  lemma {:induction false} LoadedSucceeds(run: seq<State>, i: nat, now: int, retention: int)
    returns (longer: seq<State>)
    requires IsRun(run, retention) && i < |run[|run| - 1].calls|
    requires run[|run| - 1].calls[i].phase.HasSnapshot? && run[|run| - 1].calls[i].attempt < 63
    ensures IsRun(longer, retention) && run <= longer
    ensures Succeeds(run[|run| - 1], longer[|longer| - 1], i, now, retention)
  {
    if run[|run| - 1].version == run[|run| - 1].calls[i].phase.expected {
      RunInv(run, retention, |run| - 1);
      FenceExact(run[|run| - 1], i, retention);
      longer := CurrentSucceeds(run, i, now, retention);
    } else {
      longer := StaleSucceeds(run, i, now, retention);
    }
  }

  /**
   Whatever has happened, a call in progress that has a retry left does its work on
   the stored map and returns if nothing else runs.
   */
  lemma {:induction false} AloneSucceeds(run: seq<State>, i: nat, now: int, retention: int)
    returns (longer: seq<State>)
    requires IsRun(run, retention) && i < |run[|run| - 1].calls|
    requires var c := run[|run| - 1].calls[i];
      c.phase.Starting? || ((c.phase.HasVersion? || c.phase.HasSnapshot?) && c.attempt < 63)
    ensures IsRun(longer, retention) && run <= longer
    ensures Succeeds(run[|run| - 1], longer[|longer| - 1], i, now, retention)
  {
    var s, d := run[|run| - 1], Diff(map[], {});
    var c := s.calls[i];
    if c.phase.Starting? {
      longer := StartingSucceeds(run, i, now, retention);
    } else if c.phase.HasSnapshot? {
      longer := LoadedSucceeds(run, i, now, retention);
    } else {
      var loaded := s.(calls := s.calls[i := c.(phase := HasSnapshot(c.phase.expected, s.hash))]);
      assert CallStep(s, loaded, i, now, retention, d) by { assert LoadTokens(s, loaded, i); }
      OneMore(run, loaded, retention);
      longer := LoadedSucceeds(run + [loaded], i, now, retention);
      assert run <= run + [loaded];
    }
  }

  /** A call can begin at any time, and by itself it succeeds. */
  lemma {:induction false} NewCallSucceeds(run: seq<State>, ask: Ask, now: int, retention: int)
    returns (longer: seq<State>)
    requires IsRun(run, retention)
    ensures IsRun(longer, retention) && run <= longer
    ensures var s, t := run[|run| - 1], longer[|longer| - 1];
      && t.hash == Effect(s.hash, ask, now, retention) && t.log == s.log + [Commit(|s.calls|, ask, now)]
      && |t.calls| == |s.calls| + 1 && t.calls[|s.calls|].phase == Returned(ReplyTo(s.hash, ask, now))
  {
    var s := run[|run| - 1];
    var begun := s.(calls := s.calls + [Call(ask, |s.log|, 0, Starting)]);
    assert Begin(s, begun, ask);
    OneMore(run, begun, retention);
    longer := StartingSucceeds(run + [begun], |s.calls|, now, retention);
    assert run <= run + [begun];
  }
}
