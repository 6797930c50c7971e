/**
 The shared audit store: any number of writers, with no mutual exclusion at all,
 append through one server-side compare-and-append that is fenced on the hash of
 the head. Whatever the interleaving, the stored chain is one that a single
 writer could have left. Each call that reports success is in it once, and no
 call is in it twice; a call that reports failure may be in it.
 */
module FencedAuditStore {
  import opened Texts
  import opened Json
  import opened StoreContract

  const MAX_APPEND_RETRIES: nat := 64

  /** Where one `record()` call stands. `base` is the length of the chain whose head it read. */
  datatype Writer =
    | Reading(attempts: nat)
    | Built(attempts: nat, base: nat, line: Value)
    | Persisted // the script ran; its reply, the anchor write and the release of the lock are still to come
    | Done
    | Conflicted
    | Failed

  /**
   The store's keys (`chain`, `head`, `head:hash`; an absent key is `Null`), and
   the calls in progress; `begun` is how many lines there were when a call began.
   */
  datatype State = State(
    chain: seq<Value>, head: Value, headHash: Value,
    calls: map<nat, Value>, writers: map<nat, Writer>, commits: seq<nat>, begun: map<nat, nat>)

  const EMPTY := State([], Null, Null, map[], map[], [], map[])

  /** The append script's test: an absent head matches the empty string, a present one only its own text. */
  predicate FencePasses(headHash: Value, previousHash: Value) {
    var expected := if previousHash.Str? then previousHash.s else [];
    (headHash.Null? && expected == []) || headHash == Str(expected)
  }

  // ----- Steps -----

  /** A new call arrives with some event. */
  ghost predicate Begin(core: Core, s: State, s': State, w: nat) {
    && w !in s.writers && w in s'.calls && core.accepts(s'.calls[w])
    && s' == s.(calls := s.calls[w := s'.calls[w]], writers := s.writers[w := Reading(0)],
                begun := s.begun[w := |s.chain|])
  }

  ghost predicate ReadHead(core: Core, s: State, s': State, w: nat) {
    && w in s.writers && s.writers[w].Reading? && w in s.calls
    && var built := Built(s.writers[w].attempts, |s.chain|, core.build(s.head, s.calls[w]));
       s' == s.(writers := s.writers[w := built])
  }

  /** The fence passes: append, and move both head keys. */
  ghost predicate Commit(core: Core, s: State, s': State, w: nat) {
    && w in s.writers && s.writers[w].Built?
    && var line := s.writers[w].line;
       && FencePasses(s.headHash, core.previousHash(line))
       && s' == s.(chain := s.chain + [line], head := core.integrity(line), headHash := core.eventHash(line),
                   writers := s.writers[w := Persisted], commits := s.commits + [w])
  }

  /** The fence refuses: read again, or give up after the last retry. */
  ghost predicate Conflict(core: Core, s: State, s': State, w: nat) {
    && w in s.writers && s.writers[w].Built?
    && !FencePasses(s.headHash, core.previousHash(s.writers[w].line))
    && var n := s.writers[w].attempts + 1;
       s' == s.(writers := s.writers[w := if n < MAX_APPEND_RETRIES then Reading(n) else Conflicted])
  }

  /** The reply arrived and the anchor, if one is due, is written: the call reports success. */
  ghost predicate Finish(s: State, s': State, w: nat) {
    && w in s.writers && s.writers[w].Persisted?
    && s' == s.(writers := s.writers[w := Done])
  }

  /** Anything but a conflict fails the call, at any point before it reports success. */
  ghost predicate Fail(s: State, s': State, w: nat) {
    && w in s.writers && !s.writers[w].Done? && !s.writers[w].Conflicted?
    && s' == s.(writers := s.writers[w := Failed])
  }

  ghost predicate Step(core: Core, s: State, s': State, w: nat) {
    || Begin(core, s, s', w) || ReadHead(core, s, s', w) || Commit(core, s, s', w)
    || Conflict(core, s, s', w) || Finish(s, s', w) || Fail(s, s', w)
  }

  ghost predicate Next(core: Core, s: State, s': State) {
    exists w: nat :: Step(core, s, s', w)
  }

  // ----- Invariant -----

  /** The events of the committed calls, in commit order. */
  ghost function Committed(s: State): seq<Value>
    requires forall i :: 0 <= i < |s.commits| ==> s.commits[i] in s.calls
  {
    seq(|s.commits|, i requires 0 <= i < |s.commits| => s.calls[s.commits[i]])
  }

  /** A line in hand was built on some earlier state of this very chain. */
  ghost predicate WriterOk(core: Core, chain: seq<Value>, event: Value, writer: Writer) {
    && core.accepts(event)
    && (writer.Built? ==> writer.base <= |chain| && writer.line == Line(core, chain[..writer.base], event))
  }

  /**
   A call that got past the script has its line in the chain, one that did not has
   none, and a failed one may have.
   */
  ghost predicate CommitsOk(writers: map<nat, Writer>, commits: seq<nat>) {
    && Distinct(commits)
    && (forall w :: w in commits ==> w in writers && (writers[w].Persisted? || writers[w].Done? || writers[w].Failed?))
    && (forall w :: w in writers && (writers[w].Persisted? || writers[w].Done?) ==> w in commits)
  }

  ghost predicate Inv(core: Core, s: State) {
    && s.writers.Keys == s.calls.Keys
    && CommitsOk(s.writers, s.commits)
    && (forall w {:trigger s.writers[w]} :: w in s.writers ==> WriterOk(core, s.chain, s.calls[w], s.writers[w]))
    && s.head == Head(core, s.chain)
    && s.headHash == HeadHash(core, s.chain)
    && IsChainOf(core, Committed(s), s.chain)
  }

  // ----- What the fence needs of the chain -----

  /** A line points back to the head it was built on, and the head's hash tells how long the chain is. */
  ghost predicate Fences(core: Core) {
    forall events: seq<Value>, chain: seq<Value>, base: nat, event: Value
      {:trigger IsChainOf(core, events, chain), Line(core, chain[..base], event)} ::
      IsChainOf(core, events, chain) && base <= |chain| && core.accepts(event) ==>
        (FencePasses(HeadHash(core, chain), core.previousHash(Line(core, chain[..base], event))) <==> base == |chain|)
  }

  // ----- Every step keeps the invariant -----

  lemma {:induction false} WriterOkGrows(core: Core, chain: seq<Value>, line: Value, event: Value, writer: Writer)
    requires WriterOk(core, chain, event, writer)
    ensures WriterOk(core, chain + [line], event, writer)
  {
    if writer.Built? {
      assert (chain + [line])[..writer.base] == chain[..writer.base];
    }
  }

  /** Whoever commits built its line on the very end of the chain. */
  lemma {:induction false} CommitOnTail(core: Core, s: State, s': State, w: nat)
    requires Fences(core) && Inv(core, s) && Commit(core, s, s', w)
    ensures s.writers[w].base == |s.chain| && s.writers[w].line == Line(core, s.chain, s.calls[w])
  {
    var writer := s.writers[w];
    assert writer.line == Line(core, s.chain[..writer.base], s.calls[w]);
    assert s.chain[..|s.chain|] == s.chain;
  }

  lemma {:induction false} CommitCommitsOk(writers: map<nat, Writer>, commits: seq<nat>, w: nat)
    requires CommitsOk(writers, commits) && w in writers && w !in commits
    ensures CommitsOk(writers[w := Persisted], commits + [w])
  {
  }

  lemma {:induction false} CommitWritersOk(core: Core, s: State, s': State, w: nat)
    requires Inv(core, s) && Commit(core, s, s', w)
    ensures forall u {:trigger s'.writers[u]} :: u in s'.writers ==>
      u in s'.calls && WriterOk(core, s'.chain, s'.calls[u], s'.writers[u])
  {
    forall u | u in s'.writers ensures WriterOk(core, s'.chain, s'.calls[u], s'.writers[u]) {
      WriterOkGrows(core, s.chain, s.writers[w].line, s.calls[u], s.writers[u]);
    }
  }

  lemma {:induction false} CommitKeepsInv(core: Core, s: State, s': State, w: nat)
    requires Fences(core) && Inv(core, s) && Commit(core, s, s', w)
    ensures Inv(core, s')
  {
    CommitOnTail(core, s, s', w);
    CommitWritersOk(core, s, s', w);
    assert WriterOk(core, s.chain, s.calls[w], s.writers[w]);
    CommitCommitsOk(s.writers, s.commits, w);
    ChainAppend(core, Committed(s), s.chain, s.calls[w]);
    assert Committed(s') == Committed(s) + [s.calls[w]];
  }

  lemma {:induction false} BeginKeepsInv(core: Core, s: State, s': State, w: nat)
    requires Inv(core, s) && Begin(core, s, s', w)
    ensures Inv(core, s')
  {
    assert w !in s.commits;
    assert Committed(s') == Committed(s);
  }

  /** A step that only moves one writer keeps the invariant. */
  lemma {:induction false} MoveKeepsInv(core: Core, s: State, s': State, w: nat, writer: Writer)
    requires Inv(core, s) && w in s.writers && CommitsOk(s.writers[w := writer], s.commits)
    requires WriterOk(core, s.chain, s.calls[w], writer)
    requires s' == s.(writers := s.writers[w := writer])
    ensures Inv(core, s')
  {
    assert Committed(s') == Committed(s);
  }

  /** A call that moves on without a commit. */
  lemma {:induction false} MoveCommitsOk(writers: map<nat, Writer>, commits: seq<nat>, w: nat, writer: Writer)
    requires CommitsOk(writers, commits) && w in writers
    requires w in commits ==> writer.Persisted? || writer.Done? || writer.Failed?
    requires writer.Persisted? || writer.Done? ==> w in commits
    ensures CommitsOk(writers[w := writer], commits)
  {
  }

  lemma {:induction false} ReadKeepsInv(core: Core, s: State, s': State, w: nat)
    requires Inv(core, s) && ReadHead(core, s, s', w)
    ensures Inv(core, s')
  {
    assert WriterOk(core, s.chain, s.calls[w], s.writers[w]);
    assert s.chain[..|s.chain|] == s.chain;
    MoveCommitsOk(s.writers, s.commits, w, s'.writers[w]);
    MoveKeepsInv(core, s, s', w, s'.writers[w]);
  }

  lemma {:induction false} SettleKeepsInv(core: Core, s: State, s': State, w: nat)
    requires Inv(core, s) && (Conflict(core, s, s', w) || Finish(s, s', w) || Fail(s, s', w))
    ensures Inv(core, s')
  {
    assert WriterOk(core, s.chain, s.calls[w], s.writers[w]);
    MoveCommitsOk(s.writers, s.commits, w, s'.writers[w]);
    MoveKeepsInv(core, s, s', w, s'.writers[w]);
  }

  lemma {:induction false} NextKeepsInv(core: Core, s: State, s': State)
    requires Fences(core) && Inv(core, s) && Next(core, s, s')
    ensures Inv(core, s')
  {
    var w: nat :| Step(core, s, s', w);
    if Commit(core, s, s', w) {
      CommitKeepsInv(core, s, s', w);
    } else if Begin(core, s, s', w) {
      BeginKeepsInv(core, s, s', w);
    } else if ReadHead(core, s, s', w) {
      ReadKeepsInv(core, s, s', w);
    } else {
      SettleKeepsInv(core, s, s', w);
    }
  }

  // ----- Whole runs -----

  ghost predicate IsRun(core: Core, run: seq<State>) {
    && run != [] && run[0] == EMPTY
    && forall i :: 0 <= i < |run| - 1 ==> Next(core, run[i], run[i + 1])
  }

  /**
   In every state of every run the stored chain is the chain of the committed
   calls: one line each, none twice, none missing, each built on the one before.
   A call that reported success is committed; one still reading or building is not.
   */
  lemma {:induction false} NeverForks(core: Core, run: seq<State>, i: nat)
    requires Fences(core) && IsRun(core, run) && i < |run|
    ensures Inv(core, run[i])
  {
    if i == 0 {
      assert Committed(EMPTY) == [];
    } else {
      NeverForks(core, run, i - 1);
      assert Next(core, run[i - 1], run[i - 1 + 1]);
      NextKeepsInv(core, run[i - 1], run[i]);
    }
  }

  /** Line n of the chain is the one call w wrote, and its only one. */
  ghost predicate LoggedOnce(core: Core, s: State, w: nat, n: nat) {
    && n < |s.chain| && |s.commits| == |s.chain| && w in s.calls
    && s.commits[n] == w && IsLineAt(core, s.chain, n, s.calls[w])
    && forall m :: 0 <= m < |s.commits| && s.commits[m] == w ==> m == n
  }

  /**
   A call that reported success has exactly one line, built on the chain before
   it; one that gave up on conflicts or has not run the script has none; any
   other has at most one.
   */
  lemma {:induction false} LineForSuccess(core: Core, run: seq<State>, i: nat, w: nat)
    requires Fences(core) && IsRun(core, run) && i < |run| && w in run[i].writers
    ensures run[i].writers[w].Done? ==> exists n: nat :: LoggedOnce(core, run[i], w, n)
    ensures run[i].writers[w].Reading? || run[i].writers[w].Built? || run[i].writers[w].Conflicted? ==>
      w !in run[i].commits
    ensures w in run[i].commits ==> exists n: nat :: LoggedOnce(core, run[i], w, n)
  {
    var s := run[i];
    NeverForks(core, run, i);
    if w in s.commits {
      var n: nat :| n < |s.commits| && s.commits[n] == w;
      assert IsLineAt(core, s.chain, n, Committed(s)[n]);
      assert LoggedOnce(core, s, w, n);
    }
  }

  /** A conflict means that some other writer committed since this one read the head. */
  lemma {:induction false} ConflictMeansGrowth(core: Core, s: State, s': State, w: nat)
    requires Fences(core) && Inv(core, s) && Conflict(core, s, s', w)
    ensures s.writers[w].base < |s.chain|
  {
    assert WriterOk(core, s.chain, s.calls[w], s.writers[w]);
    assert s.writers[w].line == Line(core, s.chain[..s.writers[w].base], s.calls[w]);
  }

  lemma {:induction false} ConflictMeansProgress(core: Core, run: seq<State>, i: nat, s': State, w: nat)
    requires Fences(core) && IsRun(core, run) && i < |run| && Conflict(core, run[i], s', w)
    ensures run[i].writers[w].base < |run[i].chain|
  {
    NeverForks(core, run, i);
    ConflictMeansGrowth(core, run[i], s', w);
  }

  // ----- Contention and real time -----

  /** Every attempt that failed was overtaken by a line of its own. */
  ghost predicate Overtaken(writer: Writer, begun: nat, lines: nat) {
    && begun <= lines
    && match writer
       case Reading(attempts) => begun + attempts <= lines
       case Built(attempts, base, _) => begun + attempts <= base <= lines
       case Conflicted => begun + MAX_APPEND_RETRIES <= lines
       case _ => true
  }

  ghost predicate AllOvertaken(s: State) {
    && s.begun.Keys == s.writers.Keys
    && forall w {:trigger s.writers[w]} :: w in s.writers ==> Overtaken(s.writers[w], s.begun[w], |s.chain|)
  }

  lemma {:induction false} OneMoves(s: State, s': State, w: nat, writer: Writer, begun: nat)
    requires AllOvertaken(s) && |s.chain| <= |s'.chain| && Overtaken(writer, begun, |s'.chain|)
    requires s'.writers == s.writers[w := writer] && s'.begun == s.begun[w := begun]
    ensures AllOvertaken(s')
  {
    forall u | u in s'.writers ensures Overtaken(s'.writers[u], s'.begun[u], |s'.chain|) {
      if u != w { assert Overtaken(s.writers[u], s.begun[u], |s.chain|); }
    }
  }

  lemma {:induction false} StepOvertaken(core: Core, s: State, s': State, w: nat, begun: nat)
    requires Step(core, s, s', w) && w in s.writers && Overtaken(s.writers[w], begun, |s.chain|)
    requires Conflict(core, s, s', w) ==> s.writers[w].base < |s.chain|
    ensures w in s'.writers && s'.writers == s.writers[w := s'.writers[w]] && s'.begun == s.begun
    ensures |s.chain| <= |s'.chain| && Overtaken(s'.writers[w], begun, |s'.chain|)
  {
  }

  lemma {:induction false} NextKeepsOvertaken(core: Core, s: State, s': State)
    requires Fences(core) && Inv(core, s) && AllOvertaken(s) && Next(core, s, s')
    ensures AllOvertaken(s')
  {
    var w: nat :| Step(core, s, s', w);
    if Begin(core, s, s', w) {
      OneMoves(s, s', w, Reading(0), |s.chain|);
    } else {
      if Conflict(core, s, s', w) { ConflictMeansGrowth(core, s, s', w); }
      StepOvertaken(core, s, s', w, s.begun[w]);
      OneMoves(s, s', w, s'.writers[w], s.begun[w]);
    }
  }

  lemma {:induction false} RunOvertaken(core: Core, run: seq<State>, i: nat)
    requires Fences(core) && IsRun(core, run) && i < |run|
    ensures AllOvertaken(run[i])
  {
    if i == 0 {
    } else {
      RunOvertaken(core, run, i - 1);
      NeverForks(core, run, i - 1);
      assert Next(core, run[i - 1], run[i - 1 + 1]);
      NextKeepsOvertaken(core, run[i - 1], run[i]);
    }
  }

  /**
   A call that gives up was overtaken by at least MAX_APPEND_RETRIES lines since it
   began, all of them of other calls.
   */
  lemma {:induction false} GivesUpOnlyUnderContention(core: Core, run: seq<State>, i: nat, w: nat)
    requires Fences(core) && IsRun(core, run) && i < |run| && w in run[i].writers && run[i].writers[w].Conflicted?
    ensures w in run[i].begun && run[i].begun[w] + MAX_APPEND_RETRIES <= |run[i].commits| == |run[i].chain|
    ensures w !in run[i].commits
  {
    NeverForks(core, run, i);
    RunOvertaken(core, run, i);
  }

  /** No call makes more than MAX_APPEND_RETRIES attempts, and one that gives up has made that many. */
  ghost predicate AttemptsBounded(s: State) {
    forall w {:trigger s.writers[w]} :: w in s.writers ==>
      match s.writers[w]
      case Reading(attempts) => attempts < 64
      case Built(attempts, _, _) => attempts < 64
      case _ => true
  }

  lemma {:induction false} AttemptsCounted(core: Core, run: seq<State>, i: nat)
    requires IsRun(core, run) && i < |run|
    ensures AttemptsBounded(run[i])
  {
    if i == 0 {
    } else {
      AttemptsCounted(core, run, i - 1);
      assert Next(core, run[i - 1], run[i - 1 + 1]);
      var w: nat :| Step(core, run[i - 1], run[i], w);
    }
  }

  /** A conflict is the last one exactly at the sixty-fourth attempt. */
  lemma {:induction false} ConflictExactly(core: Core, run: seq<State>, i: nat, s': State, w: nat)
    requires IsRun(core, run) && i < |run| && Conflict(core, run[i], s', w)
    ensures run[i].writers[w].attempts < 64
    ensures s'.writers[w] == if run[i].writers[w].attempts == 63 then Conflicted
                             else Reading(run[i].writers[w].attempts + 1)
  {
    AttemptsCounted(core, run, i);
  }

  lemma {:induction false} CommitsGrow(core: Core, run: seq<State>, i: nat, j: nat)
    requires IsRun(core, run) && i <= j < |run|
    ensures run[i].commits <= run[j].commits
  {
    if i == j {
    } else {
      CommitsGrow(core, run, i, j - 1);
      assert Next(core, run[j - 1], run[j - 1 + 1]);
    }
  }

  /** A call that begins after another has reported success has its line behind the other's. */
  lemma {:induction false} RealTimeOrder(core: Core, run: seq<State>, i: nat, j: nat, u: nat, w: nat, n: nat, m: nat)
    requires Fences(core) && IsRun(core, run) && i <= j < |run|
    requires u in run[i].writers && run[i].writers[u].Done? && w !in run[i].writers
    requires LoggedOnce(core, run[j], u, n) && LoggedOnce(core, run[j], w, m)
    ensures n < |run[i].chain| <= m
  {
    NeverForks(core, run, i);
    CommitsGrow(core, run, i, j);
    var k: nat :| k < |run[i].commits| && run[i].commits[k] == u;
    assert run[j].commits[k] == u;
    assert w !in run[i].commits;
    assert forall l :: 0 <= l < |run[i].commits| ==> run[j].commits[l] == run[i].commits[l];
  }

  /** The script ran for call w, and the call has not ended. */
  ghost predicate InScript(s: State, w: nat) {
    w in s.writers && s.writers[w].Persisted?
  }

  lemma {:induction false} NewCommitInScript(core: Core, s: State, s': State, w: nat)
    requires Next(core, s, s') && w in s'.commits && w !in s.commits
    ensures InScript(s', w)
  {
    var u: nat :| Step(core, s, s', u);
    assert Commit(core, s, s', u) && u == w;
  }

  lemma {:induction false} CommittedWasInScript(core: Core, run: seq<State>, i: nat, w: nat) returns (j: nat)
    requires IsRun(core, run) && i < |run| && w in run[i].commits
    ensures j <= i && InScript(run[j], w)
  {
    assert i > 0;
    assert Next(core, run[i - 1], run[i - 1 + 1]);
    if w in run[i - 1].commits {
      j := CommittedWasInScript(core, run, i - 1, w);
    } else {
      NewCommitInScript(core, run[i - 1], run[i], w);
      j := i;
    }
  }

  /** A call that failed has its line in the chain exactly when the script had run for it before. */
  lemma {:induction false} FailedLoggedIff(core: Core, run: seq<State>, i: nat, w: nat)
    requires Fences(core) && IsRun(core, run) && i < |run| && w in run[i].writers && run[i].writers[w].Failed?
    ensures (exists n: nat :: LoggedOnce(core, run[i], w, n)) <==> exists j: nat :: j < i && InScript(run[j], w)
  {
    if n: nat :| LoggedOnce(core, run[i], w, n) {
      var j := CommittedWasInScript(core, run, i, w);
      assert j < i && InScript(run[j], w);
    }
    if j: nat :| j < i && InScript(run[j], w) {
      NeverForks(core, run, j);
      CommitsGrow(core, run, j, i);
      assert w in run[i].commits;
      LineForSuccess(core, run, i, w);
    }
  }

  /**
   The run in which one call appends its line and then fails, as when its reply is
   lost or its anchor cannot be written.
   */
  ghost function LostReply(core: Core, event: Value): seq<State> {
    var line := core.build(Null, event);
    var calls := map[0 := event];
    [ EMPTY,
      State([], Null, Null, calls, map[0 := Reading(0)], [], map[0 := 0]),
      State([], Null, Null, calls, map[0 := Built(0, 0, line)], [], map[0 := 0]),
      State([line], core.integrity(line), core.eventHash(line), calls, map[0 := Persisted], [0], map[0 := 0]),
      State([line], core.integrity(line), core.eventHash(line), calls, map[0 := Failed], [0], map[0 := 0]) ]
  }

  /** A call that reports failure may have its line in the chain. */
  lemma {:induction false} FailedMayBeLogged(core: Core, event: Value)
    requires Fences(core) && core.accepts(event)
    ensures var run := LostReply(core, event);
      IsRun(core, run) && run[4].writers[0].Failed? && run[4].chain == [Line(core, [], event)] && 0 in run[4].commits
  {
    var run := LostReply(core, event);
    EmptyChain(core);
    var none: seq<Value> := [];
    assert IsChainOf(core, none, none) && none[..0] == none;
    assert FencePasses(HeadHash(core, none), core.previousHash(Line(core, none[..0], event)));
    assert Step(core, run[0], run[1], 0);
    assert Step(core, run[1], run[2], 0);
    assert Step(core, run[2], run[3], 0) by { assert Commit(core, run[2], run[3], 0); }
    assert Step(core, run[3], run[4], 0);
  }

  // ----- A call that runs alone -----

  lemma {:induction false} OneMore(core: Core, run: seq<State>, s: State, w: nat)
    requires IsRun(core, run) && Step(core, run[|run| - 1], s, w)
    ensures IsRun(core, run + [s])
  {
    var longer := run + [s];
    forall i | 0 <= i < |longer| - 1 ensures Next(core, longer[i], longer[i + 1]) {
      if i < |run| - 1 { assert Next(core, run[i], run[i + 1]); }
    }
  }

  /** Between two states call w alone has moved: its line is the last one, and it reports success. */
  ghost predicate Succeeds(core: Core, s: State, t: State, w: nat)
    requires w in s.writers
  {
    && w in s.calls && t.chain == s.chain + [Line(core, s.chain, s.calls[w])] && t.commits == s.commits + [w]
    && t.calls == s.calls && t.writers == s.writers[w := Done]
  }

  /** The line built on the whole chain is appended, and the call returns. */
  lemma {:induction false} BuiltSucceeds(core: Core, run: seq<State>, w: nat) returns (longer: seq<State>)
    requires Fences(core) && IsRun(core, run)
    requires var s := run[|run| - 1]; w in s.writers && s.writers[w].Built? && s.writers[w].base == |s.chain|
    ensures IsRun(core, longer) && run <= longer && Succeeds(core, run[|run| - 1], longer[|longer| - 1], w)
  {
    var s := run[|run| - 1];
    NeverForks(core, run, |run| - 1);
    var line := s.writers[w].line;
    assert WriterOk(core, s.chain, s.calls[w], s.writers[w]);
    assert s.chain[..|s.chain|] == s.chain;
    assert IsChainOf(core, Committed(s), s.chain) && FencePasses(s.headHash, core.previousHash(line));
    var persisted := s.(chain := s.chain + [line], head := core.integrity(line), headHash := core.eventHash(line),
                        writers := s.writers[w := Persisted], commits := s.commits + [w]);
    assert Commit(core, s, persisted, w);
    var done := persisted.(writers := persisted.writers[w := Done]);
    assert Finish(persisted, done, w);
    OneMore(core, run, persisted, w);
    OneMore(core, run + [persisted], done, w);
    longer := run + [persisted] + [done];
  }

  lemma {:induction false} ReadingSucceeds(core: Core, run: seq<State>, w: nat) returns (longer: seq<State>)
    requires Fences(core) && IsRun(core, run)
    requires var s := run[|run| - 1]; w in s.writers && s.writers[w].Reading?
    ensures IsRun(core, longer) && run <= longer && Succeeds(core, run[|run| - 1], longer[|longer| - 1], w)
  {
    var s := run[|run| - 1];
    NeverForks(core, run, |run| - 1);
    var built := s.(writers :=
      s.writers[w := Built(s.writers[w].attempts, |s.chain|, core.build(s.head, s.calls[w]))]);
    assert ReadHead(core, s, built, w);
    OneMore(core, run, built, w);
    longer := BuiltSucceeds(core, run + [built], w);
    assert run <= run + [built];
  }

  /**
   Whatever has happened, a call in progress that has a retry left appends its line
   and reports success if nothing else runs.
   */
  lemma {:induction false} AloneSucceeds(core: Core, run: seq<State>, w: nat) returns (longer: seq<State>)
    requires Fences(core) && IsRun(core, run)
    requires var s := run[|run| - 1];
      w in s.writers && (s.writers[w].Reading? || (s.writers[w].Built? && s.writers[w].attempts < 63))
    ensures IsRun(core, longer) && run <= longer && Succeeds(core, run[|run| - 1], longer[|longer| - 1], w)
  {
    var s := run[|run| - 1];
    NeverForks(core, run, |run| - 1);
    if s.writers[w].Reading? {
      longer := ReadingSucceeds(core, run, w);
    } else if s.writers[w].base == |s.chain| {
      longer := BuiltSucceeds(core, run, w);
    } else {
      assert WriterOk(core, s.chain, s.calls[w], s.writers[w]);
      assert IsChainOf(core, Committed(s), s.chain);
      var again := s.(writers := s.writers[w := Reading(s.writers[w].attempts + 1)]);
      assert Conflict(core, s, again, w);
      OneMore(core, run, again, w);
      longer := ReadingSucceeds(core, run + [again], w);
      assert run <= run + [again];
    }
  }

  /** A call can begin at any time, and by itself it succeeds. */
  lemma {:induction false} NewCallSucceeds(core: Core, run: seq<State>, w: nat, event: Value)
    returns (longer: seq<State>)
    requires Fences(core) && IsRun(core, run) && w !in run[|run| - 1].writers && core.accepts(event)
    ensures IsRun(core, longer) && run <= longer
    ensures var s, t := run[|run| - 1], longer[|longer| - 1];
      && t.chain == s.chain + [Line(core, s.chain, event)] && t.commits == s.commits + [w]
      && t.calls == s.calls[w := event] && t.writers == s.writers[w := Done]
  {
    var s := run[|run| - 1];
    var begun := s.(calls := s.calls[w := event], writers := s.writers[w := Reading(0)],
                    begun := s.begun[w := |s.chain|]);
    assert Begin(core, s, begun, w);
    OneMore(core, run, begun, w);
    longer := ReadingSucceeds(core, run + [begun], w);
    assert run <= run + [begun];
  }
}
