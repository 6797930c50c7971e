/**
 The audit sink over a store with an exclusive transaction. Calls queue up in the
 order they are made; the one at the front enters, reads the last integrity
 block, persists its record, writes an anchor when one is due, and leaves. It may
 be rejected at any of these points. The log is always the chain of the records
 that were persisted, in call order.
 */
module ExclusiveAuditStore {
  import opened Texts
  import opened Json
  import opened StoreContract

  datatype Transaction =
    | Entered(event: Value)
    | HasRead(event: Value, previous: Value)
    | Persisted(event: Value)

  /** A call that has left the queue and the transaction, and whether its record was written. */
  datatype Outcome = Outcome(event: Value, written: bool)

  datatype State = State(
    queue: seq<Value>, active: seq<Transaction>, log: seq<Value>, anchored: seq<nat>, settled: seq<Outcome>)

  const EMPTY := State([], [], [], [], [])

  // ----- Steps -----

  /** `record(event)` is called: its transaction is chained after those already waiting. */
  ghost predicate Call(core: Core, s: State, s': State) {
    && |s'.queue| == |s.queue| + 1 && core.accepts(s'.queue[|s.queue|])
    && s' == s.(queue := s.queue + [s'.queue[|s.queue|]])
  }

  ghost predicate Enter(s: State, s': State) {
    && s.active == [] && s.queue != []
    && s' == s.(queue := s.queue[1..], active := [Entered(s.queue[0])])
  }

  ghost predicate Read(core: Core, s: State, s': State) {
    && |s.active| == 1 && s.active[0].Entered?
    && s' == s.(active := [HasRead(s.active[0].event, Head(core, s.log))])
  }

  ghost predicate Persist(core: Core, s: State, s': State) {
    && |s.active| == 1 && s.active[0].HasRead?
    && var t := s.active[0];
       s' == s.(log := s.log + [core.build(t.previous, t.event)], active := [Persisted(t.event)])
  }

  /** The anchors once one is written for the last record, if its sequence is a multiple of `every`. */
  ghost function Anchored(s: State, every: nat): seq<nat>
    requires every > 0
  {
    if |s.log| % every == 0 then s.anchored + [|s.log|] else s.anchored
  }

  /** The anchor, if one is due, is written, and the call succeeds. */
  ghost predicate Finish(s: State, s': State, every: nat)
    requires every > 0
  {
    && |s.active| == 1 && s.active[0].Persisted?
    && s' == s.(anchored := Anchored(s, every),
                active := [], settled := s.settled + [Outcome(s.active[0].event, true)])
  }

  /**
   Reading, persisting, anchoring or leaving throws: the call is rejected and the
   queue moves on. If the record is written, its anchor may be too.
   */
  ghost predicate Reject(s: State, s': State, every: nat)
    requires every > 0
  {
    && |s.active| == 1
    && (s'.anchored == s.anchored || (s.active[0].Persisted? && s'.anchored == Anchored(s, every)))
    && s' == s.(anchored := s'.anchored, active := [],
                settled := s.settled + [Outcome(s.active[0].event, s.active[0].Persisted?)])
  }

  ghost predicate Next(core: Core, every: nat, s: State, s': State)
    requires every > 0
  {
    || Call(core, s, s') || Enter(s, s') || Read(core, s, s') || Persist(core, s, s')
    || Finish(s, s', every) || Reject(s, s', every)
  }

  // ----- Invariant -----

  /** The events whose records were written, in the order their calls settled. */
  ghost function Written(settled: seq<Outcome>): seq<Value> {
    if settled == [] then []
    else
      var last := settled[|settled| - 1];
      Written(settled[..|settled| - 1]) + if last.written then [last.event] else []
  }

  /** All events in the log: those settled, and the one persisted but not yet finished. */
  ghost function Logged(s: State): seq<Value> {
    Written(s.settled) + if |s.active| == 1 && s.active[0].Persisted? then [s.active[0].event] else []
  }

  ghost predicate TransactionOk(core: Core, log: seq<Value>, t: Transaction) {
    core.accepts(t.event) && (t.HasRead? ==> t.previous == Head(core, log))
  }

  ghost predicate Inv(core: Core, every: nat, s: State)
    requires every > 0
  {
    && |s.active| <= 1
    && (|s.active| == 1 ==> TransactionOk(core, s.log, s.active[0]))
    && (forall i :: 0 <= i < |s.queue| ==> core.accepts(s.queue[i]))
    && IsChainOf(core, Logged(s), s.log)
    && (forall i :: 0 <= i < |s.anchored| ==> 0 < s.anchored[i] <= |s.log| && s.anchored[i] % every == 0)
    && (|s.active| == 1 && s.active[0].Persisted? ==> |s.log| !in s.anchored)
    && Distinct(s.anchored)
  }

  lemma {:induction false} WrittenPush(settled: seq<Outcome>, o: Outcome)
    ensures Written(settled + [o]) == Written(settled) + if o.written then [o.event] else []
  {
    assert (settled + [o])[..|settled|] == settled;
  }

  lemma {:induction false} PersistKeepsInv(core: Core, every: nat, s: State, s': State)
    requires every > 0 && Inv(core, every, s) && Persist(core, s, s')
    ensures Inv(core, every, s')
  {
    ChainAppend(core, Logged(s), s.log, s.active[0].event);
    assert Logged(s') == Logged(s) + [s.active[0].event];
  }

  lemma {:induction false} LeaveKeepsInv(core: Core, every: nat, s: State, s': State)
    requires every > 0 && Inv(core, every, s) && (Finish(s, s', every) || Reject(s, s', every))
    ensures Inv(core, every, s') && Logged(s') == Logged(s)
  {
    WrittenPush(s.settled, s'.settled[|s.settled|]);
    assert Logged(s') == Logged(s);
    if s'.anchored != s.anchored {
      assert Logged(s) != [];
      assert Distinct(s'.anchored);
    }
  }

  lemma {:induction false} NextKeepsInv(core: Core, every: nat, s: State, s': State)
    requires every > 0 && Inv(core, every, s) && Next(core, every, s, s')
    ensures Inv(core, every, s')
  {
    if Persist(core, s, s') {
      PersistKeepsInv(core, every, s, s');
    } else if Finish(s, s', every) || Reject(s, s', every) {
      LeaveKeepsInv(core, every, s, s');
    } else {
      assert Logged(s') == Logged(s);
    }
  }

  // ----- Whole runs -----

  ghost predicate IsRun(core: Core, every: nat, run: seq<State>)
    requires every > 0
  {
    && run != [] && run[0] == EMPTY
    && forall i :: 0 <= i < |run| - 1 ==> Next(core, every, run[i], run[i + 1])
  }

  /** In every state of every run the log is the chain of the written events. */
  lemma {:induction false} NeverForks(core: Core, every: nat, run: seq<State>, i: nat)
    requires every > 0 && IsRun(core, every, run) && i < |run|
    ensures Inv(core, every, run[i])
  {
    if i == 0 {
      EmptyChain(core);
    } else {
      NeverForks(core, every, run, i - 1);
      assert Next(core, every, run[i - 1], run[i - 1 + 1]);
      NextKeepsInv(core, every, run[i - 1], run[i]);
    }
  }

  /** Every event whose call was made, in call order. */
  ghost function Calls(s: State): seq<Value> {
    Events(s.settled) + (if |s.active| == 1 then [s.active[0].event] else []) + s.queue
  }

  ghost function Events(settled: seq<Outcome>): seq<Value> {
    seq(|settled|, i requires 0 <= i < |settled| => settled[i].event)
  }

  /** No step loses, repeats or reorders a call; only a new call adds one, at the end. */
  lemma {:induction false} NextKeepsCalls(core: Core, every: nat, s: State, s': State)
    requires every > 0 && |s.active| <= 1 && Next(core, every, s, s')
    ensures Calls(s') == if Call(core, s, s') then Calls(s) + [s'.queue[|s.queue|]] else Calls(s)
  {
    if Finish(s, s', every) || Reject(s, s', every) {
      assert Events(s'.settled) == Events(s.settled) + [s.active[0].event];
    }
  }

  /** When no call was rejected, exactly the calls made are in the log, in call order, once all have settled. */
  lemma {:induction false} AllCallsLogged(core: Core, every: nat, s: State)
    requires every > 0 && Inv(core, every, s) && s.active == [] && s.queue == []
    requires forall i :: 0 <= i < |s.settled| ==> s.settled[i].written
    ensures IsChainOf(core, Calls(s), s.log)
  {
    AllWritten(s.settled);
    assert Calls(s) == Written(s.settled) == Logged(s);
  }

  lemma {:induction false} AllWritten(settled: seq<Outcome>)
    requires forall i :: 0 <= i < |settled| ==> settled[i].written
    ensures Written(settled) == Events(settled)
  {
    if settled == [] {
    } else {
      var n := |settled| - 1;
      AllWritten(settled[..n]);
      assert Events(settled) == Events(settled[..n]) + [settled[n].event];
    }
  }

  // ----- Runs without a rejection -----

  ghost predicate GoesWell(core: Core, every: nat, s: State, s': State)
    requires every > 0
  {
    Call(core, s, s') || Enter(s, s') || Read(core, s, s') || Persist(core, s, s') || Finish(s, s', every)
  }

  ghost predicate AllWell(core: Core, every: nat, run: seq<State>)
    requires every > 0
  {
    && run != [] && run[0] == EMPTY
    && forall i :: 0 <= i < |run| - 1 ==> GoesWell(core, every, run[i], run[i + 1])
  }

  /** The multiples of `every` up to n. */
  function Multiples(every: nat, n: nat): seq<nat>
    requires every > 0
  {
    if n == 0 then [] else Multiples(every, n - 1) + if n % every == 0 then [n] else []
  }

  /** The records whose calls have got past the anchor. */
  ghost function Finished(s: State): int {
    if |s.active| == 1 && s.active[0].Persisted? then |s.log| - 1 else |s.log|
  }

  /** As long as no call is rejected, exactly the multiples of the schedule are anchored, in order. */
  lemma {:induction false} AnchorsExactly(core: Core, every: nat, run: seq<State>, i: nat)
    requires every > 0 && AllWell(core, every, run) && i < |run|
    ensures Finished(run[i]) >= 0 && run[i].anchored == Multiples(every, Finished(run[i]))
    ensures forall j :: 0 <= j < |run[i].settled| ==> run[i].settled[j].written
  {
    if i == 0 {
    } else {
      AnchorsExactly(core, every, run, i - 1);
      assert GoesWell(core, every, run[i - 1], run[i - 1 + 1]);
    }
  }

  lemma {:induction false} WellIsRun(core: Core, every: nat, run: seq<State>)
    requires every > 0 && AllWell(core, every, run)
    ensures IsRun(core, every, run)
  {
    forall i | 0 <= i < |run| - 1 ensures Next(core, every, run[i], run[i + 1]) {
      assert GoesWell(core, every, run[i], run[i + 1]);
    }
  }

  lemma {:induction false} OneMore(core: Core, every: nat, run: seq<State>, s: State)
    requires every > 0 && AllWell(core, every, run) && GoesWell(core, every, run[|run| - 1], s)
    ensures AllWell(core, every, run + [s])
  {
    var longer := run + [s];
    forall i | 0 <= i < |longer| - 1 ensures GoesWell(core, every, longer[i], longer[i + 1]) {
      if i < |run| - 1 { assert GoesWell(core, every, run[i], run[i + 1]); }
    }
  }

  ghost predicate Idle(s: State) { s.active == [] && s.queue == [] }

  /** One call made, carried out and settled. */
  lemma {:induction false} OneCall(core: Core, every: nat, run: seq<State>, event: Value) returns (longer: seq<State>)
    requires every > 0 && AllWell(core, every, run) && Idle(run[|run| - 1]) && core.accepts(event)
    ensures AllWell(core, every, longer) && Idle(longer[|longer| - 1])
    ensures longer[|longer| - 1].settled == run[|run| - 1].settled + [Outcome(event, true)]
  {
    var s := run[|run| - 1];
    var called := s.(queue := [event]);
    var entered := s.(active := [Entered(event)]);
    var has := s.(active := [HasRead(event, Head(core, s.log))]);
    var log := s.log + [core.build(Head(core, s.log), event)];
    var persisted := s.(log := log, active := [Persisted(event)]);
    var done := persisted.(active := [], anchored := Anchored(persisted, every),
                           settled := s.settled + [Outcome(event, true)]);
    assert s.queue + [event] == [event] && called.queue[1..] == [];
    assert Call(core, s, called) && Enter(called, entered) && Read(core, entered, has);
    assert Persist(core, has, persisted) && Finish(persisted, done, every);
    OneMore(core, every, run, called);
    OneMore(core, every, run + [called], entered);
    OneMore(core, every, run + [called] + [entered], has);
    OneMore(core, every, run + [called] + [entered] + [has], persisted);
    OneMore(core, every, run + [called] + [entered] + [has] + [persisted], done);
    longer := run + [called] + [entered] + [has] + [persisted] + [done];
  }

  /** Any list of events can be logged: some run leaves their chain, with every anchor that is due. */
  lemma {:induction false} AllCanBeLogged(core: Core, every: nat, events: seq<Value>) returns (run: seq<State>)
    requires every > 0 && forall i :: 0 <= i < |events| ==> core.accepts(events[i])
    ensures IsRun(core, every, run) && Idle(run[|run| - 1]) && Calls(run[|run| - 1]) == events
    ensures IsChainOf(core, events, run[|run| - 1].log)
    ensures run[|run| - 1].anchored == Multiples(every, |events|)
  {
    run := SettleAll(core, every, events);
    var last := run[|run| - 1];
    WellIsRun(core, every, run);
    NeverForks(core, every, run, |run| - 1);
    AnchorsExactly(core, every, run, |run| - 1);
    assert Calls(last) == Events(last.settled);
    AllCallsLogged(core, every, last);
  }

  lemma {:induction false} SettleAll(core: Core, every: nat, events: seq<Value>) returns (run: seq<State>)
    requires every > 0 && forall i :: 0 <= i < |events| ==> core.accepts(events[i])
    ensures AllWell(core, every, run) && Idle(run[|run| - 1]) && Events(run[|run| - 1].settled) == events
  {
    if events == [] {
      run := [EMPTY];
    } else {
      var n := |events| - 1;
      var before := SettleAll(core, every, events[..n]);
      run := OneCall(core, every, before, events[n]);
      var settled := before[|before| - 1].settled;
      assert Events(settled + [Outcome(events[n], true)]) == Events(settled) + [events[n]];
    }
  }
}
