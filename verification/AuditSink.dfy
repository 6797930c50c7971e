/**
 The audit sink on its two stores: the chain math fills the store contract, so
 the store protocols leave files that the verifier accepts.
 */
module AuditSink {
  import opened Options
  import opened Json
  import opened Canonical
  import opened AuditRecords
  import opened AuditVerify
  import opened AuditStorage
  import StoreContract
  import FencedAuditStore
  import ExclusiveAuditStore

  /** `record(event)` on a head: sanitise, build, and hand the store the line to write. */
  ghost function RecordLine(seal: Seal, previous: Value, event: Value): Value
    requires IsHead(previous) && event.Obj?
  {
    Stored(BuildIntegrityRecord(seal, previous, SanitizeAudit(event)))
  }

  /** The sink's side of the store contract. */
  ghost predicate IsAuditCore(seal: Seal, core: StoreContract.Core) {
    && (forall e: Value {:trigger core.accepts(e)} :: core.accepts(e) <==> e.Obj? && Valid(e))
    && (forall p: Value, e: Value {:trigger core.build(p, e), RecordLine(seal, p, e)} :: IsHead(p) && e.Obj? ==>
         core.build(p, e) == RecordLine(seal, p, e))
    && (forall line {:trigger core.integrity(line), Integrity(line)} :: core.integrity(line) == Integrity(line))
    && (forall line {:trigger core.previousHash(line), ViewOf(seal, line)} ::
         core.previousHash(line) == ViewOf(seal, line).previousHash)
    && (forall line {:trigger core.eventHash(line), ViewOf(seal, line)} ::
         core.eventHash(line) == ViewOf(seal, line).eventHash)
  }

  // ----- The sink's own core -----

  ghost predicate Accepted(e: Value) { e.Obj? && Valid(e) }

  ghost function BuiltLine(seal: Seal, previous: Value, event: Value): Value {
    if IsHead(previous) && event.Obj? then RecordLine(seal, previous, event) else Null
  }

  ghost function PreviousHashOf(seal: Seal, line: Value): Value { ViewOf(seal, line).previousHash }

  ghost function EventHashOf(seal: Seal, line: Value): Value { ViewOf(seal, line).eventHash }

  ghost function SinkCore(seal: Seal): StoreContract.Core {
    StoreContract.Core(
      e => Accepted(e), (p, e) => BuiltLine(seal, p, e), line => Integrity(line),
      line => PreviousHashOf(seal, line), line => EventHashOf(seal, line))
  }

  /** There is a core that meets the contract, for every seal. */
  lemma {:induction false} SinkCoreMeetsContract(seal: Seal)
    ensures IsAuditCore(seal, SinkCore(seal))
  {
    var core := SinkCore(seal);
    forall e: Value ensures core.accepts(e) <==> e.Obj? && Valid(e) { assert core.accepts(e) == Accepted(e); }
    forall p: Value, e: Value | IsHead(p) && e.Obj? ensures core.build(p, e) == RecordLine(seal, p, e) {
      assert core.build(p, e) == BuiltLine(seal, p, e);
    }
    forall line ensures core.previousHash(line) == ViewOf(seal, line).previousHash {
      assert core.previousHash(line) == PreviousHashOf(seal, line);
    }
    forall line ensures core.eventHash(line) == ViewOf(seal, line).eventHash {
      assert core.eventHash(line) == EventHashOf(seal, line);
    }
  }

  ghost function Sanitized(events: seq<Value>): seq<Value> {
    seq(|events|, i requires 0 <= i < |events| => SanitizeAudit(events[i]))
  }

  lemma {:induction false} HeadIsLastIntegrity(seal: Seal, core: StoreContract.Core, chain: seq<Value>)
    requires IsAuditCore(seal, core) && IsLog(chain)
    ensures StoreContract.Head(core, chain) == LastIntegrity(chain)
  {
    assert chain != [] ==> IsRecord(chain[|chain| - 1]);
  }

  lemma {:induction false} HeadHashIsPreviousHash(seal: Seal, core: StoreContract.Core, chain: seq<Value>)
    requires IsAuditCore(seal, core)
    ensures StoreContract.HeadHash(core, chain) == PreviousHash(Views(seal, chain), |chain|)
  {
  }

  lemma {:induction false} LineIs(seal: Seal, core: StoreContract.Core, chain: seq<Value>, event: Value)
    requires IsAuditCore(seal, core) && IsLog(chain) && event.Obj? && Valid(event)
    ensures SanitizeAudit(event).Obj? && Valid(SanitizeAudit(event)) && IsHead(LastIntegrity(chain))
    ensures StoreContract.Line(core, chain, event) == RecordLine(seal, LastIntegrity(chain), event)
  {
    SanitizeCleans(event);
    NextStored(seal, chain, SanitizeAudit(event));
    HeadIsLastIntegrity(seal, core, chain);
  }

  /** What the contract calls a chain is the file of the sanitised events. */
  lemma {:induction false} ChainIsFile(seal: Seal, core: StoreContract.Core, events: seq<Value>, chain: seq<Value>,
                                       n: nat)
    requires IsAuditCore(seal, core) && StoreContract.IsChainOf(core, events, chain) && n <= |chain|
    ensures IsFile(seal, Sanitized(events)[..n], chain[..n])
  {
    if n == 0 {
    } else {
      ChainIsFile(seal, core, events, chain, n - 1);
      assert core.accepts(events[n - 1]);
      LineAppends(seal, core, Sanitized(events)[..n - 1], chain[..n - 1], events[n - 1]);
      PrefixPush(core, events, chain, n);
    }
  }

  lemma {:induction false} PrefixPush(core: StoreContract.Core, events: seq<Value>, chain: seq<Value>, n: nat)
    requires StoreContract.IsChainOf(core, events, chain) && 0 < n <= |chain|
    ensures chain[..n] == chain[..n - 1] + [StoreContract.Line(core, chain[..n - 1], events[n - 1])]
    ensures Sanitized(events)[..n] == Sanitized(events)[..n - 1] + [SanitizeAudit(events[n - 1])]
  {
    assert StoreContract.IsLineAt(core, chain, n - 1, events[n - 1]);
  }

  lemma {:induction false} LineAppends(seal: Seal, core: StoreContract.Core, events: seq<Value>, chain: seq<Value>,
                                       event: Value)
    requires IsAuditCore(seal, core) && IsFile(seal, events, chain) && event.Obj? && Valid(event)
    ensures IsFile(seal, events + [SanitizeAudit(event)], chain + [StoreContract.Line(core, chain, event)])
  {
    LineIs(seal, core, chain, event);
    FileAppend(seal, events, chain, SanitizeAudit(event));
  }

  lemma {:induction false} WholeChainIsFile(seal: Seal, core: StoreContract.Core, events: seq<Value>, chain: seq<Value>)
    requires IsAuditCore(seal, core) && StoreContract.IsChainOf(core, events, chain)
    ensures IsFile(seal, Sanitized(events), chain)
  {
    ChainIsFile(seal, core, events, chain, |chain|);
    assert chain[..|chain|] == chain && Sanitized(events)[..|chain|] == Sanitized(events);
  }

  // ----- The fence -----

  /** A line points back to the head it was built on. */
  lemma {:induction false} LinePointsBack(seal: Seal, core: StoreContract.Core, chain: seq<Value>, event: Value)
    requires IsAuditCore(seal, core) && IsLog(chain) && event.Obj? && Valid(event)
    requires chain != [] ==> InSequence(Views(seal, chain), |chain| - 1)
    ensures core.previousHash(StoreContract.Line(core, chain, event)) == PreviousHash(Views(seal, chain), |chain|)
  {
    LineIs(seal, core, chain, event);
    HeadInSequence(seal, chain);
    NextStored(seal, chain, SanitizeAudit(event));
    StoredView(seal, LastIntegrity(chain), SanitizeAudit(event));
  }

  lemma {:induction false} PrefixInSequence(seal: Seal, chain: seq<Value>, short: seq<Value>)
    requires short <= chain && (short != [] ==> InSequence(Views(seal, chain), |short| - 1))
    ensures short != [] ==> InSequence(Views(seal, short), |short| - 1)
    ensures PreviousHash(Views(seal, short), |short|) == PreviousHash(Views(seal, chain), |short|)
  {
    var views, base := Views(seal, chain), |short|;
    assert Views(seal, short) == views[..base];
    assert base > 0 ==> PreviousHash(views[..base], base - 1) == PreviousHash(views, base - 1);
  }

  lemma {:induction false} EarlierLinePointsBack(seal: Seal, core: StoreContract.Core, chain: seq<Value>,
                                                 short: seq<Value>, event: Value)
    requires IsAuditCore(seal, core) && IsLog(short) && short <= chain && event.Obj? && Valid(event)
    requires short != [] ==> InSequence(Views(seal, chain), |short| - 1)
    ensures core.previousHash(StoreContract.Line(core, short, event)) == PreviousHash(Views(seal, chain), |short|)
  {
    PrefixInSequence(seal, chain, short);
    LinePointsBack(seal, core, short, event);
  }

  lemma {:induction false} FilePrefix(seal: Seal, events: seq<Value>, chain: seq<Value>, short: seq<Value>)
    requires IsFile(seal, events, chain) && short <= chain
    ensures IsLog(short) && (short != [] ==> InSequence(Views(seal, chain), |short| - 1))
  {
    assert short == chain[..|short|];
    LogPrefix(chain, |short|);
    if short != [] { FileIsInSequence(seal, events, chain, |short|); }
  }

  lemma {:induction false} FileLinePointsBack(seal: Seal, core: StoreContract.Core, events: seq<Value>,
                                              chain: seq<Value>, short: seq<Value>, event: Value)
    requires IsAuditCore(seal, core) && IsFile(seal, events, chain) && short <= chain && core.accepts(event)
    ensures core.previousHash(StoreContract.Line(core, short, event)) == PreviousHash(Views(seal, chain), |short|)
  {
    FilePrefix(seal, events, chain, short);
    EarlierLinePointsBack(seal, core, chain, short, event);
  }

  ghost predicate IsHashText(h: Value) { h.Null? || (h.Str? && h.s != []) }

  lemma {:induction false} PreviousIsHashText(seal: Seal, events: seq<Value>, chain: seq<Value>, n: nat)
    requires IsFile(seal, events, chain) && n <= |chain| && forall v :: seal(v) != []
    ensures IsHashText(PreviousHash(Views(seal, chain), n))
  {
    if n > 0 { var p, e := PreviousDigest(seal, events, chain, n); }
  }

  /** Two heads of one chain, compared by the fence. */
  lemma {:induction false} FenceTellsApart(cur: Value, previous: Value)
    requires IsHashText(cur) && IsHashText(previous)
    ensures FencedAuditStore.FencePasses(cur, previous) <==> cur == previous
  {
  }

  /** Under a binding seal with non-empty digests, the fence does its work. */
  lemma {:induction false} FenceExact(seal: Seal, core: StoreContract.Core, events: seq<Value>, chain: seq<Value>,
                                      base: nat, event: Value)
    requires Binding(seal) && (forall v :: seal(v) != []) && IsAuditCore(seal, core)
    requires StoreContract.IsChainOf(core, events, chain) && base <= |chain| && core.accepts(event)
    ensures FencedAuditStore.FencePasses(StoreContract.HeadHash(core, chain),
                                         core.previousHash(StoreContract.Line(core, chain[..base], event)))
       <==> base == |chain|
  {
    var file := Sanitized(events);
    WholeChainIsFile(seal, core, events, chain);
    HeadHashIsPreviousHash(seal, core, chain);
    FileLinePointsBack(seal, core, file, chain, chain[..base], event);
    HashesCompared(seal, file, chain, base);
  }

  lemma {:induction false} HashesCompared(seal: Seal, events: seq<Value>, chain: seq<Value>, base: nat)
    requires Binding(seal) && (forall v :: seal(v) != []) && IsFile(seal, events, chain) && base <= |chain|
    ensures var views := Views(seal, chain);
      FencedAuditStore.FencePasses(PreviousHash(views, |chain|), PreviousHash(views, base)) <==> base == |chain|
  {
    PreviousIsHashText(seal, events, chain, base);
    PreviousIsHashText(seal, events, chain, |chain|);
    FenceTellsApart(PreviousHash(Views(seal, chain), |chain|), PreviousHash(Views(seal, chain), base));
    if base < |chain| { PreviousHashesDistinct(seal, events, chain, base, |chain|); }
  }

  lemma {:induction false} AuditCoreFences(seal: Seal, core: StoreContract.Core)
    requires Binding(seal) && (forall v :: seal(v) != []) && IsAuditCore(seal, core)
    ensures FencedAuditStore.Fences(core)
  {
    forall events: seq<Value>, chain: seq<Value>, base: nat, event: Value |
      StoreContract.IsChainOf(core, events, chain) && base <= |chain| && core.accepts(event)
      ensures FencedAuditStore.FencePasses(StoreContract.HeadHash(core, chain),
                                           core.previousHash(StoreContract.Line(core, chain[..base], event)))
         <==> base == |chain|
    {
      FenceExact(seal, core, events, chain, base, event);
    }
  }

  // ----- What the stores leave verifies -----

  lemma {:induction false} ChainVerdict(seal: Seal, core: StoreContract.Core, events: seq<Value>, chain: seq<Value>,
                                        v: Verdict)
    requires Binding(seal) && IsAuditCore(seal, core) && StoreContract.IsChainOf(core, events, chain)
    requires IsVerdict(None, Views(seal, chain), v)
    ensures v.Accepted? <==> AllStorable(Sanitized(events))
    ensures v.Accepted? ==> v.records == |events|
  {
    WholeChainIsFile(seal, core, events, chain);
    FileAcceptedIff(seal, Sanitized(events), chain, v);
  }

  /** Any number of writers on the shared store, any interleaving: accepted exactly when the events can be stored. */
  lemma {:induction false} SharedChainAccepted(seal: Seal, core: StoreContract.Core, run: seq<FencedAuditStore.State>,
                                               i: nat, v: Verdict)
    requires Binding(seal) && (forall x :: seal(x) != []) && IsAuditCore(seal, core)
    requires FencedAuditStore.IsRun(core, run) && i < |run|
    requires IsVerdict(None, Views(seal, run[i].chain), v)
    ensures FencedAuditStore.Inv(core, run[i])
    ensures v.Accepted? <==> AllStorable(Sanitized(FencedAuditStore.Committed(run[i])))
    ensures v.Accepted? ==> v.records == |run[i].commits|
  {
    AuditCoreFences(seal, core);
    FencedAuditStore.NeverForks(core, run, i);
    ChainVerdict(seal, core, FencedAuditStore.Committed(run[i]), run[i].chain, v);
  }

  // ----- Anchors of a sink's log -----

  /** The anchor lines for the given sequences of a log. */
  ghost function Lines(views: seq<View>, anchored: seq<nat>): (lines: seq<AnchorLine>)
    ensures |lines| == |anchored|
  {
    seq(|anchored|, i requires 0 <= i < |anchored| =>
      var k := anchored[i];
      if 0 < k <= |views| && views[k - 1].eventHash.Str? then Anchor(k, views[k - 1].eventHash.s) else Unreadable)
  }

  ghost predicate Genuine(views: seq<View>, lines: seq<AnchorLine>) {
    forall i :: 0 <= i < |lines| && lines[i].Anchor? ==>
      0 < lines[i].sequence <= |views| && Str(lines[i].eventHash) == views[lines[i].sequence - 1].eventHash
  }

  lemma {:induction false} GenuineAttests(views: seq<View>, lines: seq<AnchorLine>)
    requires Genuine(views, lines)
    ensures 0 <= Attested(lines).lastSequence <= |views|
    ensures forall k :: k in Attested(lines).bySequence ==>
      0 < k <= |views| && Str(Attested(lines).bySequence[k]) == views[k - 1].eventHash
  {
    if lines == [] {
    } else {
      GenuineAttests(views, lines[..|lines| - 1]);
    }
  }

  lemma {:induction false} GenuineFault(views: seq<View>, a: Anchors, i: nat)
    requires i < |views|
    requires forall k :: k in a.bySequence ==> 0 < k <= |views| && Str(a.bySequence[k]) == views[k - 1].eventHash
    ensures Fault(Some(a), views, i) == Fault(None, views, i)
    ensures PassesAt(Some(a), views, i) <==> PassesAt(None, views, i)
  {
  }

  /** Genuine anchors never change the verdict on the log they were taken from. */
  lemma {:induction false} GenuineAnchorsAgree(views: seq<View>, lines: seq<AnchorLine>, v: Verdict)
    requires Genuine(views, lines) && IsVerdict(None, views, v)
    ensures IsOutcome(Some(lines), views, if NullLine in lines then Threw(0) else v)
  {
    GenuineAttests(views, lines);
    var a := Attested(lines);
    forall i | 0 <= i < v.records ensures PassesAt(Some(a), views, i) {
      GenuineFault(views, a, i);
      assert PassesAt(None, views, i);
    }
    if v.records < |views| { GenuineFault(views, a, v.records); }
  }

  /**
   Any interleaving of calls and rejections through the exclusive store: the log
   with whatever anchors were written is accepted exactly when the logged events
   can be stored.
   */
  lemma {:induction false} SinkLogAccepted(seal: Seal, core: StoreContract.Core, every: nat,
                                           run: seq<ExclusiveAuditStore.State>, i: nat, v: Verdict)
    requires Binding(seal) && IsAuditCore(seal, core) && every > 0
    requires ExclusiveAuditStore.IsRun(core, every, run) && i < |run|
    requires IsVerdict(None, Views(seal, run[i].log), v)
    ensures var lines := Lines(Views(seal, run[i].log), run[i].anchored);
      IsOutcome(Some(lines), Views(seal, run[i].log), v)
    ensures v.Accepted? <==> AllStorable(Sanitized(ExclusiveAuditStore.Logged(run[i])))
    ensures v.Accepted? ==> v.records == |ExclusiveAuditStore.Logged(run[i])|
  {
    var s := run[i];
    ExclusiveAuditStore.NeverForks(core, every, run, i);
    ChainVerdict(seal, core, ExclusiveAuditStore.Logged(s), s.log, v);
    LinesGenuine(Views(seal, s.log), s.anchored);
    GenuineAnchorsAgree(Views(seal, s.log), Lines(Views(seal, s.log), s.anchored), v);
  }

  lemma {:induction false} LinesGenuine(views: seq<View>, anchored: seq<nat>)
    ensures Genuine(views, Lines(views, anchored)) && NullLine !in Lines(views, anchored)
  {
  }
}
