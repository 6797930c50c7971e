/**
 The JSONL file keeps `JSON.stringify` of each record, while the hash was taken
 over the record in memory. The two agree exactly for events that hold no
 `undefined`, and only then does the file verify.
 */
module AuditStorage {
  import opened Options
  import opened Texts
  import opened Json
  import opened Canonical
  import opened Objects
  import opened AuditRecords
  import opened AuditVerify

  /** The event fields that survive into the record hold no `undefined`. */
  ghost predicate Storable(event: Value)
    requires event.Obj?
  {
    UndefinedFree(Obj(Without(event.fields, AUDIT_INTEGRITY)))
  }

  lemma {:induction false} UndefinedFreeWith(fs: seq<Field>, key: Text, value: Value)
    requires Distinct(Keys(fs))
    ensures UndefinedFree(Obj(With(fs, key, value)))
       <==> UndefinedFree(value) && UndefinedFree(Obj(Without(fs, key)))
  {
    if fs != [] {
      assert Keys(fs) == [fs[0].key] + Keys(fs[1..]);
      DistinctCons(fs[0].key, Keys(fs[1..]));
      if fs[0].key == key {
        WithoutAbsent(fs[1..], key);
        UndefinedFreeCons(Field(key, value), fs[1..]);
      } else {
        UndefinedFreeWith(fs[1..], key, value);
        UndefinedFreeCons(fs[0], With(fs[1..], key, value));
        UndefinedFreeCons(fs[0], Without(fs[1..], key));
      }
    } else {
      UndefinedFreeCons(Field(key, value), []);
      assert [Field(key, value)] + [] == [Field(key, value)];
    }
  }

  lemma {:induction false} UndefinedFreeCons(f: Field, fs: seq<Field>)
    ensures UndefinedFree(Obj([f] + fs)) <==> UndefinedFree(f.value) && UndefinedFree(Obj(fs))
  {
    var gs := [f] + fs;
    assert gs[0] == f && forall i :: 0 <= i < |fs| ==> gs[i + 1] == fs[i];
  }

  lemma {:induction false} WithoutAbsent(fs: seq<Field>, key: Text)
    requires key !in Keys(fs)
    ensures Without(fs, key) == fs
  {
    if fs == [] {
    } else {
      assert Keys(fs) == [fs[0].key] + Keys(fs[1..]);
      WithoutAbsent(fs[1..], key);
    }
  }

  /** Storing commutes with replacing a field that is present and defined by a defined value. */
  lemma {:induction false} StoredFieldsCons(f: Field, fs: seq<Field>)
    ensures StoredFields([f] + fs)
         == if f.value.Undefined? then StoredFields(fs) else [Field(f.key, Stored(f.value))] + StoredFields(fs)
  {
    assert ([f] + fs)[1..] == fs;
  }

  lemma {:induction false} WithCons(f: Field, fs: seq<Field>, key: Text, value: Value)
    ensures With([f] + fs, key, value) == if f.key == key then [Field(key, value)] + fs else [f] + With(fs, key, value)
  {
    assert ([f] + fs)[1..] == fs;
  }

  lemma {:induction false} GetFirstOrRest(fs: seq<Field>, key: Text)
    requires key in Keys(fs)
    ensures if fs[0].key == key then Get(fs, key) == fs[0].value
            else key in Keys(fs[1..]) && Get(fs, key) == Get(fs[1..], key)
  {
    assert Keys(fs)[1..] == Keys(fs[1..]) && Keys(fs) == [fs[0].key] + Keys(fs[1..]);
  }

  lemma {:induction false} StoredWith(fs: seq<Field>, key: Text, value: Value)
    requires key in Keys(fs) && !Get(fs, key).Undefined? && !value.Undefined?
    ensures StoredFields(With(fs, key, value)) == With(StoredFields(fs), key, Stored(value))
    decreases fs
  {
    var f, rest := fs[0], fs[1..];
    assert fs == [f] + rest;
    GetFirstOrRest(fs, key);
    if f.key == key { StoredWithHere(f, rest, value); } else {
      StoredWith(rest, key, value);
      StoredWithThere(f, rest, key, value);
    }
  }

  lemma {:induction false} StoredWithHere(f: Field, rest: seq<Field>, value: Value)
    requires !f.value.Undefined? && !value.Undefined?
    ensures StoredFields(With([f] + rest, f.key, value)) == With(StoredFields([f] + rest), f.key, Stored(value))
  {
    StoredFieldsCons(f, rest);
    WithCons(f, rest, f.key, value);
    WithCons(Field(f.key, Stored(f.value)), StoredFields(rest), f.key, Stored(value));
    StoredFieldsCons(Field(f.key, value), rest);
  }

  lemma {:induction false} StoredWithThere(f: Field, rest: seq<Field>, key: Text, value: Value)
    requires f.key != key && StoredFields(With(rest, key, value)) == With(StoredFields(rest), key, Stored(value))
    ensures StoredFields(With([f] + rest, key, value)) == With(StoredFields([f] + rest), key, Stored(value))
  {
    StoredFieldsCons(f, rest);
    WithCons(f, rest, key, value);
    WithCons(Field(f.key, Stored(f.value)), StoredFields(rest), key, Stored(value));
    StoredFieldsCons(f, With(rest, key, value));
  }

  lemma {:induction false} StoredLookup(fs: seq<Field>, key: Text)
    requires key in Keys(fs) && !Get(fs, key).Undefined? && Distinct(Keys(fs))
    ensures Lookup(Obj(StoredFields(fs)), key) == Stored(Get(fs, key))
    decreases fs
  {
    assert Keys(fs) == [fs[0].key] + Keys(fs[1..]);
    DistinctCons(fs[0].key, Keys(fs[1..]));
    var g := Field(fs[0].key, Stored(fs[0].value));
    LookupCons(g, StoredFields(fs[1..]), key);
    if fs[0].key != key {
      StoredLookup(fs[1..], key);
    }
  }

  /** What storing leaves of an object's fields: those that hold something, each in its stored form. */
  lemma {:induction false} StoredFieldExactly(fs: seq<Field>, key: Text)
    requires Distinct(Keys(fs))
    ensures Lookup(Stored(Obj(fs)), key)
         == if Lookup(Obj(fs), key) == Undefined then Undefined else Stored(Lookup(Obj(fs), key))
  {
    if key in Keys(fs) && Get(fs, key) != Undefined {
      StoredLookup(fs, key);
    } else if key in Keys(StoredFields(fs)) {
      var i := IndexOf(StoredFields(fs), key);
      StoredFieldOrigin(fs, i);
      var j :| 0 <= j < |fs| && !fs[j].value.Undefined? && StoredFields(fs)[i].key == fs[j].key;
      GetAt(fs, j);
    }
  }

  /** What the file shows of a built record: the same integrity block, a digest over the stored fields. */
  lemma {:induction false} StoredView(seal: Seal, previous: Value, event: Value)
    requires IsHead(previous) && event.Obj? && Valid(event) && Valid(previous)
    ensures var r := BuildIntegrityRecord(seal, previous, event);
      && Integrity(Stored(r)) == Integrity(r)
      && ViewOf(seal, Stored(r))
         == BuiltView(seal, previous, event).(digest := Str(seal(Stored(UnsignedRecord(previous, event)))))
  {
    StoredBlock(seal, previous, event);
    StoredUnsigned(seal, previous, event);
    BuiltRecord(seal, previous, event);
    SignedIntegrity(NextSequence(previous), HeadHash(previous), Str(seal(UnsignedRecord(previous, event))));
  }

  /** And what the hash is taken over is the stored form of what it was. */
  lemma {:induction false} StoredUnsigned(seal: Seal, previous: Value, event: Value)
    requires IsHead(previous) && event.Obj? && Valid(event) && Valid(previous)
    requires var r := BuildIntegrityRecord(seal, previous, event);
      Integrity(Stored(r)) == Integrity(r) == Obj(SignedFields(seal, previous, event))
    ensures Unsigned(Stored(BuildIntegrityRecord(seal, previous, event))) == Stored(UnsignedRecord(previous, event))
  {
    var r := BuildIntegrityRecord(seal, previous, event);
    var h := Str(seal(UnsignedRecord(previous, event)));
    BuiltRecord(seal, previous, event);
    SignedIntegrity(NextSequence(previous), HeadHash(previous), h);
    BlockStored(NextSequence(previous), HeadHash(previous), h);
    StoredWith(r.fields, AUDIT_INTEGRITY, Obj(IntegrityFields(NextSequence(previous), HeadHash(previous))));
  }

  /** Storing keeps the integrity block. */
  lemma {:induction false} StoredBlock(seal: Seal, previous: Value, event: Value)
    requires IsHead(previous) && event.Obj? && Valid(event) && Valid(previous)
    ensures var r := BuildIntegrityRecord(seal, previous, event);
      && Integrity(Stored(r)) == Integrity(r) == Obj(SignedFields(seal, previous, event))
  {
    var r := BuildIntegrityRecord(seal, previous, event);
    BuiltBlock(seal, previous, event);
    BuiltRecordValid(seal, previous, event);
    BlockStored(NextSequence(previous), HeadHash(previous), Str(seal(UnsignedRecord(previous, event))));
    StoredLookup(r.fields, AUDIT_INTEGRITY);
  }

  /** An integrity block is stored as it is. */
  lemma {:induction false} BlockStored(sequence: int, previousHash: Value, eventHash: Value)
    requires (previousHash.Null? || previousHash.Str?) && eventHash.Str?
    ensures var plain := IntegrityFields(sequence, previousHash);
      && Stored(Obj(plain)) == Obj(plain)
      && Stored(Obj(plain + [Field(EVENT_HASH, eventHash)])) == Obj(plain + [Field(EVENT_HASH, eventHash)])
  {
    var plain := IntegrityFields(sequence, previousHash);
    StoredFieldsUnchanged(plain);
    StoredFieldsUnchanged(plain + [Field(EVENT_HASH, eventHash)]);
  }

  /** The digest the verifier recomputes from the file matches exactly for storable events. */
  lemma {:induction false} StoredDigest(seal: Seal, previous: Value, event: Value)
    requires Binding(seal) && IsHead(previous) && event.Obj? && Valid(event) && Valid(previous)
    ensures seal(Stored(UnsignedRecord(previous, event))) == seal(UnsignedRecord(previous, event)) <==> Storable(event)
  {
    var plain := Obj(IntegrityFields(NextSequence(previous), HeadHash(previous)));
    var u := UnsignedRecord(previous, event);
    UndefinedFreeWith(event.fields, AUDIT_INTEGRITY, plain);
    assert UndefinedFree(plain);
    PlainValid(previous);
    WithValid(event.fields, AUDIT_INTEGRITY, plain);
    StoredValid(u);
    if UndefinedFree(u) {
      StoredUnchanged(u);
    } else if SealedAlike(seal, Stored(u), u) {
      StoredKeeps(u);
      assert false;
    }
  }

  lemma {:induction false} DistinctPrefix(keys: seq<Text>, n: nat)
    requires Distinct(keys) && n <= |keys|
    ensures Distinct(keys[..n])
  {
  }

  lemma {:induction false} PlainValid(previous: Value)
    requires IsHead(previous)
    ensures Valid(Obj(IntegrityFields(NextSequence(previous), HeadHash(previous))))
  {
    var fs := IntegrityFields(NextSequence(previous), HeadHash(previous));
    SignedIntegrity(NextSequence(previous), HeadHash(previous), Null);
    var gs := fs + [Field(EVENT_HASH, Null)];
    DistinctPrefix(Keys(gs), 4);
    assert Keys(fs) == Keys(gs)[..4];
  }

  /** Line `i` holds the stored form of the record built on the integrity block of the line before. */
  ghost predicate Written(seal: Seal, log: seq<Value>, i: nat, event: Value)
    requires i < |log| && event.Obj?
  {
    IsHead(LastIntegrity(log[..i])) && log[i] == Stored(BuildIntegrityRecord(seal, LastIntegrity(log[..i]), event))
  }

  /** The file the sink leaves for `events`. */
  ghost predicate IsFile(seal: Seal, events: seq<Value>, log: seq<Value>) {
    && Events(events) && |log| == |events| && IsLog(log)
    && forall i {:trigger Written(seal, log, i, events[i])} :: 0 <= i < |log| ==> Written(seal, log, i, events[i])
  }

  /** Appending writes another such file. */
  lemma {:induction false} FileAppend(seal: Seal, events: seq<Value>, log: seq<Value>, event: Value)
    requires IsFile(seal, events, log) && event.Obj? && Valid(event)
    ensures IsHead(LastIntegrity(log))
    ensures IsFile(seal, events + [event], log + [Stored(BuildIntegrityRecord(seal, LastIntegrity(log), event))])
  {
    NextStored(seal, log, event);
    var line := Stored(BuildIntegrityRecord(seal, LastIntegrity(log), event));
    WrittenLast(seal, log, event);
    forall i | 0 <= i < |log| ensures Written(seal, log + [line], i, events[i]) {
      WrittenEarlier(seal, log, line, i, events[i]);
    }
  }

  lemma {:induction false} WrittenLast(seal: Seal, log: seq<Value>, event: Value)
    requires event.Obj? && IsHead(LastIntegrity(log))
    ensures Written(seal, log + [Stored(BuildIntegrityRecord(seal, LastIntegrity(log), event))], |log|, event)
  {
    var line := Stored(BuildIntegrityRecord(seal, LastIntegrity(log), event));
    assert (log + [line])[..|log|] == log;
  }

  lemma {:induction false} WrittenEarlier(seal: Seal, log: seq<Value>, line: Value, i: nat, event: Value)
    requires i < |log| && event.Obj? && Written(seal, log, i, event)
    ensures Written(seal, log + [line], i, event)
  {
    assert (log + [line])[..i] == log[..i];
  }

  lemma {:induction false} NextStored(seal: Seal, log: seq<Value>, event: Value)
    requires IsLog(log) && event.Obj? && Valid(event)
    ensures IsHead(LastIntegrity(log)) && Valid(LastIntegrity(log))
    ensures IsRecord(Stored(BuildIntegrityRecord(seal, LastIntegrity(log), event)))
  {
    var previous := LastIntegrity(log);
    if log != [] {
      assert IsRecord(log[|log| - 1]);
      LookupValid(log[|log| - 1], AUDIT_INTEGRITY);
    }
    NextRecord(seal, log, event);
    StoredView(seal, previous, event);
    StoredValid(BuildIntegrityRecord(seal, previous, event));
  }

  /** A view in sequence whose digest matches its hash exactly when `matches` holds. */
  ghost predicate Follows(views: seq<View>, v: View, matches: bool) {
    && v.eventHash.Str? && (v.eventHash == v.digest <==> matches)
    && v == View(false, true, Int(|views| + 1), PreviousHash(views, |views|), v.eventHash, v.digest)
  }

  lemma {:induction false} NextStoredView(seal: Seal, log: seq<Value>, event: Value)
    requires Binding(seal) && IsLog(log) && event.Obj? && Valid(event)
    requires AllLinked(Views(seal, log), |log|)
    ensures IsHead(LastIntegrity(log))
    ensures Follows(Views(seal, log), ViewOf(seal, Stored(BuildIntegrityRecord(seal, LastIntegrity(log), event))),
                    Storable(event))
  {
    NextStored(seal, log, event);
    HeadOfLog(seal, log);
    StoredView(seal, LastIntegrity(log), event);
    StoredDigest(seal, LastIntegrity(log), event);
  }

  lemma {:induction false} ViewsPrefix(seal: Seal, log: seq<Value>, i: nat)
    requires i < |log|
    ensures Views(seal, log)[..i] == Views(seal, log[..i]) && Views(seal, log)[i] == ViewOf(seal, log[i])
  {
  }

  lemma {:induction false} WrittenFollows(seal: Seal, log: seq<Value>, i: nat, event: Value)
    requires Binding(seal) && i < |log| && IsLog(log[..i]) && event.Obj? && Valid(event)
    requires Written(seal, log, i, event) && AllLinked(Views(seal, log[..i]), i)
    ensures Follows(Views(seal, log[..i]), ViewOf(seal, log[i]), Storable(event))
  {
    NextStoredView(seal, log[..i], event);
  }

  lemma {:induction false} LineFollows(seal: Seal, events: seq<Value>, log: seq<Value>, i: nat)
    requires Binding(seal) && IsFile(seal, events, log) && i < |log|
    requires AllLinked(Views(seal, log)[..i], i)
    ensures Follows(Views(seal, log)[..i], Views(seal, log)[i], Storable(events[i]))
  {
    ViewsPrefix(seal, log, i);
    assert Written(seal, log, i, events[i]);
    WrittenFollows(seal, log, i, events[i]);
  }

  /** Whatever the events hold, the lines of a file hold no `undefined`. */
  lemma {:induction false} FileDefined(seal: Seal, events: seq<Value>, log: seq<Value>)
    requires IsFile(seal, events, log)
    ensures AllDefined(log)
  {
    forall i | 0 <= i < |log| ensures UndefinedFree(log[i]) {
      assert Written(seal, log, i, events[i]);
      StoredUndefinedFree(BuildIntegrityRecord(seal, LastIntegrity(log[..i]), events[i]));
    }
  }

  /**
   Anchored tamper evidence for files. A file that is accepted against an anchor
   taken from the file the sink wrote holds the first k lines of that file, equal
   but for the order of keys, or two records at one position collide.
   */
  lemma {:induction false} AnchorFixesFile(seal: Seal, events: seq<Value>, genuine: seq<Value>, k: nat,
                          lines: seq<AnchorLine>, at: nat, log: seq<Value>, v: Verdict)
    requires IsFile(seal, events, genuine) && 0 < k <= |genuine| && AllLinked(Views(seal, genuine), k)
    requires AllValid(log) && AllDefined(log)
    requires at < |lines| && lines[at].Anchor? && lines[at].sequence == k
    requires Str(lines[at].eventHash) == Views(seal, genuine)[k - 1].eventHash
    requires forall j :: at < j < |lines| && lines[j].Anchor? ==> lines[j].sequence != k
    requires IsOutcome(Some(lines), Views(seal, log), v) && v.Accepted?
    ensures k <= |log|
    ensures (forall i :: 0 <= i < k ==> SameUpToOrder(genuine[i], log[i]))
         || (exists i :: 0 <= i < k && Collision(seal, genuine[i], log[i]))
  {
    FileDefined(seal, events, genuine);
    assert forall i :: 0 <= i < |genuine| ==> IsRecord(genuine[i]);
    AnchorFixesPrefix(seal, genuine, k, lines, at, log, v);
    forall i | 0 <= i < k ensures Equivalent(genuine[i], log[i]) <==> SameUpToOrder(genuine[i], log[i]) {
      EquivalentDefined(genuine[i], log[i]);
    }
  }

  /** While events are storable the file stays linked. */
  lemma {:induction false} StorableLinked(seal: Seal, events: seq<Value>, log: seq<Value>, n: nat)
    requires Binding(seal) && IsFile(seal, events, log) && n <= |log|
    requires forall i :: 0 <= i < n ==> Storable(events[i])
    ensures AllLinked(Views(seal, log)[..n], n)
  {
    var views := Views(seal, log);
    forall i | 0 <= i < n && AllLinked(views[..i], i) ensures Follows(views[..i], views[i], true) {
      LineFollows(seal, events, log, i);
    }
    FollowsLinked(views, n);
  }

  lemma {:induction false} FollowsLinked(views: seq<View>, n: nat)
    requires n <= |views|
    requires forall i :: 0 <= i < n && AllLinked(views[..i], i) ==> Follows(views[..i], views[i], true)
    ensures AllLinked(views[..n], n)
  {
    if n == 0 {
    } else {
      FollowsLinked(views, n - 1);
      LinkedPush(views[..n - 1], views[n - 1]);
      assert views[..n] == views[..n - 1] + [views[n - 1]];
    }
  }

  lemma {:induction false} LinkedPrefixPasses(views: seq<View>, m: nat)
    requires m <= |views| && AllLinked(views[..m], m)
    ensures Passes(None, views, m) && PreviousHash(views[..m], m) == PreviousHash(views, m)
  {
    forall i | 0 <= i < m ensures !views[i].throws && Fault(None, views, i).None? {
      assert Linked(views[..m], i);
      assert PreviousHash(views[..m], i) == PreviousHash(views, i);
    }
  }

  lemma {:induction false} MismatchRejected(views: seq<View>, j: nat)
    requires j < |views| && AllLinked(views[..j], j) && Follows(views[..j], views[j], false)
    ensures IsVerdict(None, views, Rejected(j, EventHashMismatch))
  {
    LinkedPrefixPasses(views, j);
  }

  /** A file of storable events is accepted in full. */
  lemma {:induction false} StorableAccepted(seal: Seal, events: seq<Value>, log: seq<Value>)
    requires Binding(seal) && IsFile(seal, events, log)
    requires forall i :: 0 <= i < |events| ==> Storable(events[i])
    ensures var views := Views(seal, log);
      IsVerdict(None, views, Accepted(|events|, PreviousHash(views, |events|)))
  {
    StorableLinked(seal, events, log, |log|);
    LinkedPrefixPasses(Views(seal, log), |log|);
  }

  /** The first event that is not storable is where the file stops verifying. */
  lemma {:induction false} FirstUnstorableRejected(seal: Seal, events: seq<Value>, log: seq<Value>, j: nat)
    requires Binding(seal) && IsFile(seal, events, log) && j < |events|
    requires forall i :: 0 <= i < j ==> Storable(events[i])
    requires !Storable(events[j])
    ensures IsVerdict(None, Views(seal, log), Rejected(j, EventHashMismatch))
  {
    StorableLinked(seal, events, log, j);
    LineFollows(seal, events, log, j);
    MismatchRejected(Views(seal, log), j);
  }

  lemma {:induction false} FirstUnstorable(events: seq<Value>) returns (j: nat)
    requires Events(events) && exists i :: 0 <= i < |events| && !Storable(events[i])
    ensures j < |events| && !Storable(events[j]) && forall i :: 0 <= i < j ==> Storable(events[i])
  {
    j := 0;
    while Storable(events[j])
      invariant j < |events| && forall i :: 0 <= i < j ==> Storable(events[i])
      decreases |events| - j
    {
      j := j + 1;
    }
  }

  ghost predicate AllStorable(events: seq<Value>) {
    forall i {:trigger events[i]} :: 0 <= i < |events| ==> events[i].Obj? && Storable(events[i])
  }

  /** The file verifies exactly when every event is storable. */
  lemma {:induction false} FileAcceptedIff(seal: Seal, events: seq<Value>, log: seq<Value>, v: Verdict)
    requires Binding(seal) && IsFile(seal, events, log) && IsVerdict(None, Views(seal, log), v)
    ensures v.Accepted? <==> AllStorable(events)
  {
    var views := Views(seal, log);
    if AllStorable(events) {
      StorableAccepted(seal, events, log);
      VerdictUnique(None, views, v, Accepted(|events|, PreviousHash(views, |events|)));
    } else {
      var j := FirstUnstorable(events);
      FirstUnstorableRejected(seal, events, log, j);
      VerdictUnique(None, views, v, Rejected(j, EventHashMismatch));
    }
  }

  // ----- Sequence numbers and hashes of any file -----

  /** Record `i` carries sequence i + 1, the hash of record i - 1 and some hash of its own. */
  predicate InSequence(views: seq<View>, i: nat)
    requires i < |views|
  {
    && !views[i].throws && views[i].integrity && views[i].eventHash.Str?
    && views[i].sequence == Int(i + 1) && views[i].previousHash == PreviousHash(views, i)
  }

  lemma {:induction false} HeadInSequence(seal: Seal, log: seq<Value>)
    requires IsLog(log) && (log != [] ==> InSequence(Views(seal, log), |log| - 1))
    ensures IsHead(LastIntegrity(log)) && NextSequence(LastIntegrity(log)) == |log| + 1
    ensures HeadHash(LastIntegrity(log)) == PreviousHash(Views(seal, log), |log|)
  {
    if log == [] {
    } else {
      HeadView(seal, log[|log| - 1], |log|);
    }
  }

  lemma {:induction false} WrittenView(seal: Seal, log: seq<Value>, i: nat, event: Value)
    requires i < |log| && IsLog(log) && event.Obj? && Valid(event) && Written(seal, log, i, event)
    requires i > 0 ==> InSequence(Views(seal, log[..i]), i - 1)
    ensures NextSequence(LastIntegrity(log[..i])) == i + 1
    ensures HeadHash(LastIntegrity(log[..i])) == PreviousHash(Views(seal, log[..i]), i)
    ensures ViewOf(seal, log[i])
         == BuiltView(seal, LastIntegrity(log[..i]), event).(digest := ViewOf(seal, log[i]).digest)
  {
    HeadInSequence(seal, log[..i]);
    NextStored(seal, log[..i], event);
    StoredView(seal, LastIntegrity(log[..i]), event);
  }

  /** Every line of the file is in sequence, whether or not its digest survives storage. */
  lemma {:induction false} FileInSequence(seal: Seal, events: seq<Value>, log: seq<Value>, i: nat)
    requires IsFile(seal, events, log) && i < |log|
    ensures InSequence(Views(seal, log), i)
    ensures IsHead(LastIntegrity(log[..i])) && NextSequence(LastIntegrity(log[..i])) == i + 1
    ensures Views(seal, log)[i].eventHash == Str(seal(UnsignedRecord(LastIntegrity(log[..i]), events[i])))
  {
    assert Written(seal, log, i, events[i]);
    FileSequenced(seal, events, log, i);
    WrittenInSequence(seal, log, i, events[i]);
  }

  ghost predicate SequencedTo(views: seq<View>, n: nat)
    requires n <= |views|
  {
    forall k {:trigger InSequence(views, k)} :: 0 <= k < n ==> InSequence(views, k)
  }

  lemma {:induction false} SequencedOneMore(views: seq<View>, m: nat, n: nat)
    requires n == m + 1 <= |views| && SequencedTo(views, m) && InSequence(views, m)
    ensures SequencedTo(views, n)
  {
  }

  lemma {:induction false} FileSequenced(seal: Seal, events: seq<Value>, log: seq<Value>, n: nat)
    requires IsFile(seal, events, log) && n <= |log|
    ensures SequencedTo(Views(seal, log), n)
  {
    if n == 0 {
    } else {
      var m := n - 1;
      FileSequenced(seal, events, log, m);
      assert Written(seal, log, m, events[m]);
      WrittenInSequence(seal, log, m, events[m]);
      SequencedOneMore(Views(seal, log), m, n);
    }
  }

  /** A line that was written on a log in sequence is in sequence. */
  lemma {:induction false} WrittenInSequence(seal: Seal, log: seq<Value>, i: nat, event: Value)
    requires i < |log| && IsLog(log) && event.Obj? && Valid(event) && Written(seal, log, i, event)
    requires SequencedTo(Views(seal, log), i)
    ensures InSequence(Views(seal, log), i) && NextSequence(LastIntegrity(log[..i])) == i + 1
    ensures Views(seal, log)[i].eventHash == Str(seal(UnsignedRecord(LastIntegrity(log[..i]), event)))
  {
    var views := Views(seal, log);
    ViewsPrefix(seal, log, i);
    if i > 0 { InSequencePrefix(views, i); }
    WrittenView(seal, log, i, event);
    assert PreviousHash(views[..i], i) == PreviousHash(views, i);
  }

  lemma {:induction false} InSequencePrefix(views: seq<View>, i: nat)
    requires 0 < i < |views| && InSequence(views, i - 1)
    ensures InSequence(views[..i], i - 1)
  {
    assert PreviousHash(views[..i], i - 1) == PreviousHash(views, i - 1);
  }

  lemma {:induction false} FileIsInSequence(seal: Seal, events: seq<Value>, log: seq<Value>, n: nat)
    requires IsFile(seal, events, log) && 0 < n <= |log|
    ensures InSequence(Views(seal, log), n - 1)
  {
    FileInSequence(seal, events, log, n - 1);
  }

  lemma {:induction false} UnsignedSequence(previous: Value, event: Value)
    requires IsHead(previous) && event.Obj?
    ensures Lookup(Integrity(UnsignedRecord(previous, event)), SEQUENCE) == Int(NextSequence(previous))
  {
    var plain := IntegrityFields(NextSequence(previous), HeadHash(previous));
    WithLookup(event.fields, AUDIT_INTEGRITY, Obj(plain), AUDIT_INTEGRITY);
    SignedIntegrity(NextSequence(previous), HeadHash(previous), Null);
    WithoutLookup(plain + [Field(EVENT_HASH, Null)], EVENT_HASH, SEQUENCE);
    NamesDistinct();
  }

  lemma {:induction false} UnsignedRecordValid(previous: Value, event: Value)
    requires IsHead(previous) && event.Obj? && Valid(event)
    ensures Valid(UnsignedRecord(previous, event))
  {
    PlainValid(previous);
    WithValid(event.fields, AUDIT_INTEGRITY, Obj(IntegrityFields(NextSequence(previous), HeadHash(previous))));
  }

  /** Unsigned records with different sequence numbers are sealed differently. */
  lemma {:induction false} SealsDiffer(seal: Seal, p: Value, e: Value, q: Value, f: Value)
    requires Binding(seal) && IsHead(p) && IsHead(q) && e.Obj? && Valid(e) && f.Obj? && Valid(f)
    requires NextSequence(p) != NextSequence(q)
    ensures seal(UnsignedRecord(p, e)) != seal(UnsignedRecord(q, f))
  {
    var u, w := UnsignedRecord(p, e), UnsignedRecord(q, f);
    UnsignedRecordValid(p, e);
    UnsignedRecordValid(q, f);
    UnsignedSequence(p, e);
    UnsignedSequence(q, f);
    if SealedAlike(seal, u, w) {
      EquivalentLookup(u, w, AUDIT_INTEGRITY);
      LookupValid(u, AUDIT_INTEGRITY);
      LookupValid(w, AUDIT_INTEGRITY);
      EquivalentLookup(Integrity(u), Integrity(w), SEQUENCE);
      assert false;
    }
  }

  /** No two lines of one file carry the same hash. */
  lemma {:induction false} FileHashesDistinct(seal: Seal, events: seq<Value>, log: seq<Value>, i: nat, j: nat)
    requires Binding(seal) && IsFile(seal, events, log) && i < j < |log|
    ensures Views(seal, log)[i].eventHash != Views(seal, log)[j].eventHash
  {
    FileInSequence(seal, events, log, i);
    FileInSequence(seal, events, log, j);
    SealsDiffer(seal, LastIntegrity(log[..i]), events[i], LastIntegrity(log[..j]), events[j]);
  }

  /** The hash the record at position `n` would have to point back to is a digest. */
  lemma {:induction false} PreviousDigest(seal: Seal, events: seq<Value>, log: seq<Value>, n: nat)
      returns (p: Value, e: Value)
    requires IsFile(seal, events, log) && 0 < n <= |log|
    ensures IsHead(p) && e.Obj? && Valid(e) && NextSequence(p) == n
    ensures PreviousHash(Views(seal, log), n) == Str(seal(UnsignedRecord(p, e)))
  {
    FileInSequence(seal, events, log, n - 1);
    p, e := LastIntegrity(log[..n - 1]), events[n - 1];
    HashBefore(Views(seal, log), n);
  }

  lemma {:induction false} HashBefore(views: seq<View>, n: nat)
    requires 0 < n <= |views|
    ensures PreviousHash(views, n) == views[n - 1].eventHash
  {
  }

  lemma {:induction false} PreviousHashesDistinct(seal: Seal, events: seq<Value>, log: seq<Value>, i: nat, j: nat)
    requires Binding(seal) && IsFile(seal, events, log) && i < j <= |log|
    ensures PreviousHash(Views(seal, log), i) != PreviousHash(Views(seal, log), j)
  {
    var q, f := PreviousDigest(seal, events, log, j);
    if i > 0 {
      var p, e := PreviousDigest(seal, events, log, i);
      SealsDiffer(seal, p, e, q, f);
    }
  }

}
