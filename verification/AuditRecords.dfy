/**
 The hash chain of audit records: sanitising an event, building the next record
 on the previous one's integrity block, and the log an undisturbed writer leaves.
 */
module AuditRecords {
  import opened Texts
  import opened Json
  import opened Canonical
  import opened Objects

  /** A digest of text. No property of it is assumed unless a lemma says so. */
  type Hash = Text -> Text

  ghost predicate CollisionFree(hash: Hash) {
    forall s, t :: hash(s) == hash(t) ==> s == t
  }

  /** How a record is hashed. Chains are built and checked for any such function. */
  type Seal = Value -> Text

  /** The seal in use: `sha256(canonicalize(value))`. */
  function EventSeal(hash: Hash): Seal { (v: Value) => hash(Canonicalize(v)) }

  /** A seal that tells apart all values but equivalent ones. */
  ghost predicate Binding(seal: Seal) {
    forall a, b {:trigger SealedAlike(seal, a, b)} :: Valid(a) && Valid(b) && SealedAlike(seal, a, b) ==>
      Equivalent(a, b)
  }

  ghost predicate SealedAlike(seal: Seal, a: Value, b: Value) { seal(a) == seal(b) }

  lemma {:induction false} EventSealBinding(hash: Hash)
    requires CollisionFree(hash)
    ensures Binding(EventSeal(hash))
  {
    var seal := EventSeal(hash);
    forall a, b | Valid(a) && Valid(b) && SealedAlike(seal, a, b) ensures Equivalent(a, b) {
      CanonicalUnambiguous(a, b);
    }
  }

  /** Without any assumption: two values sealed alike are equivalent or exhibit a collision of the hash. */
  lemma {:induction false} EventSealCollision(hash: Hash, a: Value, b: Value)
    requires Valid(a) && Valid(b) && EventSeal(hash)(a) == EventSeal(hash)(b)
    ensures Equivalent(a, b) <==> Canonicalize(a) == Canonicalize(b)
    ensures Equivalent(a, b) || (Canonicalize(a) != Canonicalize(b) && hash(Canonicalize(a)) == hash(Canonicalize(b)))
  {
    CanonicalUnambiguous(a, b);
  }

  const AUDIT_INTEGRITY := Ascii("auditIntegrity")
  const ALG := Ascii("alg")
  const CANONICALIZATION := Ascii("canonicalization")
  const SEQUENCE := Ascii("sequence")
  const PREVIOUS_HASH := Ascii("previousHash")
  const EVENT_HASH := Ascii("eventHash")

  lemma {:induction false} NamesDistinct()
    ensures Distinct([AUDIT_INTEGRITY, ALG, CANONICALIZATION, SEQUENCE, PREVIOUS_HASH, EVENT_HASH])
  {
  }

  function OrNull(v: Value): Value { if v.Undefined? then Null else v }

  function Integrity(record: Value): Value { Lookup(record, AUDIT_INTEGRITY) }

  function EventHash(record: Value): Value { Lookup(Integrity(record), EVENT_HASH) }

  /** The record without its own hash, the value the hash is taken over. */
  function Unsigned(record: Value): Value
    requires record.Obj? && Integrity(record).Obj?
  {
    Obj(With(record.fields, AUDIT_INTEGRITY, Obj(Without(Integrity(record).fields, EVENT_HASH))))
  }

  /** What checking a chain looks at in one record; a line that is `null` or no JSON throws. */
  datatype View = View(
    throws: bool, integrity: bool, sequence: Value, previousHash: Value, eventHash: Value, digest: Value)

  predicate Truthy(v: Value) {
    !(v.Undefined? || v.Null? || v == Bool(false) || v == Int(0) || v == Str([]))
  }

  function ViewOf(seal: Seal, record: Value): View {
    var integrity := Integrity(record);
    View(record.Null?, Truthy(integrity),
         Lookup(integrity, SEQUENCE), OrNull(Lookup(integrity, PREVIOUS_HASH)), Lookup(integrity, EVENT_HASH),
         if record.Obj? && integrity.Obj? then Str(seal(Unsigned(record))) else Undefined)
  }

  function Views(seal: Seal, log: seq<Value>): (views: seq<View>)
    ensures |views| == |log| && forall i :: 0 <= i < |log| ==> views[i] == ViewOf(seal, log[i])
  {
    seq(|log|, i requires 0 <= i < |log| => ViewOf(seal, log[i]))
  }

  lemma {:induction false} UnsignedValid(record: Value)
    requires Valid(record) && record.Obj? && Integrity(record).Obj?
    ensures Valid(Unsigned(record))
  {
    LookupValid(record, AUDIT_INTEGRITY);
    WithoutValid(Integrity(record).fields, EVENT_HASH);
    WithValid(record.fields, AUDIT_INTEGRITY, Obj(Without(Integrity(record).fields, EVENT_HASH)));
  }

  // ----- buildIntegrityRecord -----

  /** What a store may hand over as the previous integrity block. */
  predicate IsHead(previous: Value) {
    previous.Null?
    || (previous.Obj? && Lookup(previous, SEQUENCE).Int? && Lookup(previous, EVENT_HASH).Str?)
  }

  function NextSequence(previous: Value): int
    requires IsHead(previous)
  {
    if previous.Null? then 1 else Lookup(previous, SEQUENCE).n + 1
  }

  function HeadHash(previous: Value): Value
    requires IsHead(previous)
  {
    if previous.Null? then Null else Lookup(previous, EVENT_HASH)
  }

  function IntegrityFields(sequence: int, previousHash: Value): seq<Field> {
    [ Field(ALG, Str(Ascii("sha256"))),
      Field(CANONICALIZATION, Str(Ascii("json-stable-v1"))),
      Field(SEQUENCE, Int(sequence)),
      Field(PREVIOUS_HASH, previousHash) ]
  }

  function UnsignedRecord(previous: Value, event: Value): Value
    requires IsHead(previous) && event.Obj?
  {
    Obj(With(event.fields, AUDIT_INTEGRITY, Obj(IntegrityFields(NextSequence(previous), HeadHash(previous)))))
  }

  function SignedFields(seal: Seal, previous: Value, event: Value): seq<Field>
    requires IsHead(previous) && event.Obj?
  {
    IntegrityFields(NextSequence(previous), HeadHash(previous))
    + [Field(EVENT_HASH, Str(seal(UnsignedRecord(previous, event))))]
  }

  function BuildIntegrityRecord(seal: Seal, previous: Value, event: Value): Value
    requires IsHead(previous) && event.Obj?
  {
    Obj(With(UnsignedRecord(previous, event).fields, AUDIT_INTEGRITY, Obj(SignedFields(seal, previous, event))))
  }

  lemma {:induction false} SignedIntegrity(sequence: int, previousHash: Value, eventHash: Value)
    ensures var v := Obj(IntegrityFields(sequence, previousHash) + [Field(EVENT_HASH, eventHash)]);
      && Lookup(v, SEQUENCE) == Int(sequence)
      && Lookup(v, PREVIOUS_HASH) == previousHash
      && Lookup(v, EVENT_HASH) == eventHash
      && Without(v.fields, EVENT_HASH) == IntegrityFields(sequence, previousHash)
      && Distinct(Keys(v.fields))
  {
    NamesDistinct();
    var names := [AUDIT_INTEGRITY, ALG, CANONICALIZATION, SEQUENCE, PREVIOUS_HASH, EVENT_HASH];
    var fs := IntegrityFields(sequence, previousHash) + [Field(EVENT_HASH, eventHash)];
    assert forall i :: 0 <= i < 5 ==> Keys(fs)[i] == names[i + 1];
    assert Distinct(Keys(fs));
    GetAt(fs, 2);
    GetAt(fs, 3);
    GetAt(fs, 4);
    WithoutLast(IntegrityFields(sequence, previousHash), Field(EVENT_HASH, eventHash));
  }

  lemma {:induction false} WithoutLast(fs: seq<Field>, f: Field)
    requires forall i :: 0 <= i < |fs| ==> fs[i].key != f.key
    ensures Without(fs + [f], f.key) == fs
  {
    if fs == [] {
    } else {
      WithoutLast(fs[1..], f);
      assert (fs + [f])[1..] == fs[1..] + [f];
    }
  }

  lemma {:induction false} BuiltBlock(seal: Seal, previous: Value, event: Value)
    requires IsHead(previous) && event.Obj?
    ensures BuildIntegrityRecord(seal, previous, event)
         == Obj(With(event.fields, AUDIT_INTEGRITY, Obj(SignedFields(seal, previous, event))))
    ensures Integrity(BuildIntegrityRecord(seal, previous, event)) == Obj(SignedFields(seal, previous, event))
  {
    var plain := Obj(IntegrityFields(NextSequence(previous), HeadHash(previous)));
    var signed := Obj(SignedFields(seal, previous, event));
    WithTwice(event.fields, AUDIT_INTEGRITY, plain, signed);
    WithLookup(event.fields, AUDIT_INTEGRITY, signed, AUDIT_INTEGRITY);
  }

  /** A built record signs itself and links to its predecessor. */
  lemma {:induction false} BuiltRecord(seal: Seal, previous: Value, event: Value)
    requires IsHead(previous) && event.Obj?
    ensures var r := BuildIntegrityRecord(seal, previous, event);
      && r.Obj? && Integrity(r).Obj? && IsHead(Integrity(r))
      && Unsigned(r) == UnsignedRecord(previous, event)
      && ViewOf(seal, r) == BuiltView(seal, previous, event)
  {
    var plain := Obj(IntegrityFields(NextSequence(previous), HeadHash(previous)));
    var unsigned := UnsignedRecord(previous, event);
    BuiltBlock(seal, previous, event);
    SignedIntegrity(NextSequence(previous), HeadHash(previous), Str(seal(unsigned)));
    WithTwice(event.fields, AUDIT_INTEGRITY, Obj(SignedFields(seal, previous, event)), plain);
  }

  /** The block that a record is given, field by field. */
  lemma {:induction false} BlockExactly(seal: Seal, previous: Value, event: Value)
    requires IsHead(previous) && event.Obj?
    ensures Lookup(BuildIntegrityRecord(seal, previous, event), Ascii("auditIntegrity")) == Obj([
      Field(Ascii("alg"), Str(Ascii("sha256"))),
      Field(Ascii("canonicalization"), Str(Ascii("json-stable-v1"))),
      Field(Ascii("sequence"), Int(NextSequence(previous))),
      Field(Ascii("previousHash"), HeadHash(previous)),
      Field(Ascii("eventHash"), Str(seal(UnsignedRecord(previous, event))))])
  {
    BuiltBlock(seal, previous, event);
  }

  function BuiltView(seal: Seal, previous: Value, event: Value): View
    requires IsHead(previous) && event.Obj?
  {
    var h := Str(seal(UnsignedRecord(previous, event)));
    View(false, true, Int(NextSequence(previous)), HeadHash(previous), h, h)
  }

  lemma {:induction false} BuiltKeepsEvent(seal: Seal, previous: Value, event: Value, key: Text)
    requires IsHead(previous) && event.Obj? && key != AUDIT_INTEGRITY
    ensures Lookup(BuildIntegrityRecord(seal, previous, event), key) == Lookup(event, key)
  {
    BuiltBlock(seal, previous, event);
    WithLookup(event.fields, AUDIT_INTEGRITY, Obj(SignedFields(seal, previous, event)), key);
  }

  lemma {:induction false} BlockValid(sequence: int, previousHash: Value, eventHash: Value)
    requires (previousHash.Null? || previousHash.Str?) && eventHash.Str?
    ensures Valid(Obj(IntegrityFields(sequence, previousHash) + [Field(EVENT_HASH, eventHash)]))
  {
    SignedIntegrity(sequence, previousHash, eventHash);
  }

  lemma {:induction false} BuiltRecordValid(seal: Seal, previous: Value, event: Value)
    requires IsHead(previous) && event.Obj? && Valid(event) && Valid(previous)
    ensures Valid(BuildIntegrityRecord(seal, previous, event))
  {
    BuiltBlock(seal, previous, event);
    BlockValid(NextSequence(previous), HeadHash(previous), Str(seal(UnsignedRecord(previous, event))));
    WithValid(event.fields, AUDIT_INTEGRITY, Obj(SignedFields(seal, previous, event)));
  }

  // ----- The log an undisturbed writer leaves -----

  /** `readLastIntegrity` over the records written so far. */
  function LastIntegrity(log: seq<Value>): Value {
    if log == [] then Null else OrNull(Integrity(log[|log| - 1]))
  }

  ghost predicate Events(events: seq<Value>) {
    forall i :: 0 <= i < |events| ==> events[i].Obj? && Valid(events[i])
  }

  /** A record that the next one can be built on. */
  ghost predicate IsRecord(v: Value) {
    v.Obj? && Integrity(v).Obj? && IsHead(Integrity(v)) && Valid(v)
  }

  ghost predicate IsLog(log: seq<Value>) {
    forall i {:trigger IsRecord(log[i])} :: 0 <= i < |log| ==> IsRecord(log[i])
  }

  lemma {:induction false} LogPrefix(log: seq<Value>, n: nat)
    requires IsLog(log) && n <= |log|
    ensures IsLog(log[..n])
  {
    forall i | 0 <= i < n ensures IsRecord(log[..n][i]) {
      assert IsRecord(log[i]);
    }
  }

  lemma {:induction false} NextRecord(seal: Seal, log: seq<Value>, event: Value)
    requires IsLog(log) && event.Obj? && Valid(event)
    ensures IsHead(LastIntegrity(log))
    ensures IsRecord(BuildIntegrityRecord(seal, LastIntegrity(log), event))
  {
    var previous := LastIntegrity(log);
    if log != [] {
      assert IsRecord(log[|log| - 1]);
      LookupValid(log[|log| - 1], AUDIT_INTEGRITY);
    }
    BuiltRecord(seal, previous, event);
    BuiltRecordValid(seal, previous, event);
  }

  /** The chain over `events`, one record each, in order. */
  ghost function Chain(seal: Seal, events: seq<Value>): (log: seq<Value>)
    requires Events(events)
    ensures |log| == |events| && IsLog(log)
  {
    if events == [] then []
    else
      var n := |events| - 1;
      var log := Chain(seal, events[..n]);
      NextRecord(seal, log, events[n]);
      log + [BuildIntegrityRecord(seal, LastIntegrity(log), events[n])]
  }

  lemma {:induction false} ChainPush(seal: Seal, events: seq<Value>, event: Value)
    requires Events(events) && event.Obj? && Valid(event)
    ensures Events(events + [event])
    ensures IsHead(LastIntegrity(Chain(seal, events)))
    ensures Chain(seal, events + [event])
         == Chain(seal, events) + [BuildIntegrityRecord(seal, LastIntegrity(Chain(seal, events)), event)]
  {
    assert (events + [event])[..|events|] == events;
    NextRecord(seal, Chain(seal, events), event);
  }

  lemma {:induction false} ChainDropLast(seal: Seal, events: seq<Value>, m: nat)
    requires Events(events) && m < |events|
    ensures Chain(seal, events)[..m] == Chain(seal, events[..|events| - 1])[..m]
  {
  }

  lemma {:induction false} PrefixOfPrefix<T>(xs: seq<T>, m: nat, n: nat)
    requires m <= n <= |xs|
    ensures xs[..n][..m] == xs[..m]
  {
  }

  lemma {:induction false} ChainPrefix(seal: Seal, events: seq<Value>, m: nat)
    requires Events(events) && m <= |events|
    ensures Chain(seal, events)[..m] == Chain(seal, events[..m])
    decreases |events|
  {
    if m == |events| {
      assert events[..m] == events;
    } else {
      ChainDropLast(seal, events, m);
      ChainPrefix(seal, events[..|events| - 1], m);
      PrefixOfPrefix(events, m, |events| - 1);
    }
  }

  lemma {:induction false} ChainAt(seal: Seal, events: seq<Value>, i: nat)
    requires Events(events) && i < |events|
    ensures IsHead(LastIntegrity(Chain(seal, events)[..i]))
    ensures Chain(seal, events)[i]
         == BuildIntegrityRecord(seal, LastIntegrity(Chain(seal, events)[..i]), events[i])
  {
    var before, upto := events[..i], events[..i + 1];
    assert before + [events[i]] == upto;
    ChainPush(seal, before, events[i]);
    ChainPrefix(seal, events, i);
    ChainPrefix(seal, events, i + 1);
    assert Chain(seal, events)[i] == Chain(seal, upto)[i];
  }

  /** The hash record `i` must point back to. */
  function PreviousHash(views: seq<View>, i: nat): Value
    requires i <= |views|
  {
    if i == 0 then Null else views[i - 1].eventHash
  }

  /** Record `i` carries sequence i + 1, the hash of record i - 1 and its own digest. */
  predicate Linked(views: seq<View>, i: nat)
    requires i < |views|
  {
    && !views[i].throws && views[i].integrity
    && views[i].sequence == Int(i + 1)
    && views[i].previousHash == PreviousHash(views, i)
    && views[i].eventHash == views[i].digest
  }

  ghost predicate AllLinked(views: seq<View>, n: nat)
    requires n <= |views|
  {
    forall i {:trigger Linked(views, i)} :: 0 <= i < n ==> Linked(views, i)
  }

  /** A view that extends a linked list of views by one. */
  predicate Extends(views: seq<View>, v: View) {
    v.eventHash.Str? && v == View(false, true, Int(|views| + 1), PreviousHash(views, |views|), v.eventHash, v.eventHash)
  }

  /** The head a record is built on, seen through the view of the record it comes from. */
  lemma {:induction false} HeadView(seal: Seal, record: Value, sequence: int)
    requires IsRecord(record) && ViewOf(seal, record).sequence == Int(sequence)
    ensures HeadHash(Integrity(record)) == ViewOf(seal, record).eventHash
    ensures NextSequence(Integrity(record)) == sequence + 1
  {
  }

  lemma {:induction false} HeadOfLog(seal: Seal, log: seq<Value>)
    requires IsLog(log) && AllLinked(Views(seal, log), |log|)
    ensures IsHead(LastIntegrity(log)) && NextSequence(LastIntegrity(log)) == |log| + 1
    ensures HeadHash(LastIntegrity(log)) == PreviousHash(Views(seal, log), |log|)
  {
    if log == [] {
    } else {
      var n := |log| - 1;
      assert Linked(Views(seal, log), n);
      HeadView(seal, log[n], n + 1);
    }
  }

  /** A record built on the head of a linked log extends it. */
  lemma {:induction false} BuildExtends(seal: Seal, log: seq<Value>, event: Value)
    requires IsLog(log) && event.Obj? && AllLinked(Views(seal, log), |log|)
    ensures IsHead(LastIntegrity(log))
    ensures Extends(Views(seal, log), ViewOf(seal, BuildIntegrityRecord(seal, LastIntegrity(log), event)))
  {
    HeadOfLog(seal, log);
    BuiltRecord(seal, LastIntegrity(log), event);
  }

  lemma {:induction false} LinkedPush(views: seq<View>, v: View)
    requires AllLinked(views, |views|) && Extends(views, v)
    ensures AllLinked(views + [v], |views| + 1)
  {
    var vs := views + [v];
    forall i | 0 <= i < |vs| ensures Linked(vs, i) {
      if i < |views| {
        assert Linked(views, i);
        assert PreviousHash(vs, i) == PreviousHash(views, i);
      }
    }
  }

  lemma {:induction false} ViewsPush(seal: Seal, log: seq<Value>, r: Value)
    ensures Views(seal, log + [r]) == Views(seal, log) + [ViewOf(seal, r)]
  {
  }

  /** Every record of the chain is linked. */
  lemma {:induction false} ChainLinked(seal: Seal, events: seq<Value>)
    requires Events(events)
    ensures AllLinked(Views(seal, Chain(seal, events)), |events|)
    decreases |events|
  {
    if events == [] {
    } else {
      var n := |events| - 1;
      var log := Chain(seal, events[..n]);
      ChainLinked(seal, events[..n]);
      BuildExtends(seal, log, events[n]);
      var r := BuildIntegrityRecord(seal, LastIntegrity(log), events[n]);
      LinkedPush(Views(seal, log), ViewOf(seal, r));
      ViewsPush(seal, log, r);
    }
  }

  /** Record `i` of the chain keeps every field of event `i`. */
  lemma {:induction false} ChainKeepsEvents(seal: Seal, events: seq<Value>, i: nat, key: Text)
    requires Events(events) && i < |events| && key != AUDIT_INTEGRITY
    ensures Lookup(Chain(seal, events)[i], key) == Lookup(events[i], key)
  {
    ChainAt(seal, events, i);
    BuiltKeepsEvent(seal, LastIntegrity(Chain(seal, events)[..i]), events[i], key);
  }

  // ----- sanitizeAudit -----

  const FORBIDDEN_KEYS: set<Text> := {
    Ascii("value"), Ascii("plaintext"), Ascii("payload"), Ascii("content"), Ascii("message"),
    Ascii("prompt"), Ascii("secret"), Ascii("access_token"), Ascii("id_token"),
    Ascii("refresh_token"), Ascii("code"), Ascii("code_verifier"), Ascii("client_secret"),
    Ascii("state"), Ascii("nonce"), Ascii("claims"), Ascii("subject"), Ascii("issuer"),
    Ascii("credential"), Ascii("authorization"), Ascii("signature"), Ascii("entry"),
    Ascii("scopes"), Ascii("labels") }

  function SanitizeAudit(v: Value): Value
    decreases v
  {
    match v
    case Arr(xs) => Arr(SanitizeItems(xs))
    case Obj(fs) => Obj(SanitizeFields(fs))
    case _ => v
  }

  function SanitizeItems(xs: seq<Value>): (ys: seq<Value>)
    ensures |ys| == |xs| && forall i :: 0 <= i < |xs| ==> ys[i] == SanitizeAudit(xs[i])
    decreases xs
  {
    if xs == [] then [] else [SanitizeAudit(xs[0])] + SanitizeItems(xs[1..])
  }

  function SanitizeFields(fs: seq<Field>): seq<Field>
    decreases fs
  {
    if fs == [] then []
    else if fs[0].key in FORBIDDEN_KEYS then SanitizeFields(fs[1..])
    else [Field(fs[0].key, SanitizeAudit(fs[0].value))] + SanitizeFields(fs[1..])
  }

  /** No object at any depth has a forbidden key. */
  ghost predicate Clean(v: Value) {
    match v
    case Arr(xs) => forall i :: 0 <= i < |xs| ==> Clean(xs[i])
    case Obj(fs) => forall i :: 0 <= i < |fs| ==> fs[i].key !in FORBIDDEN_KEYS && Clean(fs[i].value)
    case _ => true
  }

  lemma {:induction false} SanitizedFieldOrigin(fs: seq<Field>, i: nat)
    requires i < |SanitizeFields(fs)|
    ensures exists j :: 0 <= j < |fs| && fs[j].key !in FORBIDDEN_KEYS
                        && SanitizeFields(fs)[i] == Field(fs[j].key, SanitizeAudit(fs[j].value))
    decreases fs
  {
    if fs[0].key !in FORBIDDEN_KEYS && i == 0 {
    } else {
      var i' := if fs[0].key in FORBIDDEN_KEYS then i else i - 1;
      SanitizedFieldOrigin(fs[1..], i');
      var j :| 0 <= j < |fs[1..]| && fs[1..][j].key !in FORBIDDEN_KEYS
               && SanitizeFields(fs[1..])[i'] == Field(fs[1..][j].key, SanitizeAudit(fs[1..][j].value));
      assert fs[j + 1] == fs[1..][j];
    }
  }

  lemma {:induction false} SanitizedFieldsDistinct(fs: seq<Field>)
    requires Distinct(Keys(fs))
    ensures Distinct(Keys(SanitizeFields(fs)))
    ensures forall k :: k in Keys(SanitizeFields(fs)) ==> k in Keys(fs)
    decreases fs
  {
    if fs == [] {
    } else {
      var ks := Keys(fs);
      assert ks[1..] == Keys(fs[1..]);
      assert ks == [ks[0]] + ks[1..];
      DistinctCons(ks[0], ks[1..]);
      SanitizedFieldsDistinct(fs[1..]);
      var rest := Keys(SanitizeFields(fs[1..]));
      DistinctCons(ks[0], rest);
      assert ks[0] !in FORBIDDEN_KEYS ==> Keys(SanitizeFields(fs)) == [ks[0]] + rest;
    }
  }

  /** Sanitising removes every forbidden key at every depth. */
  lemma {:induction false} SanitizeCleans(v: Value)
    requires Valid(v)
    ensures Clean(SanitizeAudit(v)) && Valid(SanitizeAudit(v))
    decreases v
  {
    match v
    case Arr(xs) =>
      forall i | 0 <= i < |xs| ensures Clean(SanitizeAudit(xs[i])) && Valid(SanitizeAudit(xs[i])) {
        SanitizeCleans(xs[i]);
      }
    case Obj(fs) =>
      SanitizedFieldsDistinct(fs);
      var gs := SanitizeFields(fs);
      forall i | 0 <= i < |gs| ensures gs[i].key !in FORBIDDEN_KEYS && Clean(gs[i].value) && Valid(gs[i].value) {
        SanitizedFieldOrigin(fs, i);
        var j :| 0 <= j < |fs| && fs[j].key !in FORBIDDEN_KEYS
                 && gs[i] == Field(fs[j].key, SanitizeAudit(fs[j].value));
        SanitizeCleans(fs[j].value);
      }
    case _ =>
  }

  /** The positions of the fields that stay, in order. */
  ghost predicate Stays(fs: seq<Field>, kept: seq<nat>) {
    && (forall m :: 0 <= m < |kept| ==> kept[m] < |fs|)
    && (forall l, m :: 0 <= l < m < |kept| ==> kept[l] < kept[m])
    && (forall j: nat :: j in kept <==> j < |fs| && fs[j].key !in FORBIDDEN_KEYS)
  }

  lemma {:induction false} Moved(kept: seq<nat>) returns (moved: seq<nat>)
    ensures |moved| == |kept| && forall m :: 0 <= m < |kept| ==> moved[m] == kept[m] + 1
    ensures forall j: nat :: j + 1 in moved <==> j in kept
    ensures 0 !in moved
  {
    moved := seq(|kept|, m requires 0 <= m < |kept| => kept[m] + 1);
    forall j: nat ensures j + 1 in moved <==> j in kept {
      if j in kept {
        var m :| 0 <= m < |kept| && kept[m] == j;
        assert moved[m] == j + 1;
      }
    }
  }

  lemma {:induction false} StaysMoved(f: Field, rest: seq<Field>, kept: seq<nat>, moved: seq<nat>, j: nat)
    requires Stays(rest, kept) && (forall i: nat :: i + 1 in moved <==> i in kept) && j > 0
    ensures j in moved <==> j < |[f] + rest| && ([f] + rest)[j].key !in FORBIDDEN_KEYS
  {
    var i: nat := j - 1;
    assert i + 1 in moved <==> i in kept;
    if i < |rest| { assert ([f] + rest)[j] == rest[i]; }
  }

  lemma {:induction false} StaysCons(f: Field, rest: seq<Field>, kept: seq<nat>) returns (all: seq<nat>)
    requires Stays(rest, kept)
    ensures Stays([f] + rest, all)
    ensures |all| == |kept| + if f.key in FORBIDDEN_KEYS then 0 else 1
    ensures forall m :: 0 <= m < |kept| ==> all[|all| - |kept| + m] == kept[m] + 1
    ensures f.key !in FORBIDDEN_KEYS ==> all[0] == 0
  {
    var moved := Moved(kept);
    all := (if f.key in FORBIDDEN_KEYS then [] else [0]) + moved;
    forall j: nat ensures j in all <==> j < |[f] + rest| && ([f] + rest)[j].key !in FORBIDDEN_KEYS {
      if j > 0 { StaysMoved(f, rest, kept, moved, j); }
    }
  }

  /** The sanitised fields are those at the positions given, in order, each with its value sanitised. */
  ghost predicate SanitizedAs(fs: seq<Field>, kept: seq<nat>, gs: seq<Field>) {
    && Stays(fs, kept) && |gs| == |kept|
    && forall m :: 0 <= m < |kept| ==> gs[m] == Field(fs[kept[m]].key, SanitizeAudit(fs[kept[m]].value))
  }

  lemma {:induction false} SanitizedWithout(f: Field, rest: seq<Field>, before: seq<nat>, gs: seq<Field>)
      returns (kept: seq<nat>)
    requires SanitizedAs(rest, before, gs) && f.key in FORBIDDEN_KEYS
    ensures SanitizedAs([f] + rest, kept, gs)
  {
    kept := StaysCons(f, rest, before);
    forall m | 0 <= m < |kept| ensures ([f] + rest)[kept[m]] == rest[before[m]] {
      assert kept[|kept| - |before| + m] == before[m] + 1;
    }
  }

  lemma {:induction false} SanitizedWith(f: Field, rest: seq<Field>, before: seq<nat>, gs: seq<Field>)
      returns (kept: seq<nat>)
    requires SanitizedAs(rest, before, gs) && f.key !in FORBIDDEN_KEYS
    ensures SanitizedAs([f] + rest, kept, [Field(f.key, SanitizeAudit(f.value))] + gs)
  {
    kept := StaysCons(f, rest, before);
    var all := [Field(f.key, SanitizeAudit(f.value))] + gs;
    forall m | 0 < m < |kept| ensures ([f] + rest)[kept[m]] == rest[before[m - 1]] && all[m] == gs[m - 1] {
      assert kept[|kept| - |before| + (m - 1)] == before[m - 1] + 1;
    }
  }

  /** Sanitising an object keeps exactly the fields with an allowed key. */
  lemma {:induction false} SanitizedFields(fs: seq<Field>) returns (kept: seq<nat>)
    ensures SanitizedAs(fs, kept, SanitizeFields(fs))
  {
    if fs == [] {
      kept := [];
    } else {
      var before := SanitizedFields(fs[1..]);
      assert fs == [fs[0]] + fs[1..];
      if fs[0].key in FORBIDDEN_KEYS {
        kept := SanitizedWithout(fs[0], fs[1..], before, SanitizeFields(fs[1..]));
      } else {
        kept := SanitizedWith(fs[0], fs[1..], before, SanitizeFields(fs[1..]));
      }
    }
  }

  /** What an object holds under a key once it is sanitised. */
  lemma {:induction false} SanitizedLookup(fs: seq<Field>, key: Text)
    ensures Lookup(SanitizeAudit(Obj(fs)), key)
         == if key in FORBIDDEN_KEYS then Undefined else SanitizeAudit(Lookup(Obj(fs), key))
  {
    if fs == [] {
      assert Keys(SanitizeFields(fs)) == Keys(fs) == [];
    } else {
      var f, rest := fs[0], fs[1..];
      assert fs == [f] + rest;
      SanitizedLookup(rest, key);
      LookupCons(f, rest, key);
      LookupCons(Field(f.key, SanitizeAudit(f.value)), SanitizeFields(rest), key);
    }
  }

  /** A way into a value: by keys of objects and positions of arrays. */
  datatype Way = Key(key: Text) | Item(index: nat)

  function Inside(v: Value, way: Way): Value {
    match way
    case Key(k) => Lookup(v, k)
    case Item(i) => if v.Arr? && i < |v.items| then v.items[i] else Undefined
  }

  function Reached(v: Value, path: seq<Way>): Value
    decreases |path|
  {
    if path == [] then v else Reached(Inside(v, path[0]), path[1..])
  }

  lemma {:induction false} NothingReached(path: seq<Way>)
    ensures Reached(Undefined, path) == Undefined
    decreases |path|
  {
    if path == [] {
    } else {
      NothingReached(path[1..]);
    }
  }

  /** Sanitising leaves at the end of every way what was there, sanitised, unless a forbidden key is on the way. */
  lemma {:induction false} SanitizedReached(v: Value, path: seq<Way>)
    ensures Reached(SanitizeAudit(v), path)
         == if exists i :: 0 <= i < |path| && path[i].Key? && path[i].key in FORBIDDEN_KEYS then Undefined
            else SanitizeAudit(Reached(v, path))
    decreases |path|
  {
    if path == [] {
    } else {
      var way, rest := path[0], path[1..];
      if v.Obj? && way.Key? { SanitizedLookup(v.fields, way.key); }
      if way.Key? && way.key in FORBIDDEN_KEYS {
        NothingReached(rest);
      } else {
        assert Inside(SanitizeAudit(v), way) == SanitizeAudit(Inside(v, way));
        SanitizedReached(Inside(v, way), rest);
        assert forall i :: 0 <= i < |rest| ==> path[i + 1] == rest[i];
      }
    }
  }

  /** Sanitising changes the length of no array, and no value that is neither an array nor an object. */
  lemma {:induction false} SanitizedShape(v: Value)
    ensures v.Arr? ==> SanitizeAudit(v).Arr? && |SanitizeAudit(v).items| == |v.items|
    ensures v.Obj? ==> SanitizeAudit(v).Obj?
    ensures !v.Arr? && !v.Obj? ==> SanitizeAudit(v) == v
  {
  }

  /** Sanitising keeps a value that has no forbidden key. */
  lemma {:induction false} SanitizeKeepsClean(v: Value)
    requires Clean(v)
    ensures SanitizeAudit(v) == v
    decreases v
  {
    match v
    case Arr(xs) =>
      forall i | 0 <= i < |xs| ensures SanitizeAudit(xs[i]) == xs[i] { SanitizeKeepsClean(xs[i]); }
    case Obj(fs) => SanitizeKeepsCleanFields(fs);
    case _ =>
  }

  lemma {:induction false} SanitizeKeepsCleanFields(fs: seq<Field>)
    requires forall i :: 0 <= i < |fs| ==> fs[i].key !in FORBIDDEN_KEYS && Clean(fs[i].value)
    ensures SanitizeFields(fs) == fs
    decreases fs
  {
    if fs == [] {
    } else {
      SanitizeKeepsClean(fs[0].value);
      SanitizeKeepsCleanFields(fs[1..]);
    }
  }

  lemma {:induction false} IntegrityNamesAllowed()
    ensures AUDIT_INTEGRITY !in FORBIDDEN_KEYS && ALG !in FORBIDDEN_KEYS && CANONICALIZATION !in FORBIDDEN_KEYS
    ensures SEQUENCE !in FORBIDDEN_KEYS && PREVIOUS_HASH !in FORBIDDEN_KEYS && EVENT_HASH !in FORBIDDEN_KEYS
  {
    assert SEQUENCE[0] == 115 && Ascii("id_token")[0] == 105;
    assert PREVIOUS_HASH[0] == 112 && Ascii("access_token")[0] == 97;
    assert EVENT_HASH[0] == 101 && Ascii("plaintext")[0] == 112 && Ascii("signature")[0] == 115;
  }

  /** What the record written for an event holds under a key of the event. */
  lemma {:induction false} RecordKeepsAllowed(seal: Seal, previous: Value, event: Value, key: Text)
    requires IsHead(previous) && event.Obj? && key != AUDIT_INTEGRITY
    ensures Lookup(BuildIntegrityRecord(seal, previous, SanitizeAudit(event)), key)
         == if key in FORBIDDEN_KEYS then Undefined else SanitizeAudit(Lookup(event, key))
  {
    BuiltKeepsEvent(seal, previous, SanitizeAudit(event), key);
    SanitizedLookup(event.fields, key);
  }

  /** The record written for any event holds no forbidden key at any depth. */
  lemma {:induction false} RecordClean(seal: Seal, previous: Value, event: Value)
    requires IsHead(previous) && event.Obj? && Valid(event)
    ensures Clean(BuildIntegrityRecord(seal, previous, SanitizeAudit(event)))
  {
    var e := SanitizeAudit(event);
    SanitizeCleans(event);
    IntegrityNamesAllowed();
    var signed := Obj(SignedFields(seal, previous, e));
    BuiltBlock(seal, previous, e);
    WithFields(e.fields, AUDIT_INTEGRITY, signed);
    var gs := With(e.fields, AUDIT_INTEGRITY, signed);
    assert Clean(signed);
    forall i | 0 <= i < |gs| ensures gs[i].key !in FORBIDDEN_KEYS && Clean(gs[i].value) {
      assert gs[i] in gs;
    }
  }
}
