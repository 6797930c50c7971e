/**
 Verification of an audit log against its own links and, when there is one,
 against the separate stream of anchors.
 */
module AuditVerify {
  import opened Options
  import opened Texts
  import opened Json
  import opened Canonical
  import opened Objects
  import opened AuditRecords

  // ----- Anchors -----

  /**
   A line of the anchor stream. A partial or foreign line is skipped; a line that
   reads `null` makes the reader throw.
   */
  datatype AnchorLine = Unreadable | NullLine | Anchor(sequence: int, eventHash: Text)

  datatype Anchors = Anchors(bySequence: map<int, Text>, lastSequence: int)

  /** What the anchors among the lines attest. */
  function Attested(lines: seq<AnchorLine>): Anchors {
    if lines == [] then Anchors(map[], 0)
    else
      var n := |lines| - 1;
      var before := Attested(lines[..n]);
      match lines[n]
      case Anchor(s, h) =>
        Anchors(before.bySequence[s := h], if before.lastSequence < s then s else before.lastSequence)
      case _ => before
  }

  /** None when it throws. */
  method ReadAnchors(lines: seq<AnchorLine>) returns (anchors: Option<Anchors>)
    ensures anchors == if NullLine in lines then None else Some(Attested(lines))
  {
    var bySequence: map<int, Text> := map[];
    var lastSequence := 0;
    for i := 0 to |lines|
      invariant NullLine !in lines[..i]
      invariant Attested(lines[..i]) == Anchors(bySequence, lastSequence)
    {
      assert lines[..i + 1][..i] == lines[..i];
      match lines[i]
      case Unreadable =>
      case NullLine => return None;
      case Anchor(s, h) =>
        bySequence := bySequence[s := h];
        lastSequence := if lastSequence < s then s else lastSequence;
    }
    assert lines[..|lines|] == lines;
    anchors := Some(Anchors(bySequence, lastSequence));
  }

  /** The last readable line for a sequence is the one that counts, and no sequence exceeds the last one. */
  lemma {:induction false} AttestedMeaning(lines: seq<AnchorLine>, i: nat)
    requires i < |lines| && lines[i].Anchor?
    ensures lines[i].sequence <= Attested(lines).lastSequence
    ensures lines[i].sequence in Attested(lines).bySequence
    ensures (forall j :: i < j < |lines| && lines[j].Anchor? ==> lines[j].sequence != lines[i].sequence)
            ==> Attested(lines).bySequence[lines[i].sequence] == lines[i].eventHash
    decreases |lines|
  {
    var n := |lines| - 1;
    if i == n {
    } else {
      AttestedMeaning(lines[..n], i);
    }
  }

  // ----- Verdicts -----

  datatype Reason =
    | MissingIntegrity
    | SequenceMismatch
    | PreviousHashMismatch
    | EventHashMismatch
    | AnchorMismatch(sequence: int)
    | TailTruncation(records: nat, attested: int)

  /** `records` counts the records that passed before the verifier answered or threw. */
  datatype Verdict =
    | Accepted(records: nat, headHash: Value)
    | Rejected(records: nat, reason: Reason)
    | Threw(records: nat)

  predicate AnchorAgrees(anchors: Option<Anchors>, sequence: int, eventHash: Value) {
    anchors.Some? && sequence in anchors.value.bySequence ==>
      Str(anchors.value.bySequence[sequence]) == eventHash
  }

  /** What is wrong with a record that should have this sequence and point back to this hash. */
  function FaultOf(anchors: Option<Anchors>, v: View, sequence: int, previousHash: Value): Option<Reason> {
    if !v.integrity then Some(MissingIntegrity)
    else if v.sequence != Int(sequence) then Some(SequenceMismatch)
    else if v.previousHash != previousHash then Some(PreviousHashMismatch)
    else if v.eventHash != v.digest then Some(EventHashMismatch)
    else if !AnchorAgrees(anchors, sequence, v.eventHash) then Some(AnchorMismatch(sequence))
    else None
  }

  /** What is wrong with record `i`, given the record before it. */
  function Fault(anchors: Option<Anchors>, views: seq<View>, i: nat): Option<Reason>
    requires i < |views|
  {
    FaultOf(anchors, views[i], i + 1, PreviousHash(views, i))
  }

  /** The first `n` records pass every check. */
  ghost predicate Passes(anchors: Option<Anchors>, views: seq<View>, n: nat)
    requires n <= |views|
  {
    forall i {:trigger PassesAt(anchors, views, i)} :: 0 <= i < n ==> PassesAt(anchors, views, i)
  }

  ghost predicate PassesAt(anchors: Option<Anchors>, views: seq<View>, i: nat)
    requires i < |views|
  {
    !views[i].throws && Fault(anchors, views, i).None?
  }

  predicate Truncated(anchors: Option<Anchors>, records: nat) {
    anchors.Some? && anchors.value.lastSequence > records
  }

  /** The verdict names the first record at fault, or the whole log. */
  ghost predicate IsVerdict(anchors: Option<Anchors>, views: seq<View>, v: Verdict) {
    && v.records <= |views|
    && Passes(anchors, views, v.records)
    && match v
       case Accepted(n, head) => n == |views| && !Truncated(anchors, n) && head == PreviousHash(views, n)
       case Rejected(n, reason) =>
         if n == |views| then Truncated(anchors, n) && reason == TailTruncation(n, anchors.value.lastSequence)
         else !views[n].throws && Fault(anchors, views, n) == Some(reason)
       case Threw(n) => n < |views| && views[n].throws
  }

  lemma {:induction false} VerdictUnique(anchors: Option<Anchors>, views: seq<View>, v: Verdict, w: Verdict)
    requires IsVerdict(anchors, views, v) && IsVerdict(anchors, views, w)
    ensures v == w
  {
    assert v.records < w.records ==> PassesAt(anchors, views, v.records);
    assert w.records < v.records ==> PassesAt(anchors, views, w.records);
  }

  /** The checks of one record, in order. */
  method CheckRecord(anchors: Option<Anchors>, r: View, sequence: int, previousHash: Value)
      returns (fault: Option<Reason>)
    ensures fault == FaultOf(anchors, r, sequence, previousHash)
  {
    if !r.integrity { return Some(MissingIntegrity); }
    if r.sequence != Int(sequence) { return Some(SequenceMismatch); }
    if r.previousHash != previousHash { return Some(PreviousHashMismatch); }
    if r.eventHash != r.digest { return Some(EventHashMismatch); }
    if !AnchorAgrees(anchors, sequence, r.eventHash) { return Some(AnchorMismatch(sequence)); }
    return None;
  }

  method CheckLinks(anchors: Option<Anchors>, views: seq<View>) returns (v: Verdict)
    ensures IsVerdict(anchors, views, v)
  {
    var expectedPreviousHash := Null;
    var expectedSequence := 1;
    var records := 0;
    while records < |views|
      invariant records <= |views| && expectedSequence == records + 1
      invariant expectedPreviousHash == PreviousHash(views, records)
      invariant Passes(anchors, views, records)
    {
      var r := views[records];
      if r.throws { return Threw(records); }
      var fault := CheckRecord(anchors, r, expectedSequence, expectedPreviousHash);
      if fault.Some? { return Rejected(records, fault.value); }
      assert PassesAt(anchors, views, records);
      expectedPreviousHash := r.eventHash;
      expectedSequence := expectedSequence + 1;
      records := records + 1;
    }
    if Truncated(anchors, records) {
      return Rejected(records, TailTruncation(records, anchors.value.lastSequence));
    }
    return Accepted(records, expectedPreviousHash);
  }

  /** A line of the log file: blank ones are skipped, and `JSON.parse` throws on malformed ones. */
  datatype LogLine = Blank | Malformed | Parsed(record: Value)

  function LineView(seal: Seal, line: LogLine): View
    requires !line.Blank?
  {
    if line.Parsed? then ViewOf(seal, line.record) else View(true, false, Undefined, Null, Undefined, Undefined)
  }

  /** What the verifier sees of a file. */
  function FileViews(seal: Seal, lines: seq<LogLine>): seq<View> {
    if lines == [] then []
    else
      var n := |lines| - 1;
      FileViews(seal, lines[..n]) + if lines[n].Blank? then [] else [LineView(seal, lines[n])]
  }

  /** The verdict on a log with its anchor stream; an anchor line that reads `null` makes the verifier throw first. */
  ghost predicate IsOutcome(anchorLines: Option<seq<AnchorLine>>, views: seq<View>, v: Verdict) {
    match anchorLines
    case None => IsVerdict(None, views, v)
    case Some(lines) => if NullLine in lines then v == Threw(0) else IsVerdict(Some(Attested(lines)), views, v)
  }

  method VerifyAuditChain(seal: Seal, anchorLines: Option<seq<AnchorLine>>, lines: seq<LogLine>) returns (v: Verdict)
    ensures IsOutcome(anchorLines, FileViews(seal, lines), v)
  {
    var anchors := None;
    if anchorLines.Some? {
      anchors := ReadAnchors(anchorLines.value);
      if anchors.None? { return Threw(0); }
    }
    var views := [];
    for i := 0 to |lines|
      invariant views == FileViews(seal, lines[..i])
    {
      assert lines[..i + 1][..i] == lines[..i];
      if !lines[i].Blank? { views := views + [LineView(seal, lines[i])]; }
    }
    assert lines[..|lines|] == lines;
    v := CheckLinks(anchors, views);
  }

  /** The lines the sink writes for the records, with any blank lines among them. */
  ghost predicate Holds(lines: seq<LogLine>, log: seq<Value>) {
    if lines == [] then log == []
    else
      var n := |lines| - 1;
      match lines[n]
      case Blank => Holds(lines[..n], log)
      case Malformed => false
      case Parsed(r) => log != [] && log[|log| - 1] == r && Holds(lines[..n], log[..|log| - 1])
  }

  /** A file of records is seen as those records, wherever it has blank lines. */
  lemma {:induction false} FileOfRecords(seal: Seal, lines: seq<LogLine>, log: seq<Value>)
    requires Holds(lines, log)
    ensures FileViews(seal, lines) == Views(seal, log)
    decreases |lines|
  {
    if lines == [] {
    } else {
      var n := |lines| - 1;
      if lines[n].Blank? {
        FileOfRecords(seal, lines[..n], log);
      } else {
        var m := |log| - 1;
        FileOfRecords(seal, lines[..n], log[..m]);
        ViewsPush(seal, log[..m], log[m]);
        assert log == log[..m] + [log[m]];
      }
    }
  }

  lemma {:induction false} NoFaultIsLinked(views: seq<View>, i: nat)
    requires i < |views|
    ensures !views[i].throws && Fault(None, views, i).None? <==> Linked(views, i)
  {
  }

  lemma {:induction false} PassesIsLinked(anchors: Option<Anchors>, views: seq<View>, n: nat)
    requires n <= |views| && Passes(anchors, views, n)
    ensures AllLinked(views, n)
  {
    forall i | 0 <= i < n ensures Linked(views, i) { assert PassesAt(anchors, views, i); }
  }

  // ----- Tamper evidence -----

  ghost predicate AllValid(log: seq<Value>) {
    forall i :: 0 <= i < |log| ==> Valid(log[i])
  }

  ghost predicate Signed(r: Value) { r.Obj? && Integrity(r).Obj? && EventHash(r).Str? }

  /** Two records whose unsigned parts differ, yet hash alike. */
  ghost predicate Collision(seal: Seal, r: Value, s: Value) {
    && Signed(r) && Signed(s)
    && !Equivalent(Unsigned(r), Unsigned(s)) && seal(Unsigned(r)) == seal(Unsigned(s))
  }

  /** For the seal in use a collision of records is a collision of the hash itself. */
  lemma {:induction false} CollisionOfHash(hash: Hash, r: Value, s: Value)
    requires Valid(r) && Valid(s) && Collision(EventSeal(hash), r, s)
    ensures Canonicalize(Unsigned(r)) != Canonicalize(Unsigned(s))
    ensures hash(Canonicalize(Unsigned(r))) == hash(Canonicalize(Unsigned(s)))
  {
    UnsignedValid(r);
    UnsignedValid(s);
    EventSealCollision(hash, Unsigned(r), Unsigned(s));
  }

  lemma {:induction false} NoCollision(seal: Seal, r: Value, s: Value)
    requires Binding(seal) && Valid(r) && Valid(s)
    ensures !Collision(seal, r, s)
  {
    if Signed(r) && Signed(s) {
      UnsignedValid(r);
      UnsignedValid(s);
      assert SealedAlike(seal, Unsigned(r), Unsigned(s)) <==> seal(Unsigned(r)) == seal(Unsigned(s));
    }
  }

  lemma {:induction false} UnsignedLookup(record: Value)
    requires record.Obj? && Integrity(record).Obj?
    ensures Integrity(Unsigned(record)) == Obj(Without(Integrity(record).fields, EVENT_HASH))
    ensures Lookup(Integrity(Unsigned(record)), PREVIOUS_HASH) == Lookup(Integrity(record), PREVIOUS_HASH)
  {
    WithLookup(record.fields, AUDIT_INTEGRITY, Obj(Without(Integrity(record).fields, EVENT_HASH)), AUDIT_INTEGRITY);
    WithoutLookup(Integrity(record).fields, EVENT_HASH, PREVIOUS_HASH);
    NamesDistinct();
    assert PREVIOUS_HASH != EVENT_HASH;
  }

  /** Signed records with equivalent unsigned parts and one hash are equivalent. */
  lemma {:induction false} SignedEquivalent(r: Value, s: Value)
    requires Valid(r) && Valid(s) && Signed(r) && Signed(s)
    requires Equivalent(Unsigned(r), Unsigned(s)) && EventHash(r) == EventHash(s)
    ensures Equivalent(r, s)
    ensures Equivalent(Lookup(Integrity(r), PREVIOUS_HASH), Lookup(Integrity(s), PREVIOUS_HASH))
  {
    UnsignedValid(r);
    UnsignedValid(s);
    UnsignedLookup(r);
    UnsignedLookup(s);
    EquivalentLookup(Unsigned(r), Unsigned(s), AUDIT_INTEGRITY);
    LookupValid(Unsigned(r), AUDIT_INTEGRITY);
    LookupValid(Unsigned(s), AUDIT_INTEGRITY);
    EquivalentLookup(Integrity(Unsigned(r)), Integrity(Unsigned(s)), PREVIOUS_HASH);
    EquivalentRestored(Integrity(r).fields, Integrity(s).fields, EVENT_HASH);
    EquivalentUnreplaced(r.fields, s.fields, AUDIT_INTEGRITY,
                         Integrity(Unsigned(r)), Integrity(Unsigned(s)));
  }

  /** Equivalent records show the same hashes. */
  lemma {:induction false} EquivalentViews(seal: Seal, r: Value, s: Value)
    requires Valid(r) && Valid(s) && Equivalent(r, s) && Signed(r)
    ensures EventHash(r) == EventHash(s)
  {
    EquivalentLookup(r, s, AUDIT_INTEGRITY);
    LookupValid(r, AUDIT_INTEGRITY);
    LookupValid(s, AUDIT_INTEGRITY);
    EquivalentLookup(Integrity(r), Integrity(s), EVENT_HASH);
  }

  lemma {:induction false} LinkedSigned(seal: Seal, log: seq<Value>, i: nat)
    requires i < |log| && Linked(Views(seal, log), i)
    ensures Signed(log[i]) && EventHash(log[i]) == Str(seal(Unsigned(log[i])))
    ensures Views(seal, log)[i].eventHash == EventHash(log[i])
  {
  }

  /**
   One step back along the links: records with one hash collide, or are equivalent
   and point back to the same hash when both point to some hash.
   */
  lemma {:induction false} SameHashSameRecord(seal: Seal, r: Value, s: Value)
    requires Valid(r) && Valid(s) && Signed(r) && Signed(s)
    requires EventHash(r) == Str(seal(Unsigned(r))) && EventHash(s) == Str(seal(Unsigned(s)))
    requires EventHash(r) == EventHash(s)
    ensures Collision(seal, r, s) || Equivalent(r, s)
    ensures Collision(seal, r, s)
         || (ViewOf(seal, r).previousHash.Str? && ViewOf(seal, s).previousHash.Str?
             ==> ViewOf(seal, r).previousHash == ViewOf(seal, s).previousHash)
  {
    if Equivalent(Unsigned(r), Unsigned(s)) {
      SignedEquivalent(r, s);
    }
  }

  /** Follow two linked lists back from a common hash, to where they start or first point to different hashes. */
  lemma {:induction false} BackAlongLinks(va: seq<View>, vb: seq<View>, k: nat) returns (j: nat)
    requires 0 < k <= |va| && k <= |vb| && AllLinked(va, k) && AllLinked(vb, k)
    requires va[k - 1].eventHash == vb[k - 1].eventHash
    ensures j < k && forall i :: j <= i < k ==> va[i].eventHash == vb[i].eventHash
    ensures j == 0 || va[j].previousHash != vb[j].previousHash
  {
    j := k - 1;
    while j > 0 && va[j].previousHash == vb[j].previousHash
      invariant j < k && forall i :: j <= i < k ==> va[i].eventHash == vb[i].eventHash
    {
      assert Linked(va, j) && Linked(vb, j);
      j := j - 1;
    }
  }

  /** The first `n` records carry a hash. */
  predicate AllSigned(views: seq<View>, n: nat)
    requires n <= |views|
  {
    forall i :: 0 <= i < n ==> views[i].eventHash.Str?
  }

  lemma {:induction false} LinkedAllSigned(seal: Seal, log: seq<Value>, n: nat)
    requires n <= |log| && AllLinked(Views(seal, log), n)
    ensures AllSigned(Views(seal, log), n)
  {
    forall i | 0 <= i < n ensures Views(seal, log)[i].eventHash.Str? {
      LinkedSigned(seal, log, i);
    }
  }

  lemma {:induction false} PointsToHash(views: seq<View>, i: nat)
    requires i < |views| && AllLinked(views, i + 1) && AllSigned(views, i + 1)
    ensures if i == 0 then views[i].previousHash.Null? else views[i].previousHash.Str?
  {
    assert Linked(views, i);
  }

  /** Linked records with one hash collide, or are equivalent and point back to the same hash. */
  lemma {:induction false} SameHashAt(seal: Seal, a: seq<Value>, b: seq<Value>, i: nat)
    requires i < |a| && i < |b| && Valid(a[i]) && Valid(b[i])
    requires AllLinked(Views(seal, a), i + 1) && AllLinked(Views(seal, b), i + 1)
    requires Views(seal, a)[i].eventHash == Views(seal, b)[i].eventHash
    ensures Collision(seal, a[i], b[i])
         || (Equivalent(a[i], b[i]) && Views(seal, a)[i].previousHash == Views(seal, b)[i].previousHash)
  {
    LinkedSigned(seal, a, i);
    LinkedSigned(seal, b, i);
    SameHashSameRecord(seal, a[i], b[i]);
    LinkedAllSigned(seal, a, i + 1);
    LinkedAllSigned(seal, b, i + 1);
    PointsToHash(Views(seal, a), i);
    PointsToHash(Views(seal, b), i);
  }

  /**
   Two linked logs that carry the same hash at position k - 1 hold the same first
   k records, or two records at one position collide.
   */
  lemma {:induction false} HashFixesPrefix(seal: Seal, a: seq<Value>, b: seq<Value>, k: nat)
    requires 0 < k <= |a| && k <= |b| && AllValid(a) && AllValid(b)
    requires AllLinked(Views(seal, a), k) && AllLinked(Views(seal, b), k)
    requires Views(seal, a)[k - 1].eventHash == Views(seal, b)[k - 1].eventHash
    ensures (forall i :: 0 <= i < k ==> Equivalent(a[i], b[i]))
         || (exists i :: 0 <= i < k && Collision(seal, a[i], b[i]))
  {
    var j := BackAlongLinks(Views(seal, a), Views(seal, b), k);
    if forall i :: j <= i < k ==> !Collision(seal, a[i], b[i]) {
      SameHashAt(seal, a, b, j);
      forall i | j <= i < k ensures Equivalent(a[i], b[i]) { SameHashAt(seal, a, b, i); }
    }
  }

  lemma {:induction false} HashFixesPrefixBinding(seal: Seal, a: seq<Value>, b: seq<Value>, k: nat)
    requires 0 < k <= |a| && k <= |b| && AllValid(a) && AllValid(b) && Binding(seal)
    requires AllLinked(Views(seal, a), k) && AllLinked(Views(seal, b), k)
    requires Views(seal, a)[k - 1].eventHash == Views(seal, b)[k - 1].eventHash
    ensures forall i :: 0 <= i < k ==> Equivalent(a[i], b[i])
  {
    HashFixesPrefix(seal, a, b, k);
    forall i | 0 <= i < k ensures !Collision(seal, a[i], b[i]) {
      NoCollision(seal, a[i], b[i]);
    }
  }

  lemma {:induction false} AnchorMatches(anchors: Option<Anchors>, views: seq<View>, k: nat, v: Verdict)
    requires anchors.Some? && 0 < k <= anchors.value.lastSequence && k in anchors.value.bySequence
    requires IsVerdict(anchors, views, v) && v.Accepted?
    ensures k <= |views| && AllLinked(views, k)
    ensures views[k - 1].eventHash == Str(anchors.value.bySequence[k])
  {
    PassesIsLinked(anchors, views, |views|);
    assert PassesAt(anchors, views, k - 1);
  }

  /**
   Anchored tamper evidence. If an accepted log was checked against an anchor
   taken from a genuine log at sequence k, it has at least k records and its first
   k are the genuine ones, or two records at one position collide.
   */
  lemma {:induction false} AnchorFixesPrefix(seal: Seal, genuine: seq<Value>, k: nat, lines: seq<AnchorLine>, at: nat,
                          log: seq<Value>, v: Verdict)
    requires 0 < k <= |genuine| && AllValid(genuine) && AllValid(log)
    requires AllLinked(Views(seal, genuine), k)
    requires at < |lines| && lines[at].Anchor? && lines[at].sequence == k
    requires Str(lines[at].eventHash) == Views(seal, genuine)[k - 1].eventHash
    requires forall j :: at < j < |lines| && lines[j].Anchor? ==> lines[j].sequence != k
    requires IsOutcome(Some(lines), Views(seal, log), v) && v.Accepted?
    ensures k <= |log|
    ensures (forall i :: 0 <= i < k ==> Equivalent(genuine[i], log[i]))
         || (exists i :: 0 <= i < k && Collision(seal, genuine[i], log[i]))
  {
    var anchors := Some(Attested(lines));
    AttestedMeaning(lines, at);
    AnchorMatches(anchors, Views(seal, log), k, v);
    HashFixesPrefix(seal, genuine, log, k);
  }

  /** Records of logs as they are read back from files, and so without `undefined`. */
  ghost predicate AllDefined(log: seq<Value>) {
    forall i :: 0 <= i < |log| ==> UndefinedFree(log[i])
  }

  /** Linked logs that differ somewhere differ at every later record they share. */
  lemma {:induction false} DifferencePersists(seal: Seal, a: seq<Value>, b: seq<Value>, i: nat, j: nat)
    requires i <= j < |a| && j < |b| && AllValid(a) && AllValid(b) && Binding(seal)
    requires AllLinked(Views(seal, a), j + 1) && AllLinked(Views(seal, b), j + 1)
    requires !Equivalent(a[i], b[i])
    ensures !Equivalent(a[j], b[j])
  {
    if Equivalent(a[j], b[j]) {
      LinkedSigned(seal, a, j);
      EquivalentViews(seal, a[j], b[j]);
      HashFixesPrefixBinding(seal, a, b, j + 1);
      assert false;
    }
  }

  // ----- Where a single edit is caught -----

  /** Replacing record `i` cannot change the checks of any record but `i` and `i + 1`. */
  lemma {:induction false} FaultUnaffected(anchors: Option<Anchors>, views: seq<View>, i: nat, v: View, j: nat)
    requires i < |views| && j < |views| && j != i && (j != i + 1 || v.eventHash == views[i].eventHash)
    ensures Fault(anchors, views[i := v], j) == Fault(anchors, views, j)
  {
  }

  lemma {:induction false} BeforeEditPasses(views: seq<View>, i: nat, v: View)
    requires i < |views| && AllLinked(views, |views|)
    ensures Passes(None, views[i := v], i)
  {
    var edited := views[i := v];
    forall j | 0 <= j < i ensures !edited[j].throws && Fault(None, edited, j).None? {
      assert Linked(views, j);
      FaultUnaffected(None, views, i, v, j);
    }
  }

  lemma {:induction false} EditedViews(seal: Seal, log: seq<Value>, i: nat, r: Value)
    requires i < |log|
    ensures Views(seal, log[i := r]) == Views(seal, log)[i := ViewOf(seal, r)]
  {
  }

  /** A record that carries the old hash and is not the old record does not verify. */
  lemma {:induction false} OldHashRefused(seal: Seal, q: Value, r: Value)
    requires Valid(q) && Valid(r) && Binding(seal) && Signed(q) && Signed(r)
    requires EventHash(q) == Str(seal(Unsigned(q))) && EventHash(r) == EventHash(q)
    requires !Equivalent(q, r)
    ensures EventHash(r) != Str(seal(Unsigned(r)))
  {
    if EventHash(r) == Str(seal(Unsigned(r))) {
      SameHashSameRecord(seal, q, r);
      NoCollision(seal, q, r);
      assert false;
    }
  }

  /** Content edited under its old integrity block: caught at that record. */
  lemma {:induction false} StaleHashCaught(seal: Seal, log: seq<Value>, i: nat, r: Value)
    requires i < |log| && AllLinked(Views(seal, log), |log|) && AllValid(log) && Valid(r) && Binding(seal)
    requires r.Obj? && Integrity(r) == Integrity(log[i]) && !Equivalent(log[i], r)
    ensures IsVerdict(None, Views(seal, log[i := r]), Rejected(i, EventHashMismatch))
  {
    var views := Views(seal, log);
    BeforeEditPasses(views, i, ViewOf(seal, r));
    EditedViews(seal, log, i, r);
    assert Linked(views, i);
    LinkedSigned(seal, log, i);
    OldHashRefused(seal, log[i], r);
  }

  /** Content edited and re-hashed: the record passes and the next one does not point back to it. */
  lemma {:induction false} RehashCaughtNext(seal: Seal, log: seq<Value>, i: nat, r: Value)
    requires i + 1 < |log| && AllLinked(Views(seal, log), |log|) && AllValid(log) && Valid(r) && Binding(seal)
    requires Linked(Views(seal, log[i := r]), i) && !Equivalent(log[i], r)
    ensures IsVerdict(None, Views(seal, log[i := r]), Rejected(i + 1, PreviousHashMismatch))
  {
    var views := Views(seal, log);
    var v := ViewOf(seal, r);
    BeforeEditPasses(views, i, v);
    EditedViews(seal, log, i, r);
    LinkedSigned(seal, log, i);
    LinkedSigned(seal, log[i := r], i);
    assert log[i := r][i] == r;
    if EventHash(r) == EventHash(log[i]) {
      OldHashRefused(seal, log[i], r);
      assert false;
    }
    RehashVerdict(views, i, v);
  }

  lemma {:induction false} RehashVerdict(views: seq<View>, i: nat, v: View)
    requires i + 1 < |views| && AllLinked(views, |views|)
    requires Passes(None, views[i := v], i) && Linked(views[i := v], i) && v.eventHash != views[i].eventHash
    ensures IsVerdict(None, views[i := v], Rejected(i + 1, PreviousHashMismatch))
  {
    assert Linked(views, i + 1);
    NoFaultIsLinked(views[i := v], i);
    assert PassesAt(None, views[i := v], i);
  }

  /**
   A log with one record replaced is accepted exactly when the new record passes
   its own checks and, unless it is the last, keeps the old hash.
   */
  lemma {:induction false} SingleEditAccepted(views: seq<View>, i: nat, r: View, v: Verdict)
    requires i < |views| && AllLinked(views, |views|)
    requires IsVerdict(None, views[i := r], v)
    ensures v.Accepted? <==>
      Linked(views[i := r], i) && (i + 1 < |views| ==> r.eventHash == views[i].eventHash)
  {
    var edited := views[i := r];
    if v.Accepted? {
      assert PassesAt(None, edited, i);
      NoFaultIsLinked(edited, i);
      if i + 1 < |views| {
        assert Linked(views, i + 1) && PassesAt(None, edited, i + 1);
        NoFaultIsLinked(edited, i + 1);
      }
    }
    if Linked(edited, i) && (i + 1 < |views| ==> r.eventHash == views[i].eventHash) {
      GoodEditPasses(views, i, r);
      VerdictUnique(None, edited, v, Accepted(|views|, PreviousHash(edited, |views|)));
    }
  }

  lemma {:induction false} GoodEditPasses(views: seq<View>, i: nat, r: View)
    requires i < |views| && AllLinked(views, |views|)
    requires Linked(views[i := r], i) && (i + 1 < |views| ==> r.eventHash == views[i].eventHash)
    ensures Passes(None, views[i := r], |views|)
  {
    var edited := views[i := r];
    forall j | 0 <= j < |views| ensures PassesAt(None, edited, j) {
      if j == i {
        NoFaultIsLinked(edited, i);
      } else {
        assert Linked(views, j);
        FaultUnaffected(None, views, i, r, j);
      }
    }
  }

  // ----- What the verdict says of a damaged log -----

  /** The reason given for a record, of all that may be wrong with it. */
  lemma {:induction false} ReasonExactly(anchors: Option<Anchors>, views: seq<View>, n: nat, reason: Reason)
    requires n < |views| && IsVerdict(anchors, views, Rejected(n, reason))
    ensures var v := views[n];
      var block := v.integrity;
      var numbered := v.sequence == Int(n + 1);
      var pointed := v.previousHash == if n == 0 then Null else views[n - 1].eventHash;
      var sealed := v.eventHash == v.digest;
      && (reason == MissingIntegrity <==> !block)
      && (reason == SequenceMismatch <==> block && !numbered)
      && (reason == PreviousHashMismatch <==> block && numbered && !pointed)
      && (reason == EventHashMismatch <==> block && numbered && pointed && !sealed)
      && (reason.AnchorMismatch? <==> block && numbered && pointed && sealed)
      && (reason.AnchorMismatch? ==>
           && reason.sequence == n + 1 && anchors.Some? && n + 1 in anchors.value.bySequence
           && Str(anchors.value.bySequence[n + 1]) != v.eventHash)
  {
  }

  lemma {:induction false} LinkedAlike(views: seq<View>, other: seq<View>, n: nat)
    requires AllLinked(views, |views|) && n <= |views| && n <= |other|
    requires forall i :: 0 <= i < n ==> other[i] == views[i]
    ensures Passes(None, other, n)
  {
    forall i | 0 <= i < n ensures PassesAt(None, other, i) {
      assert Linked(views, i);
    }
  }

  /** Where a linked log is followed by a record with another number, that is what is found. */
  lemma {:induction false} MisnumberedCaught(views: seq<View>, other: seq<View>, i: nat)
    requires AllLinked(views, |views|) && i <= |views| && i < |other|
    requires forall j :: 0 <= j < i ==> other[j] == views[j]
    requires !other[i].throws && other[i].integrity && other[i].sequence != Int(i + 1)
    ensures IsVerdict(None, other, Rejected(i, SequenceMismatch))
  {
    LinkedAlike(views, other, i);
  }

  lemma {:induction false} LogOf(seal: Seal, log: seq<Value>, other: seq<Value>, n: nat)
    requires n <= |log| && n <= |other| && forall i :: 0 <= i < n ==> other[i] == log[i]
    ensures forall i :: 0 <= i < n ==> Views(seal, other)[i] == Views(seal, log)[i]
  {
  }

  /** A record deleted, with a record after it. */
  lemma {:induction false} DeletionCaught(seal: Seal, log: seq<Value>, i: nat)
    requires AllLinked(Views(seal, log), |log|) && i + 1 < |log|
    ensures IsVerdict(None, Views(seal, log[..i] + log[i + 1..]), Rejected(i, SequenceMismatch))
  {
    var other := log[..i] + log[i + 1..];
    LogOf(seal, log, other, i);
    assert Linked(Views(seal, log), i + 1) && other[i] == log[i + 1];
    MisnumberedCaught(Views(seal, log), Views(seal, other), i);
  }

  /** A record repeated. */
  lemma {:induction false} RepetitionCaught(seal: Seal, log: seq<Value>, i: nat)
    requires AllLinked(Views(seal, log), |log|) && i < |log|
    ensures IsVerdict(None, Views(seal, log[..i + 1] + log[i..]), Rejected(i + 1, SequenceMismatch))
  {
    var other := log[..i + 1] + log[i..];
    LogOf(seal, log, other, i + 1);
    assert Linked(Views(seal, log), i) && other[i + 1] == log[i];
    MisnumberedCaught(Views(seal, log), Views(seal, other), i + 1);
  }

  /** Two records exchanged. */
  lemma {:induction false} ExchangeCaught(seal: Seal, log: seq<Value>, i: nat, j: nat)
    requires AllLinked(Views(seal, log), |log|) && i < j < |log|
    ensures IsVerdict(None, Views(seal, log[i := log[j]][j := log[i]]), Rejected(i, SequenceMismatch))
  {
    var other := log[i := log[j]][j := log[i]];
    LogOf(seal, log, other, i);
    assert Linked(Views(seal, log), j);
    MisnumberedCaught(Views(seal, log), Views(seal, other), i);
  }

  /** A record replaced by one with another number, whatever else it holds. */
  lemma {:induction false} RenumberingCaught(seal: Seal, log: seq<Value>, i: nat, r: Value)
    requires AllLinked(Views(seal, log), |log|) && i < |log|
    requires !r.Null? && Truthy(Integrity(r)) && Lookup(Integrity(r), SEQUENCE) != Int(i + 1)
    ensures IsVerdict(None, Views(seal, log[i := r]), Rejected(i, SequenceMismatch))
  {
    LogOf(seal, log, log[i := r], i);
    MisnumberedCaught(Views(seal, log), Views(seal, log[i := r]), i);
  }

  /** A record without its integrity block, or no record at all. */
  lemma {:induction false} MissingCaught(seal: Seal, log: seq<Value>, i: nat, r: Value)
    requires AllLinked(Views(seal, log), |log|) && i < |log|
    requires Integrity(r) in {Undefined, Null, Bool(false), Int(0), Str([])}
    ensures IsVerdict(None, Views(seal, log[i := r]), if r.Null? then Threw(i) else Rejected(i, MissingIntegrity))
  {
    LogOf(seal, log, log[i := r], i);
    LinkedAlike(Views(seal, log), Views(seal, log[i := r]), i);
  }

  /** A malformed line stops the verifier where the records before it end. */
  lemma {:induction false} MalformedCaught(seal: Seal, lines: seq<LogLine>, more: seq<LogLine>, log: seq<Value>)
    requires Holds(lines, log) && AllLinked(Views(seal, log), |log|)
    ensures IsVerdict(None, FileViews(seal, lines + [Malformed] + more), Threw(|log|))
  {
    var broken := lines + [Malformed];
    FileOfRecords(seal, lines, log);
    assert broken[..|lines|] == lines;
    FileGrows(seal, broken, more);
    LinkedAlike(Views(seal, log), FileViews(seal, broken + more), |log|);
  }

  /** What follows in a file leaves what is seen of the lines before. */
  lemma {:induction false} FileGrows(seal: Seal, lines: seq<LogLine>, more: seq<LogLine>)
    ensures FileViews(seal, lines) <= FileViews(seal, lines + more)
    decreases |more|
  {
    if more == [] {
      assert lines + more == lines;
    } else {
      var n := |more| - 1;
      FileGrows(seal, lines, more[..n]);
      assert (lines + more)[..|lines + more| - 1] == lines + more[..n];
    }
  }

  lemma {:induction false} MispointedCaught(views: seq<View>, other: seq<View>, i: nat)
    requires AllLinked(views, |views|) && i <= |views| && i < |other|
    requires forall j :: 0 <= j < i ==> other[j] == views[j]
    requires !other[i].throws && other[i].integrity && other[i].sequence == Int(i + 1)
    requires other[i].previousHash != PreviousHash(views, i)
    ensures IsVerdict(None, other, Rejected(i, PreviousHashMismatch))
  {
    LinkedAlike(views, other, i);
  }

  lemma {:induction false} RecordView(seal: Seal, log: seq<Value>, i: nat, r: Value)
    requires i < |log| && log[i] == r && r.Obj? && Truthy(Integrity(r))
    ensures var v := Views(seal, log)[i];
      && !v.throws && v.integrity && v.sequence == Lookup(Integrity(r), SEQUENCE)
      && v.previousHash == OrNull(Lookup(Integrity(r), PREVIOUS_HASH))
  {
  }

  lemma {:induction false} HashBefore(seal: Seal, log: seq<Value>, i: nat)
    requires AllLinked(Views(seal, log), |log|) && i <= |log|
    ensures PreviousHash(Views(seal, log), i) == if i == 0 then Null else EventHash(log[i - 1])
  {
    if i > 0 { LinkedSigned(seal, log, i - 1); }
  }

  lemma {:induction false} MispointedRecord(seal: Seal, log: seq<Value>, i: nat, r: Value, before: Value)
    requires AllLinked(Views(seal, log), |log|) && i < |log|
    requires r.Obj? && Truthy(Integrity(r)) && Lookup(Integrity(r), SEQUENCE) == Int(i + 1)
    requires before == PreviousHash(Views(seal, log), i) && OrNull(Lookup(Integrity(r), PREVIOUS_HASH)) != before
    ensures IsVerdict(None, Views(seal, log[i := r]), Rejected(i, PreviousHashMismatch))
  {
    LogOf(seal, log, log[i := r], i);
    RecordView(seal, log[i := r], i, r);
    MispointedCaught(Views(seal, log), Views(seal, log[i := r]), i);
  }

  /** A record that carries its number and does not point back to the record before. */
  lemma {:induction false} RelinkingCaught(seal: Seal, log: seq<Value>, i: nat, r: Value)
    requires AllLinked(Views(seal, log), |log|) && i < |log|
    requires r.Obj? && Truthy(Integrity(r)) && Lookup(Integrity(r), SEQUENCE) == Int(i + 1)
    requires OrNull(Lookup(Integrity(r), PREVIOUS_HASH)) != if i == 0 then Null else EventHash(log[i - 1])
    ensures IsVerdict(None, Views(seal, log[i := r]), Rejected(i, PreviousHashMismatch))
  {
    HashBefore(seal, log, i);
    MispointedRecord(seal, log, i, r, if i == 0 then Null else EventHash(log[i - 1]));
  }

  /** The first record of a log may leave out the hash it would point back to. */
  lemma {:induction false} FirstMayPointNowhere(seal: Seal, r: Value)
    requires r.Obj? && Truthy(Integrity(r)) && Lookup(Integrity(r), SEQUENCE) == Int(1)
    requires Integrity(r).Obj? && EventHash(r) == Str(seal(Unsigned(r)))
    ensures IsVerdict(None, Views(seal, [r]), Accepted(1, EventHash(r)))
       <==> Lookup(Integrity(r), PREVIOUS_HASH) in {Null, Undefined}
  {
    var views := Views(seal, [r]);
    assert views[0] == ViewOf(seal, r);
    if Lookup(Integrity(r), PREVIOUS_HASH) in {Null, Undefined} {
      assert PassesAt(None, views, 0);
    } else {
      assert !PassesAt(None, views, 0);
    }
  }

  /**
   A linked log against anchors of which the first that disagrees is the one at k.
   */
  lemma {:induction false} AnchorMismatchCaught(anchors: Anchors, views: seq<View>, k: nat)
    requires AllLinked(views, |views|) && 0 < k <= |views| && k in anchors.bySequence
    requires Str(anchors.bySequence[k]) != views[k - 1].eventHash
    requires forall j :: 0 < j < k && j in anchors.bySequence ==> Str(anchors.bySequence[j]) == views[j - 1].eventHash
    ensures IsVerdict(Some(anchors), views, Rejected(k - 1, AnchorMismatch(k)))
  {
    forall i | 0 <= i < k - 1 ensures PassesAt(Some(anchors), views, i) {
      assert Linked(views, i);
    }
    assert Linked(views, k - 1);
  }

  // ----- Honest logs and truncation -----

  /** The anchors written beside a log, one for every `every` records. */
  function Schedule(views: seq<View>, every: nat): seq<AnchorLine>
    requires every > 0
  {
    if views == [] then []
    else
      var n := |views|;
      var h := views[n - 1].eventHash;
      Schedule(views[..n - 1], every) + if n % every == 0 && h.Str? then [Anchor(n, h.s)] else []
  }

  /** The largest multiple of `every` up to n. */
  function LastMultiple(n: nat, every: nat): (m: nat)
    requires every > 0
    ensures m <= n
  {
    if n == 0 || n % every == 0 then n else LastMultiple(n - 1, every)
  }

  lemma {:induction false} LastMultipleIs(n: nat, every: nat)
    requires every > 0
    ensures LastMultiple(n, every) == every * (n / every)
  {
    if n == 0 || n % every == 0 {
    } else {
      LastMultipleIs(n - 1, every);
      SameQuotient(n, every);
    }
  }

  lemma {:induction false} SameQuotient(n: nat, every: nat)
    requires every > 0 && n > 0 && n % every != 0
    ensures (n - 1) / every == n / every
  {
    var d := n / every - (n - 1) / every;
    assert every * d == every * (n / every) - every * ((n - 1) / every);
    assert -1 * every < every * d < every;
    SmallMultiple(every, d);
  }

  lemma {:induction false} SmallMultiple(every: int, d: int)
    requires every > 0 && -1 * every < every * d < every
    ensures d == 0
  {
    MultipleGrows(every, d);
    MultipleGrows(every, -d);
  }

  lemma {:induction false} MultipleGrows(every: int, d: int)
    requires every > 0
    ensures d >= 1 ==> every * d >= every
  {
  }

  /** The schedule attests exactly the multiples of `every`, each with the record's own hash. */
  ghost predicate AttestsSchedule(a: Anchors, views: seq<View>, every: nat)
    requires every > 0
  {
    && a.lastSequence == LastMultiple(|views|, every)
    && (forall k {:trigger k in a.bySequence} :: k in a.bySequence <==> 0 < k <= |views| && k % every == 0)
    && forall k {:trigger a.bySequence[k]} :: k in a.bySequence ==> Str(a.bySequence[k]) == views[k - 1].eventHash
  }

  /** A record that is due adds its anchor. */
  lemma {:induction false} AttestsDue(a: Anchors, before: seq<View>, views: seq<View>, every: nat, n: nat, h: Text)
    requires every > 0 && AttestsSchedule(a, before, every) && |views| == n == |before| + 1
      && views[..|before|] == before
    requires n % every == 0 && views[|before|].eventHash == Str(h)
    ensures AttestsSchedule(Anchors(a.bySequence[n := h], n), views, every)
  {
    assert forall i :: 0 <= i < |before| ==> views[i] == before[i];
  }

  lemma {:induction false} AttestsNotDue(a: Anchors, before: seq<View>, views: seq<View>, every: nat)
    requires every > 0 && AttestsSchedule(a, before, every) && |views| == |before| + 1 && views[..|before|] == before
    requires |views| % every != 0
    ensures AttestsSchedule(a, views, every)
  {
    assert forall i :: 0 <= i < |before| ==> views[i] == before[i];
  }

  lemma {:induction false} AttestedSnoc(lines: seq<AnchorLine>, more: seq<AnchorLine>, s: int, h: Text)
    requires Attested(lines).lastSequence < s && more == lines + [Anchor(s, h)]
    ensures Attested(more) == Anchors(Attested(lines).bySequence[s := h], s)
  {
    assert more[..|lines|] == lines;
  }

  ghost predicate ScheduleIsAttested(views: seq<View>, every: nat)
    requires every > 0
  {
    AttestsSchedule(Attested(Schedule(views, every)), views, every) && NullLine !in Schedule(views, every)
  }

  lemma {:induction false} ScheduleDue(views: seq<View>, before: seq<View>, every: nat, n: nat, h: Text)
    requires every > 0 && |views| == n == |before| + 1 && views[..n - 1] == before && ScheduleIsAttested(before, every)
    requires n % every == 0 && views[n - 1].eventHash == Str(h)
    ensures ScheduleIsAttested(views, every)
  {
    var lines := Schedule(before, every);
    assert Schedule(views, every) == lines + [Anchor(n, h)];
    AttestedSnoc(lines, Schedule(views, every), n, h);
    AttestsDue(Attested(lines), before, views, every, n, h);
  }

  lemma {:induction false} ScheduleNotDue(views: seq<View>, before: seq<View>, every: nat)
    requires every > 0 && |views| == |before| + 1 && views[..|views| - 1] == before && ScheduleIsAttested(before, every)
    requires |views| % every != 0
    ensures ScheduleIsAttested(views, every)
  {
    assert Schedule(views, every) == Schedule(before, every);
    AttestsNotDue(Attested(Schedule(before, every)), before, views, every);
  }

  lemma {:induction false} ScheduleAttests(views: seq<View>, every: nat)
    requires every > 0 && AllSigned(views, |views|)
    ensures AttestsSchedule(Attested(Schedule(views, every)), views, every) && NullLine !in Schedule(views, every)
  {
    if views == [] {
    } else {
      var n := |views|;
      ScheduleAttests(views[..n - 1], every);
      if n % every == 0 {
        ScheduleDue(views, views[..n - 1], every, n, views[n - 1].eventHash.s);
      } else {
        ScheduleNotDue(views, views[..n - 1], every);
      }
    }
  }

  lemma {:induction false} PrefixPasses(anchors: Option<Anchors>, views: seq<View>, m: nat)
    requires m <= |views| && AllLinked(views, |views|)
    requires forall i :: 0 <= i < m ==> AnchorAgrees(anchors, i + 1, views[i].eventHash)
    ensures Passes(anchors, views[..m], m) && PreviousHash(views[..m], m) == PreviousHash(views, m)
  {
    forall i | 0 <= i < m ensures !views[..m][i].throws && Fault(anchors, views[..m], i).None? {
      assert Linked(views, i);
      assert PreviousHash(views[..m], i) == PreviousHash(views, i);
    }
  }

  /**
   Exact truncation bound. Cutting an honest n-record log to m records is accepted
   with its anchors exactly when m is at least the largest multiple of `every` up
   to n; otherwise the verdict is tail truncation naming that multiple.
   */
  lemma {:induction false} TruncationBound(views: seq<View>, every: nat, m: nat, v: Verdict)
    requires every > 0 && m <= |views| && AllLinked(views, |views|)
    requires AllSigned(views, |views|)
    requires IsOutcome(Some(Schedule(views, every)), views[..m], v)
    ensures var last := every * (|views| / every);
      v == if m >= last then Accepted(m, PreviousHash(views, m)) else Rejected(m, TailTruncation(m, last))
  {
    var anchors := Some(Attested(Schedule(views, every)));
    ScheduleAttests(views, every);
    LastMultipleIs(|views|, every);
    PrefixPasses(anchors, views, m);
    var last := LastMultiple(|views|, every);
    var w := if m >= last then Accepted(m, PreviousHash(views, m)) else Rejected(m, TailTruncation(m, last));
    VerdictUnique(anchors, views[..m], v, w);
  }

  /** The log of any events, cut anywhere: accepted without anchors, and with them under the bound above. */
  lemma {:induction false} HonestLog(seal: Seal, events: seq<Value>, m: nat)
    requires Events(events) && m <= |events|
    ensures var views := Views(seal, Chain(seal, events));
      && AllLinked(views, |views|)
      && AllSigned(views, |views|)
      && IsVerdict(None, views[..m], Accepted(m, PreviousHash(views, m)))
  {
    var log := Chain(seal, events);
    var views := Views(seal, log);
    ChainLinked(seal, events);
    PrefixPasses(None, views, m);
    LinkedAllSigned(seal, log, |log|);
  }
}
