/**
 The per-key budget of AES-GCM invocations. A provider reserves a window of
 invocations by advancing the usage stored in the key file before it consumes
 any of them, and fails closed at the limit.
 */
module NonceBudget {
  import opened Options
  import opened Sets

  const MAX_ENCRYPTIONS_PER_KEY: nat := 0x1_0000_0000
  const NONCE_RESERVE_WINDOW: nat := 0x10_0000

  type Kid = nat

  datatype KeyEntry = KeyEntry(kid: Kid, active: bool, usage: nat)

  /** Invocations base .. base + granted, of which the first `used` are spent. */
  datatype Reservation = Reservation(kid: Kid, base: nat, granted: nat, used: nat)

  /**
   What a provider keeps in memory: the key it loaded first, its current window,
   and whether a write of the key file has failed, after which it counts in
   memory only.
   */
  datatype Memory = Memory(cached: Option<Kid>, reservation: Option<Reservation>, detached: bool)

  datatype Outcome = Encrypted(kid: Kid, index: nat) | LimitReached | NoKey

  const FRESH := Memory(None, None, false)

  // ----- The key file -----

  function Find(keys: seq<KeyEntry>, kid: Kid): Option<nat> {
    if keys == [] then None
    else if keys[0].kid == kid then Some(0)
    else
      var rest := Find(keys[1..], kid);
      if rest.None? then None else Some(rest.value + 1)
  }

  lemma {:induction false} FindAt(keys: seq<KeyEntry>, kid: Kid)
    ensures Find(keys, kid).Some? ==> Find(keys, kid).value < |keys| && keys[Find(keys, kid).value].kid == kid
    ensures Find(keys, kid).None? ==> forall i :: 0 <= i < |keys| ==> keys[i].kid != kid
  {
    if keys == [] {
    } else {
      FindAt(keys[1..], kid);
    }
  }

  /** The active key, or the first when none is marked active. */
  function ActiveKid(keys: seq<KeyEntry>): Option<Kid> {
    if keys == [] then None
    else if exists i :: 0 <= i < |keys| && keys[i].active then FirstActive(keys)
    else Some(keys[0].kid)
  }

  function FirstActive(keys: seq<KeyEntry>): Option<Kid> {
    if keys == [] then None else if keys[0].active then Some(keys[0].kid) else FirstActive(keys[1..])
  }

  /** The first key marked active is the one; without any, the first of all. */
  lemma {:induction false} ActiveExactly(keys: seq<KeyEntry>)
    ensures ActiveKid(keys).None? <==> keys == []
    ensures forall i :: 0 <= i < |keys| && keys[i].active && (forall j :: 0 <= j < i ==> !keys[j].active) ==>
      ActiveKid(keys) == Some(keys[i].kid)
    ensures keys != [] && (forall i :: 0 <= i < |keys| ==> !keys[i].active) ==> ActiveKid(keys) == Some(keys[0].kid)
  {
    forall i | 0 <= i < |keys| && keys[i].active && (forall j :: 0 <= j < i ==> !keys[j].active)
      ensures FirstActive(keys) == Some(keys[i].kid)
    {
      FirstActiveIs(keys, i);
    }
    if exists i :: 0 <= i < |keys| && keys[i].active { FirstActiveSome(keys); }
  }

  lemma {:induction false} FirstActiveIs(keys: seq<KeyEntry>, i: nat)
    requires i < |keys| && keys[i].active && forall j :: 0 <= j < i ==> !keys[j].active
    ensures FirstActive(keys) == Some(keys[i].kid)
  {
    if i == 0 {
    } else {
      FirstActiveIs(keys[1..], i - 1);
    }
  }

  lemma {:induction false} FirstActiveSome(keys: seq<KeyEntry>)
    requires exists i :: 0 <= i < |keys| && keys[i].active
    ensures FirstActive(keys).Some?
  {
    if keys[0].active {
    } else {
      var i :| 0 <= i < |keys| && keys[i].active;
      assert keys[1..][i - 1] == keys[i];
      FirstActiveSome(keys[1..]);
    }
  }

  /** Rotation puts a new active key in front and retires the others, keeping their usage. */
  function Rotate(keys: seq<KeyEntry>, kid: Kid): seq<KeyEntry> {
    [KeyEntry(kid, true, 0)] + Retired(keys)
  }

  function Retired(keys: seq<KeyEntry>): (r: seq<KeyEntry>)
    ensures |r| == |keys|
    ensures forall i :: 0 <= i < |keys| ==> r[i] == keys[i].(active := false)
  {
    seq(|keys|, i requires 0 <= i < |keys| => keys[i].(active := false))
  }

  // ----- reserveNonceWindow and consumeNonceBudget -----

  function Granted(current: nat): nat
    requires current < MAX_ENCRYPTIONS_PER_KEY
  {
    if NONCE_RESERVE_WINDOW < MAX_ENCRYPTIONS_PER_KEY - current then NONCE_RESERVE_WINDOW
    else MAX_ENCRYPTIONS_PER_KEY - current
  }

  predicate NeedsWindow(m: Memory, kid: Kid) {
    m.reservation.None? || m.reservation.value.kid != kid || m.reservation.value.used >= m.reservation.value.granted
  }

  /** The key file after entry `at` has been advanced by one window. */
  function Reserve(keys: seq<KeyEntry>, at: nat): seq<KeyEntry>
    requires at < |keys| && keys[at].usage < MAX_ENCRYPTIONS_PER_KEY
  {
    keys[at := keys[at].(usage := keys[at].usage + Granted(keys[at].usage))]
  }

  /** A detached provider counts on from its own last window. */
  predicate CountsOn(m: Memory, kid: Kid) {
    m.detached && m.reservation.Some? && m.reservation.value.kid == kid
  }

  /** Where the next window starts. None when the key file no longer has the key. */
  function NextBase(keys: seq<KeyEntry>, m: Memory, kid: Kid): Option<nat> {
    if CountsOn(m, kid) then Some(m.reservation.value.base + m.reservation.value.granted)
    else
      FindAt(keys, kid);
      var at := Find(keys, kid);
      if at.None? then None else Some(keys[at.value].usage)
  }

  /** The key file and memory after a window was granted at `current`; `writable` says whether a write succeeds. */
  function Grant(keys: seq<KeyEntry>, m: Memory, kid: Kid, current: nat, writable: bool): (seq<KeyEntry>, Memory)
    requires NextBase(keys, m, kid) == Some(current) && current < MAX_ENCRYPTIONS_PER_KEY
  {
    FindAt(keys, kid);
    var m' := m.(reservation := Some(Reservation(kid, current, Granted(current), 0)));
    if m.detached then (keys, m')
    else if writable then (Reserve(keys, Find(keys, kid).value), m')
    else (keys, m'.(detached := true))
  }

  /** Using the next invocation of the window in memory. */
  function Consume(m: Memory, kid: Kid): (Memory, Outcome)
    requires m.reservation.Some?
  {
    var r := m.reservation.value;
    if r.base + r.used >= MAX_ENCRYPTIONS_PER_KEY then (m, LimitReached)
    else (m.(reservation := Some(r.(used := r.used + 1))), Encrypted(kid, r.base + r.used))
  }

  /** Key file, memory and outcome after one `encrypt` that runs to its end. */
  function EncryptStep(keys: seq<KeyEntry>, m: Memory, writable: bool): (seq<KeyEntry>, Memory, Outcome) {
    var active := if m.cached.Some? then m.cached else ActiveKid(keys);
    if active.None? then (keys, m, NoKey)
    else
      var kid := active.value;
      var loaded := m.(cached := Some(kid));
      if !NeedsWindow(m, kid) then
        var (m', outcome) := Consume(loaded, kid);
        (keys, m', outcome)
      else
        var base := NextBase(keys, loaded, kid);
        if base.None? then (keys, loaded, NoKey)
        else if base.value >= MAX_ENCRYPTIONS_PER_KEY then (keys, loaded, LimitReached)
        else
          var (keys', granted) := Grant(keys, loaded, kid, base.value, writable);
          var (m', outcome) := Consume(granted, kid);
          (keys', m', outcome)
  }

  class KeyFile {
    var keys: seq<KeyEntry>

    constructor (keys: seq<KeyEntry>)
      ensures this.keys == keys
    {
      this.keys := keys;
    }
  }

  class Provider {
    const keyFile: KeyFile
    var cached: Option<Kid>
    var reservation: Option<Reservation>
    var persistDisabled: bool

    function State(): Memory
      reads this
    {
      Memory(cached, reservation, persistDisabled)
    }

    constructor (keyFile: KeyFile)
      ensures this.keyFile == keyFile && State() == FRESH
    {
      this.keyFile := keyFile;
      cached, reservation, persistDisabled := None, None, false;
    }

    method ReserveNonceWindow(kid: Kid, writable: bool) returns (failure: Option<Outcome>)
      modifies `reservation, `persistDisabled, keyFile
      ensures var base := NextBase(old(keyFile.keys), old(State()), kid);
        if base.None? then failure == Some(NoKey) && unchanged(this, keyFile)
        else if base.value >= MAX_ENCRYPTIONS_PER_KEY then failure == Some(LimitReached) && unchanged(this, keyFile)
        else
          && failure == None
          && (keyFile.keys, State()) == Grant(old(keyFile.keys), old(State()), kid, base.value, writable)
    {
      var current, entry := 0, None;
      if persistDisabled && reservation.Some? && reservation.value.kid == kid {
        current := reservation.value.base + reservation.value.granted;
      } else {
        FindAt(keyFile.keys, kid);
        entry := Find(keyFile.keys, kid);
        if entry.None? { return Some(NoKey); }
        current := keyFile.keys[entry.value].usage;
      }
      if current >= MAX_ENCRYPTIONS_PER_KEY { return Some(LimitReached); }
      if !persistDisabled && entry.Some? {
        if writable { keyFile.keys := Reserve(keyFile.keys, entry.value); } else { persistDisabled := true; }
      }
      reservation := Some(Reservation(kid, current, Granted(current), 0));
      return None;
    }

    method Encrypt(writable: bool) returns (outcome: Outcome)
      modifies this, keyFile
      ensures (keyFile.keys, State(), outcome) == EncryptStep(old(keyFile.keys), old(State()), writable)
    {
      if cached.None? {
        var active := ActiveKid(keyFile.keys);
        if active.None? { return NoKey; }
        cached := active;
      }
      var kid := cached.value;
      if reservation.None? || reservation.value.kid != kid || reservation.value.used >= reservation.value.granted {
        var failure := ReserveNonceWindow(kid, writable);
        if failure.Some? { return failure.value; }
      }
      var index := reservation.value.base + reservation.value.used;
      if index >= MAX_ENCRYPTIONS_PER_KEY { return LimitReached; }
      reservation := Some(reservation.value.(used := reservation.value.used + 1));
      return Encrypted(kid, index);
    }
  }

  // ----- Runs of any number of providers -----

  /** One invocation, identified by its key and its index. */
  datatype Invocation = Invocation(kid: Kid, index: nat)

  /**
   `start` is the usage each key had when it entered the run, and `unsaved` the
   keys used from a window that was not stored.
   */
  datatype State = State(keys: seq<KeyEntry>, providers: seq<Memory>, log: seq<Invocation>, start: map<Kid, nat>,
                         unsaved: set<Kid>)

  ghost predicate Init(s: State) {
    && s.providers == [] && s.log == [] && s.unsaved == {}
    && DistinctKids(s.keys)
    && s.start == map k | k in Kids(s.keys) :: UsageOf(s.keys, k)
  }

  ghost predicate StartProvider(s: State, s': State) {
    s' == s.(providers := s.providers + [FRESH])
  }

  ghost predicate Encrypt(s: State, s': State, p: nat, writable: bool) {
    && p < |s.providers|
    && var (keys, m, outcome) := EncryptStep(s.keys, s.providers[p], writable);
       s' == s.(keys := keys, providers := s.providers[p := m],
                log := if outcome.Encrypted? then s.log + [Invocation(outcome.kid, outcome.index)] else s.log,
                unsaved := if outcome.Encrypted? && m.detached then s.unsaved + {outcome.kid} else s.unsaved)
  }

  /** The process stops after the window was stored and before any of it was used. */
  ghost predicate StopAfterReserve(s: State, s': State, at: nat) {
    && at < |s.keys| && s.keys[at].usage < MAX_ENCRYPTIONS_PER_KEY
    && s' == s.(keys := Reserve(s.keys, at))
  }

  ghost predicate RotateKey(s: State, s': State, kid: Kid) {
    && kid !in Kids(s.keys)
    && s' == s.(keys := Rotate(s.keys, kid), start := s.start[kid := 0])
  }

  ghost predicate Next(s: State, s': State) {
    || StartProvider(s, s')
    || (exists p: nat, writable: bool :: Encrypt(s, s', p, writable))
    || (exists at: nat :: StopAfterReserve(s, s', at))
    || (exists kid: Kid :: RotateKey(s, s', kid))
  }

  // ----- Invariant -----

  ghost predicate DistinctKids(keys: seq<KeyEntry>) {
    forall i, j :: 0 <= i < j < |keys| ==> keys[i].kid != keys[j].kid
  }

  ghost function Kids(keys: seq<KeyEntry>): set<Kid> {
    set i | 0 <= i < |keys| :: keys[i].kid
  }

  ghost function UsageOf(keys: seq<KeyEntry>, kid: Kid): nat {
    var at := Find(keys, kid);
    if at.Some? && at.value < |keys| then keys[at.value].usage else 0
  }

  lemma {:induction false} UsageAt(keys: seq<KeyEntry>, i: nat)
    requires DistinctKids(keys) && i < |keys|
    ensures Find(keys, keys[i].kid) == Some(i) && UsageOf(keys, keys[i].kid) == keys[i].usage
    ensures keys[i].kid in Kids(keys)
  {
    FindAt(keys, keys[i].kid);
  }

  lemma {:induction false} KidFound(keys: seq<KeyEntry>, kid: Kid)
    ensures kid in Kids(keys) <==> Find(keys, kid).Some?
    ensures Find(keys, kid).Some? ==> Find(keys, kid).value < |keys| && keys[Find(keys, kid).value].kid == kid
  {
    FindAt(keys, kid);
  }

  /** The invocations a provider still has in hand. */
  ghost predicate InHand(m: Memory, x: Invocation) {
    && m.reservation.Some? && m.reservation.value.kid == x.kid
    && var r := m.reservation.value; r.base + r.used <= x.index < r.base + r.granted
  }

  /** Stored usage covers the invocation, which is new in this run and below the limit. */
  ghost predicate Covered(s: State, x: Invocation) {
    && x.kid in Kids(s.keys) && x.kid in s.start
    && s.start[x.kid] <= x.index < UsageOf(s.keys, x.kid) && x.index < MAX_ENCRYPTIONS_PER_KEY
  }

  ghost predicate KeysInv(s: State) {
    && DistinctKids(s.keys) && s.start.Keys == Kids(s.keys)
    && (forall k :: k in s.start ==> s.start[k] <= UsageOf(s.keys, k))
  }

  /** A detached provider holds a window of an unsaved key only. */
  ghost predicate Accounted(s: State, m: Memory) {
    m.detached ==> m.reservation.Some? && m.reservation.value.kid in s.unsaved
  }

  /** Stored usage is above the start, and every key without unsaved windows is accounted for. */
  ghost predicate Inv(s: State) {
    && KeysInv(s)
    && (forall i :: 0 <= i < |s.log| && s.log[i].kid !in s.unsaved ==> Covered(s, s.log[i]))
    && (forall i, j :: 0 <= i < j < |s.log| && s.log[i].kid !in s.unsaved ==> s.log[i] != s.log[j])
    && (forall p, x :: 0 <= p < |s.providers| && InHand(s.providers[p], x) && x.kid !in s.unsaved ==>
         Covered(s, x) && x !in s.log)
    && (forall p, q, x :: 0 <= p < q < |s.providers| && InHand(s.providers[p], x) && x.kid !in s.unsaved ==>
         !InHand(s.providers[q], x))
    && (forall p :: 0 <= p < |s.providers| ==> Accounted(s, s.providers[p]))
  }

  /** A step that leaves log and providers alone and uncovers nothing keeps the invariant. */
  lemma {:induction false} CoverKeepsInv(s: State, s': State)
    requires Inv(s) && KeysInv(s') && s'.log == s.log && s'.providers == s.providers && s.unsaved <= s'.unsaved
    requires forall x {:trigger Covered(s', x)} :: Covered(s, x) ==> Covered(s', x)
    ensures Inv(s')
  {
    forall p | 0 <= p < |s'.providers| ensures Accounted(s', s'.providers[p]) { assert Accounted(s, s.providers[p]); }
  }

  // ----- Steps that change the key file -----

  lemma {:induction false} ReserveUsage(keys: seq<KeyEntry>, at: nat, kid: Kid)
    requires DistinctKids(keys) && at < |keys| && keys[at].usage < MAX_ENCRYPTIONS_PER_KEY
    ensures DistinctKids(Reserve(keys, at)) && Kids(Reserve(keys, at)) == Kids(keys)
    ensures UsageOf(Reserve(keys, at), kid)
         == if kid == keys[at].kid then keys[at].usage + Granted(keys[at].usage) else UsageOf(keys, kid)
  {
    var keys' := Reserve(keys, at);
    assert forall i :: 0 <= i < |keys| ==> keys'[i].kid == keys[i].kid;
    assert forall k :: k in Kids(keys) ==> k in Kids(keys');
    KidFound(keys, kid);
    KidFound(keys', kid);
    UsageAt(keys, at);
    UsageAt(keys', at);
  }

  lemma {:induction false} RetiredFind(keys: seq<KeyEntry>, kid: Kid)
    ensures Find(Retired(keys), kid) == Find(keys, kid)
  {
    if keys == [] {
    } else {
      assert Retired(keys)[1..] == Retired(keys[1..]);
      RetiredFind(keys[1..], kid);
    }
  }

  lemma {:induction false} RotateKids(keys: seq<KeyEntry>, added: Kid)
    requires DistinctKids(keys) && added !in Kids(keys)
    ensures DistinctKids(Rotate(keys, added)) && Kids(Rotate(keys, added)) == Kids(keys) + {added}
  {
    var keys' := Rotate(keys, added);
    assert forall i :: 0 < i < |keys'| ==> keys'[i].kid == keys[i - 1].kid && keys[i - 1].kid in Kids(keys);
    forall k ensures k in Kids(keys') <==> k in Kids(keys) + {added} {
      if k in Kids(keys) {
        var i :| 0 <= i < |keys| && keys[i].kid == k;
        assert keys'[i + 1].kid == k;
      } else if k == added {
        assert keys'[0].kid == k;
      }
    }
  }

  lemma {:induction false} RotateUsage(keys: seq<KeyEntry>, added: Kid, kid: Kid)
    ensures UsageOf(Rotate(keys, added), kid) == if kid == added then 0 else UsageOf(keys, kid)
  {
    assert Rotate(keys, added)[1..] == Retired(keys);
    RetiredFind(keys, kid);
  }

  /** Raising stored usage never uncovers an invocation. */
  lemma {:induction false} CoveredGrows(s: State, s': State, at: nat, x: Invocation)
    requires DistinctKids(s.keys) && at < |s.keys| && s.keys[at].usage < MAX_ENCRYPTIONS_PER_KEY
    requires s'.keys == Reserve(s.keys, at) && s'.start == s.start && Covered(s, x)
    ensures Covered(s', x)
  {
    ReserveUsage(s.keys, at, x.kid);
    UsageAt(s.keys, at);
  }

  lemma {:induction false} StopKeepsInv(s: State, s': State, at: nat)
    requires Inv(s) && StopAfterReserve(s, s', at)
    ensures Inv(s')
  {
    ReserveUsage(s.keys, at, 0);
    UsageAt(s.keys, at);
    forall k | k in s'.start ensures s'.start[k] <= UsageOf(s'.keys, k) { ReserveUsage(s.keys, at, k); }
    forall x | Covered(s, x) ensures Covered(s', x) { CoveredGrows(s, s', at, x); }
    CoverKeepsInv(s, s');
  }

  lemma {:induction false} RotateKeepsInv(s: State, s': State, kid: Kid)
    requires Inv(s) && RotateKey(s, s', kid)
    ensures Inv(s')
  {
    RotateKids(s.keys, kid);
    forall k | k in s'.start ensures s'.start[k] <= UsageOf(s'.keys, k) { RotateUsage(s.keys, kid, k); }
    forall x | Covered(s, x) ensures Covered(s', x) { RotateUsage(s.keys, kid, x.kid); }
    CoverKeepsInv(s, s');
  }

  // ----- Encrypting -----

  /** A provider may hold a window that nobody else holds and nobody has used. */
  lemma {:induction false} TakeWindowKeepsInv(s: State, s': State, p: nat, m: Memory)
    requires Inv(s) && p < |s.providers| && Accounted(s, m)
    requires forall x {:trigger InHand(m, x)} :: InHand(m, x) && x.kid !in s.unsaved ==> Covered(s, x) && x !in s.log
    requires forall q, x {:trigger InHand(s.providers[q], x)} ::
      0 <= q < |s.providers| && q != p && InHand(m, x) && x.kid !in s.unsaved ==> !InHand(s.providers[q], x)
    requires s' == s.(providers := s.providers[p := m])
    ensures Inv(s')
  {
    assert forall x {:trigger Covered(s', x)} :: Covered(s, x) ==> Covered(s', x);
    forall q, x | 0 <= q < |s'.providers| && InHand(s'.providers[q], x) && x.kid !in s'.unsaved
      ensures Covered(s', x) && x !in s'.log
    {
      assert q != p ==> InHand(s.providers[q], x);
    }
  }

  /** An invocation that nobody holds any more may be logged. */
  lemma {:induction false} LogKeepsInv(s: State, s': State, x: Invocation)
    requires Inv(s)
    requires x.kid !in s.unsaved ==>
      Covered(s, x) && x !in s.log && forall q :: 0 <= q < |s.providers| ==> !InHand(s.providers[q], x)
    requires s' == s.(log := s.log + [x])
    ensures Inv(s')
  {
    assert forall y {:trigger Covered(s', y)} :: Covered(s, y) ==> Covered(s', y);
    assert forall q :: 0 <= q < |s.providers| ==> Accounted(s', s.providers[q]);
  }

  /** Spending one invocation of the window in hand. */
  lemma {:induction false} SpendKeepsInv(s: State, s': State, p: nat, m: Memory, x: Invocation)
    requires Inv(s) && p < |s.providers| && InHand(s.providers[p], x) && m.detached == s.providers[p].detached
    requires m.reservation == Some(s.providers[p].reservation.value.(used := s.providers[p].reservation.value.used + 1))
    requires x.index == s.providers[p].reservation.value.base + s.providers[p].reservation.value.used
    requires s' == s.(providers := s.providers[p := m], log := s.log + [x])
    ensures Inv(s')
  {
    var s1 := s.(providers := s.providers[p := m]);
    assert Covered(s, x) ==> Covered(s1, x);
    assert forall y {:trigger InHand(m, y)} :: InHand(m, y) ==> InHand(s.providers[p], y) && y != x;
    assert Accounted(s, s.providers[p]);
    TakeWindowKeepsInv(s, s1, p, m);
    LogKeepsInv(s1, s', x);
  }

  /** A key may be given up as unsaved. */
  lemma {:induction false} UnsaveKeepsInv(s: State, s': State, kid: Kid)
    requires Inv(s) && s' == s.(unsaved := s.unsaved + {kid})
    ensures Inv(s')
  {
    CoverKeepsInv(s, s');
  }

  /** A window just reserved lies above everything stored before, and within what is stored now. */
  lemma {:induction false} ReservedIsNew(s: State, s': State, at: nat, x: Invocation)
    requires DistinctKids(s.keys) && s.start.Keys == Kids(s.keys)
    requires at < |s.keys| && s.keys[at].usage < MAX_ENCRYPTIONS_PER_KEY
    requires s.start[s.keys[at].kid] <= s.keys[at].usage
    requires s'.keys == Reserve(s.keys, at) && s'.start == s.start
    requires x.kid == s.keys[at].kid && s.keys[at].usage <= x.index < s.keys[at].usage + Granted(s.keys[at].usage)
    ensures Covered(s', x) && !Covered(s, x)
  {
    UsageAt(s.keys, at);
    ReserveUsage(s.keys, at, x.kid);
  }

  lemma {:induction false} ReserveKeepsInv(s: State, s': State, p: nat, at: nat, m: Memory)
    requires Inv(s) && p < |s.providers| && at < |s.keys| && s.keys[at].usage < MAX_ENCRYPTIONS_PER_KEY && !m.detached
    requires m.reservation == Some(Reservation(s.keys[at].kid, s.keys[at].usage, Granted(s.keys[at].usage), 0))
    requires s' == s.(keys := Reserve(s.keys, at), providers := s.providers[p := m])
    ensures Inv(s')
  {
    var s1 := s.(keys := s'.keys);
    UsageAt(s.keys, at);
    forall x | InHand(m, x) ensures Covered(s1, x) && !Covered(s, x) { ReservedIsNew(s, s1, at, x); }
    assert forall x {:trigger InHand(m, x)} :: InHand(m, x) && x.kid !in s.unsaved ==> x !in s.log;
    StopKeepsInv(s, s1, at);
    TakeWindowKeepsInv(s1, s', p, m);
  }

  /** A step that changes neither the file nor any window. */
  lemma {:induction false} CacheKeepsInv(s: State, s': State, p: nat, m: Memory)
    requires Inv(s) && p < |s.providers|
    requires m.reservation == s.providers[p].reservation && m.detached == s.providers[p].detached
    requires s' == s.(providers := s.providers[p := m])
    ensures Inv(s')
  {
    assert forall q, x :: 0 <= q < |s.providers| ==> (InHand(s'.providers[q], x) <==> InHand(s.providers[q], x));
    assert forall x :: Covered(s, x) ==> Covered(s', x);
    assert Accounted(s, s.providers[p]);
  }

  /** A window that was not stored. */
  lemma {:induction false} DetachedKeepsInv(s: State, s': State, p: nat, full: Memory, m: Memory, x: Invocation)
    requires Inv(s) && p < |s.providers| && full.detached && m.detached
    requires InHand(full, x) && x.index == full.reservation.value.base + full.reservation.value.used
    requires m.reservation == Some(full.reservation.value.(used := full.reservation.value.used + 1))
    requires s' == s.(providers := s.providers[p := m], log := s.log + [x], unsaved := s.unsaved + {x.kid})
    ensures Inv(s')
  {
    var s1 := s.(unsaved := s'.unsaved);
    UnsaveKeepsInv(s, s1, x.kid);
    var s2 := s1.(providers := s1.providers[p := full]);
    TakeWindowKeepsInv(s1, s2, p, full);
    assert s2.providers[p := m] == s'.providers;
    SpendKeepsInv(s2, s', p, m, x);
  }

  lemma {:induction false} EncryptKeepsInv(s: State, s': State, p: nat, writable: bool)
    requires Inv(s) && Encrypt(s, s', p, writable)
    ensures Inv(s')
  {
    var m := s.providers[p];
    var (keys, m', outcome) := EncryptStep(s.keys, m, writable);
    assert Accounted(s, m);
    if !outcome.Encrypted? {
      CacheKeepsInv(s, s', p, m');
    } else if NeedsWindow(m, outcome.kid) {
      var x := Invocation(outcome.kid, outcome.index);
      var full := m'.(reservation := Some(m'.reservation.value.(used := 0)));
      if m'.detached {
        DetachedKeepsInv(s, s', p, full, m', x);
      } else {
        FindAt(s.keys, outcome.kid);
        var at := Find(s.keys, outcome.kid).value;
        var s1 := s.(keys := keys, providers := s.providers[p := full]);
        ReserveKeepsInv(s, s1, p, at, full);
        SpendKeepsInv(s1, s', p, m', x);
        assert s1.providers[p := m'] == s'.providers;
      }
    } else {
      assert m.detached ==> s.unsaved + {outcome.kid} == s.unsaved;
      SpendKeepsInv(s, s', p, m', Invocation(outcome.kid, outcome.index));
    }
  }

  lemma {:induction false} StartKeepsInv(s: State, s': State)
    requires Inv(s) && StartProvider(s, s')
    ensures Inv(s')
  {
    assert forall x :: Covered(s, x) ==> Covered(s', x);
    assert forall x :: !InHand(FRESH, x);
    assert forall p :: 0 <= p < |s.providers| ==> Accounted(s', s.providers[p]);
  }

  lemma {:induction false} NextKeepsInv(s: State, s': State)
    requires Inv(s) && Next(s, s')
    ensures Inv(s')
  {
    if StartProvider(s, s') {
      StartKeepsInv(s, s');
    } else if p: nat, writable: bool :| Encrypt(s, s', p, writable) {
      EncryptKeepsInv(s, s', p, writable);
    } else if at: nat :| StopAfterReserve(s, s', at) {
      StopKeepsInv(s, s', at);
    } else {
      var kid: Kid :| RotateKey(s, s', kid);
      RotateKeepsInv(s, s', kid);
    }
  }

  ghost predicate IsRun(run: seq<State>) {
    && run != [] && Init(run[0])
    && forall i :: 0 <= i < |run| - 1 ==> Next(run[i], run[i + 1])
  }

  lemma {:induction false} RunInv(run: seq<State>, i: nat)
    requires IsRun(run) && i < |run|
    ensures Inv(run[i])
  {
    if i == 0 {
      forall k | k in run[0].start ensures run[0].start[k] <= UsageOf(run[0].keys, k) { }
    } else {
      RunInv(run, i - 1);
      assert Next(run[i - 1], run[i - 1 + 1]);
      NextKeepsInv(run[i - 1], run[i]);
    }
  }

  // ----- Counting invocations -----

  ghost function Count(log: seq<Invocation>, kid: Kid): nat {
    if log == [] then 0
    else Count(log[..|log| - 1], kid) + if log[|log| - 1].kid == kid then 1 else 0
  }

  ghost function Indices(log: seq<Invocation>, kid: Kid): set<int> {
    set i | 0 <= i < |log| && log[i].kid == kid :: log[i].index
  }

  lemma {:induction false} IndicesPush(log: seq<Invocation>, x: Invocation, kid: Kid)
    ensures Indices(log + [x], kid) == Indices(log, kid) + if x.kid == kid then {x.index} else {}
  {
    var all := log + [x];
    assert all[|log|] == x;
    forall i | i in Indices(log, kid) ensures i in Indices(all, kid) {
      var j :| 0 <= j < |log| && log[j].kid == kid && log[j].index == i;
      assert all[j] == log[j];
    }
  }

  lemma {:induction false} CountPush(log: seq<Invocation>, x: Invocation, kid: Kid)
    requires (x.kid == kid ==> x !in log) && Count(log, kid) == |Indices(log, kid)|
    ensures Count(log + [x], kid) == |Indices(log + [x], kid)|
  {
    assert (log + [x])[..|log|] == log;
    IndicesPush(log, x, kid);
  }

  lemma {:induction false} CountIsCardinality(log: seq<Invocation>, kid: Kid)
    requires forall i, j :: 0 <= i < j < |log| && log[i].kid == kid ==> log[i] != log[j]
    ensures Count(log, kid) == |Indices(log, kid)|
  {
    if log == [] {
    } else {
      var before, x := log[..|log| - 1], log[|log| - 1];
      CountIsCardinality(before, kid);
      CountPush(before, x, kid);
      assert log == before + [x];
    }
  }

  /**
   In every state of every run, for a key whose windows were all stored, each
   invocation index is used at most once, the stored usage covers all
   invocations, and the key is not used beyond the limit.
   */
  lemma {:induction false} BudgetSafety(run: seq<State>, i: nat, kid: Kid)
    requires IsRun(run) && i < |run| && kid in Kids(run[i].keys) && kid !in run[i].unsaved
    ensures kid in run[i].start
    ensures run[i].start[kid] + Count(run[i].log, kid) <= UsageOf(run[i].keys, kid)
    ensures run[i].start[kid] <= MAX_ENCRYPTIONS_PER_KEY ==>
      run[i].start[kid] + Count(run[i].log, kid) <= MAX_ENCRYPTIONS_PER_KEY
  {
    var s := run[i];
    RunInv(run, i);
    CountIsCardinality(s.log, kid);
    var used := Indices(s.log, kid);
    forall x | x in used ensures s.start[kid] <= x < UsageOf(s.keys, kid) && x < MAX_ENCRYPTIONS_PER_KEY {
      var j :| 0 <= j < |s.log| && s.log[j].kid == kid && s.log[j].index == x;
      assert Covered(s, s.log[j]);
    }
    IntervalCardinality(used, s.start[kid], UsageOf(s.keys, kid));
    if s.start[kid] <= MAX_ENCRYPTIONS_PER_KEY {
      IntervalCardinality(used, s.start[kid], MAX_ENCRYPTIONS_PER_KEY);
    }
  }

  // ----- A key file that cannot be written -----

  /** n providers have each encrypted once on a key file that refused the write. */
  ghost function ReadOnlyState(kid: Kid, u: nat, n: nat): State
    requires u < MAX_ENCRYPTIONS_PER_KEY
  {
    var m := Memory(Some(kid), Some(Reservation(kid, u, Granted(u), 1)), true);
    State([KeyEntry(kid, true, u)], seq(n, _ => m), seq(n, _ => Invocation(kid, u)),
          map[kid := u], if n == 0 then {} else {kid})
  }

  /** The run that starts a provider and encrypts once with it, n times over. */
  ghost function ReadOnlyRun(kid: Kid, u: nat, n: nat): seq<State>
    requires u < MAX_ENCRYPTIONS_PER_KEY
  {
    if n == 0 then [ReadOnlyState(kid, u, 0)]
    else
      var last := ReadOnlyState(kid, u, n - 1);
      ReadOnlyRun(kid, u, n - 1) + [last.(providers := last.providers + [FRESH]), ReadOnlyState(kid, u, n)]
  }

  lemma {:induction false} ReadOnlyEncrypts(kid: Kid, u: nat, n: nat)
    requires u < MAX_ENCRYPTIONS_PER_KEY
    ensures var s := ReadOnlyState(kid, u, n);
      Encrypt(s.(providers := s.providers + [FRESH]), ReadOnlyState(kid, u, n + 1), n, false)
  {
    var s, s' := ReadOnlyState(kid, u, n), ReadOnlyState(kid, u, n + 1);
    var keys := s.keys;
    assert keys[0].active && Find(keys, kid) == Some(0) && ActiveKid(keys) == Some(kid);
    var m := Memory(Some(kid), Some(Reservation(kid, u, Granted(u), 1)), true);
    assert EncryptStep(keys, FRESH, false) == (keys, m, Encrypted(kid, u));
    assert (s.providers + [FRESH])[n := m] == s'.providers;
    assert s.log + [Invocation(kid, u)] == s'.log;
  }

  lemma {:induction false} ReadOnlyIsRun(kid: Kid, u: nat, n: nat)
    requires u < MAX_ENCRYPTIONS_PER_KEY
    ensures var run := ReadOnlyRun(kid, u, n);
      IsRun(run) && run[|run| - 1] == ReadOnlyState(kid, u, n) && Count(run[|run| - 1].log, kid) == n
  {
    var s := ReadOnlyState(kid, u, n);
    if n == 0 {
      KidFound(s.keys, kid);
      assert s.keys[0].kid == kid && Kids(s.keys) == {kid} && UsageOf(s.keys, kid) == u;
    } else {
      ReadOnlyIsRun(kid, u, n - 1);
      ReadOnlyEncrypts(kid, u, n - 1);
      var last := ReadOnlyState(kid, u, n - 1);
      var mid := last.(providers := last.providers + [FRESH]);
      assert StartProvider(last, mid);
      var before, run := ReadOnlyRun(kid, u, n - 1), ReadOnlyRun(kid, u, n);
      assert run == before + [mid, s];
      forall i | 0 <= i < |run| - 1 ensures Next(run[i], run[i + 1]) {
        if i < |before| - 1 { assert Next(before[i], before[i + 1]); }
      }
      assert s.log[..n - 1] == last.log;
    }
  }

  /**
   Storing every window is needed: with a key file that cannot be written, any
   number of encryptions can be made with a key, all of them under one index.
   */
  lemma {:induction false} ReadOnlyExceeds(kid: Kid, u: nat, n: nat)
    requires u < MAX_ENCRYPTIONS_PER_KEY
    ensures exists run: seq<State> ::
      IsRun(run) && Count(run[|run| - 1].log, kid) == n && UsageOf(run[|run| - 1].keys, kid) == u
  {
    ReadOnlyIsRun(kid, u, n);
    var run := ReadOnlyRun(kid, u, n);
    assert run[|run| - 1].keys[0].kid == kid;
    assert IsRun(run);
  }

  // ----- One provider, undisturbed -----

  /** Key file and memory after `n` calls of `encrypt`, when write number i succeeds as `writable(i)` says. */
  ghost function After(keys: seq<KeyEntry>, m: Memory, writable: nat -> bool, n: nat): (seq<KeyEntry>, Memory) {
    if n == 0 then (keys, m)
    else
      var (k, p) := After(keys, m, writable, n - 1);
      var (k', p', _) := EncryptStep(k, p, writable(n - 1));
      (k', p')
  }

  ghost function OutcomeOf(keys: seq<KeyEntry>, m: Memory, writable: nat -> bool, n: nat): Outcome {
    var (k, p) := After(keys, m, writable, n);
    EncryptStep(k, p, writable(n)).2
  }

  /** The window in memory is the last stored one, unless the provider is detached. */
  ghost predicate WindowOf(r: Reservation, kid: Kid, usage: nat, spent: nat, detached: bool) {
    && r.kid == kid && r.used <= r.granted && spent == r.base + r.used && r.base + r.granted <= MAX_ENCRYPTIONS_PER_KEY
    && (!detached ==> usage == r.base + r.granted)
  }

  /** The provider has spent the invocations of key `at` up to `spent`, in order. */
  ghost predicate Sole(keys: seq<KeyEntry>, m: Memory, kid: Kid, at: nat, spent: nat) {
    && Find(keys, kid) == Some(at) && at < |keys| && keys[at].kid == kid
    && (m.cached == Some(kid) || (m == FRESH && ActiveKid(keys) == Some(kid)))
    && (if m.reservation.None? then !m.detached && spent == keys[at].usage
        else WindowOf(m.reservation.value, kid, keys[at].usage, spent, m.detached))
  }

  lemma {:induction false} FindStable(keys: seq<KeyEntry>, kid: Kid, at: nat)
    requires Find(keys, kid) == Some(at) && at < |keys| && keys[at].usage < MAX_ENCRYPTIONS_PER_KEY
    ensures Find(Reserve(keys, at), kid) == Some(at)
  {
    if keys[0].kid == kid {
    } else {
      FindStable(keys[1..], kid, at - 1);
      assert Reserve(keys, at)[1..] == Reserve(keys[1..], at - 1);
    }
  }

  lemma {:induction false} SoleStep(keys: seq<KeyEntry>, m: Memory, kid: Kid, at: nat, spent: nat, writable: bool)
    requires Sole(keys, m, kid, at, spent)
    ensures var (keys', m', outcome) := EncryptStep(keys, m, writable);
      if spent < MAX_ENCRYPTIONS_PER_KEY then outcome == Encrypted(kid, spent) && Sole(keys', m', kid, at, spent + 1)
      else outcome == LimitReached && Sole(keys', m', kid, at, spent)
  {
    if NeedsWindow(m, kid) && keys[at].usage < MAX_ENCRYPTIONS_PER_KEY {
      FindStable(keys, kid, at);
    }
  }

  /** The invocations spent after `n` calls from `u`. */
  function SpentAfter(u: nat, n: nat): nat {
    if u + n <= MAX_ENCRYPTIONS_PER_KEY then u + n
    else if u <= MAX_ENCRYPTIONS_PER_KEY then MAX_ENCRYPTIONS_PER_KEY else u
  }

  lemma {:induction false} SoleRun(keys: seq<KeyEntry>, m: Memory, kid: Kid, at: nat, spent: nat,
                                   writable: nat -> bool, n: nat)
    requires Sole(keys, m, kid, at, spent)
    ensures var (k, p) := After(keys, m, writable, n);
      Sole(k, p, kid, at, SpentAfter(spent, n))
  {
    if n == 0 {
    } else {
      SoleRun(keys, m, kid, at, spent, writable, n - 1);
      var (k, p) := After(keys, m, writable, n - 1);
      SoleStep(k, p, kid, at, SpentAfter(spent, n - 1), writable(n - 1));
    }
  }

  lemma {:induction false} HeadActive(keys: seq<KeyEntry>)
    requires keys != [] && keys[0].active
    ensures ActiveKid(keys) == Some(keys[0].kid)
  {
    assert exists i :: 0 <= i < |keys| && keys[i].active;
  }

  lemma {:induction false} FirstCall(keys: seq<KeyEntry>, kid: Kid, writable: bool)
    requires keys != [] && keys[0] == KeyEntry(kid, true, 0)
    ensures EncryptStep(keys, FRESH, writable).2 == Encrypted(kid, 0)
  {
    HeadActive(keys);
    assert Find(keys, kid) == Some(0);
  }

  lemma {:induction false} KeyKept(keys: seq<KeyEntry>, m: Memory, writable: bool)
    requires m.cached.Some? && EncryptStep(keys, m, writable).2.Encrypted?
    ensures EncryptStep(keys, m, writable).2.kid == m.cached.value
  {
  }

  lemma {:induction false} RotatedAt(keys: seq<KeyEntry>, kid: Kid, i: nat)
    requires i < |keys|
    ensures Rotate(keys, kid)[i + 1] == KeyEntry(keys[i].kid, false, keys[i].usage)
  {
    assert Rotate(keys, kid)[i + 1] == Retired(keys)[i];
  }

  /**
   After a rotation the new key is the only active one, and the others keep their
   usage. A fresh provider starts the new key's budget; one that has loaded a key
   before goes on with that key.
   */
  lemma {:induction false} AfterRotation(keys: seq<KeyEntry>, kid: Kid, m: Memory, writable: bool)
    ensures var rotated := Rotate(keys, kid);
      && |rotated| == |keys| + 1 && rotated[0] == KeyEntry(kid, true, 0)
      && (forall i :: 0 <= i < |keys| ==> rotated[i + 1] == KeyEntry(keys[i].kid, false, keys[i].usage))
      && ActiveKid(rotated) == Some(kid)
      && EncryptStep(rotated, FRESH, writable).2 == Encrypted(kid, 0)
      && (m.cached.Some? && EncryptStep(rotated, m, writable).2.Encrypted? ==>
           EncryptStep(rotated, m, writable).2.kid == m.cached.value)
  {
    var rotated := Rotate(keys, kid);
    forall i | 0 <= i < |keys| ensures rotated[i + 1] == KeyEntry(keys[i].kid, false, keys[i].usage) {
      RotatedAt(keys, kid, i);
    }
    HeadActive(rotated);
    FirstCall(rotated, kid, writable);
    if m.cached.Some? && EncryptStep(rotated, m, writable).2.Encrypted? { KeyKept(rotated, m, writable); }
  }

  /**
   A fresh provider on a key file whose active key has usage u: call number n
   (from 0) uses invocation u + n while that is below the limit, and every call
   from there on fails, whichever writes of the key file succeed.
   */
  lemma {:induction false} ExactBudget(keys: seq<KeyEntry>, kid: Kid, writable: nat -> bool, n: nat)
    requires ActiveKid(keys) == Some(kid) && DistinctKids(keys) && kid in Kids(keys)
    ensures var u := UsageOf(keys, kid);
      OutcomeOf(keys, FRESH, writable, n)
      == if u + n < MAX_ENCRYPTIONS_PER_KEY then Encrypted(kid, u + n) else LimitReached
  {
    KidFound(keys, kid);
    var at := Find(keys, kid).value;
    var u := UsageOf(keys, kid);
    SoleRun(keys, FRESH, kid, at, u, writable, n);
    var (k, p) := After(keys, FRESH, writable, n);
    SoleStep(k, p, kid, at, SpentAfter(u, n), writable(n));
  }

  // ----- What is stored -----

  /** The usage stored after `n` calls from `u`: whole windows that hold them all, up to the limit. */
  function StoredAfter(u: nat, n: nat): nat {
    if n == 0 || u >= MAX_ENCRYPTIONS_PER_KEY then u
    else
      var end := u + ((n - 1) / NONCE_RESERVE_WINDOW + 1) * NONCE_RESERVE_WINDOW;
      if end < MAX_ENCRYPTIONS_PER_KEY then end else MAX_ENCRYPTIONS_PER_KEY
  }

  lemma {:induction false} StoredNext(u: nat, n: nat)
    ensures var stored, spent := StoredAfter(u, n), SpentAfter(u, n);
      && spent <= stored
      && StoredAfter(u, n + 1)
         == if spent < stored || stored >= MAX_ENCRYPTIONS_PER_KEY then stored else stored + Granted(stored)
  {
  }

  /** An undisturbed provider whose writes all succeed has changed nothing but the usage of its key. */
  ghost predicate Stores(keys: seq<KeyEntry>, at: nat, n: nat, k: seq<KeyEntry>, m: Memory)
    requires at < |keys|
  {
    && k == keys[at := keys[at].(usage := StoredAfter(keys[at].usage, n))] && !m.detached
    && (m.reservation.None? ==> n == 0 || keys[at].usage >= MAX_ENCRYPTIONS_PER_KEY)
  }

  lemma {:induction false} StoresStep(keys: seq<KeyEntry>, kid: Kid, at: nat, n: nat, k: seq<KeyEntry>, m: Memory)
    requires at < |keys| && Stores(keys, at, n, k, m) && Sole(k, m, kid, at, SpentAfter(keys[at].usage, n))
    ensures var (k', m', _) := EncryptStep(k, m, true); Stores(keys, at, n + 1, k', m')
  {
    StoredNext(keys[at].usage, n);
  }

  ghost predicate StoresUpTo(keys: seq<KeyEntry>, kid: Kid, at: nat, writable: nat -> bool, n: nat)
    requires at < |keys|
  {
    var (k, m) := After(keys, FRESH, writable, n);
    Stores(keys, at, n, k, m) && Sole(k, m, kid, at, SpentAfter(keys[at].usage, n))
  }

  lemma {:induction false} StoresNext(keys: seq<KeyEntry>, kid: Kid, at: nat, writable: nat -> bool, n: nat)
    requires at < |keys| && writable(n) && StoresUpTo(keys, kid, at, writable, n)
    ensures StoresUpTo(keys, kid, at, writable, n + 1)
  {
    var (k, m) := After(keys, FRESH, writable, n);
    StoresStep(keys, kid, at, n, k, m);
    SoleStep(k, m, kid, at, SpentAfter(keys[at].usage, n), writable(n));
  }

  lemma {:induction false} StoresRun(keys: seq<KeyEntry>, kid: Kid, at: nat, writable: nat -> bool, n: nat)
    requires at < |keys| && StoresUpTo(keys, kid, at, writable, 0) && forall i :: writable(i)
    ensures StoresUpTo(keys, kid, at, writable, n)
  {
    if n == 0 {
    } else {
      StoresRun(keys, kid, at, writable, n - 1);
      StoresNext(keys, kid, at, writable, n - 1);
    }
  }

  /**
   After `n` calls of a fresh provider whose writes succeed, the key file is as it was
   but for the usage of its key, which has advanced by whole windows, just enough to
   hold the calls, and not past the limit.
   */
  lemma {:induction false} StoredExactly(keys: seq<KeyEntry>, at: nat, writable: nat -> bool, n: nat)
    requires DistinctKids(keys) && at < |keys| && ActiveKid(keys) == Some(keys[at].kid) && forall i :: writable(i)
    ensures var u := keys[at].usage;
      var stored := if n == 0 || u >= 0x1_0000_0000 then u
                    else if u + ((n - 1) / 0x10_0000 + 1) * 0x10_0000 < 0x1_0000_0000
                    then u + ((n - 1) / 0x10_0000 + 1) * 0x10_0000
                    else 0x1_0000_0000;
      After(keys, FRESH, writable, n).0 == keys[at := keys[at].(usage := stored)]
  {
    UsageAt(keys, at);
    StoresRun(keys, keys[at].kid, at, writable, n);
  }

  lemma {:induction false} SameFirstActive(keys: seq<KeyEntry>, k: seq<KeyEntry>)
    requires |k| == |keys| && forall i :: 0 <= i < |k| ==> k[i].kid == keys[i].kid && k[i].active == keys[i].active
    ensures FirstActive(k) == FirstActive(keys)
  {
    if k == [] {
    } else {
      SameFirstActive(keys[1..], k[1..]);
    }
  }

  /** The active key does not depend on what the keys have used. */
  lemma {:induction false} SameActive(keys: seq<KeyEntry>, at: nat, k: seq<KeyEntry>)
    requires at < |keys| && |k| == |keys| && k == keys[at := keys[at].(usage := k[at].usage)]
    ensures ActiveKid(k) == ActiveKid(keys) && (DistinctKids(keys) ==> DistinctKids(k))
  {
    forall i | 0 <= i < |k| ensures k[i].kid == keys[i].kid && k[i].active == keys[i].active {}
    SameFirstActive(keys, k);
  }

  /**
   A provider that replaces another after n calls goes on less than a window behind
   the last invocation: no index is used twice, and few are lost.
   */
  lemma {:induction false} RestartSkips(keys: seq<KeyEntry>, at: nat, writable: nat -> bool, n: nat)
    requires DistinctKids(keys) && at < |keys| && ActiveKid(keys) == Some(keys[at].kid) && forall i :: writable(i)
    requires n > 0 && keys[at].usage + n <= MAX_ENCRYPTIONS_PER_KEY
    ensures var next := OutcomeOf(After(keys, FRESH, writable, n).0, FRESH, writable, 0);
      var spent := keys[at].usage + n;
      if next.Encrypted? then next.kid == keys[at].kid && spent <= next.index < spent + 0x10_0000
      else next.LimitReached? && 0x1_0000_0000 - spent < 0x10_0000
  {
    StoredExactly(keys, at, writable, n);
    var k := After(keys, FRESH, writable, n).0;
    SameActive(keys, at, k);
    UsageAt(k, at);
    ExactBudget(k, k[at].kid, writable, 0);
  }
}
