/**
 Calls of `encrypt` on one provider that overlap at their await points. Each
 call checks the window in memory, and when it is used up reads the key file,
 writes the advanced usage, installs the new window and only then consumes an
 index. Nothing in the provider makes a second call wait for the first.
 */
module NonceOverlap {
  import opened Options
  import opened Sets
  import opened NonceBudget

  /** Where a call stands: waiting for the read, the write, the return of the write, the return of the reservation. */
  datatype Phase =
    | Reading
    | Writing(current: nat)
    | Written(current: nat)
    | Reserved
    | Finished(ok: bool)

  datatype Window = Window(base: nat, granted: nat, used: nat)

  /** `start` is the stored usage when the provider was created; `log` the index of every encryption. */
  datatype Shared = Shared(start: nat, usage: nat, window: Option<Window>, calls: seq<Phase>, log: seq<nat>)

  predicate Spent(w: Option<Window>) {
    w.None? || w.value.used >= w.value.granted
  }

  /** The shared state after a call passes the window check and uses its index; None when it fails at the limit. */
  function Use(s: Shared): Option<Shared>
    requires s.window.Some?
  {
    var w := s.window.value;
    if w.base + w.used >= MAX_ENCRYPTIONS_PER_KEY then None
    else Some(s.(window := Some(w.(used := w.used + 1)), log := s.log + [w.base + w.used]))
  }

  ghost predicate Begin(s: Shared, s': Shared) {
    if Spent(s.window) then s' == s.(calls := s.calls + [Reading])
    else if Use(s).None? then s' == s.(calls := s.calls + [Finished(false)])
    else s' == Use(s).value.(calls := s.calls + [Finished(true)])
  }

  ghost predicate Read(s: Shared, s': Shared, i: nat) {
    && i < |s.calls| && s.calls[i].Reading?
    && s' == s.(calls := s.calls[i := if s.usage >= MAX_ENCRYPTIONS_PER_KEY then Finished(false) else Writing(s.usage)])
  }

  ghost predicate Write(s: Shared, s': Shared, i: nat) {
    && i < |s.calls| && s.calls[i].Writing? && s.calls[i].current < MAX_ENCRYPTIONS_PER_KEY
    && var current := s.calls[i].current;
       s' == s.(usage := current + Granted(current), calls := s.calls[i := Written(current)])
  }

  ghost predicate Install(s: Shared, s': Shared, i: nat) {
    && i < |s.calls| && s.calls[i].Written? && s.calls[i].current < MAX_ENCRYPTIONS_PER_KEY
    && var current := s.calls[i].current;
       s' == s.(window := Some(Window(current, Granted(current), 0)), calls := s.calls[i := Reserved])
  }

  ghost predicate Consume(s: Shared, s': Shared, i: nat) {
    && i < |s.calls| && s.calls[i].Reserved? && s.window.Some?
    && s' == if Use(s).None? then s.(calls := s.calls[i := Finished(false)])
             else Use(s).value.(calls := s.calls[i := Finished(true)])
  }

  ghost predicate CallStep(s: Shared, s': Shared, i: nat) {
    Read(s, s', i) || Write(s, s', i) || Install(s, s', i) || Consume(s, s', i)
  }

  /** A call begins only while fewer than `overlap` others are open. */
  ghost predicate Next(s: Shared, s': Shared, overlap: nat) {
    || (Begin(s, s') && |Open(s)| < overlap)
    || exists i: nat :: CallStep(s, s', i)
  }

  ghost predicate Init(s: Shared) {
    s.start <= MAX_ENCRYPTIONS_PER_KEY && s == Shared(s.start, s.start, None, [], [])
  }

  /** The calls that have begun and not finished. */
  ghost function Open(s: Shared): set<int> {
    set i | 0 <= i < |s.calls| && !s.calls[i].Finished?
  }

  /** A run in which at most `overlap` calls are under way at any time. */
  ghost predicate IsRun(run: seq<Shared>, overlap: nat) {
    && run != [] && Init(run[0])
    && forall i :: 0 <= i < |run| - 1 ==> Next(run[i], run[i + 1], overlap)
  }

  ghost predicate WithinBudget(s: Shared) {
    s.start + |s.log| <= MAX_ENCRYPTIONS_PER_KEY
  }

  // ----- One call at a time -----

  ghost predicate CallInv(s: Shared, c: Phase) {
    match c
    case Reading => Spent(s.window)
    case Writing(current) => current == s.usage < MAX_ENCRYPTIONS_PER_KEY && Spent(s.window)
    case Written(current) =>
      current < MAX_ENCRYPTIONS_PER_KEY && s.usage == current + Granted(current) && Spent(s.window)
      && s.start + |s.log| <= current
    case Reserved => s.window.Some? && !Spent(s.window)
    case Finished(_) => true
  }

  ghost predicate SerialInv(s: Shared) {
    && s.start <= s.usage <= MAX_ENCRYPTIONS_PER_KEY
    && (s.window.None? ==> s.log == [])
    && (s.window.Some? ==>
          var w := s.window.value;
          w.used <= w.granted && w.base + w.granted <= s.usage && s.start + |s.log| <= w.base + w.used)
    && (forall i :: 0 <= i < |s.calls| ==> CallInv(s, s.calls[i]))
  }

  lemma {:induction false} AloneOpen(s: Shared, i: int, j: int)
    requires |Open(s)| <= 1 && 0 <= i < |s.calls| && 0 <= j < |s.calls| && !s.calls[i].Finished?
      && !s.calls[j].Finished?
    ensures i == j
  {
    if i != j {
      assert {i, j} <= Open(s);
      assert |{i, j}| <= |Open(s)| by { SubsetSmaller({i, j}, Open(s)); }
      assert false;
    }
  }

  lemma {:induction false} SerialBegin(s: Shared, s': Shared)
    requires SerialInv(s) && Begin(s, s') && |Open(s)| < 1
    ensures SerialInv(s') && |Open(s')| <= 1
  {
    var n := |s.calls|;
    forall i | 0 <= i < n ensures s'.calls[i].Finished? {
      assert Open(s) == {};
      assert i !in Open(s);
    }
    assert CallInv(s', s'.calls[n]);
    assert Open(s') <= {n};
    SubsetSmaller(Open(s'), {n});
  }

  lemma {:induction false} SerialCall(s: Shared, s': Shared, i: nat)
    requires SerialInv(s) && CallStep(s, s', i) && |Open(s)| <= 1
    ensures SerialInv(s') && |Open(s')| <= 1
  {
    assert CallInv(s, s.calls[i]);
    forall j | 0 <= j < |s'.calls| && j != i ensures CallInv(s', s'.calls[j]) {
      assert CallInv(s, s.calls[j]);
      if !s.calls[j].Finished? { AloneOpen(s, i, j); }
    }
    assert Open(s') <= Open(s);
    SubsetSmaller(Open(s'), Open(s));
  }

  lemma {:induction false} SerialRun(run: seq<Shared>, i: nat)
    requires IsRun(run, 1) && i < |run|
    ensures SerialInv(run[i]) && |Open(run[i])| <= 1
  {
    if i == 0 {
    } else {
      SerialRun(run, i - 1);
      assert Next(run[i - 1], run[i - 1 + 1], 1);
      if Begin(run[i - 1], run[i]) && |Open(run[i - 1])| < 1 {
        SerialBegin(run[i - 1], run[i]);
      } else {
        var c: nat :| CallStep(run[i - 1], run[i], c);
        SerialCall(run[i - 1], run[i], c);
      }
    }
  }

  // ----- Two calls at a time -----

  /** Two calls that both read usage limit - 1 encrypt under the same index. */
  ghost function OverlappingRun(): seq<Shared> {
    var last := MAX_ENCRYPTIONS_PER_KEY - 1;
    var w := Window(last, 1, 0);
    var s0 := Shared(last, last, None, [], []);
    var s1 := s0.(calls := [Reading]);
    var s2 := s0.(calls := [Reading, Reading]);
    var s3 := s0.(calls := [Writing(last), Reading]);
    var s4 := s0.(calls := [Writing(last), Writing(last)]);
    var s5 := s4.(usage := last + 1, calls := [Written(last), Writing(last)]);
    var s6 := s5.(window := Some(w), calls := [Reserved, Writing(last)]);
    var s7 := s6.(window := Some(w.(used := 1)), calls := [Finished(true), Writing(last)], log := [last]);
    var s8 := s7.(calls := [Finished(true), Written(last)]);
    var s9 := s8.(window := Some(w), calls := [Finished(true), Reserved]);
    var s10 := s9.(window := Some(w.(used := 1)), calls := [Finished(true), Finished(true)], log := [last, last]);
    [s0, s1, s2, s3, s4, s5, s6, s7, s8, s9, s10]
  }

  lemma {:induction false} OverlappingReads()
    ensures var run := OverlappingRun();
      && CallStep(run[2], run[3], 0) && CallStep(run[3], run[4], 1)
      && CallStep(run[4], run[5], 0) && CallStep(run[5], run[6], 0)
  {
  }

  lemma {:induction false} OverlappingUses()
    ensures var run := OverlappingRun();
      && CallStep(run[6], run[7], 0) && CallStep(run[7], run[8], 1)
      && CallStep(run[8], run[9], 1) && CallStep(run[9], run[10], 1)
  {
  }

  lemma {:induction false} OverlappingIsRun(overlap: nat)
    requires overlap >= 2
    ensures IsRun(OverlappingRun(), overlap)
  {
    var run := OverlappingRun();
    assert Open(run[0]) == {};
    assert Begin(run[0], run[1]);
    assert Open(run[1]) == {0};
    assert Begin(run[1], run[2]);
    OverlappingReads();
    OverlappingUses();
  }

  /** The limit holds in every run exactly when calls do not overlap. */
  lemma {:induction false} OverlapExact(overlap: nat)
    ensures (forall run: seq<Shared> {:trigger IsRun(run, overlap)} ::
               IsRun(run, overlap) ==> forall i :: 0 <= i < |run| ==> WithinBudget(run[i])) <==> overlap <= 1
  {
    if overlap <= 1 {
      forall run: seq<Shared>, i | IsRun(run, overlap) && 0 <= i < |run| ensures WithinBudget(run[i]) {
        forall j | 0 <= j < |run| - 1 ensures Next(run[j], run[j + 1], 1) { assert Next(run[j], run[j + 1], overlap); }
        SerialRun(run, i);
      }
    } else {
      OverlappingIsRun(overlap);
      assert !WithinBudget(OverlappingRun()[10]);
    }
  }

  // ----- Whatever overlaps -----

  ghost predicate InRange(s: Shared, x: int) { s.start <= x < MAX_ENCRYPTIONS_PER_KEY }

  /** What a call has read, and every index used, lies between the usage at the start and the limit. */
  ghost predicate IndicesInRange(s: Shared) {
    && s.start <= s.usage && (s.window.Some? ==> s.start <= s.window.value.base)
    && (forall i :: 0 <= i < |s.log| ==> InRange(s, s.log[i]))
    && forall i :: 0 <= i < |s.calls| ==>
         match s.calls[i]
         case Writing(current) => s.start <= current
         case Written(current) => s.start <= current
         case _ => true
  }

  /** However many calls overlap, none uses an index at or past the limit, or one used before the start. */
  lemma {:induction false} OverlapInRange(run: seq<Shared>, overlap: nat, i: nat)
    requires IsRun(run, overlap) && i < |run|
    ensures IndicesInRange(run[i]) && run[i].start == run[0].start
  {
    if i == 0 {
    } else {
      OverlapInRange(run, overlap, i - 1);
      assert Next(run[i - 1], run[i - 1 + 1], overlap);
      if !Begin(run[i - 1], run[i]) {
        var c: nat :| CallStep(run[i - 1], run[i], c);
      }
    }
  }
}
