/**
 The fixed-window rate limiter. Its table of windows keeps insertion order and
 is swept lazily: at or above a size threshold, each call first drops the
 expired windows among a bounded number of the oldest entries.
 */
module RateLimiter {
  import opened Options

  type Key = string

  datatype Slot = Slot(windowStart: int, count: nat)

  datatype Entry = Entry(key: Key, slot: Slot)

  datatype Config = Config(windowMs: int, sweepThreshold: int, sweepBudget: int)

  /** One call `allow(key, limit)` made when the clock shows `now`. */
  datatype Call = Call(key: Key, limit: int, now: int)

  predicate Expired(slot: Slot, now: int, windowMs: int) {
    now - slot.windowStart >= windowMs
  }

  // ----- The insertion-ordered table -----

  function Get(table: seq<Entry>, key: Key): Option<Slot> {
    if table == [] then None
    else if table[0].key == key then Some(table[0].slot)
    else Get(table[1..], key)
  }

  /** An existing key keeps its place; a new one goes last. */
  function Put(table: seq<Entry>, key: Key, slot: Slot): seq<Entry> {
    if table == [] then [Entry(key, slot)]
    else if table[0].key == key then [Entry(key, slot)] + table[1..]
    else [table[0]] + Put(table[1..], key, slot)
  }

  function Swept(table: seq<Entry>, now: int, windowMs: int, budget: int): seq<Entry> {
    if table == [] || budget <= 0 then table
    else if Expired(table[0].slot, now, windowMs) then Swept(table[1..], now, windowMs, budget - 1)
    else [table[0]] + Swept(table[1..], now, windowMs, budget - 1)
  }

  /** No key has two windows. */
  predicate OnePerKey(table: seq<Entry>) {
    table == [] || (Get(table[1..], table[0].key).None? && OnePerKey(table[1..]))
  }

  /** The table a call looks its key up in. */
  function Reclaimed(cfg: Config, table: seq<Entry>, now: int): seq<Entry> {
    if |table| >= cfg.sweepThreshold then Swept(table, now, cfg.windowMs, cfg.sweepBudget) else table
  }

  /** The table and the answer after the lookup. */
  function Decide(t: seq<Entry>, c: Call, windowMs: int): (seq<Entry>, bool) {
    var slot := Get(t, c.key);
    if slot.None? || Expired(slot.value, c.now, windowMs) then (Put(t, c.key, Slot(c.now, 1)), true)
    else if slot.value.count >= c.limit then (t, false)
    else (Put(t, c.key, slot.value.(count := slot.value.count + 1)), true)
  }

  /** The table and the answer after one call. */
  function AllowStep(cfg: Config, table: seq<Entry>, c: Call): (seq<Entry>, bool) {
    Decide(Reclaimed(cfg, table, c.now), c, cfg.windowMs)
  }

  class Limiter {
    const cfg: Config
    var windows: seq<Entry>

    constructor (cfg: Config)
      ensures this.cfg == cfg && windows == []
    {
      this.cfg := cfg;
      windows := [];
    }

    method SweepExpired(now: int)
      modifies this
      ensures windows == Swept(old(windows), now, cfg.windowMs, cfg.sweepBudget)
    {
      var rest, kept, scanned := windows, [], 0;
      while rest != [] && scanned < cfg.sweepBudget
        invariant kept + Swept(rest, now, cfg.windowMs, cfg.sweepBudget - scanned)
               == Swept(old(windows), now, cfg.windowMs, cfg.sweepBudget)
        decreases |rest|
      {
        scanned := scanned + 1;
        if !Expired(rest[0].slot, now, cfg.windowMs) {
          assert kept + ([rest[0]] + Swept(rest[1..], now, cfg.windowMs, cfg.sweepBudget - scanned))
              == kept + [rest[0]] + Swept(rest[1..], now, cfg.windowMs, cfg.sweepBudget - scanned);
          kept := kept + [rest[0]];
        }
        rest := rest[1..];
      }
      windows := kept + rest;
    }

    method Allow(c: Call) returns (allowed: bool)
      modifies this
      ensures (windows, allowed) == AllowStep(cfg, old(windows), c)
    {
      if |windows| >= cfg.sweepThreshold {
        SweepExpired(c.now);
      }
      var slot := Get(windows, c.key);
      if slot.None? || Expired(slot.value, c.now, cfg.windowMs) {
        windows := Put(windows, c.key, Slot(c.now, 1));
        return true;
      }
      if slot.value.count >= c.limit {
        return false;
      }
      windows := Put(windows, c.key, slot.value.(count := slot.value.count + 1));
      return true;
    }
  }

  // ----- Lemmas about the table -----

  lemma {:induction false} GetPut(table: seq<Entry>, key: Key, slot: Slot, other: Key)
    ensures Get(Put(table, key, slot), other) == if other == key then Some(slot) else Get(table, other)
  {
    if table == [] {
    } else if table[0].key != key {
      GetPut(table[1..], key, slot, other);
      assert Put(table, key, slot)[1..] == Put(table[1..], key, slot);
    } else {
      assert Put(table, key, slot)[1..] == table[1..];
    }
  }

  lemma {:induction false} PutDistinct(table: seq<Entry>, key: Key, slot: Slot)
    requires OnePerKey(table)
    ensures OnePerKey(Put(table, key, slot))
  {
    if table == [] {
    } else if table[0].key != key {
      PutDistinct(table[1..], key, slot);
      GetPut(table[1..], key, slot, table[0].key);
      assert Put(table, key, slot)[1..] == Put(table[1..], key, slot);
    } else {
      assert Put(table, key, slot)[1..] == table[1..];
    }
  }

  /** A sweep drops nothing but expired windows. */
  lemma {:induction false} GetSwept(table: seq<Entry>, now: int, windowMs: int, budget: int, key: Key)
    requires OnePerKey(table)
    ensures var swept := Get(Swept(table, now, windowMs, budget), key);
      || swept == Get(table, key)
      || (swept.None? && Get(table, key).Some? && Expired(Get(table, key).value, now, windowMs))
  {
    if table == [] || budget == 0 {
    } else {
      GetSwept(table[1..], now, windowMs, budget - 1, key);
      if !Expired(table[0].slot, now, windowMs) {
        assert Swept(table, now, windowMs, budget)[1..] == Swept(table[1..], now, windowMs, budget - 1);
      }
    }
  }

  lemma {:induction false} SweptDistinct(table: seq<Entry>, now: int, windowMs: int, budget: int)
    requires OnePerKey(table)
    ensures OnePerKey(Swept(table, now, windowMs, budget))
  {
    if table == [] || budget == 0 {
    } else {
      SweptDistinct(table[1..], now, windowMs, budget - 1);
      if !Expired(table[0].slot, now, windowMs) {
        GetSwept(table[1..], now, windowMs, budget - 1, table[0].key);
        assert Swept(table, now, windowMs, budget)[1..] == Swept(table[1..], now, windowMs, budget - 1);
      }
    }
  }

  /**
   Which windows a sweep drops: exactly the expired ones among the first
   `budget`. Entry i is dropped iff it is expired and i < budget.
   */
  lemma {:induction false} SweptExactly(table: seq<Entry>, now: int, windowMs: int, budget: int, i: nat)
    requires OnePerKey(table) && i < |table|
    ensures Get(Swept(table, now, windowMs, budget), table[i].key).None?
        <==> i < budget && Expired(table[i].slot, now, windowMs)
  {
    GetAt(table, i);
    if budget > 0 {
      var rest := Swept(table[1..], now, windowMs, budget - 1);
      if !Expired(table[0].slot, now, windowMs) {
        assert Swept(table, now, windowMs, budget)[1..] == rest;
      }
      if i == 0 {
        GetSwept(table[1..], now, windowMs, budget - 1, table[0].key);
      } else {
        SweptExactly(table[1..], now, windowMs, budget - 1, i - 1);
        assert table[1..][i - 1] == table[i];
        GetAt(table[1..], i - 1);
      }
    }
  }

  lemma {:induction false} GetAt(table: seq<Entry>, i: nat)
    requires OnePerKey(table) && i < |table|
    ensures Get(table, table[i].key) == Some(table[i].slot)
  {
    if i == 0 {
    } else {
      GetAt(table[1..], i - 1);
      assert table[1..][i - 1] == table[i];
    }
  }

  /**
   What a call does to the windows of the other keys: nothing while the table is below
   the threshold, and from there on it drops those that are over among the first
   `sweepBudget`.
   */
  lemma {:induction false} OthersExactly(cfg: Config, table: seq<Entry>, c: Call, i: nat)
    requires OnePerKey(table) && i < |table| && table[i].key != c.key
    ensures Get(AllowStep(cfg, table, c).0, table[i].key)
         == if |table| >= cfg.sweepThreshold && i < cfg.sweepBudget && c.now - table[i].slot.windowStart >= cfg.windowMs
            then None
            else Some(table[i].slot)
  {
    OtherKept(Reclaimed(cfg, table, c.now), c, cfg.windowMs, table[i].key);
    GetAt(table, i);
    GetSwept(table, c.now, cfg.windowMs, cfg.sweepBudget, table[i].key);
    SweptExactly(table, c.now, cfg.windowMs, cfg.sweepBudget, i);
  }

  lemma {:induction false} OtherKept(table: seq<Entry>, c: Call, windowMs: int, key: Key)
    requires key != c.key
    ensures Get(Decide(table, c, windowMs).0, key) == Get(table, key)
  {
    forall slot: Slot ensures Get(Put(table, c.key, slot), key) == Get(table, key) {
      GetPut(table, c.key, slot, key);
    }
  }

  ghost function Keys(table: seq<Entry>): seq<Key> {
    seq(|table|, i requires 0 <= i < |table| => table[i].key)
  }

  /** The keys a sweep leaves, in their order: those behind the first `budget`, and those whose window is not over. */
  ghost function KeptKeys(table: seq<Entry>, now: int, windowMs: int, budget: int): seq<Key> {
    if table == [] then []
    else
      var rest := KeptKeys(table[1..], now, windowMs, budget - 1);
      if budget > 0 && now - table[0].slot.windowStart >= windowMs then rest else [table[0].key] + rest
  }

  lemma {:induction false} SweptOrder(table: seq<Entry>, now: int, windowMs: int, budget: int)
    ensures Keys(Swept(table, now, windowMs, budget)) == KeptKeys(table, now, windowMs, budget)
  {
    if table == [] {
    } else {
      var rest := Swept(table[1..], now, windowMs, budget - 1);
      SweptOrder(table[1..], now, windowMs, budget - 1);
      assert Keys([table[0]] + rest) == [table[0].key] + Keys(rest);
      if budget <= 0 { assert rest == table[1..] && table == [table[0]] + rest; }
    }
  }

  /** A key that has a window keeps its place, and a new one goes last. */
  lemma {:induction false} PutOrder(table: seq<Entry>, key: Key, slot: Slot)
    ensures Keys(Put(table, key, slot)) == if key in Keys(table) then Keys(table) else Keys(table) + [key]
  {
    if table == [] {
    } else {
      var rest := Put(table[1..], key, slot);
      PutOrder(table[1..], key, slot);
      assert Keys(table) == [table[0].key] + Keys(table[1..]);
      assert Keys([table[0]] + rest) == [table[0].key] + Keys(rest);
      if table[0].key == key { assert Keys(Put(table, key, slot)) == Keys(table); }
    }
  }

  // ----- The unswept limiter, one key at a time -----

  /** A key's window and the answer after one call of that key. */
  function Judge(slot: Option<Slot>, c: Call, windowMs: int): (Slot, bool) {
    if slot.None? || Expired(slot.value, c.now, windowMs) then (Slot(c.now, 1), true)
    else if slot.value.count >= c.limit then (slot.value, false)
    else (slot.value.(count := slot.value.count + 1), true)
  }

  /** The window of `key` after the calls, had nothing been swept; only the key's own calls matter. */
  ghost function SlotAfter(calls: seq<Call>, key: Key, windowMs: int): Option<Slot> {
    if calls == [] then None
    else
      var n := |calls| - 1;
      var before := SlotAfter(calls[..n], key, windowMs);
      if calls[n].key == key then Some(Judge(before, calls[n], windowMs).0) else before
  }

  ghost predicate Monotone(calls: seq<Call>) {
    forall i, j :: 0 <= i <= j < |calls| ==> calls[i].now <= calls[j].now
  }

  ghost function TableAfter(cfg: Config, calls: seq<Call>): seq<Entry> {
    if calls == [] then []
    else
      var n := |calls| - 1;
      AllowStep(cfg, TableAfter(cfg, calls[..n]), calls[n]).0
  }

  /** What the limiter answers to call i of a run. */
  ghost function Answer(cfg: Config, calls: seq<Call>, i: nat): bool
    requires i < |calls|
  {
    AllowStep(cfg, TableAfter(cfg, calls[..i]), calls[i]).1
  }

  /** The swept table agrees with the unswept window, or has lost it after it expired. */
  ghost predicate Agrees(got: Option<Slot>, slot: Option<Slot>, now: int, windowMs: int) {
    got == slot || (got.None? && slot.Some? && Expired(slot.value, now, windowMs))
  }

  /** A window that opened at call i is over at the later call j. */
  ghost predicate OverAt(calls: seq<Call>, windowMs: int, i: int, j: int) {
    0 <= i < j < |calls| && calls[j].now - calls[i].now >= windowMs
  }

  /** No window that is over at some call is open again at a later one. */
  ghost predicate Steady(calls: seq<Call>, windowMs: int) {
    forall i, j, k :: OverAt(calls, windowMs, i, j) && j < k < |calls| ==> OverAt(calls, windowMs, i, k)
  }

  lemma {:induction false} MonotoneSteady(calls: seq<Call>, windowMs: int)
    requires Monotone(calls)
    ensures Steady(calls, windowMs)
  {
    forall i, j, k | OverAt(calls, windowMs, i, j) && j < k < |calls| ensures OverAt(calls, windowMs, i, k) {
      assert calls[j].now <= calls[k].now;
    }
  }

  /** What the table shows of a key's window: the window, or nothing once it was over at some call. */
  ghost predicate Shows(got: Option<Slot>, slot: Option<Slot>, calls: seq<Call>, windowMs: int) {
    || got == slot
    || (got.None? && slot.Some?
        && exists i, j :: OverAt(calls, windowMs, i, j) && slot.value.windowStart == calls[i].now)
  }

  /** A window opened at one of the calls. */
  lemma {:induction false} OpenedAtCall(calls: seq<Call>, key: Key, windowMs: int)
    requires SlotAfter(calls, key, windowMs).Some?
    ensures exists i :: 0 <= i < |calls| && calls[i].now == SlotAfter(calls, key, windowMs).value.windowStart
  {
    var n := |calls| - 1;
    var before := SlotAfter(calls[..n], key, windowMs);
    if before.Some? {
      OpenedAtCall(calls[..n], key, windowMs);
      var i :| 0 <= i < n && calls[..n][i].now == before.value.windowStart;
      assert calls[i].now == before.value.windowStart;
    }
    assert calls[n].now == calls[n].now;
  }

  lemma {:induction false} DecideAgrees(t: seq<Entry>, c: Call, windowMs: int, slot: Option<Slot>)
    requires Agrees(Get(t, c.key), slot, c.now, windowMs)
    ensures var (t', answer) := Decide(t, c, windowMs);
      (Get(t', c.key), answer) == (Some(Judge(slot, c, windowMs).0), Judge(slot, c, windowMs).1)
  {
    GetPut(t, c.key, Slot(c.now, 1), c.key);
    if slot.Some? { GetPut(t, c.key, slot.value.(count := slot.value.count + 1), c.key); }
  }

  lemma {:induction false} DecideElsewhere(t: seq<Entry>, c: Call, windowMs: int, key: Key)
    requires c.key != key
    ensures Get(Decide(t, c, windowMs).0, key) == Get(t, key)
  {
    GetPut(t, c.key, Slot(c.now, 1), key);
    var slot := Get(t, c.key);
    if slot.Some? { GetPut(t, c.key, slot.value.(count := slot.value.count + 1), key); }
  }

  lemma {:induction false} ReclaimedAgrees(cfg: Config, table: seq<Entry>, now: int, key: Key, slot: Option<Slot>)
    requires OnePerKey(table) && Agrees(Get(table, key), slot, now, cfg.windowMs)
    ensures Agrees(Get(Reclaimed(cfg, table, now), key), slot, now, cfg.windowMs)
  {
    GetSwept(table, now, cfg.windowMs, cfg.sweepBudget, key);
  }

  lemma {:induction false} StepDistinct(cfg: Config, table: seq<Entry>, c: Call)
    requires OnePerKey(table)
    ensures OnePerKey(AllowStep(cfg, table, c).0)
  {
    SweptDistinct(table, c.now, cfg.windowMs, cfg.sweepBudget);
    var t := Reclaimed(cfg, table, c.now);
    PutDistinct(t, c.key, Slot(c.now, 1));
    if Get(t, c.key).Some? {
      PutDistinct(t, c.key, Get(t, c.key).value.(count := Get(t, c.key).value.count + 1));
    }
  }

  lemma {:induction false} TableDistinct(cfg: Config, calls: seq<Call>)
    ensures OnePerKey(TableAfter(cfg, calls))
  {
    if calls == [] {
    } else {
      TableDistinct(cfg, calls[..|calls| - 1]);
      StepDistinct(cfg, TableAfter(cfg, calls[..|calls| - 1]), calls[|calls| - 1]);
    }
  }

  lemma {:induction false} ShowsLonger(got: Option<Slot>, slot: Option<Slot>, calls: seq<Call>, n: nat, windowMs: int)
    requires n <= |calls| && Shows(got, slot, calls[..n], windowMs)
    ensures Shows(got, slot, calls, windowMs)
  {
    if got != slot {
      var i, j :| OverAt(calls[..n], windowMs, i, j) && slot.value.windowStart == calls[..n][i].now;
      assert OverAt(calls, windowMs, i, j) && slot.value.windowStart == calls[i].now;
    }
  }

  /** In a steady run what the table shows at the next call agrees with the window. */
  lemma {:induction false} ShownAgrees(got: Option<Slot>, slot: Option<Slot>, calls: seq<Call>, n: nat, windowMs: int)
    requires n < |calls| && Steady(calls, windowMs) && Shows(got, slot, calls[..n], windowMs)
    ensures Agrees(got, slot, calls[n].now, windowMs)
  {
    if got != slot {
      var i, j :| OverAt(calls[..n], windowMs, i, j) && slot.value.windowStart == calls[..n][i].now;
      assert OverAt(calls, windowMs, i, j);
      assert OverAt(calls, windowMs, i, n);
    }
  }

  /** A sweep at call n hides only windows that are over by then. */
  lemma {:induction false} SweepShows(cfg: Config, calls: seq<Call>, n: nat, key: Key)
    requires n < |calls|
    requires Shows(Get(TableAfter(cfg, calls[..n]), key), SlotAfter(calls[..n], key, cfg.windowMs),
                   calls[..n], cfg.windowMs)
    ensures Shows(Get(Reclaimed(cfg, TableAfter(cfg, calls[..n]), calls[n].now), key),
                  SlotAfter(calls[..n], key, cfg.windowMs), calls[..n + 1], cfg.windowMs)
  {
    var table, slot := TableAfter(cfg, calls[..n]), SlotAfter(calls[..n], key, cfg.windowMs);
    TableDistinct(cfg, calls[..n]);
    GetSwept(table, calls[n].now, cfg.windowMs, cfg.sweepBudget, key);
    assert calls[..n + 1][..n] == calls[..n];
    ShowsLonger(Get(table, key), slot, calls[..n + 1], n, cfg.windowMs);
    var got := Get(Reclaimed(cfg, table, calls[n].now), key);
    if got != Get(table, key) {
      OpenedAtCall(calls[..n], key, cfg.windowMs);
      var i :| 0 <= i < n && calls[..n][i].now == slot.value.windowStart;
      assert OverAt(calls[..n + 1], cfg.windowMs, i, n);
    }
  }

  lemma {:induction false} TableShows(cfg: Config, calls: seq<Call>, n: nat, key: Key)
    requires Steady(calls, cfg.windowMs) && n <= |calls|
    ensures Shows(Get(TableAfter(cfg, calls[..n]), key), SlotAfter(calls[..n], key, cfg.windowMs),
                  calls[..n], cfg.windowMs)
  {
    if n == 0 {
    } else {
      var m := n - 1;
      var before := calls[..m];
      assert calls[..n][..m] == before;
      TableShows(cfg, calls, m, key);
      SweepShows(cfg, calls, m, key);
      var t, slot := Reclaimed(cfg, TableAfter(cfg, before), calls[m].now), SlotAfter(before, key, cfg.windowMs);
      if calls[m].key == key {
        SweptAnswer(cfg, calls, m);
        DecideAgrees(t, calls[m], cfg.windowMs, slot);
      } else {
        DecideElsewhere(t, calls[m], cfg.windowMs, key);
      }
    }
  }

  /** At a call of its key, a swept table agrees with the unswept window. */
  lemma {:induction false} SweptAnswer(cfg: Config, calls: seq<Call>, n: nat)
    requires Steady(calls, cfg.windowMs) && n < |calls|
    requires Shows(Get(TableAfter(cfg, calls[..n]), calls[n].key),
                   SlotAfter(calls[..n], calls[n].key, cfg.windowMs), calls[..n], cfg.windowMs)
    ensures Agrees(Get(Reclaimed(cfg, TableAfter(cfg, calls[..n]), calls[n].now), calls[n].key),
                   SlotAfter(calls[..n], calls[n].key, cfg.windowMs), calls[n].now, cfg.windowMs)
  {
    var table, slot := TableAfter(cfg, calls[..n]), SlotAfter(calls[..n], calls[n].key, cfg.windowMs);
    ShownAgrees(Get(table, calls[n].key), slot, calls, n, cfg.windowMs);
    TableDistinct(cfg, calls[..n]);
    ReclaimedAgrees(cfg, table, calls[n].now, calls[n].key, slot);
  }

  ghost function UnsweptAnswer(calls: seq<Call>, i: nat, windowMs: int): bool
    requires i < |calls|
  {
    Judge(SlotAfter(calls[..i], calls[i].key, windowMs), calls[i], windowMs).1
  }

  /**
   Sweeping changes no answer, and keys do not affect each other: in a steady
   run, and so whenever the clock does not go back, every answer is that of the
   key's own window, for every threshold and every budget.
   */
  lemma {:induction false} SweepRefines(cfg: Config, calls: seq<Call>, i: nat)
    requires Steady(calls, cfg.windowMs) && i < |calls|
    ensures Answer(cfg, calls, i) == UnsweptAnswer(calls, i, cfg.windowMs)
  {
    TableShows(cfg, calls, i, calls[i].key);
    SweptAnswer(cfg, calls, i);
    var table, slot := TableAfter(cfg, calls[..i]), SlotAfter(calls[..i], calls[i].key, cfg.windowMs);
    DecideAgrees(Reclaimed(cfg, table, calls[i].now), calls[i], cfg.windowMs, slot);
  }

  // ----- Which clocks a sweep needs -----

  /** The calls come at these times. */
  ghost predicate AtTimes(calls: seq<Call>, times: seq<int>) {
    |calls| == |times| && forall i :: 0 <= i < |times| ==> calls[i].now == times[i]
  }

  /** At these times no sweep setting ever changes an answer, whatever the keys and limits. */
  ghost predicate SweepSafe(times: seq<int>, windowMs: int) {
    forall threshold: int, budget: int, calls: seq<Call>, i: nat :: AtTimes(calls, times) && i < |calls| ==>
      Answer(Config(windowMs, threshold, budget), calls, i) == UnsweptAnswer(calls, i, windowMs)
  }

  /** No window that is over at one of the times is open again at a later one. */
  ghost predicate SteadyTimes(times: seq<int>, windowMs: int) {
    forall i, j, k :: 0 <= i < j < k < |times| && times[j] - times[i] >= windowMs ==> times[k] - times[i] >= windowMs
  }

  /** Calls i and k are of one key, all others of another; each asks for a limit of one. */
  ghost function TwoKeys(times: seq<int>, i: nat, k: nat): (calls: seq<Call>)
    ensures AtTimes(calls, times)
  {
    seq(|times|, n requires 0 <= n < |times| => Call(if n == i || n == k then "a" else "b", 1, times[n]))
  }

  lemma {:induction false} SweptGone(table: seq<Entry>, now: int, windowMs: int, budget: int, key: Key)
    requires OnePerKey(table) && |table| <= budget
    ensures Get(Swept(table, now, windowMs, budget), key)
         == if Get(table, key).Some? && Expired(Get(table, key).value, now, windowMs) then None else Get(table, key)
  {
    if table == [] {
    } else {
      SweptGone(table[1..], now, windowMs, budget - 1, key);
      if !Expired(table[0].slot, now, windowMs) {
        assert Swept(table, now, windowMs, budget)[1..] == Swept(table[1..], now, windowMs, budget - 1);
      }
    }
  }

  lemma {:induction false} TableSmall(cfg: Config, calls: seq<Call>)
    ensures |TableAfter(cfg, calls)| <= |calls|
  {
    if calls == [] {
    } else {
      var n := |calls| - 1;
      TableSmall(cfg, calls[..n]);
      StepSmall(cfg, TableAfter(cfg, calls[..n]), calls[n]);
    }
  }

  lemma {:induction false} StepSmall(cfg: Config, table: seq<Entry>, c: Call)
    ensures |AllowStep(cfg, table, c).0| <= |table| + 1
  {
    SweptSmall(table, c.now, cfg.windowMs, cfg.sweepBudget);
    var t := Reclaimed(cfg, table, c.now);
    PutSmall(t, c.key, Slot(c.now, 1));
    if Get(t, c.key).Some? { PutSmall(t, c.key, Get(t, c.key).value.(count := Get(t, c.key).value.count + 1)); }
  }

  lemma {:induction false} SweptSmall(table: seq<Entry>, now: int, windowMs: int, budget: int)
    ensures |Swept(table, now, windowMs, budget)| <= |table|
  {
    if table == [] || budget <= 0 {
    } else {
      SweptSmall(table[1..], now, windowMs, budget - 1);
    }
  }

  lemma {:induction false} PutSmall(table: seq<Entry>, key: Key, slot: Slot)
    ensures |Put(table, key, slot)| <= |table| + 1
  {
    if table == [] || table[0].key == key {
    } else {
      PutSmall(table[1..], key, slot);
    }
  }

  /** The table and the unswept window after one more call. */
  lemma {:induction false} OneMoreCall(cfg: Config, calls: seq<Call>, m: nat, n: nat, key: Key)
    requires n == m + 1 <= |calls|
    ensures TableAfter(cfg, calls[..n])
         == Decide(Reclaimed(cfg, TableAfter(cfg, calls[..m]), calls[m].now), calls[m], cfg.windowMs).0
    ensures SlotAfter(calls[..n], key, cfg.windowMs)
         == if calls[m].key == key then Some(Judge(SlotAfter(calls[..m], key, cfg.windowMs), calls[m], cfg.windowMs).0)
            else SlotAfter(calls[..m], key, cfg.windowMs)
  {
    assert calls[..n][..m] == calls[..m] && calls[..n][m] == calls[m];
  }

  /** The first call's window is kept unswept, and is gone from the table once it is over. */
  ghost predicate OpenOrSwept(first: Slot, over: bool, slot: Option<Slot>, got: Option<Slot>) {
    slot == Some(first) && (got == slot || got.None?) && (over ==> got.None?)
  }

  lemma {:induction false} FirstCallOpens(cfg: Config, calls: seq<Call>, m: nat, n: nat, key: Key)
    requires n == m + 1 <= |calls| && calls[m].key == key && cfg.sweepThreshold == 0
    requires SlotAfter(calls[..m], key, cfg.windowMs).None? && Get(TableAfter(cfg, calls[..m]), key).None?
    ensures OpenOrSwept(Slot(calls[m].now, 1), false, SlotAfter(calls[..n], key, cfg.windowMs),
                        Get(TableAfter(cfg, calls[..n]), key))
  {
    var table := TableAfter(cfg, calls[..m]);
    OneMoreCall(cfg, calls, m, n, key);
    TableDistinct(cfg, calls[..m]);
    GetSwept(table, calls[m].now, cfg.windowMs, cfg.sweepBudget, key);
    GetPut(Reclaimed(cfg, table, calls[m].now), key, Slot(calls[m].now, 1), key);
  }

  lemma {:induction false} OtherCallSweeps(cfg: Config, calls: seq<Call>, m: nat, n: nat, key: Key, first: Slot,
                                           over: bool)
    requires n == m + 1 <= |calls| && calls[m].key != key && cfg.sweepThreshold == 0 && |calls| <= cfg.sweepBudget
    requires OpenOrSwept(first, over, SlotAfter(calls[..m], key, cfg.windowMs), Get(TableAfter(cfg, calls[..m]), key))
    ensures OpenOrSwept(first, over || Expired(first, calls[m].now, cfg.windowMs),
                        SlotAfter(calls[..n], key, cfg.windowMs), Get(TableAfter(cfg, calls[..n]), key))
  {
    var table := TableAfter(cfg, calls[..m]);
    OneMoreCall(cfg, calls, m, n, key);
    TableDistinct(cfg, calls[..m]);
    TableSmall(cfg, calls[..m]);
    SweptGone(table, calls[m].now, cfg.windowMs, cfg.sweepBudget, key);
    DecideElsewhere(Reclaimed(cfg, table, calls[m].now), calls[m], cfg.windowMs, key);
  }

  /** Between its two calls the first key's window is kept unswept, and swept away once it is over. */
  lemma {:induction false} SweptBetween(times: seq<int>, windowMs: int, i: nat, j: nat, k: nat, n: nat)
    requires i < j < k < |times| && times[j] - times[i] >= windowMs && i < n <= k
    ensures var calls, cfg := TwoKeys(times, i, k), Config(windowMs, 0, |times|);
      OpenOrSwept(Slot(times[i], 1), j < n, SlotAfter(calls[..n], "a", windowMs), Get(TableAfter(cfg, calls[..n]), "a"))
    decreases n
  {
    var calls, cfg, m := TwoKeys(times, i, k), Config(windowMs, 0, |times|), n - 1;
    if m == i {
      NotYet(times, windowMs, i, k, i);
      FirstCallOpens(cfg, calls, m, n, "a");
    } else {
      SweptBetween(times, windowMs, i, j, k, m);
      OtherCallSweeps(cfg, calls, m, n, "a", Slot(times[i], 1), j < m);
    }
  }

  /** Before its first call a key has no window. */
  lemma {:induction false} NotYet(times: seq<int>, windowMs: int, i: nat, k: nat, n: nat)
    requires i < k < |times| && n <= i
    ensures var calls, cfg := TwoKeys(times, i, k), Config(windowMs, 0, |times|);
      SlotAfter(calls[..n], "a", windowMs).None? && Get(TableAfter(cfg, calls[..n]), "a").None?
  {
    var calls, cfg := TwoKeys(times, i, k), Config(windowMs, 0, |times|);
    if n == 0 {
    } else {
      NotYet(times, windowMs, i, k, n - 1);
      assert calls[..n][..n - 1] == calls[..n - 1];
      var table := TableAfter(cfg, calls[..n - 1]);
      TableDistinct(cfg, calls[..n - 1]);
      GetSwept(table, calls[n - 1].now, windowMs, |times|, "a");
      DecideElsewhere(Reclaimed(cfg, table, calls[n - 1].now), calls[n - 1], windowMs, "a");
    }
  }

  /** A window that is over and then open again: a sweep in between admits a call that the unswept limiter refuses. */
  lemma {:induction false} SweepChangesAnswer(times: seq<int>, windowMs: int, i: nat, j: nat, k: nat)
    requires i < j < k < |times| && times[j] - times[i] >= windowMs > times[k] - times[i]
    ensures var calls := TwoKeys(times, i, k);
      Answer(Config(windowMs, 0, |times|), calls, k) && !UnsweptAnswer(calls, k, windowMs)
  {
    var calls, cfg := TwoKeys(times, i, k), Config(windowMs, 0, |times|);
    SweptBetween(times, windowMs, i, j, k, k);
    TableDistinct(cfg, calls[..k]);
    GetSwept(TableAfter(cfg, calls[..k]), calls[k].now, windowMs, |times|, "a");
  }

  /**
   The clocks for which sweeping is invisible: exactly those on which no window
   that is over at one call is open again at a later one.
   */
  lemma {:induction false} SweepNeedsSteady(times: seq<int>, windowMs: int)
    ensures SweepSafe(times, windowMs) <==> SteadyTimes(times, windowMs)
  {
    if SteadyTimes(times, windowMs) {
      forall threshold: int, budget: int, calls: seq<Call>, i: nat | AtTimes(calls, times) && i < |calls|
        ensures Answer(Config(windowMs, threshold, budget), calls, i) == UnsweptAnswer(calls, i, windowMs)
      {
        assert Steady(calls, windowMs);
        SweepRefines(Config(windowMs, threshold, budget), calls, i);
      }
    } else {
      var i, j, k :| 0 <= i < j < k < |times| && times[j] - times[i] >= windowMs && times[k] - times[i] < windowMs;
      SweepChangesAnswer(times, windowMs, i, j, k);
      assert AtTimes(TwoKeys(times, i, k), times);
    }
  }

  // ----- How many calls are admitted -----

  /** A window always admits the call that opens it, so a limit below one counts as one. */
  function Effective(limit: int): nat {
    if limit < 1 then 1 else limit
  }

  ghost predicate LimitAtMost(calls: seq<Call>, key: Key, limit: int) {
    forall i :: 0 <= i < |calls| && calls[i].key == key ==> calls[i].limit <= limit
  }

  /** How many calls of `key` at times from <= t < to are admitted. */
  ghost function Admitted(calls: seq<Call>, key: Key, windowMs: int, from: int, to: int): nat {
    if calls == [] then 0
    else
      var n := |calls| - 1;
      Admitted(calls[..n], key, windowMs, from, to)
      + if calls[n].key == key && from <= calls[n].now < to && UnsweptAnswer(calls, n, windowMs) then 1 else 0
  }

  /** Only one window opens in an interval of one window length, so at most one is cut by its start. */
  ghost predicate IntervalInv(slot: Option<Slot>, admitted: nat, from: int, to: int, m: nat) {
    if slot.None? then admitted == 0
    else if slot.value.windowStart < from then 1 <= slot.value.count <= m && admitted + 1 <= slot.value.count
    else if slot.value.windowStart < to then 1 <= slot.value.count <= m && admitted + 1 <= m + slot.value.count
    else 1 <= slot.value.count <= m && admitted <= 2 * m - 1
  }

  lemma {:induction false} BeforeInterval(calls: seq<Call>, key: Key, windowMs: int, from: int, to: int)
    requires forall i :: 0 <= i < |calls| ==> calls[i].now < from
    ensures Admitted(calls, key, windowMs, from, to) == 0
  {
    if calls == [] {
    } else {
      BeforeInterval(calls[..|calls| - 1], key, windowMs, from, to);
    }
  }

  lemma {:induction false} SlotStarted(calls: seq<Call>, key: Key, windowMs: int, now: int)
    requires forall i :: 0 <= i < |calls| ==> calls[i].now <= now
    ensures var slot := SlotAfter(calls, key, windowMs); slot.Some? ==> slot.value.windowStart <= now
  {
    if calls == [] {
    } else {
      SlotStarted(calls[..|calls| - 1], key, windowMs, now);
    }
  }

  lemma {:induction false} IntervalKept(calls: seq<Call>, key: Key, limit: int, windowMs: int, from: int)
    requires windowMs > 0 && Monotone(calls) && LimitAtMost(calls, key, limit)
    ensures IntervalInv(SlotAfter(calls, key, windowMs), Admitted(calls, key, windowMs, from, from + windowMs),
                        from, from + windowMs, Effective(limit))
  {
    if calls == [] {
    } else {
      var n := |calls| - 1;
      IntervalKept(calls[..n], key, limit, windowMs, from);
      SlotStarted(calls[..n], key, windowMs, calls[n].now);
      if calls[n].now < from { BeforeInterval(calls[..n], key, windowMs, from, from + windowMs); }
    }
  }

  ghost function AdmittedBy(cfg: Config, calls: seq<Call>, key: Key, from: int, to: int, upto: nat): nat
    requires upto <= |calls|
  {
    if upto == 0 then 0
    else
      AdmittedBy(cfg, calls, key, from, to, upto - 1)
      + if calls[upto - 1].key == key && from <= calls[upto - 1].now < to && Answer(cfg, calls, upto - 1) then 1 else 0
  }

  lemma {:induction false} AdmittedAlike(cfg: Config, calls: seq<Call>, key: Key, from: int, to: int, upto: nat)
    requires Monotone(calls) && upto <= |calls|
    ensures AdmittedBy(cfg, calls, key, from, to, upto) == Admitted(calls[..upto], key, cfg.windowMs, from, to)
  {
    if upto == 0 {
    } else {
      AdmittedAlike(cfg, calls, key, from, to, upto - 1);
      MonotoneSteady(calls, cfg.windowMs);
      SweepRefines(cfg, calls, upto - 1);
      assert calls[..upto][..upto - 1] == calls[..upto - 1];
    }
  }

  /**
   In every run, under every sweep setting, no interval as long as a window
   admits a key more than 2m - 1 times, where m is the largest limit asked for
   that key (at least one).
   */
  lemma {:induction false} IntervalBound(cfg: Config, calls: seq<Call>, key: Key, limit: int, from: int)
    requires cfg.windowMs > 0 && Monotone(calls) && LimitAtMost(calls, key, limit)
    ensures AdmittedBy(cfg, calls, key, from, from + cfg.windowMs, |calls|) <= 2 * Effective(limit) - 1
  {
    AdmittedAlike(cfg, calls, key, from, from + cfg.windowMs, |calls|);
    assert calls[..|calls|] == calls;
    IntervalKept(calls, key, limit, cfg.windowMs, from);
  }

  // ----- Within one window -----

  ghost function CallsOf(calls: seq<Call>, key: Key, lo: nat, hi: nat): nat
    requires lo <= hi <= |calls|
    decreases hi
  {
    if lo == hi then 0 else CallsOf(calls, key, lo, hi - 1) + if calls[hi - 1].key == key then 1 else 0
  }

  /** Call i opens a window: the key has none, or an expired one. */
  ghost predicate Opens(calls: seq<Call>, i: nat, windowMs: int)
    requires i < |calls|
  {
    var slot := SlotAfter(calls[..i], calls[i].key, windowMs);
    slot.None? || Expired(slot.value, calls[i].now, windowMs)
  }

  ghost predicate ConstantLimit(calls: seq<Call>, key: Key, limit: int) {
    forall i :: 0 <= i < |calls| && calls[i].key == key ==> calls[i].limit == limit
  }

  lemma {:induction false} WindowSlot(calls: seq<Call>, i: nat, j: nat, limit: int, windowMs: int)
    requires i < j <= |calls| && windowMs > 0 && ConstantLimit(calls, calls[i].key, limit)
    requires Opens(calls, i, windowMs) && Monotone(calls) && calls[j - 1].now - calls[i].now < windowMs
    ensures var k := CallsOf(calls, calls[i].key, i, j);
      1 <= k && SlotAfter(calls[..j], calls[i].key, windowMs)
      == Some(Slot(calls[i].now, if k <= Effective(limit) then k else Effective(limit)))
    decreases j
  {
    assert calls[..j][..j - 1] == calls[..j - 1];
    if j > i + 1 {
      WindowSlot(calls, i, j - 1, limit, windowMs);
    } else {
      assert CallsOf(calls, calls[i].key, i, i) == 0;
    }
  }

  /**
   In the window that call i opens, a key asked with a constant limit is
   admitted exactly on its first max(1, limit) calls.
   */
  lemma {:induction false} WindowExact(cfg: Config, calls: seq<Call>, i: nat, j: nat, limit: int)
    requires i <= j < |calls| && cfg.windowMs > 0 && calls[j].key == calls[i].key
    requires ConstantLimit(calls, calls[i].key, limit) && Monotone(calls)
    requires Opens(calls, i, cfg.windowMs) && calls[j].now - calls[i].now < cfg.windowMs
    ensures Answer(cfg, calls, j) <==> CallsOf(calls, calls[i].key, i, j) < Effective(limit)
  {
    MonotoneSteady(calls, cfg.windowMs);
    SweepRefines(cfg, calls, j);
    if i < j {
      WindowSlot(calls, i, j, limit, cfg.windowMs);
    }
  }

  // ----- The interval bound is reached -----

  /** `m` calls of one key at one moment. */
  ghost function Burst(key: Key, limit: int, now: int, m: nat): seq<Call> {
    if m == 0 then [] else [Call(key, limit, now)] + Burst(key, limit, now, m - 1)
  }

  /** After the calls the key's window is `slot`, and `admitted` of its calls in the interval were admitted. */
  ghost predicate Standing(calls: seq<Call>, key: Key, windowMs: int, from: int, to: int, slot: Slot, admitted: nat) {
    SlotAfter(calls, key, windowMs) == Some(slot) && Admitted(calls, key, windowMs, from, to) == admitted
  }

  lemma {:induction false} FirstStands(c: Call, windowMs: int, from: int, to: int)
    requires c.now < from
    ensures Standing([c], c.key, windowMs, from, to, Slot(c.now, 1), 0)
  {
    var none: seq<Call> := [];
    assert [c][..0] == none && Admitted(none, c.key, windowMs, from, to) == 0;
    assert SlotAfter(none, c.key, windowMs) == None;
  }

  /** A call that opens a window inside the interval. */
  lemma {:induction false} OpeningStands(calls: seq<Call>, c: Call, windowMs: int, from: int, to: int, slot: Slot,
                                         admitted: nat)
    requires Standing(calls, c.key, windowMs, from, to, slot, admitted)
    requires Expired(slot, c.now, windowMs) && from <= c.now < to
    ensures Standing(calls + [c], c.key, windowMs, from, to, Slot(c.now, 1), admitted + 1)
  {
    assert (calls + [c])[..|calls|] == calls;
  }

  lemma {:induction false} CallStands(calls: seq<Call>, c: Call, windowMs: int, from: int, to: int, slot: Slot,
                                      admitted: nat)
    requires Standing(calls, c.key, windowMs, from, to, slot, admitted)
    requires !Expired(slot, c.now, windowMs) && slot.count < c.limit && from <= c.now < to
    ensures Standing(calls + [c], c.key, windowMs, from, to, slot.(count := slot.count + 1), admitted + 1)
  {
    assert (calls + [c])[..|calls|] == calls;
  }

  /** A burst inside an open window with room for all of it is admitted whole. */
  lemma {:induction false} BurstStands(calls: seq<Call>, c: Call, m: nat, windowMs: int, from: int, to: int,
                                       slot: Slot, admitted: nat)
    requires Standing(calls, c.key, windowMs, from, to, slot, admitted)
    requires !Expired(slot, c.now, windowMs) && slot.count + m <= c.limit && from <= c.now < to
    ensures Standing(calls + Burst(c.key, c.limit, c.now, m), c.key, windowMs, from, to,
                     slot.(count := slot.count + m), admitted + m)
    decreases m
  {
    if m == 0 {
      assert calls + Burst(c.key, c.limit, c.now, m) == calls;
    } else {
      CallStands(calls, c, windowMs, from, to, slot, admitted);
      BurstStands(calls + [c], c, m - 1, windowMs, from, to, slot.(count := slot.count + 1), admitted + 1);
      assert calls + Burst(c.key, c.limit, c.now, m) == calls + [c] + Burst(c.key, c.limit, c.now, m - 1);
    }
  }

  ghost function TightRun(key: Key, m: nat, windowMs: int): seq<Call>
    requires m > 0
  {
    [Call(key, m, 0)] + Burst(key, m, windowMs - 1, m - 1) + [Call(key, m, windowMs)] + Burst(key, m, windowMs, m - 1)
  }

  lemma {:induction false} BurstTimes(key: Key, limit: int, now: int, m: nat)
    ensures forall i :: 0 <= i < |Burst(key, limit, now, m)| ==> Burst(key, limit, now, m)[i] == Call(key, limit, now)
  {
    if m == 0 {
    } else {
      BurstTimes(key, limit, now, m - 1);
    }
  }

  lemma {:induction false} TightRunCalls(key: Key, m: nat, windowMs: int)
    requires m > 0 && windowMs >= 2
    ensures Monotone(TightRun(key, m, windowMs)) && LimitAtMost(TightRun(key, m, windowMs), key, m)
  {
    BurstTimes(key, m, windowMs - 1, m - 1);
    BurstTimes(key, m, windowMs, m - 1);
  }

  /** For every limit m and every window of at least two ticks some run reaches 2m - 1. */
  lemma {:induction false} IntervalBoundTight(key: Key, m: nat, windowMs: int)
    requires m > 0 && windowMs >= 2
    ensures var run := TightRun(key, m, windowMs);
      && Monotone(run) && LimitAtMost(run, key, m)
      && Admitted(run, key, windowMs, windowMs - 1, 2 * windowMs - 1) == 2 * m - 1
  {
    TightRunCalls(key, m, windowMs);
    var from, to := windowMs - 1, 2 * windowMs - 1;
    var first := [Call(key, m, 0)];
    FirstStands(Call(key, m, 0), windowMs, from, to);
    BurstStands(first, Call(key, m, windowMs - 1), m - 1, windowMs, from, to, Slot(0, 1), 0);
    var second := first + Burst(key, m, windowMs - 1, m - 1);
    OpeningStands(second, Call(key, m, windowMs), windowMs, from, to, Slot(0, m), m - 1);
    var third := second + [Call(key, m, windowMs)];
    BurstStands(third, Call(key, m, windowMs), m - 1, windowMs, from, to, Slot(windowMs, 1), m);
  }
}
