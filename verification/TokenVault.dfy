/**
 The token vault over a map of token records: what each operation does to the
 map, the view that tracks its changes as a diff, and what a history of
 operations means for a single token.
 */
module TokenVault {
  import opened Options
  import opened Texts
  import opened Json
  import Canonical

  type Token = Text
  type Kind = Text
  type Plaintext = Text
  type Context = Value

  /** The data an envelope is bound to. */
  datatype Aad = Aad(token: Token, kind: Kind, context: Context)

  /** The stored ciphertext, and what it was sealed with. */
  datatype Envelope = Envelope(plaintext: Plaintext, bound: Aad, expiresAt: int)

  /** A record as it is read back: its associated data have been through JSON, while the envelope was sealed before. */
  datatype Record = Record(kind: Kind, expiresAt: int, envelope: Envelope, aad: Aad)

  type Tokens = map<Token, Record>

  /** A mutation and the token it is about; the token of `Tokenize` is derived before the store is entered. */
  datatype Ask =
    | Tokenize(token: Token, kind: Kind, plaintext: Plaintext, context: Context)
    | Purge(token: Token)
    | PurgeExpired

  datatype Reply = Tokenized(token: Token, kind: Kind, reused: bool) | Purged(existed: bool) | PurgedCount(count: nat)

  // ----- Effects -----

  predicate Overdue(r: Record, now: int) {
    r.expiresAt < now
  }

  function Pruned(tokens: Tokens, now: int): Tokens {
    map t | t in tokens && !Overdue(tokens[t], now) :: tokens[t]
  }

  /** The context of a call that may leave it out. */
  function Given(context: Context): Context {
    if context.Undefined? then Obj([]) else context
  }

  /** All but the overdue records, and those still to be looked at. */
  ghost function PrunedBut(tokens: Tokens, todo: set<Token>, now: int): Tokens {
    map t | t in tokens && (t in todo || !Overdue(tokens[t], now)) :: tokens[t]
  }

  lemma {:induction false} PrunedStep(tokens: Tokens, todo: set<Token>, t: Token, now: int)
    requires t in todo && t in tokens
    ensures PrunedBut(tokens, todo - {t}, now)
         == if Overdue(tokens[t], now) then PrunedBut(tokens, todo, now) - {t} else PrunedBut(tokens, todo, now)
  {
  }

  lemma {:induction false} PrunedEnds(tokens: Tokens, now: int)
    ensures PrunedBut(tokens, tokens.Keys, now) == tokens && PrunedBut(tokens, {}, now) == Pruned(tokens, now)
  {
  }

  lemma {:induction false} OneMoreGone(before: Tokens, tokens: Tokens, t: Token)
    requires t in before && t in tokens
    ensures |before.Keys - (tokens - {t}).Keys| == |before.Keys - tokens.Keys| + 1
  {
    assert before.Keys - (tokens - {t}).Keys == (before.Keys - tokens.Keys) + {t};
  }

  function NewRecord(ask: Ask, expiresAt: int): Record
    requires ask.Tokenize?
  {
    var aad := Aad(ask.token, ask.kind, Given(ask.context));
    Record(ask.kind, expiresAt, Envelope(ask.plaintext, aad, expiresAt), aad.(context := Canonical.Stored(aad.context)))
  }

  /** The record a `Tokenize` leaves: a live one keeps everything, its envelope included, but its expiry. */
  function Renewed(tokens: Tokens, ask: Ask, expiresAt: int): Record
    requires ask.Tokenize?
  {
    if ask.token in tokens then tokens[ask.token].(expiresAt := expiresAt) else NewRecord(ask, expiresAt)
  }

  /** The record map after one mutation at time `now`. */
  function Effect(tokens: Tokens, ask: Ask, now: int, retention: int): Tokens {
    var live := Pruned(tokens, now);
    match ask
    case Tokenize(token, _, _, _) => live[token := Renewed(live, ask, now + retention)]
    case Purge(token) => live - {token}
    case PurgeExpired => live
  }

  function ReplyTo(tokens: Tokens, ask: Ask, now: int): Reply {
    var live := Pruned(tokens, now);
    match ask
    case Tokenize(token, kind, _, _) => Tokenized(token, kind, token in live)
    case Purge(token) => Purged(token in live)
    case PurgeExpired => PurgedCount(|tokens.Keys - live.Keys|)
  }

  // ----- The mutable view -----

  /** What the store sends to be applied: records to set, then tokens to delete. */
  datatype Diff = Diff(sets: Tokens, dels: set<Token>)

  function Apply(tokens: Tokens, d: Diff): Tokens {
    (tokens + d.sets) - d.dels
  }

  /** The view over a snapshot, with the tokens written and the tokens deleted so far. */
  class MutableView {
    ghost const snapshot: Tokens
    var tokens: Tokens
    var dirty: set<Token>
    var deleted: set<Token>

    ghost predicate Valid()
      reads this
    {
      && dirty <= tokens.Keys && deleted !! tokens.Keys
      && (forall t :: t !in dirty && t !in deleted ==> (t in tokens <==> t in snapshot))
      && (forall t :: t !in dirty && t in tokens && t in snapshot ==> tokens[t] == snapshot[t])
    }

    constructor (tokens: Tokens)
      ensures Valid() && snapshot == tokens && this.tokens == tokens
    {
      snapshot, this.tokens, dirty, deleted := tokens, tokens, {}, {};
    }

    method Set(token: Token, record: Record)
      requires Valid()
      modifies this
      ensures Valid() && tokens == old(tokens)[token := record]
    {
      tokens, dirty, deleted := tokens[token := record], dirty + {token}, deleted - {token};
    }

    method Delete(token: Token)
      requires Valid()
      modifies this
      ensures Valid() && tokens == old(tokens) - {token}
    {
      tokens, dirty, deleted := tokens - {token}, dirty - {token}, deleted + {token};
    }

    /** The changes tracked are exactly what turns the snapshot into the view. */
    method TakeDiff() returns (d: Diff)
      requires Valid()
      ensures Apply(snapshot, d) == tokens
    {
      d := Diff(map t | t in dirty && t in tokens :: tokens[t], deleted);
    }

    method PruneExpired(now: int) returns (purged: nat)
      requires Valid()
      modifies this
      ensures Valid() && tokens == Pruned(old(tokens), now)
      ensures purged == |old(tokens).Keys - tokens.Keys|
    {
      var before, todo := tokens, tokens.Keys;
      purged := 0;
      PrunedEnds(before, now);
      while todo != {}
        invariant Valid() && todo <= before.Keys
        invariant tokens == PrunedBut(before, todo, now)
        invariant purged == |before.Keys - tokens.Keys|
        decreases |todo|
      {
        var t :| t in todo;
        assert t in tokens && tokens[t] == before[t];
        PrunedStep(before, todo, t, now);
        todo := todo - {t};
        if Overdue(tokens[t], now) {
          OneMoreGone(before, tokens, t);
          Delete(t);
          purged := purged + 1;
        }
      }
    }

    /**
     The body each operation runs inside the store's `mutate`. `seals` says
     whether an envelope can be made; if one is needed and cannot, it throws.
     */
    method Perform(ask: Ask, now: int, retention: int, seals: bool) returns (reply: Option<Reply>)
      requires Valid()
      modifies this
      ensures Valid()
      ensures reply.None? <==> !seals && ask.Tokenize? && ask.token !in Pruned(old(tokens), now)
      ensures reply.Some? ==>
        && tokens == Effect(old(tokens), ask, now, retention) && reply.value == ReplyTo(old(tokens), ask, now)
    {
      var purged := PruneExpired(now);
      match ask {
        case Tokenize(token, kind, plaintext, context) =>
          if token in tokens {
            Set(token, tokens[token].(expiresAt := now + retention));
            reply := Some(Tokenized(token, kind, true));
          } else if seals {
            var aad := Aad(token, kind, Given(context));
            Set(token, Record(kind, now + retention, Envelope(plaintext, aad, now + retention),
                              aad.(context := Canonical.Stored(aad.context))));
            reply := Some(Tokenized(token, kind, false));
          } else {
            reply := None;
          }
        case Purge(token) =>
          reply := Some(Purged(token in tokens));
          Delete(token);
        case PurgeExpired =>
          reply := Some(PurgedCount(purged));
      }
    }
  }

  /** One attempt of a mutation on a snapshot: its answer and the diff to apply, unless it throws. */
  method Attempt(snapshot: Tokens, ask: Ask, now: int, retention: int, seals: bool) returns (r: Option<(Diff, Reply)>)
    ensures r.None? <==> !seals && ask.Tokenize? && ask.token !in Pruned(snapshot, now)
    ensures r.Some? ==>
      && Apply(snapshot, r.value.0) == Effect(snapshot, ask, now, retention)
      && r.value.1 == ReplyTo(snapshot, ask, now)
  {
    var view := new MutableView(snapshot);
    var reply := view.Perform(ask, now, retention, seals);
    if reply.None? { return None; }
    var d := view.TakeDiff();
    return Some((d, reply.value));
  }

  // ----- Histories -----

  datatype Commit = Commit(call: nat, ask: Ask, now: int)

  /** The record map after a serial history. */
  ghost function Replay(base: Tokens, log: seq<Commit>, retention: int): Tokens {
    if log == [] then base
    else
      var n := |log| - 1;
      Effect(Replay(base, log[..n], retention), log[n].ask, log[n].now, retention)
  }

  /** One token's record after one mutation: other tokens' operations only let it expire. */
  ghost function TokenStep(r: Option<Record>, token: Token, c: Commit, retention: int): Option<Record> {
    var live := if r.Some? && Overdue(r.value, c.now) then None else r;
    if c.ask.Tokenize? && c.ask.token == token then
      Some(if live.Some? then live.value.(expiresAt := c.now + retention) else NewRecord(c.ask, c.now + retention))
    else if c.ask.Purge? && c.ask.token == token then None
    else live
  }

  ghost function TokenAfter(log: seq<Commit>, token: Token, retention: int): Option<Record> {
    if log == [] then None
    else TokenStep(TokenAfter(log[..|log| - 1], token, retention), token, log[|log| - 1], retention)
  }

  function At(tokens: Tokens, token: Token): Option<Record> {
    if token in tokens then Some(tokens[token]) else None
  }

  lemma {:induction false} EffectAt(tokens: Tokens, c: Commit, token: Token, retention: int)
    ensures At(Effect(tokens, c.ask, c.now, retention), token) == TokenStep(At(tokens, token), token, c, retention)
  {
    var live := Pruned(tokens, c.now);
    assert At(live, token) == if token in tokens && Overdue(tokens[token], c.now) then None else At(tokens, token);
  }

  /** Tokens do not affect each other. */
  lemma {:induction false} ReplayAt(log: seq<Commit>, token: Token, retention: int)
    ensures At(Replay(map[], log, retention), token) == TokenAfter(log, token, retention)
  {
    if log == [] {
    } else {
      var n := |log| - 1;
      ReplayAt(log[..n], token, retention);
      EffectAt(Replay(map[], log[..n], retention), log[n], token, retention);
    }
  }

  predicate Concerns(ask: Ask, token: Token) {
    !ask.PurgeExpired? && ask.token == token
  }

  /** Commit k is the last about the token, issued or renewed it, and no later operation came after its retention. */
  ghost predicate KeptBy(log: seq<Commit>, token: Token, retention: int, k: nat) {
    && k < |log| && log[k].ask.Tokenize? && log[k].ask.token == token
    && forall i :: k < i < |log| ==> !Concerns(log[i].ask, token) && log[i].now <= log[k].now + retention
  }

  /** A token has a record exactly when some commit keeps it, and expires one retention after that commit. */
  lemma {:induction false} RecordExactly(log: seq<Commit>, token: Token, retention: int)
    ensures TokenAfter(log, token, retention).Some? <==> exists k: nat :: KeptBy(log, token, retention, k)
    ensures forall k: nat :: KeptBy(log, token, retention, k) ==>
      TokenAfter(log, token, retention).Some?
        && TokenAfter(log, token, retention).value.expiresAt == log[k].now + retention
  {
    if log == [] {
    } else {
      var n := |log| - 1;
      var before := log[..n];
      RecordExactly(before, token, retention);
      if Concerns(log[n].ask, token) {
        assert forall k: nat :: KeptBy(log, token, retention, k) ==> k == n;
        assert log[n].ask.Tokenize? ==> KeptBy(log, token, retention, n);
      } else {
        forall k: nat
          ensures KeptBy(log, token, retention, k)
             <==> KeptBy(before, token, retention, k) && log[n].now <= before[k].now + retention
        {
          if KeptBy(before, token, retention, k) { assert before[k] == log[k]; }
          if KeptBy(log, token, retention, k) { assert k < n; }
        }
      }
    }
  }

  /** A `Tokenize` reports reuse exactly when an earlier commit keeps the token and its retention has not passed. */
  lemma {:induction false} ReuseExactly(log: seq<Commit>, retention: int, n: nat)
    requires n < |log| && log[n].ask.Tokenize?
    ensures ReplyTo(Replay(map[], log[..n], retention), log[n].ask, log[n].now)
      == Tokenized(log[n].ask.token, log[n].ask.kind,
                   exists k: nat :: KeptBy(log[..n], log[n].ask.token, retention, k)
                     && log[n].now <= log[k].now + retention)
  {
    var before, token := log[..n], log[n].ask.token;
    ReplayAt(before, token, retention);
    RecordExactly(before, token, retention);
    forall k: nat | KeptBy(before, token, retention, k) ensures before[k] == log[k] { }
    var tokens := Replay(map[], before, retention);
    assert token in Pruned(tokens, log[n].now) <==> token in tokens && log[n].now <= tokens[token].expiresAt;
    if token in tokens {
      var k: nat :| KeptBy(before, token, retention, k);
      assert tokens[token].expiresAt == log[k].now + retention;
    }
  }

  /** A token was kept, and its retention has or has not passed by a time. */
  ghost predicate KeptAt(log: seq<Commit>, token: Token, retention: int, now: int, over: bool) {
    exists k: nat :: KeptBy(log, token, retention, k) && (log[k].now + retention < now) == over
  }

  lemma {:induction false} LiveExactly(log: seq<Commit>, retention: int, token: Token, now: int)
    ensures var tokens := Replay(map[], log, retention);
      && (token in Pruned(tokens, now) <==> KeptAt(log, token, retention, now, false))
      && (token in tokens.Keys - Pruned(tokens, now).Keys <==> KeptAt(log, token, retention, now, true))
  {
    ReplayAt(log, token, retention);
    RecordExactly(log, token, retention);
    var tokens := Replay(map[], log, retention);
    if token in tokens {
      var k: nat :| KeptBy(log, token, retention, k);
      assert tokens[token].expiresAt == log[k].now + retention;
    }
  }

  /** The tokens that are kept and whose retention has passed. */
  ghost predicate AreOver(log: seq<Commit>, retention: int, now: int, gone: set<Token>) {
    forall t :: t in gone <==> KeptAt(log, t, retention, now, true)
  }

  /**
   A purge reports whether an earlier commit keeps the token and its retention has
   not passed. A purge of the expired reports how many tokens are kept whose
   retention has passed.
   */
  lemma {:induction false} PurgeExactly(log: seq<Commit>, retention: int, n: nat)
    requires n < |log| && !log[n].ask.Tokenize?
    ensures var before, ask, now := log[..n], log[n].ask, log[n].now;
      var reply := ReplyTo(Replay(map[], before, retention), ask, now);
      if ask.Purge? then reply == Purged(KeptAt(before, ask.token, retention, now, false))
      else exists gone: set<Token> :: AreOver(before, retention, now, gone) && reply == PurgedCount(|gone|)
  {
    var before, now := log[..n], log[n].now;
    var tokens := Replay(map[], before, retention);
    var gone := tokens.Keys - Pruned(tokens, now).Keys;
    forall t ensures t in gone <==> KeptAt(before, t, retention, now, true) { LiveExactly(before, retention, t, now); }
    assert AreOver(before, retention, now, gone);
    if log[n].ask.Purge? { LiveExactly(before, retention, log[n].ask.token, now); }
  }

  // ----- What a record holds -----

  ghost predicate Reused(log: seq<Commit>, retention: int, i: nat)
    requires i < |log| && log[i].ask.Tokenize?
  {
    ReplyTo(Replay(map[], log[..i], retention), log[i].ask, log[i].now).reused
  }

  /** The record was made by commit j, and every later `Tokenize` of its token reused it. */
  ghost predicate MadeBy(log: seq<Commit>, token: Token, retention: int, j: nat, r: Record) {
    && j < |log| && log[j].ask.Tokenize? && log[j].ask.token == token && !Reused(log, retention, j)
    && r == NewRecord(log[j].ask, log[j].now + retention).(expiresAt := r.expiresAt)
    && forall i :: j < i < |log| && log[i].ask.Tokenize? && log[i].ask.token == token ==> Reused(log, retention, i)
  }

  lemma {:induction false} ReusedPrefix(log: seq<Commit>, retention: int, n: nat, i: nat)
    requires i < n <= |log| && log[i].ask.Tokenize?
    ensures Reused(log[..n], retention, i) <==> Reused(log, retention, i)
  {
    assert log[..n][..i] == log[..i] && log[..n][i] == log[i];
  }

  lemma {:induction false} RecordMade(log: seq<Commit>, token: Token, retention: int)
    requires TokenAfter(log, token, retention).Some?
    ensures exists j: nat :: MadeBy(log, token, retention, j, TokenAfter(log, token, retention).value)
  {
    var n := |log| - 1;
    var before := TokenAfter(log[..n], token, retention);
    ReplayAt(log[..n], token, retention);
    if before.None? || Overdue(before.value, log[n].now) {
      assert MadeBy(log, token, retention, n, TokenAfter(log, token, retention).value);
    } else {
      RecordMade(log[..n], token, retention);
      var j: nat :| MadeBy(log[..n], token, retention, j, before.value);
      ReusedPrefix(log, retention, n, j);
      forall i | j < i < |log| && log[i].ask.Tokenize? && log[i].ask.token == token ensures Reused(log, retention, i) {
        if i < n {
          ReusedPrefix(log, retention, n, i);
          assert log[..n][i] == log[i];
        }
      }
      assert MadeBy(log, token, retention, j, TokenAfter(log, token, retention).value);
    }
  }

  /** Only one commit made a record. */
  lemma {:induction false} MadeOnce(log: seq<Commit>, token: Token, retention: int, i: nat, j: nat, r: Record,
                                    q: Record)
    requires MadeBy(log, token, retention, i, r) && MadeBy(log, token, retention, j, q)
    ensures i == j
  {
  }

  // ----- Deterministic mode -----

  ghost predicate Injective(derive: (Kind, Plaintext) -> Token) {
    forall k, p, k', p' :: derive(k, p) == derive(k', p') ==> k == k' && p == p'
  }

  ghost predicate Derived(log: seq<Commit>, derive: (Kind, Plaintext) -> Token) {
    forall i :: 0 <= i < |log| && log[i].ask.Tokenize? ==>
      log[i].ask.token == derive(log[i].ask.kind, log[i].ask.plaintext)
  }

  /** At every moment each (type, plaintext) has at most one record. */
  lemma {:induction false} OneRecordEach(log: seq<Commit>, derive: (Kind, Plaintext) -> Token, retention: int,
                                         t: Token, t': Token)
    requires Derived(log, derive)
    requires t in Replay(map[], log, retention) && t' in Replay(map[], log, retention)
    requires var tokens := Replay(map[], log, retention);
      && tokens[t].kind == tokens[t'].kind
      && tokens[t].envelope.plaintext == tokens[t'].envelope.plaintext
    ensures t == t'
  {
    ReplayAt(log, t, retention);
    ReplayAt(log, t', retention);
    RecordMade(log, t, retention);
    RecordMade(log, t', retention);
  }

  /** Nothing is purged and nothing outlives its retention. */
  ghost predicate Undisturbed(log: seq<Commit>, retention: int) {
    && (forall i :: 0 <= i < |log| ==> !log[i].ask.Purge?)
    && (forall i, j :: 0 <= i < j < |log| ==> log[j].now <= log[i].now + retention)
  }

  ghost predicate AskedFor(log: seq<Commit>, kind: Kind, plaintext: Plaintext) {
    exists i :: 0 <= i < |log| && log[i].ask.Tokenize? && log[i].ask.kind == kind && log[i].ask.plaintext == plaintext
  }

  lemma {:induction false} LastTokenize(log: seq<Commit>, token: Token, retention: int, i: nat) returns (k: nat)
    requires Undisturbed(log, retention) && i < |log| && log[i].ask.Tokenize? && log[i].ask.token == token
    ensures KeptBy(log, token, retention, k)
    decreases |log| - i
  {
    if j :| i < j < |log| && Concerns(log[j].ask, token) {
      assert !log[j].ask.Purge?;
      k := LastTokenize(log, token, retention, j);
    } else {
      k := i;
    }
  }

  /**
   Undisturbed and deterministic, the vault holds exactly one record for each
   (type, plaintext) asked for so far, under its derived token.
   */
  lemma {:induction false} OneRecordPerValue(log: seq<Commit>, derive: (Kind, Plaintext) -> Token, retention: int,
                                             kind: Kind, plaintext: Plaintext)
    requires Derived(log, derive) && Injective(derive) && Undisturbed(log, retention)
    ensures derive(kind, plaintext) in Replay(map[], log, retention) <==> AskedFor(log, kind, plaintext)
    ensures AskedFor(log, kind, plaintext) ==>
      var r := Replay(map[], log, retention)[derive(kind, plaintext)];
      r.kind == kind && r.envelope.plaintext == plaintext
  {
    var token := derive(kind, plaintext);
    ReplayAt(log, token, retention);
    RecordExactly(log, token, retention);
    if AskedFor(log, kind, plaintext) {
      var i :| 0 <= i < |log| && log[i].ask.Tokenize? && log[i].ask.kind == kind && log[i].ask.plaintext == plaintext;
      var k := LastTokenize(log, token, retention, i);
    }
    if TokenAfter(log, token, retention).Some? {
      RecordMade(log, token, retention);
    }
  }

  /** A repeated value gets its token again, and only a repeated value is reported as reused. */
  lemma {:induction false} RepeatReuses(log: seq<Commit>, derive: (Kind, Plaintext) -> Token, retention: int, n: nat)
    requires Derived(log, derive) && Injective(derive) && Undisturbed(log, retention)
    requires n < |log| && log[n].ask.Tokenize?
    ensures ReplyTo(Replay(map[], log[..n], retention), log[n].ask, log[n].now)
      == Tokenized(derive(log[n].ask.kind, log[n].ask.plaintext), log[n].ask.kind,
                   AskedFor(log[..n], log[n].ask.kind, log[n].ask.plaintext))
  {
    var before, kind, plaintext := log[..n], log[n].ask.kind, log[n].ask.plaintext;
    var token := derive(kind, plaintext);
    ReuseExactly(log, retention, n);
    if AskedFor(before, kind, plaintext) {
      var i :| 0 <= i < |before| && before[i].ask.Tokenize? && before[i].ask.kind == kind
        && before[i].ask.plaintext == plaintext;
      var k := LastTokenize(before, token, retention, i);
      assert log[n].now <= log[k].now + retention;
    }
    if k: nat :| KeptBy(before, token, retention, k) && log[n].now <= log[k].now + retention {
      assert before[k].ask.kind == kind && before[k].ask.plaintext == plaintext;
    }
  }
}
