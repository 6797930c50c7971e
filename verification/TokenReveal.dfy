/**
 Reveal and detokenize: what a token answers after any history of the vault, with
 the envelope opened by the crypto provider under the associated data of the stored
 record or under the caller's own context.
 */
module TokenReveal {
  import opened Options
  import opened Texts
  import opened Json
  import opened Canonical
  import opened CryptoAad
  import opened TokenVault

  datatype Revelation =
    | Revealed(kind: Kind, plaintext: Plaintext)
    | Denied
    | UnknownToken
    | TokenExpired
    | DecryptFailed

  // ----- The associated data -----

  const PURPOSE := Ascii("purpose")
  const TOKEN := Ascii("token")
  const TYPE := Ascii("type")
  const CONTEXT := Ascii("context")

  function AadFields(aad: Aad): seq<Field> {
    [ Field(PURPOSE, Str(Ascii("token-vault"))), Field(TOKEN, Str(aad.token)),
      Field(TYPE, Str(aad.kind)), Field(CONTEXT, aad.context) ]
  }

  /** The normaliser leaves the four names as they are, as Unicode normalisation does. */
  ghost predicate KeepsNames(n: Normalizer) {
    n(PURPOSE) == PURPOSE && n(TOKEN) == TOKEN && n(TYPE) == TYPE && n(CONTEXT) == CONTEXT
  }

  lemma {:induction false} NamesDistinct()
    ensures Distinct([PURPOSE, TOKEN, TYPE, CONTEXT])
  {
    assert |PURPOSE| == 7 && |TOKEN| == 5 && |TYPE| == 4 && |CONTEXT| == 7;
    assert PURPOSE[0] == 'p' as int && CONTEXT[0] == 'c' as int;
  }

  lemma {:induction false} AadKeys(aad: Aad)
    ensures Keys(AadFields(aad)) == [PURPOSE, TOKEN, TYPE, CONTEXT]
  {
  }

  lemma {:induction false} AadGet(fs: seq<Field>, i: nat)
    requires i < |fs| && Keys(fs) == [PURPOSE, TOKEN, TYPE, CONTEXT]
    ensures fs[i].key in Keys(fs) && Get(fs, fs[i].key) == fs[i].value
  {
    NamesDistinct();
    GetAt(fs, i);
  }

  lemma {:induction false} NormalizedAad(n: Normalizer, aad: Aad)
    requires KeepsNames(n)
    ensures var fs := NormalizedFields(n, AadFields(aad));
      && Keys(fs) == [PURPOSE, TOKEN, TYPE, CONTEXT] && fs[0].value == Str(n(Ascii("token-vault")))
      && fs[1].value == Str(n(aad.token)) && fs[2].value == Str(n(aad.kind))
      && fs[3].value == Normalized(n, aad.context)
  {
  }

  lemma {:induction false} AadCollides(n: Normalizer, aad: Aad)
    requires KeepsNames(n)
    ensures Collides(n, Obj(AadFields(aad))) <==> Collides(n, aad.context)
  {
    NamesDistinct();
    NormalizedAad(n, aad);
    var fs := AadFields(aad);
    assert fs[3].value == aad.context;
  }

  lemma {:induction false} AadValid(aad: Aad)
    requires Valid(aad.context)
    ensures Valid(Obj(AadFields(aad)))
  {
    NamesDistinct();
    AadKeys(aad);
  }

  /** Data that differ in the context only agree exactly when the contexts do. */
  lemma {:induction false} AadEquivalent(n: Normalizer, a: Aad, b: Aad)
    requires KeepsNames(n) && a.token == b.token && a.kind == b.kind
    ensures Equivalent(Normalized(n, Obj(AadFields(a))), Normalized(n, Obj(AadFields(b))))
       <==> Equivalent(Normalized(n, a.context), Normalized(n, b.context))
  {
    var fs, gs := NormalizedFields(n, AadFields(a)), NormalizedFields(n, AadFields(b));
    NormalizedAad(n, a);
    NormalizedAad(n, b);
    FourFieldsEquivalent(fs, gs);
  }

  /** The values of two such objects, field by field. */
  lemma {:induction false} AadGets(fs: seq<Field>)
    requires Keys(fs) == [PURPOSE, TOKEN, TYPE, CONTEXT]
    ensures Get(fs, PURPOSE) == fs[0].value && Get(fs, TOKEN) == fs[1].value
    ensures Get(fs, TYPE) == fs[2].value && Get(fs, CONTEXT) == fs[3].value
  {
    assert forall i :: 0 <= i < 4 ==> fs[i].key == Keys(fs)[i];
    AadGet(fs, 0);
    AadGet(fs, 1);
    AadGet(fs, 2);
    AadGet(fs, 3);
  }

  lemma {:induction false} FourFieldsEquivalent(fs: seq<Field>, gs: seq<Field>)
    requires Keys(fs) == Keys(gs) == [PURPOSE, TOKEN, TYPE, CONTEXT]
    requires fs[0].value == gs[0].value && fs[1].value == gs[1].value && fs[2].value == gs[2].value
    requires fs[0].value.Str? && fs[1].value.Str? && fs[2].value.Str?
    ensures Equivalent(Obj(fs), Obj(gs)) <==> Equivalent(fs[3].value, gs[3].value)
  {
    AadGets(fs);
    AadGets(gs);
    if Equivalent(fs[3].value, gs[3].value) {
      forall k | k in Keys(fs) ensures Equivalent(Get(fs, k), Get(gs, k)) {
        assert k == PURPOSE || k == TOKEN || k == TYPE || k == CONTEXT;
      }
    }
    assert CONTEXT in Keys(fs);
  }

  // ----- What storing does to a context -----

  lemma {:induction false} StoredNormalized(n: Normalizer, v: Value)
    ensures Normalized(n, Stored(v)) == Stored(Normalized(n, v))
    decreases v
  {
    match v
    case Arr(xs) =>
      forall i | 0 <= i < |xs| ensures Normalized(n, Stored(xs[i])) == Stored(Normalized(n, xs[i])) {
        StoredNormalized(n, xs[i]);
      }
      assert NormalizedItems(n, StoredItems(xs)) == StoredItems(NormalizedItems(n, xs));
    case Obj(fs) => StoredNormalizedFields(n, fs);
    case _ =>
  }

  lemma {:induction false} StoredNormalizedFields(n: Normalizer, fs: seq<Field>)
    ensures NormalizedFields(n, StoredFields(fs)) == StoredFields(NormalizedFields(n, fs))
    decreases fs
  {
    if fs == [] {
    } else {
      var f, rest := fs[0], fs[1..];
      StoredNormalized(n, f.value);
      StoredNormalizedFields(n, rest);
      StoredNormalizedStep(n, f, rest, fs);
    }
  }

  lemma {:induction false} StoredNormalizedStep(n: Normalizer, f: Field, rest: seq<Field>, fs: seq<Field>)
    requires fs == [f] + rest && rest == fs[1..] && Normalized(n, Stored(f.value)) == Stored(Normalized(n, f.value))
    requires NormalizedFields(n, StoredFields(rest)) == StoredFields(NormalizedFields(n, rest))
    ensures NormalizedFields(n, StoredFields(fs)) == StoredFields(NormalizedFields(n, fs))
  {
    var g := Field(n(f.key), Normalized(n, f.value));
    var gs := NormalizedFields(n, rest);
    assert NormalizedFields(n, fs) == [g] + gs && ([g] + gs)[1..] == gs;
    if !f.value.Undefined? {
      var s, ss := Field(f.key, Stored(f.value)), StoredFields(rest);
      assert StoredFields(fs) == [s] + ss && ([s] + ss)[1..] == ss;
    }
  }

  lemma {:induction false} NormalizedUndefinedFree(n: Normalizer, v: Value)
    requires UndefinedFree(Normalized(n, v))
    ensures UndefinedFree(v)
    decreases v
  {
    match v
    case Arr(xs) =>
      forall i | 0 <= i < |xs| ensures UndefinedFree(xs[i]) {
        assert UndefinedFree(NormalizedItems(n, xs)[i]);
        NormalizedUndefinedFree(n, xs[i]);
      }
    case Obj(fs) =>
      forall i | 0 <= i < |fs| ensures UndefinedFree(fs[i].value) {
        assert UndefinedFree(NormalizedFields(n, fs)[i].value);
        NormalizedUndefinedFree(n, fs[i].value);
      }
    case _ =>
  }

  /** A context that went through JSON agrees with the one sealed exactly when it holds no `undefined`. */
  lemma {:induction false} StoredContextAgrees(n: Normalizer, c: Value)
    requires Valid(c) && !Collides(n, c)
    ensures Equivalent(Normalized(n, c), Normalized(n, Stored(c))) <==> UndefinedFree(c)
  {
    var x := Normalized(n, c);
    NormalizedValid(n, c);
    StoredNormalized(n, c);
    StoredValid(x);
    StoredCanonicalText(x);
    CanonicalUnambiguous(x, Stored(x));
    if UndefinedFree(c) { StoredUnchanged(c); }
    if UndefinedFree(x) { NormalizedUndefinedFree(n, c); }
  }

  // ----- Opening -----

  /** Opening the envelope of a record under some associated data. */
  function Open(n: Normalizer, hash: Text -> Text, e: TokenVault.Envelope, aad: Aad, now: int): Option<Plaintext> {
    var sealed := EncryptV2(n, hash, e.plaintext, Obj(AadFields(e.bound)), Expiry.At(e.expiresAt));
    if sealed.None? then None
    else
      var result := Decrypt(n, hash, sealed.value, Obj(AadFields(aad)), now);
      if result.Plaintext? then Some(result.text) else None
  }

  lemma {:induction false} OpensOwnText(n: Normalizer, hash: Text -> Text, e: CryptoAad.Envelope, aad: Value, now: int)
    requires Decrypt(n, hash, e, aad, now).Plaintext?
    ensures Decrypt(n, hash, e, aad, now) == CryptoAad.Plaintext(e.plaintext)
  {
  }

  /** Whether it opens, in terms of the two contexts. */
  lemma {:induction false} OpensIff(n: Normalizer, hash: Text -> Text, e: TokenVault.Envelope, aad: Aad, now: int)
    requires KeepsNames(n) && Valid(e.bound.context) && Valid(aad.context)
    requires aad.token == e.bound.token && aad.kind == e.bound.kind
    ensures Open(n, hash, e, aad, now)
         == if now < e.expiresAt && !Collides(n, e.bound.context) && !Collides(n, aad.context)
               && Equivalent(Normalized(n, e.bound.context), Normalized(n, aad.context))
            then Some(e.plaintext) else None
  {
    var bound, given := Obj(AadFields(e.bound)), Obj(AadFields(aad));
    AadValid(e.bound);
    AadValid(aad);
    AadCollides(n, e.bound);
    AadCollides(n, aad);
    AadEquivalent(n, e.bound, aad);
    V2OpensIff(n, hash, e.plaintext, bound, Expiry.At(e.expiresAt), given, now);
    var sealed := EncryptV2(n, hash, e.plaintext, bound, Expiry.At(e.expiresAt));
    if sealed.Some? && Decrypt(n, hash, sealed.value, given, now).Plaintext? {
      OpensOwnText(n, hash, sealed.value, given, now);
    }
  }

  // ----- Reveal -----

  /** A value that JavaScript takes for false. */
  predicate Falsy(v: Value) {
    v == Undefined || v == Null || v == Bool(false) || v == Int(0) || v == Str([])
  }

  /** A caller may put its own context in place of the record's. */
  function Reveal(n: Normalizer, hash: Text -> Text, tokens: Tokens, token: Token, context: Context, now: int,
                  disabled: bool): Revelation {
    if disabled then Denied
    else if token !in tokens then UnknownToken
    else
      var r := tokens[token];
      if Overdue(r, now) then TokenExpired
      else
        var plaintext := Open(n, hash, r.envelope, if Falsy(context) then r.aad else r.aad.(context := context), now);
        if plaintext.None? then DecryptFailed else Revealed(r.kind, plaintext.value)
  }

  /**
   The context given to reveal fits the one given to tokenise. With none of its
   own, the caller relies on the stored one, which has lost every `undefined`.
   */
  ghost predicate Fits(n: Normalizer, sealed: Context, context: Context) {
    && !Collides(n, sealed)
    && if context in {Undefined, Null, Bool(false), Int(0), Str([])} then UndefinedFree(sealed)
       else !Collides(n, context) && Equivalent(Normalized(n, sealed), Normalized(n, context))
  }

  ghost predicate ValidContexts(log: seq<Commit>) {
    forall i :: 0 <= i < |log| && log[i].ask.Tokenize? ==> Valid(log[i].ask.context)
  }

  lemma {:induction false} GivenValid(context: Context)
    requires Valid(context)
    ensures Valid(Given(context))
  {
    var none: seq<Field> := [];
    assert Keys(none) == [];
  }

  /** What opening it under the stored data gives. */
  lemma {:induction false} OpensStored(n: Normalizer, hash: Text -> Text, e: TokenVault.Envelope, now: int)
    requires KeepsNames(n) && Valid(e.bound.context)
    ensures Open(n, hash, e, e.bound.(context := Stored(e.bound.context)), now)
         == if now < e.expiresAt && !Collides(n, e.bound.context) && UndefinedFree(e.bound.context)
            then Some(e.plaintext) else None
  {
    var c := e.bound.context;
    StoredValid(c);
    OpensIff(n, hash, e, e.bound.(context := Stored(c)), now);
    if !Collides(n, c) { StoredContextAgrees(n, c); }
    if UndefinedFree(c) { StoredUnchanged(c); }
  }

  /** What opening the record of a call gives. */
  lemma {:induction false} RecordOpens(n: Normalizer, hash: Text -> Text, ask: Ask, expiresAt: int, r: Record,
                                       context: Context, now: int)
    requires KeepsNames(n) && ask.Tokenize? && Valid(ask.context) && Valid(context)
    requires r == NewRecord(ask, expiresAt).(expiresAt := r.expiresAt)
    ensures Open(n, hash, r.envelope, if Falsy(context) then r.aad else r.aad.(context := context), now)
         == if now < expiresAt && Fits(n, Given(ask.context), context) then Some(ask.plaintext) else None
  {
    GivenValid(ask.context);
    if Falsy(context) {
      OpensStored(n, hash, r.envelope, now);
    } else {
      OpensIff(n, hash, r.envelope, r.aad.(context := context), now);
    }
  }

  /** The context a call was made with; one that leaves it out has an empty one. */
  ghost function SealedContext(ask: Ask): Context
    requires ask.Tokenize?
  {
    if ask.context == Undefined then Obj([]) else ask.context
  }

  /** The answer in terms of the commits that keep the token and that made its record. */
  ghost function Answer(n: Normalizer, log: seq<Commit>, retention: int, k: nat, j: nat, context: Context,
                        now: int): Revelation
    requires k < |log| && j < |log| && log[j].ask.Tokenize?
  {
    if log[k].now + retention < now then TokenExpired
    else if now < log[j].now + retention && Fits(n, SealedContext(log[j].ask), context)
    then Revealed(log[j].ask.kind, log[j].ask.plaintext)
    else DecryptFailed
  }

  ghost predicate KeptAndMade(log: seq<Commit>, token: Token, retention: int, k: nat, j: nat) {
    && KeptBy(log, token, retention, k) && token in Replay(map[], log, retention)
    && MadeBy(log, token, retention, j, Replay(map[], log, retention)[token])
  }

  lemma {:induction false} RevealKept(n: Normalizer, hash: Text -> Text, log: seq<Commit>, token: Token, retention: int,
                     k: nat, j: nat, context: Context, now: int)
    requires KeepsNames(n) && ValidContexts(log) && Valid(context) && KeptAndMade(log, token, retention, k, j)
    ensures Reveal(n, hash, Replay(map[], log, retention), token, context, now, false)
         == Answer(n, log, retention, k, j, context, now)
  {
    RecordExactly(log, token, retention);
    ReplayAt(log, token, retention);
    var r := Replay(map[], log, retention)[token];
    RecordOpens(n, hash, log[j].ask, log[j].now + retention, r, context, now);
  }

  /**
   What reveal answers after any history, in terms of the calls alone. With no
   commit that keeps the token it is unknown. Otherwise let commit k keep it and
   commit j have made its record: the token is expired once a retention has
   passed since k, and before that it reveals what was given to j exactly until
   a retention has passed since j, and for a context that fits the one given to j.
   Under the disabled policy every answer is the same, whatever the vault holds.
   */
  lemma {:induction false} RevealExactly(n: Normalizer, hash: Text -> Text, log: seq<Commit>, token: Token,
                                         retention: int, context: Context, now: int, disabled: bool)
    requires KeepsNames(n) && ValidContexts(log) && Valid(context)
    ensures var answer := Reveal(n, hash, Replay(map[], log, retention), token, context, now, disabled);
      if disabled then answer == Denied
      else if !exists k: nat :: KeptBy(log, token, retention, k) then answer == UnknownToken
      else exists k: nat, j: nat ::
        KeptAndMade(log, token, retention, k, j) && answer == Answer(n, log, retention, k, j, context, now)
  {
    RecordExactly(log, token, retention);
    ReplayAt(log, token, retention);
    if !disabled && exists k: nat :: KeptBy(log, token, retention, k) {
      var k: nat :| KeptBy(log, token, retention, k);
      RecordMade(log, token, retention);
      var j: nat :| MadeBy(log, token, retention, j, TokenAfter(log, token, retention).value);
      RevealKept(n, hash, log, token, retention, k, j, context, now);
      assert KeptAndMade(log, token, retention, k, j);
    }
  }

  /** The disabled policy denies without a look at the vault: for any two vaults the answer is the same. */
  lemma {:induction false} DisabledTellsNothing(n: Normalizer, hash: Text -> Text, tokens: Tokens, others: Tokens,
                                                token: Token, context: Context, now: int)
    ensures Reveal(n, hash, tokens, token, context, now, true) == Denied
    ensures Reveal(n, hash, tokens, token, context, now, true) == Reveal(n, hash, others, token, context, now, true)
  {
  }

  // ----- detokenize -----

  /** The values of the tokens asked for; those without a live record, or whose envelope does not open, are skipped. */
  method Detokenize(n: Normalizer, hash: Text -> Text, tokens: Tokens, asked: seq<Token>, now: int)
    returns (values: map<Token, Plaintext>)
    ensures values.Keys == set token | token in asked && Reveal(n, hash, tokens, token, Null, now, false).Revealed?
    ensures forall token :: token in values ==>
      values[token] == Reveal(n, hash, tokens, token, Null, now, false).plaintext
  {
    values := map[];
    for i := 0 to |asked|
      invariant values.Keys == set token | token in asked[..i]
        && Reveal(n, hash, tokens, token, Null, now, false).Revealed?
      invariant forall token :: token in values ==>
        values[token] == Reveal(n, hash, tokens, token, Null, now, false).plaintext
    {
      var token := asked[i];
      assert asked[..i + 1] == asked[..i] + [token];
      if token !in tokens || Overdue(tokens[token], now) { continue; }
      var plaintext := Open(n, hash, tokens[token].envelope, tokens[token].aad, now);
      if plaintext.Some? { values := values[token := plaintext.value]; }
    }
  }

  /**
   Which tokens are restored after any history, whatever the policy on revealing, and
   as what: those that some commit k keeps and whose retention since k has not passed,
   as what was given to the commit j that made the record, exactly until a retention
   has passed since j, and if its context held no `undefined` and normalises.
   */
  lemma {:induction false} RestoredExactly(n: Normalizer, hash: Text -> Text, log: seq<Commit>, token: Token,
                                           retention: int, now: int, plaintext: Plaintext)
    requires KeepsNames(n) && ValidContexts(log)
    ensures var answer := Reveal(n, hash, Replay(map[], log, retention), token, Null, now, false);
      answer.Revealed? && answer.plaintext == plaintext <==>
      exists k: nat, j: nat ::
        && KeptAndMade(log, token, retention, k, j)
        && now <= log[k].now + retention && now < log[j].now + retention
        && !Collides(n, SealedContext(log[j].ask)) && UndefinedFree(SealedContext(log[j].ask))
        && plaintext == log[j].ask.plaintext
  {
    RevealExactly(n, hash, log, token, retention, Null, now, false);
    forall k: nat, j: nat | KeptAndMade(log, token, retention, k, j)
      ensures Reveal(n, hash, Replay(map[], log, retention), token, Null, now, false)
           == Answer(n, log, retention, k, j, Null, now)
    {
      RevealKept(n, hash, log, token, retention, k, j, Null, now);
    }
  }

  /** Equal tokens were asked for equal values: distinct random tokens, or a collision-free derivation. */
  ghost predicate WellTokened(log: seq<Commit>) {
    forall i, j ::
      (0 <= i < |log| && 0 <= j < |log| && log[i].ask.Tokenize? && log[j].ask.Tokenize?
       && log[i].ask.token == log[j].ask.token)
      ==> log[i].ask.kind == log[j].ask.kind && log[i].ask.plaintext == log[j].ask.plaintext
  }

  /**
   Tokenise and reveal are inverse exactly as long as the envelope lasts: a token
   that commit k issued or renewed, and that is still kept and not expired,
   reveals the value given to commit k exactly until one retention has passed
   since the commit that made the record, and for a context that fits that
   commit's.
   */
  lemma {:induction false} TokenizeReveal(n: Normalizer, hash: Text -> Text, log: seq<Commit>, retention: int,
                                          k: nat, j: nat, context: Context, now: int)
    requires KeepsNames(n) && ValidContexts(log) && Valid(context) && WellTokened(log)
    requires k < |log| && log[k].ask.Tokenize? && now <= log[k].now + retention
    requires KeptAndMade(log, log[k].ask.token, retention, k, j)
    ensures Reveal(n, hash, Replay(map[], log, retention), log[k].ask.token, context, now, false)
         == if now < log[j].now + retention && Fits(n, SealedContext(log[j].ask), context)
            then Revealed(log[k].ask.kind, log[k].ask.plaintext) else DecryptFailed
  {
    RevealKept(n, hash, log, log[k].ask.token, retention, k, j, context, now);
    assert log[j].ask.kind == log[k].ask.kind && log[j].ask.plaintext == log[k].ask.plaintext;
  }

  /** A token whose context held `undefined` is never revealed without a context of the caller's own. */
  lemma {:induction false} UndefinedNeverReveals(n: Normalizer, hash: Text -> Text, ask: Ask, now: int, retention: int,
                                                 later: int)
    requires KeepsNames(n) && ask.Tokenize? && Valid(ask.context) && !UndefinedFree(Given(ask.context))
    ensures !Reveal(n, hash, Effect(map[], ask, now, retention), ask.token, Null, later, false).Revealed?
  {
    var tokens := Effect(map[], ask, now, retention);
    assert Pruned(map[], now) == map[];
    RecordOpens(n, hash, ask, now + retention, tokens[ask.token], Null, later);
  }

  /**
   Renewal does not keep a token revealable: made at 0, asked for again at r, it
   is reported as reused and lives until 2r, yet from r on it does not reveal.
   */
  lemma {:induction false} RenewedNotRevealable(n: Normalizer, hash: Text -> Text, ask: Ask, r: int, context: Context,
                                                now: int)
    requires KeepsNames(n) && ask.Tokenize? && Valid(ask.context) && Valid(context) && 0 < r <= now <= 2 * r
    ensures var log := [Commit(0, ask, 0), Commit(1, ask, r)];
      && Reused(log, r, 1) && ask.token in Replay(map[], log, r)
      && Reveal(n, hash, Replay(map[], log, r), ask.token, context, now, false) == DecryptFailed
  {
    var log := [Commit(0, ask, 0), Commit(1, ask, r)];
    var first := Effect(map[], ask, 0, r);
    assert log[..1] == [log[0]] && log[..1][..0] == [];
    assert Replay(map[], log[..1], r) == first;
    assert first == map[ask.token := NewRecord(ask, r)];
    assert Pruned(first, r) == first;
    assert Replay(map[], log, r) == map[ask.token := NewRecord(ask, r).(expiresAt := r + r)];
    RecordOpens(n, hash, ask, r, NewRecord(ask, r).(expiresAt := r + r), context, now);
  }
}
