/**
 When two associated data agree, told from the data themselves: strings and keys
 are compared once normalised, and everything else as it is.
 */
module AadAgreement {
  import opened Options
  import opened Texts
  import opened Json
  import opened Canonical
  import opened CryptoAad

  // ----- Agreement -----

  ghost predicate Agree(n: Normalizer, v: Value, w: Value)
    decreases v
  {
    match (v, w)
    case (Str(s), Str(t)) => n(s) == n(t)
    case (Arr(xs), Arr(ys)) =>
      || (Json.Blank(xs) && Json.Blank(ys))
      || (|xs| == |ys| && forall i :: 0 <= i < |xs| ==> Agree(n, xs[i], ys[i]))
    case (Obj(fs), Obj(gs)) =>
      && (forall i :: 0 <= i < |fs| ==> AgreesWithSome(n, fs[i], gs))
      && (forall j :: 0 <= j < |gs| ==> NamesSome(n, gs[j], fs))
    case _ => v == w
  }

  ghost predicate AgreesWithSome(n: Normalizer, f: Field, gs: seq<Field>)
    decreases f
  {
    exists j :: 0 <= j < |gs| && SameName(n, f, gs[j]) && Agree(n, f.value, gs[j].value)
  }

  ghost predicate NamesSome(n: Normalizer, g: Field, fs: seq<Field>) {
    exists i :: 0 <= i < |fs| && SameName(n, fs[i], g)
  }

  ghost predicate SameName(n: Normalizer, f: Field, g: Field) { n(f.key) == n(g.key) }

  /** Some object, at any depth, has two keys of one name. */
  ghost predicate Ambiguous(n: Normalizer, v: Value) {
    match v
    case Arr(xs) => exists i :: 0 <= i < |xs| && Ambiguous(n, xs[i])
    case Obj(fs) =>
      || (exists i, j :: 0 <= i < j < |fs| && SameName(n, fs[i], fs[j]))
      || (exists i :: 0 <= i < |fs| && Ambiguous(n, fs[i].value))
    case _ => false
  }

  lemma {:induction false} NamesCollide(n: Normalizer, fs: seq<Field>)
    ensures Distinct(Keys(NormalizedFields(n, fs))) <==> forall i, j :: 0 <= i < j < |fs| ==> !SameName(n, fs[i], fs[j])
  {
    var keys := Keys(NormalizedFields(n, fs));
    assert |keys| == |fs| && forall i :: 0 <= i < |fs| ==> keys[i] == n(fs[i].key);
  }

  lemma {:induction false} CollidesExactly(n: Normalizer, v: Value)
    ensures Collides(n, v) <==> Ambiguous(n, v)
    decreases v
  {
    match v
    case Arr(xs) =>
      forall i | 0 <= i < |xs| ensures Collides(n, xs[i]) <==> Ambiguous(n, xs[i]) { CollidesExactly(n, xs[i]); }
    case Obj(fs) =>
      NamesCollide(n, fs);
      forall i | 0 <= i < |fs| ensures Collides(n, fs[i].value) <==> Ambiguous(n, fs[i].value) {
        CollidesExactly(n, fs[i].value);
      }
    case _ =>
  }

  // ----- Agreement is what opening asks for -----

  ghost predicate SameField(f: Field, g: Field) { f.key == g.key && Equivalent(f.value, g.value) }

  ghost predicate HasLike(f: Field, gs: seq<Field>) { exists j :: 0 <= j < |gs| && SameField(f, gs[j]) }

  ghost predicate HasKey(g: Field, fs: seq<Field>) { exists i :: 0 <= i < |fs| && fs[i].key == g.key }

  ghost predicate EachHas(fs: seq<Field>, gs: seq<Field>) {
    (forall i :: 0 <= i < |fs| ==> HasLike(fs[i], gs)) && (forall j :: 0 <= j < |gs| ==> HasKey(gs[j], fs))
  }

  lemma {:induction false} KeyAt(fs: seq<Field>, key: Text) returns (i: nat)
    requires key in Keys(fs) && Distinct(Keys(fs))
    ensures i < |fs| && fs[i].key == key && Get(fs, key) == fs[i].value
  {
    i :| i < |Keys(fs)| && Keys(fs)[i] == key;
    GetAt(fs, i);
  }

  lemma {:induction false} LikeUnderKey(fs: seq<Field>, gs: seq<Field>, k: Text)
    requires Distinct(Keys(fs)) && Distinct(Keys(gs)) && EachHas(fs, gs) && k in Keys(fs)
    ensures k in Keys(gs) && Equivalent(Get(fs, k), Get(gs, k))
  {
    var i := KeyAt(fs, k);
    assert HasLike(fs[i], gs);
    var j :| 0 <= j < |gs| && SameField(fs[i], gs[j]);
    GetAt(gs, j);
  }

  lemma {:induction false} KeyFound(fs: seq<Field>, gs: seq<Field>, k: Text)
    requires Distinct(Keys(fs)) && Distinct(Keys(gs)) && EachHas(fs, gs) && k in Keys(gs)
    ensures k in Keys(fs)
  {
    var j := KeyAt(gs, k);
    assert HasKey(gs[j], fs);
    var i :| 0 <= i < |fs| && fs[i].key == gs[j].key;
    GetAt(fs, i);
  }

  /** Objects are equivalent exactly when each field of one has its like in the other. */
  lemma {:induction false} EachHasEquivalent(fs: seq<Field>, gs: seq<Field>)
    requires Distinct(Keys(fs)) && Distinct(Keys(gs)) && EachHas(fs, gs)
    ensures Equivalent(Obj(fs), Obj(gs))
  {
    forall k | k in Keys(fs) ensures k in Keys(gs) && Equivalent(Get(fs, k), Get(gs, k)) { LikeUnderKey(fs, gs, k); }
    forall k | k in Keys(gs) ensures k in Keys(fs) { KeyFound(fs, gs, k); }
  }

  lemma {:induction false} EquivalentEachHas(fs: seq<Field>, gs: seq<Field>)
    requires Distinct(Keys(fs)) && Distinct(Keys(gs)) && Equivalent(Obj(fs), Obj(gs))
    ensures EachHas(fs, gs)
  {
    forall i | 0 <= i < |fs| ensures HasLike(fs[i], gs) {
      GetAt(fs, i);
      var j := KeyAt(gs, fs[i].key);
      assert SameField(fs[i], gs[j]);
    }
    forall j | 0 <= j < |gs| ensures HasKey(gs[j], fs) {
      GetAt(gs, j);
      var i := KeyAt(fs, gs[j].key);
    }
  }

  /** Values agree exactly when their trees do. */
  ghost predicate ValuesAgree(n: Normalizer, fs: seq<Field>, gs: seq<Field>, f: seq<Field>, g: seq<Field>)
    requires |f| == |fs| && |g| == |gs|
  {
    forall i, j :: 0 <= i < |fs| && 0 <= j < |gs| ==>
      (SameField(f[i], g[j]) <==> SameName(n, fs[i], gs[j]) && Agree(n, fs[i].value, gs[j].value))
  }

  ghost predicate Named(n: Normalizer, fs: seq<Field>, f: seq<Field>) {
    |f| == |fs| && forall i :: 0 <= i < |fs| ==> f[i].key == n(fs[i].key)
  }

  lemma {:induction false} LikesAgree(n: Normalizer, fs: seq<Field>, gs: seq<Field>, f: seq<Field>, g: seq<Field>,
                                      i: nat)
    requires Named(n, fs, f) && Named(n, gs, g) && ValuesAgree(n, fs, gs, f, g) && i < |fs|
    ensures HasLike(f[i], g) <==> AgreesWithSome(n, fs[i], gs)
  {
    if HasLike(f[i], g) {
      var j :| 0 <= j < |g| && SameField(f[i], g[j]);
      assert SameName(n, fs[i], gs[j]) && Agree(n, fs[i].value, gs[j].value);
    }
    if AgreesWithSome(n, fs[i], gs) {
      var j :| 0 <= j < |gs| && SameName(n, fs[i], gs[j]) && Agree(n, fs[i].value, gs[j].value);
      assert SameField(f[i], g[j]);
    }
  }

  lemma {:induction false} NamesAgree(n: Normalizer, fs: seq<Field>, gs: seq<Field>, f: seq<Field>, g: seq<Field>,
                                      j: nat)
    requires Named(n, fs, f) && Named(n, gs, g) && j < |gs|
    ensures HasKey(g[j], f) <==> NamesSome(n, gs[j], fs)
  {
    if HasKey(g[j], f) {
      var i :| 0 <= i < |f| && f[i].key == g[j].key;
      assert SameName(n, fs[i], gs[j]);
    }
    if NamesSome(n, gs[j], fs) {
      var i :| 0 <= i < |fs| && SameName(n, fs[i], gs[j]);
      assert f[i].key == g[j].key;
    }
  }

  lemma {:induction false} FieldsAgree(n: Normalizer, fs: seq<Field>, gs: seq<Field>, f: seq<Field>, g: seq<Field>)
    requires Named(n, fs, f) && Named(n, gs, g) && ValuesAgree(n, fs, gs, f, g)
    ensures EachHas(f, g) <==> Agree(n, Obj(fs), Obj(gs))
  {
    forall i | 0 <= i < |fs| ensures HasLike(f[i], g)
      <==> AgreesWithSome(n, fs[i], gs) { LikesAgree(n, fs, gs, f, g, i); }
    forall j | 0 <= j < |gs| ensures HasKey(g[j], f) <==> NamesSome(n, gs[j], fs) { NamesAgree(n, fs, gs, f, g, j); }
  }

  lemma {:induction false} ObjectsAgree(n: Normalizer, fs: seq<Field>, gs: seq<Field>, f: seq<Field>, g: seq<Field>)
    requires Named(n, fs, f) && Named(n, gs, g) && ValuesAgree(n, fs, gs, f, g)
    requires Distinct(Keys(f)) && Distinct(Keys(g))
    ensures Equivalent(Obj(f), Obj(g)) <==> Agree(n, Obj(fs), Obj(gs))
  {
    FieldsAgree(n, fs, gs, f, g);
    if EachHas(f, g) { EachHasEquivalent(f, g); }
    if Equivalent(Obj(f), Obj(g)) { EquivalentEachHas(f, g); }
  }

  lemma {:induction false} ItemsAgree(n: Normalizer, xs: seq<Value>, ys: seq<Value>)
    requires |xs| == |ys| ==> forall i :: 0 <= i < |xs| ==>
      (Equivalent(Normalized(n, xs[i]), Normalized(n, ys[i])) <==> Agree(n, xs[i], ys[i]))
    ensures Equivalent(Normalized(n, Arr(xs)), Normalized(n, Arr(ys))) <==> Agree(n, Arr(xs), Arr(ys))
  {
    NormalizedBlank(n, xs);
    NormalizedBlank(n, ys);
  }

  lemma {:induction false} NormalizedBlank(n: Normalizer, xs: seq<Value>)
    ensures Json.Blank(NormalizedItems(n, xs)) <==> Json.Blank(xs)
  {
    if |xs| == 1 { assert xs == [xs[0]] && NormalizedItems(n, xs) == [Normalized(n, xs[0])]; }
  }

  lemma {:induction false} AgreeExactly(n: Normalizer, v: Value, w: Value)
    requires !Collides(n, v) && !Collides(n, w)
    ensures Equivalent(Normalized(n, v), Normalized(n, w)) <==> Agree(n, v, w)
    decreases v
  {
    match (v, w)
    case (Arr(xs), Arr(ys)) =>
      if |xs| == |ys| {
        forall i | 0 <= i < |xs|
          ensures Equivalent(Normalized(n, xs[i]), Normalized(n, ys[i])) <==> Agree(n, xs[i], ys[i])
        {
          AgreeExactly(n, xs[i], ys[i]);
        }
      }
      ItemsAgree(n, xs, ys);
    case (Obj(fs), Obj(gs)) =>
      var f, g := NormalizedFields(n, fs), NormalizedFields(n, gs);
      forall i, j | 0 <= i < |fs| && 0 <= j < |gs|
        ensures SameField(f[i], g[j]) <==> SameName(n, fs[i], gs[j]) && Agree(n, fs[i].value, gs[j].value)
      {
        AgreeExactly(n, fs[i].value, gs[j].value);
      }
      ObjectsAgree(n, fs, gs, f, g);
    case _ =>
  }

  /**
   A v2 envelope can be sealed exactly when no object of the data has two keys of one
   name, and opens exactly while it is fresh, for data that agree with those and that
   have no such object either.
   */
  lemma {:induction false} OpensForAgreeing(n: Normalizer, hash: Text -> Text, plaintext: Text, aad: Value,
                                            expiresAt: Expiry, other: Value, now: int)
    requires Valid(aad) && Valid(other)
    ensures var e := EncryptV2(n, hash, plaintext, aad, expiresAt);
      && (e.None? <==> aad.Undefined? || Ambiguous(n, aad) || expiresAt.Malformed?)
      && (e.Some? ==>
            (Decrypt(n, hash, e.value, other, now) == Plaintext(plaintext)
             <==> Fresh(expiresAt, now) && !other.Undefined? && !Ambiguous(n, other) && Agree(n, aad, other)))
  {
    V2OpensIff(n, hash, plaintext, aad, expiresAt, other, now);
    CollidesExactly(n, aad);
    CollidesExactly(n, other);
    if !Collides(n, aad) && !Collides(n, other) { AgreeExactly(n, aad, other); }
  }
}
