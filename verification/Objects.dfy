/**
 Reading, replacing and removing one field of an object, as property access,
 `{ ...object, key: value }` and `{ key, ...rest } = object` do.
 */
module Objects {
  import opened Texts
  import opened Json
  import opened Canonical

  /** `value.key`, undefined when `value` is not an object or has no such key. */
  function Lookup(v: Value, key: Text): Value {
    if v.Obj? && key in Keys(v.fields) then Get(v.fields, key) else Undefined
  }

  function With(fs: seq<Field>, key: Text, value: Value): seq<Field> {
    if fs == [] then [Field(key, value)]
    else if fs[0].key == key then [Field(key, value)] + fs[1..]
    else [fs[0]] + With(fs[1..], key, value)
  }

  function Without(fs: seq<Field>, key: Text): seq<Field> {
    if fs == [] then []
    else if fs[0].key == key then Without(fs[1..], key)
    else [fs[0]] + Without(fs[1..], key)
  }

  lemma {:induction false} LookupCons(f: Field, fs: seq<Field>, key: Text)
    ensures Lookup(Obj([f] + fs), key) == if f.key == key then f.value else Lookup(Obj(fs), key)
  {
    KeysCons(f, fs);
    if f.key != key && key in Keys(fs) { GetCons(f, fs, key); }
  }

  lemma {:induction false} KeysCons(f: Field, fs: seq<Field>)
    ensures Keys([f] + fs) == [f.key] + Keys(fs)
  {
  }

  lemma {:induction false} GetCons(f: Field, fs: seq<Field>, key: Text)
    requires f.key != key && key in Keys(fs) && key in Keys([f] + fs)
    ensures Get([f] + fs, key) == Get(fs, key)
  {
    assert ([f] + fs)[1..] == fs;
  }

  lemma {:induction false} WithLookup(fs: seq<Field>, key: Text, value: Value, other: Text)
    ensures Lookup(Obj(With(fs, key, value)), other)
         == if other == key then value else Lookup(Obj(fs), other)
  {
    if fs == [] {
      LookupCons(Field(key, value), [], other);
      assert With(fs, key, value) == [Field(key, value)] + [];
    } else {
      assert fs == [fs[0]] + fs[1..];
      LookupCons(fs[0], fs[1..], other);
      if fs[0].key == key {
        LookupCons(Field(key, value), fs[1..], other);
      } else {
        WithLookup(fs[1..], key, value, other);
        LookupCons(fs[0], With(fs[1..], key, value), other);
      }
    }
  }

  lemma {:induction false} WithKeys(fs: seq<Field>, key: Text, value: Value)
    ensures forall k :: k in Keys(With(fs, key, value)) <==> k == key || k in Keys(fs)
    ensures Distinct(Keys(fs)) ==> Distinct(Keys(With(fs, key, value)))
  {
    if fs == [] {
      assert Keys(With(fs, key, value)) == [key];
    } else if fs[0].key == key {
      assert Keys([Field(key, value)] + fs[1..]) == Keys(fs);
    } else {
      var rest := With(fs[1..], key, value);
      WithKeys(fs[1..], key, value);
      KeysOfCons(fs[0], fs[1..]);
      KeysOfCons(fs[0], rest);
      assert fs == [fs[0]] + fs[1..];
    }
  }

  lemma {:induction false} KeysOfCons(f: Field, rest: seq<Field>)
    ensures forall k :: k in Keys([f] + rest) <==> k == f.key || k in Keys(rest)
    ensures Distinct(Keys([f] + rest)) <==> f.key !in Keys(rest) && Distinct(Keys(rest))
  {
    KeysCons(f, rest);
    DistinctCons(f.key, Keys(rest));
  }

  lemma {:induction false} WithValid(fs: seq<Field>, key: Text, value: Value)
    requires Valid(Obj(fs)) && Valid(value)
    ensures Valid(Obj(With(fs, key, value)))
  {
    var gs := With(fs, key, value);
    WithKeys(fs, key, value);
    WithFields(fs, key, value);
    forall i | 0 <= i < |gs| ensures Valid(gs[i].value) {
      assert gs[i] in gs;
    }
  }

  lemma {:induction false} WithFields(fs: seq<Field>, key: Text, value: Value)
    ensures forall f :: f in With(fs, key, value) ==> f == Field(key, value) || f in fs
  {
    if fs == [] || fs[0].key == key {
    } else {
      WithFields(fs[1..], key, value);
    }
  }

  lemma {:induction false} WithTwice(fs: seq<Field>, key: Text, first: Value, second: Value)
    ensures With(With(fs, key, first), key, second) == With(fs, key, second)
  {
    if fs == [] || fs[0].key == key {
    } else {
      WithTwice(fs[1..], key, first, second);
      assert ([fs[0]] + With(fs[1..], key, first))[1..] == With(fs[1..], key, first);
    }
  }

  lemma {:induction false} WithoutLookup(fs: seq<Field>, key: Text, other: Text)
    ensures Lookup(Obj(Without(fs, key)), other)
         == if other == key then Undefined else Lookup(Obj(fs), other)
  {
    if fs == [] {
    } else {
      assert fs == [fs[0]] + fs[1..];
      LookupCons(fs[0], fs[1..], other);
      WithoutLookup(fs[1..], key, other);
      if fs[0].key != key {
        LookupCons(fs[0], Without(fs[1..], key), other);
      }
    }
  }

  lemma {:induction false} WithoutKeys(fs: seq<Field>, key: Text)
    ensures forall k :: k in Keys(Without(fs, key)) <==> k != key && k in Keys(fs)
  {
    if fs == [] {
    } else {
      assert Keys(fs) == [fs[0].key] + Keys(fs[1..]);
      assert Keys([fs[0]] + Without(fs[1..], key)) == [fs[0].key] + Keys(Without(fs[1..], key));
      WithoutKeys(fs[1..], key);
    }
  }

  lemma {:induction false} WithoutFields(fs: seq<Field>, key: Text)
    ensures forall f :: f in Without(fs, key) ==> f in fs
  {
    if fs == [] {
    } else {
      WithoutFields(fs[1..], key);
    }
  }

  lemma {:induction false} WithoutDistinct(fs: seq<Field>, key: Text)
    requires Distinct(Keys(fs))
    ensures Distinct(Keys(Without(fs, key)))
  {
    if fs == [] {
    } else {
      var rest := Without(fs[1..], key);
      assert Keys(fs) == [fs[0].key] + Keys(fs[1..]);
      assert Keys([fs[0]] + rest) == [fs[0].key] + Keys(rest);
      WithoutKeys(fs[1..], key);
      WithoutDistinct(fs[1..], key);
      DistinctCons(fs[0].key, Keys(fs[1..]));
      DistinctCons(fs[0].key, Keys(rest));
    }
  }

  lemma {:induction false} WithoutValid(fs: seq<Field>, key: Text)
    requires Valid(Obj(fs))
    ensures Valid(Obj(Without(fs, key)))
  {
    var gs := Without(fs, key);
    WithoutFields(fs, key);
    WithoutDistinct(fs, key);
    forall i | 0 <= i < |gs| ensures Valid(gs[i].value) {
      assert gs[i] in gs;
    }
  }

  lemma {:induction false} LookupValid(v: Value, key: Text)
    requires Valid(v)
    ensures Valid(Lookup(v, key))
  {
  }

  // ----- Equivalence of objects, field by field -----

  lemma {:induction false} EquivalentLookup(a: Value, b: Value, key: Text)
    requires Valid(a) && Valid(b) && Equivalent(a, b)
    ensures Equivalent(Lookup(a, key), Lookup(b, key))
  {
  }

  /** Objects without one field agree, and agree on that field: they agree. */
  lemma {:induction false} EquivalentRestored(fs: seq<Field>, gs: seq<Field>, key: Text)
    requires key in Keys(fs) && key in Keys(gs)
    requires Equivalent(Obj(Without(fs, key)), Obj(Without(gs, key)))
    requires Equivalent(Get(fs, key), Get(gs, key))
    ensures Equivalent(Obj(fs), Obj(gs))
  {
    WithoutKeys(fs, key);
    WithoutKeys(gs, key);
    forall k ensures k in Keys(fs) <==> k in Keys(gs) {
      assert k in Keys(Without(fs, key)) <==> k in Keys(Without(gs, key));
    }
    forall k | k in Keys(fs) ensures Equivalent(Get(fs, k), Get(gs, k)) {
      if k != key {
        assert k in Keys(Without(fs, key));
        WithoutLookup(fs, key, k);
        WithoutLookup(gs, key, k);
      }
    }
  }

  /** Objects whose replaced field agrees, and which agreed on it before: they agree. */
  lemma {:induction false} EquivalentUnreplaced(fs: seq<Field>, gs: seq<Field>, key: Text, a: Value, b: Value)
    requires key in Keys(fs) && key in Keys(gs)
    requires Equivalent(Obj(With(fs, key, a)), Obj(With(gs, key, b)))
    requires Equivalent(Get(fs, key), Get(gs, key))
    ensures Equivalent(Obj(fs), Obj(gs))
  {
    WithKeys(fs, key, a);
    WithKeys(gs, key, b);
    forall k ensures k in Keys(fs) <==> k in Keys(gs) {
      assert k in Keys(With(fs, key, a)) <==> k in Keys(With(gs, key, b));
    }
    forall k | k in Keys(fs) ensures Equivalent(Get(fs, k), Get(gs, k)) {
      if k != key { UnreplacedAt(fs, gs, key, a, b, k); }
    }
  }

  lemma {:induction false} UnreplacedAt(fs: seq<Field>, gs: seq<Field>, key: Text, a: Value, b: Value, k: Text)
    requires k in Keys(fs) && k in Keys(gs) && k != key
    requires Equivalent(Obj(With(fs, key, a)), Obj(With(gs, key, b)))
    ensures Equivalent(Get(fs, k), Get(gs, k))
  {
    WithKeys(fs, key, a);
    assert k in Keys(With(fs, key, a));
    WithLookup(fs, key, a, k);
    WithLookup(gs, key, b, k);
  }
}
