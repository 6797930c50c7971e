/**
 The canonical serialisation that every hash is taken over, and what the JSONL
 file keeps of a value. Two values have the same canonical text exactly when
 they are equal up to the order of object keys and up to `[undefined]` for `[]`.
 */
module Canonical {
  import opened Texts
  import opened Json

  // ----- canonicalize -----

  function Canonicalize(v: Value): Text
    decreases v
  {
    match v
    case Arr(xs) => [LBRACKET] + CanonicalItems(xs) + [RBRACKET]
    case Obj(fs) =>
      SortElements(Keys(fs));
      [LBRACE] + CanonicalFields(fs, Sort(Keys(fs))) + [RBRACE]
    case _ => Print(v)
  }

  function CanonicalItems(xs: seq<Value>): Text
    decreases xs
  {
    if xs == [] then []
    else
      (if xs[0].Undefined? then [] else Canonicalize(xs[0]))
      + if |xs| == 1 then [] else [COMMA] + CanonicalItems(xs[1..])
  }

  function CanonicalFields(fs: seq<Field>, keys: seq<Text>): Text
    requires forall k :: k in keys ==> k in Keys(fs)
    decreases Obj(fs), |keys|
  {
    if keys == [] then []
    else
      Quote(keys[0]) + [COLON] + Canonicalize(Get(fs, keys[0]))
      + if |keys| == 1 then [] else [COMMA] + CanonicalFields(fs, keys[1..])
  }

  // ----- Equality up to key order -----

  /** Equal up to the order of keys, and up to an array of one undefined item for an empty one. */
  ghost predicate Equivalent(a: Value, b: Value)
    decreases a
  {
    match (a, b)
    case (Arr(xs), Arr(ys)) =>
      || (Blank(xs) && Blank(ys))
      || (|xs| == |ys| && forall i :: 0 <= i < |xs| ==> Equivalent(xs[i], ys[i]))
    case (Obj(fs), Obj(gs)) =>
      && SameElements(Keys(fs), Keys(gs))
      && forall k :: k in Keys(fs) ==> Equivalent(Get(fs, k), Get(gs, k))
    case _ => a == b
  }

  /** Equal up to the order of keys and nothing else. */
  ghost predicate SameUpToOrder(a: Value, b: Value)
    decreases a
  {
    match (a, b)
    case (Arr(xs), Arr(ys)) => |xs| == |ys| && forall i :: 0 <= i < |xs| ==> SameUpToOrder(xs[i], ys[i])
    case (Obj(fs), Obj(gs)) =>
      && SameElements(Keys(fs), Keys(gs))
      && forall k :: k in Keys(fs) ==> SameUpToOrder(Get(fs, k), Get(gs, k))
    case _ => a == b
  }

  lemma {:induction false} SettledGet(fs: seq<Field>, key: Text)
    requires Settled(Obj(fs)) && key in Keys(fs)
    ensures Settled(Get(fs, key))
  {
  }

  /** Where no array holds just one undefined item, key order is all that is forgotten. */
  lemma {:induction false} EquivalentSettled(a: Value, b: Value)
    requires Settled(a) && Settled(b)
    ensures Equivalent(a, b) <==> SameUpToOrder(a, b)
    decreases a
  {
    match (a, b)
    case (Arr(xs), Arr(ys)) =>
      forall i | 0 <= i < |xs| && i < |ys| ensures Equivalent(xs[i], ys[i]) <==> SameUpToOrder(xs[i], ys[i]) {
        EquivalentSettled(xs[i], ys[i]);
      }
    case (Obj(fs), Obj(gs)) =>
      forall k | k in Keys(fs) && k in Keys(gs)
        ensures Equivalent(Get(fs, k), Get(gs, k)) <==> SameUpToOrder(Get(fs, k), Get(gs, k))
      {
        SettledGet(fs, k);
        SettledGet(gs, k);
        EquivalentSettled(Get(fs, k), Get(gs, k));
      }
    case _ =>
  }

  // ----- The tree with its keys in order and its blank arrays empty -----

  function InOrder(v: Value): Value
    decreases v
  {
    match v
    case Arr(xs) => Arr(if Blank(xs) then [] else ItemsInOrder(xs))
    case Obj(fs) =>
      SortElements(Keys(fs));
      Obj(FieldsInOrder(fs, Sort(Keys(fs))))
    case _ => v
  }

  function ItemsInOrder(xs: seq<Value>): (ys: seq<Value>)
    ensures |ys| == |xs| && forall i :: 0 <= i < |xs| ==> ys[i] == InOrder(xs[i])
    decreases xs
  {
    if xs == [] then [] else [InOrder(xs[0])] + ItemsInOrder(xs[1..])
  }

  function FieldsInOrder(fs: seq<Field>, keys: seq<Text>): (gs: seq<Field>)
    requires forall k :: k in keys ==> k in Keys(fs)
    ensures |gs| == |keys|
    ensures forall i :: 0 <= i < |keys| ==> keys[i] in Keys(fs) && gs[i] == Field(keys[i], InOrder(Get(fs, keys[i])))
    decreases Obj(fs), |keys|
  {
    if keys == [] then []
    else [Field(keys[0], InOrder(Get(fs, keys[0])))] + FieldsInOrder(fs, keys[1..])
  }

  lemma {:induction false} FieldsInOrderKeys(fs: seq<Field>, keys: seq<Text>)
    requires forall k :: k in keys ==> k in Keys(fs)
    ensures Keys(FieldsInOrder(fs, keys)) == keys
  {
  }

  lemma {:induction false} InOrderValid(v: Value)
    requires Valid(v)
    ensures Valid(InOrder(v))
    decreases v
  {
    match v
    case Arr(xs) =>
      forall i | 0 <= i < |xs| ensures Valid(InOrder(xs[i])) { InOrderValid(xs[i]); }
    case Obj(fs) =>
      var keys := Sort(Keys(fs));
      SortElements(Keys(fs));
      SortAscending(Keys(fs));
      AscendingDistinct(keys);
      FieldsInOrderKeys(fs, keys);
      forall i | 0 <= i < |keys| ensures Valid(InOrder(Get(fs, keys[i]))) {
        assert keys[i] in Keys(fs);
        ValidGet(fs, keys[i]);
        InOrderValid(Get(fs, keys[i]));
      }
    case _ =>
  }

  lemma {:induction false} InOrderSettled(v: Value)
    ensures Settled(InOrder(v))
    decreases v
  {
    match v
    case Arr(xs) =>
      forall i | 0 <= i < |xs| ensures Settled(InOrder(xs[i])) { InOrderSettled(xs[i]); }
      ItemsInOrderBlank(xs);
    case Obj(fs) =>
      var keys := Sort(Keys(fs));
      SortElements(Keys(fs));
      forall i | 0 <= i < |keys| ensures Settled(InOrder(Get(fs, keys[i]))) {
        assert keys[i] in Keys(fs);
        InOrderSettled(Get(fs, keys[i]));
      }
    case _ =>
  }

  lemma {:induction false} ItemsInOrderBlank(xs: seq<Value>)
    ensures Blank(ItemsInOrder(xs)) <==> Blank(xs)
  {
    if |xs| == 1 {
      assert xs == [xs[0]] && ItemsInOrder(xs) == [InOrder(xs[0])];
    }
  }

  lemma {:induction false} InOrderEqual(a: Value, b: Value)
    requires Valid(a) && Valid(b) && InOrder(a) == InOrder(b)
    ensures Equivalent(a, b)
    decreases a
  {
    match (a, b)
    case (Arr(xs), Arr(ys)) =>
      ItemsInOrderBlank(xs);
      ItemsInOrderBlank(ys);
      if !Blank(xs) {
        forall i | 0 <= i < |xs| ensures Equivalent(xs[i], ys[i]) {
          assert ItemsInOrder(xs)[i] == ItemsInOrder(ys)[i];
          InOrderEqual(xs[i], ys[i]);
        }
      }
    case (Obj(fs), Obj(gs)) =>
      var ks, ls := Sort(Keys(fs)), Sort(Keys(gs));
      SortElements(Keys(fs));
      SortElements(Keys(gs));
      FieldsInOrderKeys(fs, ks);
      FieldsInOrderKeys(gs, ls);
      forall k | k in Keys(fs) ensures Equivalent(Get(fs, k), Get(gs, k)) {
        var i :| 0 <= i < |ks| && ks[i] == k;
        assert FieldsInOrder(fs, ks)[i] == FieldsInOrder(gs, ls)[i];
        ValidGet(fs, k);
        ValidGet(gs, k);
        InOrderEqual(Get(fs, k), Get(gs, k));
      }
    case _ =>
  }

  lemma {:induction false} EquivalentInOrder(a: Value, b: Value)
    requires Valid(a) && Valid(b) && Equivalent(a, b)
    ensures InOrder(a) == InOrder(b)
    decreases a
  {
    match (a, b)
    case (Arr(xs), Arr(ys)) =>
      if !Blank(xs) || !Blank(ys) {
        forall i | 0 <= i < |xs| ensures InOrder(xs[i]) == InOrder(ys[i]) { EquivalentInOrder(xs[i], ys[i]); }
        assert ItemsInOrder(xs) == ItemsInOrder(ys);
        ItemsInOrderBlank(xs);
        ItemsInOrderBlank(ys);
      }
    case (Obj(fs), Obj(gs)) =>
      var keys := Sort(Keys(fs));
      SortElements(Keys(fs));
      SortElements(Keys(gs));
      SortCanonical(Keys(fs), Keys(gs));
      forall i | 0 <= i < |keys| ensures FieldsInOrder(fs, keys)[i] == FieldsInOrder(gs, keys)[i] {
        assert keys[i] in Keys(fs);
        ValidGet(fs, keys[i]);
        ValidGet(gs, keys[i]);
        EquivalentInOrder(Get(fs, keys[i]), Get(gs, keys[i]));
      }
      assert FieldsInOrder(fs, keys) == FieldsInOrder(gs, keys);
    case _ =>
  }

  // ----- canonicalize prints the ordered tree -----

  lemma {:induction false} ScalarPrints(v: Value, k: Text)
    requires !v.Arr? && !v.Obj?
    ensures Print(v) + k == PrintTo(v, k)
  {
    var t := Print(v);
    match v
    case Undefined => assert t == UNDEFINED;
    case Null => assert t == NULL;
    case Bool(b) => assert t == if b then TRUE else FALSE;
    case Int(n) => assert t == Integer(n);
    case Num(u) => assert t == u;
    case Str(s) => assert t == Quote(s);
  }

  lemma {:induction false} Bracketed(open: Unit, body: Text, close: Unit, k: Text)
    ensures [open] + body + [close] + k == [open] + (body + ([close] + k))
  {
  }

  lemma {:induction false} EntryShape(key: Text, body: Text, rest: Text, k: Text)
    ensures Quote(key) + [COLON] + body + rest + k == EntryTo(key, body + (rest + k))
  {
  }

  lemma {:induction false} CanonicalPrints(v: Value, k: Text)
    ensures Canonicalize(v) + k == PrintTo(InOrder(v), k)
    decreases v
  {
    match v
    case Arr(xs) =>
      if Blank(xs) { assert CanonicalItems(xs) == []; }
      CanonicalItemsPrint(xs, [RBRACKET] + k);
      Bracketed(LBRACKET, CanonicalItems(xs), RBRACKET, k);
    case Obj(fs) =>
      SortElements(Keys(fs));
      CanonicalFieldsPrint(fs, Sort(Keys(fs)), [RBRACE] + k);
      Bracketed(LBRACE, CanonicalFields(fs, Sort(Keys(fs))), RBRACE, k);
    case _ => ScalarPrints(v, k);
  }

  lemma {:induction false} ScalarsInOrder(v: Value)
    ensures InOrder(v).Undefined? <==> v.Undefined?
  {
  }

  lemma {:induction false} CanonicalItemsPrint(xs: seq<Value>, k: Text)
    ensures CanonicalItems(xs) + k == ItemsTo(ItemsInOrder(xs), k)
    decreases xs
  {
    if xs == [] {
    } else if |xs| == 1 {
      CanonicalPrints(xs[0], k);
      ScalarsInOrder(xs[0]);
    } else {
      var first, rest := if xs[0].Undefined? then [] else Canonicalize(xs[0]), CanonicalItems(xs[1..]);
      CanonicalItemsPrint(xs[1..], k);
      CanonicalPrints(xs[0], [COMMA] + (rest + k));
      ScalarsInOrder(xs[0]);
      Regroup(first, [COMMA], rest);
      Regroup(first, [COMMA] + rest, k);
      Regroup([COMMA], rest, k);
      assert ItemsInOrder(xs)[1..] == ItemsInOrder(xs[1..]);
    }
  }

  lemma {:induction false} CanonicalFieldsPrint(fs: seq<Field>, keys: seq<Text>, k: Text)
    requires forall key :: key in keys ==> key in Keys(fs)
    ensures CanonicalFields(fs, keys) + k == FieldsTo(FieldsInOrder(fs, keys), k)
    decreases Obj(fs), |keys|
  {
    if keys == [] {
    } else if |keys| == 1 {
      CanonicalPrints(Get(fs, keys[0]), k);
      EntryShape(keys[0], Canonicalize(Get(fs, keys[0])), [], k);
      assert [] + k == k;
    } else {
      var rest := CanonicalFields(fs, keys[1..]);
      CanonicalFieldsPrint(fs, keys[1..], k);
      CanonicalPrints(Get(fs, keys[0]), [COMMA] + (rest + k));
      CanonicalFieldsMore(fs, keys, rest, k);
    }
  }

  /** The first of several fields, when it and the others print as they should. */
  lemma {:induction false} CanonicalFieldsMore(fs: seq<Field>, keys: seq<Text>, rest: Text, k: Text)
    requires |keys| > 1 && forall key :: key in keys ==> key in Keys(fs)
    requires rest == CanonicalFields(fs, keys[1..]) && rest + k == FieldsTo(FieldsInOrder(fs, keys[1..]), k)
    requires var v, l := Get(fs, keys[0]), [COMMA] + (rest + k); Canonicalize(v) + l == PrintTo(InOrder(v), l)
    ensures CanonicalFields(fs, keys) + k == FieldsTo(FieldsInOrder(fs, keys), k)
  {
    var ordered := FieldsInOrder(fs, keys);
    assert ordered[1..] == FieldsInOrder(fs, keys[1..]);
    EntryShape(keys[0], Canonicalize(Get(fs, keys[0])), [COMMA] + rest, k);
    Regroup([COMMA], rest, k);
  }

  /** Canonical texts agree exactly when the values are equivalent. */
  lemma {:induction false} CanonicalUnambiguous(a: Value, b: Value)
    requires Valid(a) && Valid(b)
    ensures Canonicalize(a) == Canonicalize(b) <==> Equivalent(a, b)
  {
    CanonicalPrints(a, []);
    CanonicalPrints(b, []);
    assert Canonicalize(a) + [] == Canonicalize(a) && Canonicalize(b) + [] == Canonicalize(b);
    InOrderValid(a);
    InOrderValid(b);
    InOrderSettled(a);
    InOrderSettled(b);
    if Canonicalize(a) == Canonicalize(b) {
      PrintUnambiguous(InOrder(a), [], InOrder(b), []);
      InOrderEqual(a, b);
    }
    if Equivalent(a, b) {
      EquivalentInOrder(a, b);
    }
  }

  /** An array of one undefined item and an empty array have one canonical text; no key order makes them equal. */
  lemma {:induction false} LoneUndefinedVanishes(key: Text)
    ensures Canonicalize(Arr([Undefined])) == Canonicalize(Arr([]))
    ensures Canonicalize(Obj([Field(key, Arr([Undefined]))])) == Canonicalize(Obj([Field(key, Arr([]))]))
    ensures !SameUpToOrder(Arr([Undefined]), Arr([]))
  {
    assert CanonicalItems([Undefined]) == [] == CanonicalItems([]);
    var a, b := Obj([Field(key, Arr([Undefined]))]), Obj([Field(key, Arr([]))]);
    assert Keys(a.fields) == [key] == Keys(b.fields);
    CanonicalUnambiguous(a, b);
  }

  // ----- What a JSONL line keeps of a value -----

  /** `JSON.parse(JSON.stringify(v))`: undefined fields vanish, undefined items become null. */
  function Stored(v: Value): Value
    decreases v
  {
    match v
    case Undefined => Null
    case Arr(xs) => Arr(StoredItems(xs))
    case Obj(fs) => Obj(StoredFields(fs))
    case _ => v
  }

  function StoredItems(xs: seq<Value>): (ys: seq<Value>)
    ensures |ys| == |xs| && forall i :: 0 <= i < |xs| ==> ys[i] == Stored(xs[i])
    decreases xs
  {
    if xs == [] then [] else [Stored(xs[0])] + StoredItems(xs[1..])
  }

  function StoredFields(fs: seq<Field>): seq<Field>
    decreases fs
  {
    if fs == [] then []
    else if fs[0].value.Undefined? then StoredFields(fs[1..])
    else [Field(fs[0].key, Stored(fs[0].value))] + StoredFields(fs[1..])
  }

  ghost predicate UndefinedFree(v: Value) {
    match v
    case Undefined => false
    case Arr(xs) => forall i :: 0 <= i < |xs| ==> UndefinedFree(xs[i])
    case Obj(fs) => forall i :: 0 <= i < |fs| ==> UndefinedFree(fs[i].value)
    case _ => true
  }

  lemma {:induction false} StoredUnchanged(v: Value)
    requires UndefinedFree(v)
    ensures Stored(v) == v
    decreases v
  {
    match v
    case Arr(xs) =>
      forall i | 0 <= i < |xs| ensures Stored(xs[i]) == xs[i] { StoredUnchanged(xs[i]); }
    case Obj(fs) => StoredFieldsUnchanged(fs);
    case _ =>
  }

  lemma {:induction false} StoredFieldsUnchanged(fs: seq<Field>)
    requires forall i :: 0 <= i < |fs| ==> UndefinedFree(fs[i].value)
    ensures StoredFields(fs) == fs
    decreases fs
  {
    if fs == [] {
    } else {
      StoredUnchanged(fs[0].value);
      StoredFieldsUnchanged(fs[1..]);
    }
  }

  /** Every stored field is the stored form of a defined field. */
  lemma {:induction false} StoredFieldOrigin(fs: seq<Field>, i: nat)
    requires i < |StoredFields(fs)|
    ensures exists j :: 0 <= j < |fs| && !fs[j].value.Undefined?
                        && StoredFields(fs)[i] == Field(fs[j].key, Stored(fs[j].value))
    decreases fs
  {
    if !fs[0].value.Undefined? && i == 0 {
    } else {
      var i' := if fs[0].value.Undefined? then i else i - 1;
      StoredFieldOrigin(fs[1..], i');
      var j :| 0 <= j < |fs[1..]| && !fs[1..][j].value.Undefined?
               && StoredFields(fs[1..])[i'] == Field(fs[1..][j].key, Stored(fs[1..][j].value));
      assert fs[j + 1] == fs[1..][j];
    }
  }

  lemma {:induction false} StoredUndefinedFree(v: Value)
    ensures UndefinedFree(Stored(v))
    decreases v
  {
    match v
    case Arr(xs) =>
      forall i | 0 <= i < |xs| ensures UndefinedFree(Stored(xs[i])) { StoredUndefinedFree(xs[i]); }
    case Obj(fs) =>
      forall i | 0 <= i < |StoredFields(fs)| ensures UndefinedFree(StoredFields(fs)[i].value) {
        StoredFieldOrigin(fs, i);
        var j :| 0 <= j < |fs| && !fs[j].value.Undefined?
                 && StoredFields(fs)[i] == Field(fs[j].key, Stored(fs[j].value));
        StoredUndefinedFree(fs[j].value);
      }
    case _ =>
  }

  lemma {:induction false} UndefinedFreeSettled(v: Value)
    requires UndefinedFree(v)
    ensures Settled(v)
    decreases v
  {
    match v
    case Arr(xs) =>
      forall i | 0 <= i < |xs| ensures Settled(xs[i]) { UndefinedFreeSettled(xs[i]); }
      assert xs != [] ==> UndefinedFree(xs[0]);
    case Obj(fs) =>
      forall i | 0 <= i < |fs| ensures Settled(fs[i].value) { UndefinedFreeSettled(fs[i].value); }
    case _ =>
  }

  /** Values read from a file are equivalent exactly when they are equal up to key order. */
  lemma {:induction false} EquivalentDefined(a: Value, b: Value)
    requires UndefinedFree(a) && UndefinedFree(b)
    ensures Equivalent(a, b) <==> SameUpToOrder(a, b)
  {
    UndefinedFreeSettled(a);
    UndefinedFreeSettled(b);
    EquivalentSettled(a, b);
  }

  lemma {:induction false} StoredGet(fs: seq<Field>, i: nat)
    requires i < |fs| && Distinct(Keys(fs)) && fs[i].key in Keys(StoredFields(fs))
    ensures !fs[i].value.Undefined? && Get(StoredFields(fs), fs[i].key) == Stored(fs[i].value)
  {
    var gs, key := StoredFields(fs), fs[i].key;
    var m := IndexOf(gs, key);
    StoredFieldOrigin(fs, m);
    var j :| 0 <= j < |fs| && !fs[j].value.Undefined? && gs[m] == Field(fs[j].key, Stored(fs[j].value));
    assert Keys(fs)[j] == Keys(fs)[i];
  }

  lemma {:induction false} LoneStored()
    ensures StoredItems([Undefined]) == [Null]
  {
    assert StoredItems([Undefined]) == [Stored(Undefined)] + StoredItems([Undefined][1..]);
  }

  /** Storing changes any value that holds `undefined`. */
  lemma {:induction false} StoredKeeps(v: Value)
    requires Valid(v) && Equivalent(Stored(v), v)
    ensures UndefinedFree(v)
    decreases v
  {
    match v
    case Arr(xs) =>
      LoneStored();
      forall i | 0 <= i < |xs| ensures UndefinedFree(xs[i]) { StoredKeeps(xs[i]); }
    case Obj(fs) =>
      forall i | 0 <= i < |fs| ensures UndefinedFree(fs[i].value) {
        assert fs[i].key in Keys(fs);
        GetAt(fs, i);
        StoredGet(fs, i);
        StoredKeeps(fs[i].value);
      }
    case _ =>
  }

  lemma {:induction false} StoredFieldsDistinct(fs: seq<Field>)
    requires Distinct(Keys(fs))
    ensures Distinct(Keys(StoredFields(fs)))
    ensures forall k :: k in Keys(StoredFields(fs)) ==> k in Keys(fs)
    decreases fs
  {
    if fs == [] {
    } else {
      var ks := Keys(fs);
      assert ks[1..] == Keys(fs[1..]);
      StoredFieldsDistinct(fs[1..]);
      var rest := Keys(StoredFields(fs[1..]));
      assert ks == [ks[0]] + ks[1..];
      DistinctCons(ks[0], ks[1..]);
      DistinctCons(ks[0], rest);
      assert !fs[0].value.Undefined? ==> Keys(StoredFields(fs)) == [ks[0]] + rest;
    }
  }

  lemma {:induction false} StoredValid(v: Value)
    requires Valid(v)
    ensures Valid(Stored(v))
    decreases v
  {
    match v
    case Arr(xs) =>
      forall i | 0 <= i < |xs| ensures Valid(Stored(xs[i])) { StoredValid(xs[i]); }
    case Obj(fs) =>
      StoredFieldsDistinct(fs);
      forall i | 0 <= i < |StoredFields(fs)| ensures Valid(StoredFields(fs)[i].value) {
        StoredFieldOrigin(fs, i);
        var j :| 0 <= j < |fs| && !fs[j].value.Undefined?
                 && StoredFields(fs)[i] == Field(fs[j].key, Stored(fs[j].value));
        StoredValid(fs[j].value);
      }
    case _ =>
  }

  /** Storing a value keeps its canonical text exactly when it holds no `undefined`. */
  lemma {:induction false} StoredCanonicalText(v: Value)
    requires Valid(v)
    ensures Canonicalize(Stored(v)) == Canonicalize(v) <==> UndefinedFree(v)
  {
    StoredValid(v);
    CanonicalUnambiguous(Stored(v), v);
    if UndefinedFree(v) {
      StoredUnchanged(v);
    }
    if Equivalent(Stored(v), v) {
      StoredKeeps(v);
    }
  }
}
