/**
 The additional authenticated data of crypto envelopes: keys and strings are
 normalised, a clash of normalised keys fails closed, and the entries of an
 object are put in the order of their own texts.
 */
module CryptoAad {
  import Sorting
  import opened Options
  import opened Texts
  import opened Json
  import opened Canonical

  /** Unicode normalisation form KC; nothing about it is assumed. */
  type Normalizer = Text -> Text

  // ----- canonicalizeCryptoAad -----

  function Join(texts: seq<Text>): Text {
    if texts == [] then []
    else texts[0] + if |texts| == 1 then [] else [COMMA] + Join(texts[1..])
  }

  /** None when two keys of one object normalise alike. `join` prints an undefined item as nothing. */
  function CanonicalizeCryptoAad(n: Normalizer, v: Value): Option<Text>
    decreases v
  {
    match v
    case Arr(xs) =>
      var parts := AadItems(n, xs);
      if parts.None? then None else Some([LBRACKET] + Join(parts.value) + [RBRACKET])
    case Obj(fs) =>
      var entries := AadEntries(n, fs, {});
      if entries.None? then None else Some([LBRACE] + Join(Sort(entries.value)) + [RBRACE])
    case Str(s) => Some(Quote(n(s)))
    case _ => Some(Print(v))
  }

  function AadItems(n: Normalizer, xs: seq<Value>): Option<seq<Text>>
    decreases xs
  {
    if xs == [] then Some([])
    else
      var first, rest := if xs[0].Undefined? then Some([]) else CanonicalizeCryptoAad(n, xs[0]), AadItems(n, xs[1..]);
      if first.None? || rest.None? then None else Some([first.value] + rest.value)
  }

  function AadEntries(n: Normalizer, fs: seq<Field>, seen: set<Text>): Option<seq<Text>>
    decreases fs
  {
    if fs == [] then Some([])
    else
      var key := n(fs[0].key);
      if key in seen then None
      else
        var first, rest := CanonicalizeCryptoAad(n, fs[0].value), AadEntries(n, fs[1..], seen + {key});
        if first.None? || rest.None? then None
        else Some([Quote(key) + [COLON] + first.value] + rest.value)
  }

  // ----- The normalised tree -----

  function Normalized(n: Normalizer, v: Value): Value
    decreases v
  {
    match v
    case Arr(xs) => Arr(NormalizedItems(n, xs))
    case Obj(fs) => Obj(NormalizedFields(n, fs))
    case Str(s) => Str(n(s))
    case _ => v
  }

  function NormalizedItems(n: Normalizer, xs: seq<Value>): (ys: seq<Value>)
    ensures |ys| == |xs| && forall i :: 0 <= i < |xs| ==> ys[i] == Normalized(n, xs[i])
    decreases xs
  {
    if xs == [] then [] else [Normalized(n, xs[0])] + NormalizedItems(n, xs[1..])
  }

  function NormalizedFields(n: Normalizer, fs: seq<Field>): (gs: seq<Field>)
    ensures |gs| == |fs|
    ensures forall i :: 0 <= i < |fs| ==> gs[i] == Field(n(fs[i].key), Normalized(n, fs[i].value))
    decreases fs
  {
    if fs == [] then []
    else [Field(n(fs[0].key), Normalized(n, fs[0].value))] + NormalizedFields(n, fs[1..])
  }

  /** Some object, at any depth, has two keys that normalise alike. */
  ghost predicate Collides(n: Normalizer, v: Value) {
    match v
    case Arr(xs) => exists i :: 0 <= i < |xs| && Collides(n, xs[i])
    case Obj(fs) => !Distinct(Keys(NormalizedFields(n, fs))) || exists i :: 0 <= i < |fs| && Collides(n, fs[i].value)
    case _ => false
  }

  lemma {:induction false} NormalizedValid(n: Normalizer, v: Value)
    requires Valid(v) && !Collides(n, v)
    ensures Valid(Normalized(n, v))
    decreases v
  {
    match v
    case Arr(xs) =>
      forall i | 0 <= i < |xs| ensures Valid(Normalized(n, xs[i])) { NormalizedValid(n, xs[i]); }
    case Obj(fs) =>
      forall i | 0 <= i < |fs| ensures Valid(Normalized(n, fs[i].value)) { NormalizedValid(n, fs[i].value); }
    case _ =>
  }

  // ----- The tree with entries in the order of their texts -----

  function EntryText(f: Field): Text { Quote(f.key) + [COLON] + Print(f.value) }

  function EntryTexts(fs: seq<Field>): (ts: seq<Text>)
    ensures |ts| == |fs| && forall i :: 0 <= i < |fs| ==> ts[i] == EntryText(fs[i])
  {
    seq(|fs|, i requires 0 <= i < |fs| => EntryText(fs[i]))
  }

  predicate EntryLess(f: Field, g: Field) { Less(EntryText(f), EntryText(g)) }

  function SortFields(fs: seq<Field>): seq<Field> {
    Sorting.Sort(EntryLess, fs)
  }

  function Arranged(v: Value): Value
    decreases v
  {
    match v
    case Arr(xs) => Arr(if Blank(xs) then [] else ArrangedItems(xs))
    case Obj(fs) => Obj(SortFields(ArrangedFields(fs)))
    case _ => v
  }

  function ArrangedItems(xs: seq<Value>): (ys: seq<Value>)
    ensures |ys| == |xs| && forall i :: 0 <= i < |xs| ==> ys[i] == Arranged(xs[i])
    decreases xs
  {
    if xs == [] then [] else [Arranged(xs[0])] + ArrangedItems(xs[1..])
  }

  function ArrangedFields(fs: seq<Field>): (gs: seq<Field>)
    ensures |gs| == |fs| && forall i :: 0 <= i < |fs| ==> gs[i] == Field(fs[i].key, Arranged(fs[i].value))
    decreases fs
  {
    if fs == [] then [] else [Field(fs[0].key, Arranged(fs[0].value))] + ArrangedFields(fs[1..])
  }

  // ----- Sorting fields by text sorts their texts -----

  lemma {:induction false} EntryTextsCons(f: Field, fs: seq<Field>)
    ensures EntryTexts([f] + fs) == [EntryText(f)] + EntryTexts(fs)
  {
  }

  lemma {:induction false} InsertFieldTexts(f: Field, fs: seq<Field>)
    ensures EntryTexts(Sorting.Insert(EntryLess, f, fs)) == Sorting.Insert(Less, EntryText(f), EntryTexts(fs))
  {
    if fs == [] {
      EntryTextsCons(f, fs);
    } else {
      var g, rest := fs[0], fs[1..];
      assert fs == [g] + rest;
      EntryTextsCons(g, rest);
      EntryTextsCons(f, fs);
      Sorting.InsertCons(EntryLess, f, g, rest);
      Sorting.InsertCons(Less, EntryText(f), EntryText(g), EntryTexts(rest));
      if !EntryLess(f, g) {
        InsertFieldTexts(f, rest);
        EntryTextsCons(g, Sorting.Insert(EntryLess, f, rest));
      }
    }
  }

  lemma {:induction false} SortFieldsTexts(fs: seq<Field>)
    ensures EntryTexts(SortFields(fs)) == Sort(EntryTexts(fs))
    ensures forall g :: g in SortFields(fs) <==> g in fs
  {
    Sorting.SortElements(EntryLess, fs);
    if fs == [] {
      assert EntryTexts(SortFields(fs)) == [];
    } else {
      SortFieldsTexts(fs[1..]);
      InsertFieldTexts(fs[0], SortFields(fs[1..]));
      assert EntryTexts(fs)[1..] == EntryTexts(fs[1..]);
    }
  }

  /** Values whose texts tell them apart. */
  ghost predicate FieldsValid(fs: seq<Field>) {
    forall i :: 0 <= i < |fs| ==> Valid(fs[i].value) && Settled(fs[i].value)
  }

  lemma {:induction false} EntryTextIs(f: Field)
    ensures EntryText(f) == EntryTo(f.key, Print(f.value))
  {
  }

  lemma {:induction false} EntryTextInjective(f: Field, g: Field)
    requires Valid(f.value) && Valid(g.value) && Settled(f.value) && Settled(g.value)
    requires EntryText(f) == EntryText(g)
    ensures f == g
  {
    EntryTextIs(f);
    EntryTextIs(g);
    EntryUnambiguous(f.key, Print(f.value), g.key, Print(g.value));
    PrintUnambiguous(f.value, [], g.value, []);
  }

  lemma {:induction false} EntryTextsDistinct(fs: seq<Field>)
    requires FieldsValid(fs) && Distinct(Keys(fs))
    ensures Distinct(EntryTexts(fs))
  {
    forall i, j | 0 <= i < j < |fs| ensures EntryTexts(fs)[i] != EntryTexts(fs)[j] {
      assert Keys(fs)[i] != Keys(fs)[j];
      if EntryText(fs[i]) == EntryText(fs[j]) {
        EntryTextInjective(fs[i], fs[j]);
        assert false;
      }
    }
  }

  /** Sorting keeps keys distinct. */
  lemma {:induction false} SortFieldsDistinct(fs: seq<Field>)
    requires FieldsValid(fs) && Distinct(Keys(fs))
    ensures Distinct(Keys(SortFields(fs))) && FieldsValid(SortFields(fs))
  {
    var gs := SortFields(fs);
    SortFieldsTexts(fs);
    EntryTextsDistinct(fs);
    SortAscending(EntryTexts(fs));
    AscendingDistinct(EntryTexts(gs));
    forall i | 0 <= i < |gs| ensures Valid(gs[i].value) && Settled(gs[i].value) { assert gs[i] in fs; }
    forall i, j | 0 <= i < j < |gs| ensures Keys(gs)[i] != Keys(gs)[j] {
      assert EntryTexts(gs)[i] != EntryTexts(gs)[j];
      assert gs[i] in fs && gs[j] in fs;
      if gs[i].key == gs[j].key {
        SameKeySameField(fs, gs[i], gs[j]);
        assert false;
      }
    }
  }

  lemma {:induction false} SameKeySameField(fs: seq<Field>, f: Field, g: Field)
    requires Distinct(Keys(fs)) && f in fs && g in fs && f.key == g.key
    ensures f == g
  {
    var i :| 0 <= i < |fs| && fs[i] == f;
    var j :| 0 <= j < |fs| && fs[j] == g;
    assert Keys(fs)[i] == Keys(fs)[j];
  }

  /** Sorted fields are determined by which fields there are. */
  lemma {:induction false} SortFieldsCanonical(fs: seq<Field>, gs: seq<Field>)
    requires FieldsValid(fs) && FieldsValid(gs) && Distinct(Keys(fs)) && Distinct(Keys(gs))
    requires SameElements(fs, gs)
    ensures SortFields(fs) == SortFields(gs)
  {
    EntryTextsDistinct(fs);
    EntryTextsDistinct(gs);
    forall t ensures t in EntryTexts(fs) <==> t in EntryTexts(gs) {
      TextOfShared(fs, gs, t);
      TextOfShared(gs, fs, t);
    }
    SortCanonical(EntryTexts(fs), EntryTexts(gs));
    SortFieldsTexts(fs);
    SortFieldsTexts(gs);
    SortFieldsDistinct(fs);
    SortFieldsDistinct(gs);
    SameTextsSameFields(SortFields(fs), SortFields(gs));
  }

  lemma {:induction false} TextOfShared(fs: seq<Field>, gs: seq<Field>, t: Text)
    requires SameElements(fs, gs)
    ensures t in EntryTexts(fs) ==> t in EntryTexts(gs)
  {
    if t in EntryTexts(fs) {
      var i :| 0 <= i < |fs| && EntryTexts(fs)[i] == t;
      assert fs[i] in gs;
      var j :| 0 <= j < |gs| && gs[j] == fs[i];
      assert EntryTexts(gs)[j] == t;
    }
  }

  lemma {:induction false} SameTextsSameFields(fs: seq<Field>, gs: seq<Field>)
    requires FieldsValid(fs) && FieldsValid(gs) && EntryTexts(fs) == EntryTexts(gs)
    ensures fs == gs
  {
    assert |fs| == |EntryTexts(fs)| == |gs|;
    forall i | 0 <= i < |fs| ensures fs[i] == gs[i] {
      assert EntryTexts(fs)[i] == EntryTexts(gs)[i];
      EntryTextInjective(fs[i], gs[i]);
    }
  }

  // ----- Arranging keeps a value up to key order, and forgets that order -----

  lemma {:induction false} ArrangedValid(v: Value)
    requires Valid(v)
    ensures Valid(Arranged(v)) && Settled(Arranged(v))
    decreases v
  {
    match v
    case Arr(xs) =>
      forall i | 0 <= i < |xs| ensures Valid(Arranged(xs[i])) && Settled(Arranged(xs[i])) { ArrangedValid(xs[i]); }
      ArrangedBlank(xs);
    case Obj(fs) =>
      ArrangedFieldsValid(fs);
      SortFieldsDistinct(ArrangedFields(fs));
    case _ =>
  }

  lemma {:induction false} ArrangedBlank(xs: seq<Value>)
    ensures Blank(ArrangedItems(xs)) <==> Blank(xs)
  {
    if |xs| == 1 {
      assert xs == [xs[0]] && ArrangedItems(xs) == [Arranged(xs[0])];
    }
  }

  lemma {:induction false} ArrangedFieldsValid(fs: seq<Field>)
    requires Valid(Obj(fs))
    ensures FieldsValid(ArrangedFields(fs)) && Keys(ArrangedFields(fs)) == Keys(fs)
    decreases fs
  {
    forall i | 0 <= i < |fs| ensures Valid(Arranged(fs[i].value)) && Settled(Arranged(fs[i].value)) {
      ArrangedValid(fs[i].value);
    }
  }

  /** `Get` after arranging. */
  lemma {:induction false} GetArranged(fs: seq<Field>, key: Text)
    requires Valid(Obj(fs)) && key in Keys(fs)
    ensures key in Keys(SortFields(ArrangedFields(fs)))
    ensures Get(SortFields(ArrangedFields(fs)), key) == Arranged(Get(fs, key))
  {
    var i := IndexOf(fs, key);
    var gs := ArrangedFields(fs);
    var hs := SortFields(gs);
    ArrangedFieldsValid(fs);
    SortFieldsTexts(gs);
    SortFieldsDistinct(gs);
    assert gs[i] in hs;
    var j :| 0 <= j < |hs| && hs[j] == gs[i];
    GetAt(hs, j);
  }

  lemma {:induction false} ArrangedKeys(fs: seq<Field>, key: Text)
    requires Valid(Obj(fs)) && key in Keys(SortFields(ArrangedFields(fs)))
    ensures key in Keys(fs)
  {
    var gs := ArrangedFields(fs);
    var hs := SortFields(gs);
    SortFieldsTexts(gs);
    assert hs[IndexOf(hs, key)] in gs;
    var i :| 0 <= i < |gs| && gs[i] == hs[IndexOf(hs, key)];
    assert Keys(fs)[i] == key;
  }

  lemma {:induction false} ArrangedEquivalent(v: Value)
    requires Valid(v)
    ensures Equivalent(Arranged(v), v)
    decreases v
  {
    match v
    case Arr(xs) =>
      forall i | 0 <= i < |xs| ensures Equivalent(Arranged(xs[i]), xs[i]) { ArrangedEquivalent(xs[i]); }
    case Obj(fs) =>
      var hs := SortFields(ArrangedFields(fs));
      forall k ensures k in Keys(hs) <==> k in Keys(fs) {
        if k in Keys(fs) { GetArranged(fs, k); }
        if k in Keys(hs) { ArrangedKeys(fs, k); }
      }
      forall k | k in Keys(hs) ensures Equivalent(Get(hs, k), Get(fs, k)) {
        GetArranged(fs, k);
        ValidGet(fs, k);
        ArrangedEquivalent(Get(fs, k));
      }
    case _ =>
  }

  lemma {:induction false} ArrangedEqual(a: Value, b: Value)
    requires Valid(a) && Valid(b) && Arranged(a) == Arranged(b)
    ensures Equivalent(a, b)
  {
    ArrangedValid(a);
    ArrangedEquivalent(a);
    ArrangedEquivalent(b);
    EquivalentInOrder(Arranged(a), a);
    EquivalentInOrder(Arranged(b), b);
    InOrderEqual(a, b);
  }

  lemma {:induction false} EquivalentArranged(a: Value, b: Value)
    requires Valid(a) && Valid(b) && Equivalent(a, b)
    ensures Arranged(a) == Arranged(b)
    decreases a
  {
    match (a, b)
    case (Arr(xs), Arr(ys)) =>
      if !Blank(xs) || !Blank(ys) {
        forall i | 0 <= i < |xs| ensures Arranged(xs[i]) == Arranged(ys[i]) { EquivalentArranged(xs[i], ys[i]); }
        assert ArrangedItems(xs) == ArrangedItems(ys);
        ArrangedBlank(xs);
        ArrangedBlank(ys);
      }
    case (Obj(fs), Obj(gs)) =>
      forall k | k in Keys(fs) ensures Arranged(Get(fs, k)) == Arranged(Get(gs, k)) {
        ValidGet(fs, k);
        ValidGet(gs, k);
        EquivalentArranged(Get(fs, k), Get(gs, k));
      }
      SameArrangedFields(fs, gs);
      ArrangedFieldsValid(fs);
      ArrangedFieldsValid(gs);
      SortFieldsCanonical(ArrangedFields(fs), ArrangedFields(gs));
    case _ =>
  }

  lemma {:induction false} SameArrangedFields(fs: seq<Field>, gs: seq<Field>)
    requires Valid(Obj(fs)) && Valid(Obj(gs)) && SameElements(Keys(fs), Keys(gs))
    requires forall k :: k in Keys(fs) ==> Arranged(Get(fs, k)) == Arranged(Get(gs, k))
    ensures SameElements(ArrangedFields(fs), ArrangedFields(gs))
  {
    forall f ensures f in ArrangedFields(fs) <==> f in ArrangedFields(gs) {
      ArrangedFieldShared(fs, gs, f);
      ArrangedFieldShared(gs, fs, f);
    }
  }

  lemma {:induction false} ArrangedFieldShared(fs: seq<Field>, gs: seq<Field>, f: Field)
    requires Valid(Obj(fs)) && Valid(Obj(gs)) && SameElements(Keys(fs), Keys(gs))
    requires forall k :: k in Keys(fs) ==> Arranged(Get(fs, k)) == Arranged(Get(gs, k))
    ensures f in ArrangedFields(fs) ==> f in ArrangedFields(gs)
  {
    if f in ArrangedFields(fs) {
      var i :| 0 <= i < |fs| && ArrangedFields(fs)[i] == f;
      GetAt(fs, i);
      var k := fs[i].key;
      assert k in Keys(gs);
      assert ArrangedFields(gs)[IndexOf(gs, k)] == f;
    }
  }

  // ----- The text is the print of the arranged normalised tree -----

  lemma {:induction false} PrintAppend(v: Value, k: Text, l: Text)
    ensures PrintTo(v, k + l) == PrintTo(v, k) + l
    decreases v
  {
    match v
    case Arr(xs) =>
      ItemsAppend(xs, [RBRACKET] + k, l);
      Regroup([RBRACKET], k, l);
      Regroup([LBRACKET], ItemsTo(xs, [RBRACKET] + k), l);
    case Obj(fs) =>
      FieldsAppend(fs, [RBRACE] + k, l);
      Regroup([RBRACE], k, l);
      Regroup([LBRACE], FieldsTo(fs, [RBRACE] + k), l);
    case _ => ScalarAppend(v, k, l);
  }

  lemma {:induction false} ScalarAppend(v: Value, k: Text, l: Text)
    requires !v.Arr? && !v.Obj?
    ensures PrintTo(v, k + l) == PrintTo(v, k) + l
  {
    ScalarPrints(v, k);
    ScalarPrints(v, k + l);
    Regroup(Print(v), k, l);
  }

  lemma {:induction false} ItemsAppend(xs: seq<Value>, k: Text, l: Text)
    ensures ItemsTo(xs, k + l) == ItemsTo(xs, k) + l
    decreases xs
  {
    if xs == [] {
    } else if |xs| == 1 {
      PrintAppend(xs[0], k, l);
    } else {
      ItemsAppend(xs[1..], k, l);
      PrintAppend(xs[0], [COMMA] + ItemsTo(xs[1..], k), l);
      assert [COMMA] + (ItemsTo(xs[1..], k) + l) == ([COMMA] + ItemsTo(xs[1..], k)) + l;
    }
  }

  lemma {:induction false} FieldsAppend(fs: seq<Field>, k: Text, l: Text)
    ensures FieldsTo(fs, k + l) == FieldsTo(fs, k) + l
    decreases fs
  {
    if fs == [] {
    } else {
      var rest := if |fs| == 1 then k else [COMMA] + FieldsTo(fs[1..], k);
      if |fs| > 1 {
        FieldsAppend(fs[1..], k, l);
        assert [COMMA] + (FieldsTo(fs[1..], k) + l) == rest + l;
      }
      PrintAppend(fs[0].value, rest, l);
      EntryAppend(fs[0].key, PrintTo(fs[0].value, rest), l);
    }
  }

  lemma {:induction false} EntryAppend(key: Text, k: Text, l: Text)
    ensures EntryTo(key, k + l) == EntryTo(key, k) + l
  {
  }

  lemma {:induction false} PrintThen(v: Value, k: Text)
    ensures Print(v) + k == PrintTo(v, k)
  {
    PrintAppend(v, [], k);
    assert [] + k == k;
  }

  lemma {:induction false} JoinEntries(fs: seq<Field>, k: Text)
    ensures Join(EntryTexts(fs)) + k == FieldsTo(fs, k)
  {
    if fs == [] {
    } else {
      var texts := EntryTexts(fs);
      var f := fs[0];
      if |fs| == 1 {
        PrintThen(f.value, k);
        assert [] + k == k;
        EntryShape(f.key, Print(f.value), [], k);
        assert texts[0] + [] + k == Quote(f.key) + [COLON] + Print(f.value) + [] + k;
      } else {
        var rest := Join(texts[1..]);
        assert texts[1..] == EntryTexts(fs[1..]);
        JoinEntries(fs[1..], k);
        PrintThen(f.value, [COMMA] + (rest + k));
        EntryShape(f.key, Print(f.value), [COMMA] + rest, k);
        Regroup([COMMA], rest, k);
      }
    }
  }

  /** What `join` prints of an item. */
  function ItemText(v: Value): Text { if v.Undefined? then [] else Print(v) }

  lemma {:induction false} JoinItems(xs: seq<Value>, texts: seq<Text>, k: Text)
    requires |texts| == |xs| && forall i :: 0 <= i < |xs| ==> texts[i] == ItemText(xs[i])
    ensures Join(texts) + k == ItemsTo(xs, k)
  {
    if xs == [] {
    } else if |xs| == 1 {
      PrintThen(xs[0], k);
      assert texts[0] + [] + k == texts[0] + k;
    } else {
      JoinItems(xs[1..], texts[1..], k);
      PrintThen(xs[0], [COMMA] + (Join(texts[1..]) + k));
      JoinHead(texts[0], Join(texts[1..]), k);
    }
  }

  lemma {:induction false} JoinHead(head: Text, rest: Text, k: Text)
    ensures head + ([COMMA] + rest) + k == head + ([COMMA] + (rest + k))
  {
    Regroup([COMMA], rest, k);
    Regroup(head, [COMMA] + rest, k);
  }

  /**
   The encoding fails exactly when two keys of one object normalise alike, and
   otherwise prints the normalised tree with its entries in text order.
   */
  lemma {:induction false} CryptoAadText(n: Normalizer, v: Value)
    ensures CanonicalizeCryptoAad(n, v)
         == if Collides(n, v) then None else Some(Print(Arranged(Normalized(n, v))))
    decreases v, 1
  {
    match v
    case Arr(xs) => CryptoAadArray(n, xs);
    case Obj(fs) => CryptoAadObject(n, fs);
    case Str(s) => assert Quote(n(s)) + [] == Quote(n(s));
    case _ =>
  }

  lemma {:induction false} CryptoAadArray(n: Normalizer, xs: seq<Value>)
    ensures CanonicalizeCryptoAad(n, Arr(xs))
         == if Collides(n, Arr(xs)) then None else Some(Print(Arranged(Arr(NormalizedItems(n, xs)))))
    decreases Arr(xs), 0
  {
    var ys := NormalizedItems(n, xs);
    AadItemsText(n, xs);
    if !Collides(n, Arr(xs)) {
      ArrayPrints(ArrangedItems(ys), AadItems(n, xs).value);
      if Blank(ys) { BlankPrints(ArrangedItems(ys)); }
    }
  }

  lemma {:induction false} CryptoAadObject(n: Normalizer, fs: seq<Field>)
    ensures CanonicalizeCryptoAad(n, Obj(fs))
         == if Collides(n, Obj(fs)) then None
            else Some(Print(Obj(SortFields(ArrangedFields(NormalizedFields(n, fs))))))
    decreases Obj(fs), 0
  {
    AadEntriesText(n, fs, {});
    assert EntriesFail(n, fs, {}) <==> Collides(n, Obj(fs));
    if !Collides(n, Obj(fs)) {
      ObjectPrints(ArrangedFields(NormalizedFields(n, fs)));
    }
  }

  lemma {:induction false} ArrayPrints(xs: seq<Value>, texts: seq<Text>)
    requires |texts| == |xs| && forall i :: 0 <= i < |xs| ==> texts[i] == ItemText(xs[i])
    ensures [LBRACKET] + Join(texts) + [RBRACKET] == Print(Arr(xs))
  {
    JoinItems(xs, texts, [RBRACKET]);
    Regroup([LBRACKET], Join(texts), [RBRACKET]);
    assert [RBRACKET] + [] == [RBRACKET];
  }

  lemma {:induction false} BlankPrints(xs: seq<Value>)
    requires Blank(xs)
    ensures Print(Arr(xs)) == Print(Arr([]))
  {
    assert ItemsTo(xs, [RBRACKET] + []) == ItemsTo([], [RBRACKET] + []);
  }

  lemma {:induction false} ObjectPrints(fs: seq<Field>)
    ensures [LBRACE] + Join(Sort(EntryTexts(fs))) + [RBRACE] == Print(Obj(SortFields(fs)))
  {
    SortFieldsTexts(fs);
    JoinEntries(SortFields(fs), [RBRACE]);
    Regroup([LBRACE], Join(Sort(EntryTexts(fs))), [RBRACE]);
    assert [RBRACE] + [] == [RBRACE];
  }

  ghost predicate AnyItemCollides(n: Normalizer, xs: seq<Value>) {
    exists i :: 0 <= i < |xs| && Collides(n, xs[i])
  }

  lemma {:induction false} AnyItemCons(n: Normalizer, x: Value, rest: seq<Value>)
    ensures AnyItemCollides(n, [x] + rest) <==> Collides(n, x) || AnyItemCollides(n, rest)
  {
    var xs := [x] + rest;
    assert forall i :: 0 <= i < |rest| ==> xs[i + 1] == rest[i];
    if Collides(n, x) { assert Collides(n, xs[0]); }
  }

  ghost predicate ItemTexts(n: Normalizer, xs: seq<Value>, texts: seq<Text>) {
    && |texts| == |xs|
    && forall i :: 0 <= i < |xs| ==> texts[i] == ItemText(Arranged(Normalized(n, xs[i])))
  }

  lemma {:induction false} AadItemsText(n: Normalizer, xs: seq<Value>)
    ensures AadItems(n, xs).None? <==> AnyItemCollides(n, xs)
    ensures AadItems(n, xs).Some? ==> ItemTexts(n, xs, AadItems(n, xs).value)
    decreases xs
  {
    if xs == [] {
    } else {
      var x, rest := xs[0], xs[1..];
      CryptoAadText(n, x);
      AadItemsText(n, rest);
      assert xs == [x] + rest;
      AnyItemCons(n, x, rest);
    }
  }

  ghost predicate AnySeen(n: Normalizer, fs: seq<Field>, seen: set<Text>) {
    exists i :: 0 <= i < |fs| && n(fs[i].key) in seen
  }

  ghost predicate AnyCollides(n: Normalizer, fs: seq<Field>) {
    exists i :: 0 <= i < |fs| && Collides(n, fs[i].value)
  }

  /** The loop over an object's keys fails, given the normalised keys seen before. */
  ghost predicate EntriesFail(n: Normalizer, fs: seq<Field>, seen: set<Text>) {
    AnySeen(n, fs, seen) || !Distinct(Keys(NormalizedFields(n, fs))) || AnyCollides(n, fs)
  }

  lemma {:induction false} AnySeenStep(n: Normalizer, f: Field, fs: seq<Field>, seen: set<Text>)
    ensures AnySeen(n, [f] + fs, seen) <==> n(f.key) in seen || AnySeen(n, fs, seen)
    ensures AnySeen(n, fs, seen + {n(f.key)}) <==>
      AnySeen(n, fs, seen) || n(f.key) in Keys(NormalizedFields(n, fs))
  {
    var gs := [f] + fs;
    assert gs[0] == f && forall i :: 0 <= i < |fs| ==> gs[i + 1] == fs[i];
    assert forall i :: 0 <= i < |fs| ==> Keys(NormalizedFields(n, fs))[i] == n(fs[i].key);
  }

  lemma {:induction false} AnyCollidesStep(n: Normalizer, f: Field, fs: seq<Field>)
    ensures AnyCollides(n, [f] + fs) <==> Collides(n, f.value) || AnyCollides(n, fs)
  {
    var gs := [f] + fs;
    assert gs[0] == f && forall i :: 0 <= i < |fs| ==> gs[i + 1] == fs[i];
  }

  lemma {:induction false} EntriesFailStep(n: Normalizer, f: Field, fs: seq<Field>, seen: set<Text>)
    ensures EntriesFail(n, [f] + fs, seen) <==>
      n(f.key) in seen || Collides(n, f.value) || EntriesFail(n, fs, seen + {n(f.key)})
  {
    AnySeenStep(n, f, fs, seen);
    AnyCollidesStep(n, f, fs);
    var ks := Keys(NormalizedFields(n, fs));
    assert Keys(NormalizedFields(n, [f] + fs)) == [n(f.key)] + ks;
    DistinctCons(n(f.key), ks);
  }

  lemma {:induction false} EntryTextsStep(n: Normalizer, fs: seq<Field>)
    requires fs != []
    ensures EntryTexts(ArrangedFields(NormalizedFields(n, fs)))
         == [EntryText(Field(n(fs[0].key), Arranged(Normalized(n, fs[0].value))))]
            + EntryTexts(ArrangedFields(NormalizedFields(n, fs[1..])))
  {
    var f := Field(n(fs[0].key), Normalized(n, fs[0].value));
    var rest := NormalizedFields(n, fs[1..]);
    assert NormalizedFields(n, fs) == [f] + rest;
    assert ([f] + rest)[1..] == rest;
    EntryTextsCons(Field(f.key, Arranged(f.value)), ArrangedFields(rest));
  }

  lemma {:induction false} AadEntriesText(n: Normalizer, fs: seq<Field>, seen: set<Text>)
    ensures AadEntries(n, fs, seen)
         == if EntriesFail(n, fs, seen) then None else Some(EntryTexts(ArrangedFields(NormalizedFields(n, fs))))
    decreases fs
  {
    if fs == [] {
      assert EntryTexts(ArrangedFields(NormalizedFields(n, fs))) == [];
    } else {
      var key := n(fs[0].key);
      CryptoAadText(n, fs[0].value);
      AadEntriesText(n, fs[1..], seen + {key});
      EntriesFailStep(n, fs[0], fs[1..], seen);
      assert fs == [fs[0]] + fs[1..];
      EntryTextsStep(n, fs);
    }
  }

  /** Two encodings agree exactly when the normalised trees are equivalent. */
  lemma {:induction false} CryptoAadUnambiguous(n: Normalizer, a: Value, b: Value)
    requires Valid(a) && Valid(b) && !Collides(n, a) && !Collides(n, b)
    ensures CanonicalizeCryptoAad(n, a) == CanonicalizeCryptoAad(n, b)
       <==> Equivalent(Normalized(n, a), Normalized(n, b))
  {
    var x, y := Normalized(n, a), Normalized(n, b);
    CryptoAadText(n, a);
    CryptoAadText(n, b);
    NormalizedValid(n, a);
    NormalizedValid(n, b);
    if Print(Arranged(x)) == Print(Arranged(y)) {
      ArrangedValid(x);
      ArrangedValid(y);
      PrintUnambiguous(Arranged(x), [], Arranged(y), []);
      ArrangedEqual(x, y);
    }
    if Equivalent(x, y) {
      EquivalentArranged(x, y);
    }
  }

  // ----- Envelopes -----

  /** The `expiresAt` given to `encrypt` or found in an envelope: none, a time, or text that is no time. */
  datatype Expiry = Never | At(time: int) | Malformed

  /** What an envelope says about its data, and the text the cipher authenticated. */
  datatype Envelope = Envelope(
    v: int, aadEncoding: Option<Text>, aadHash: Option<Text>, expiresAt: Expiry, authenticated: Text, plaintext: Text)

  datatype Opened =
    | Plaintext(text: Text)
    | EnvelopeExpired
    | InvalidExpiry
    | NoAad
    | UnsupportedEncoding
    | KeyCollision
    | AadHashMismatch
    | AuthenticationFailed

  const CRYPTO_AAD_ENCODING_V2 := Ascii("nfkc-json-v2")

  function EnvelopeV2(hash: Text -> Text, plaintext: Text, text: Text, expiresAt: Expiry): Envelope {
    Envelope(2, Some(CRYPTO_AAD_ENCODING_V2), Some(hash(text)), expiresAt, text, plaintext)
  }

  /** Fails for an absent AAD, for keys that collide, and for an expiry that is no time. */
  function EncryptV2(n: Normalizer, hash: Text -> Text, plaintext: Text, aad: Value,
                     expiresAt: Expiry): Option<Envelope> {
    var text := CanonicalizeCryptoAad(n, aad);
    if aad.Undefined? || text.None? || expiresAt.Malformed? then None
    else Some(EnvelopeV2(hash, plaintext, text.value, expiresAt))
  }

  /** An envelope written before normalisation was introduced. */
  function EncryptV1(hash: Text -> Text, plaintext: Text, aad: Value, expiresAt: Expiry): Envelope {
    Envelope(1, None, Some(hash(Canonicalize(aad))), expiresAt, Canonicalize(aad), plaintext)
  }

  /** The envelope has no expiry, or one still to come. */
  predicate Fresh(expiresAt: Expiry, now: int) {
    expiresAt.Never? || (expiresAt.At? && now < expiresAt.time)
  }

  /** The cipher opens exactly under the text it authenticated. */
  function DecryptWith(hash: Text -> Text, e: Envelope, text: Text): Opened {
    if e.aadHash.Some? && e.aadHash.value != [] && e.aadHash.value != hash(text) then AadHashMismatch
    else if e.authenticated != text then AuthenticationFailed
    else Plaintext(e.plaintext)
  }

  function Decrypt(n: Normalizer, hash: Text -> Text, e: Envelope, aad: Value, now: int): Opened {
    var named := e.aadEncoding.Some? && e.aadEncoding.value != [];
    if e.expiresAt.Malformed? then InvalidExpiry
    else if !Fresh(e.expiresAt, now) then EnvelopeExpired
    else if named && e.aadEncoding.value != CRYPTO_AAD_ENCODING_V2 then UnsupportedEncoding
    else if aad.Undefined? then NoAad
    else if named || e.v == 2 then
      var text := CanonicalizeCryptoAad(n, aad);
      if text.None? then KeyCollision else DecryptWith(hash, e, text.value)
    else DecryptWith(hash, e, Canonicalize(aad))
  }

  /** The data of the envelope are normalised: it says so, or it is of version 2. */
  predicate Normalizes(e: Envelope) {
    e.aadEncoding == Some(Ascii("nfkc-json-v2")) || e.v == 2
  }

  /** The text an envelope's data must have for it to open. */
  ghost predicate Authenticates(n: Normalizer, e: Envelope, aad: Value) {
    if Normalizes(e) then !Collides(n, aad) && e.authenticated == Print(Arranged(Normalized(n, aad)))
    else e.authenticated == Canonicalize(aad)
  }

  /** The envelope names no encoding, or one that is known. */
  predicate Known(e: Envelope) {
    e.aadEncoding in {None, Some([]), Some(Ascii("nfkc-json-v2"))}
  }

  lemma {:induction false} EncodingNamed(e: Envelope)
    ensures var named := e.aadEncoding.Some? && e.aadEncoding.value != [];
      && (named && e.aadEncoding.value != CRYPTO_AAD_ENCODING_V2 <==> !Known(e))
      && (Known(e) ==> (named || e.v == 2 <==> Normalizes(e)))
  {
    assert |Ascii("nfkc-json-v2")| == 12;
    if e.aadEncoding.Some? {
      assert e.aadEncoding == Some(e.aadEncoding.value);
      assert Known(e) <==> e.aadEncoding.value in [[], Ascii("nfkc-json-v2")];
    }
  }

  lemma {:induction false} OpensWith(hash: Text -> Text, e: Envelope, text: Text)
    ensures var r := DecryptWith(hash, e, text);
      && (r == Plaintext(e.plaintext) <==>
           e.authenticated == text && e.aadHash in {None, Some([]), Some(hash(e.authenticated))})
      && (e.authenticated == text && r != Plaintext(e.plaintext) ==> r == AadHashMismatch)
      && (r == AuthenticationFailed ==> e.authenticated != text)
      && r in {AadHashMismatch, AuthenticationFailed, Plaintext(e.plaintext)}
  {
    if e.aadHash.Some? { assert e.aadHash == Some(e.aadHash.value); }
  }

  /** What becomes of an envelope that is fresh and known, when data are given. */
  lemma {:induction false} FreshDecrypts(n: Normalizer, hash: Text -> Text, e: Envelope, aad: Value, now: int)
    requires Fresh(e.expiresAt, now) && Known(e) && !aad.Undefined?
    ensures var r := Decrypt(n, hash, e, aad, now);
      && (r == Plaintext(e.plaintext) <==>
           Authenticates(n, e, aad) && e.aadHash in {None, Some([]), Some(hash(e.authenticated))})
      && (r == KeyCollision <==> Normalizes(e) && Collides(n, aad))
      && (Authenticates(n, e, aad) && r != Plaintext(e.plaintext) ==> r == AadHashMismatch)
      && (r == AuthenticationFailed ==> !Authenticates(n, e, aad))
      && r in {KeyCollision, AadHashMismatch, AuthenticationFailed, Plaintext(e.plaintext)}
  {
    EncodingNamed(e);
    if !Normalizes(e) { OpensWith(hash, e, Canonicalize(aad)); }
    else {
      CryptoAadText(n, aad);
      if !Collides(n, aad) { OpensWith(hash, e, CanonicalizeCryptoAad(n, aad).value); }
    }
  }

  /**
   What becomes of any envelope, however it was made. It opens exactly while it is
   fresh, its encoding is known, data are given, their text is the one authenticated,
   and the hash it names, if any, is of that text. Otherwise the first of these that
   fails is reported.
   */
  lemma {:induction false} DecryptExactly(n: Normalizer, hash: Text -> Text, e: Envelope, aad: Value, now: int)
    ensures var r := Decrypt(n, hash, e, aad, now);
      && (r == InvalidExpiry <==> e.expiresAt.Malformed?)
      && (r == EnvelopeExpired <==> e.expiresAt.At? && e.expiresAt.time <= now)
      && (Fresh(e.expiresAt, now) ==>
           && (r == UnsupportedEncoding <==> !Known(e))
           && (r == NoAad <==> Known(e) && aad.Undefined?)
           && (Known(e) && !aad.Undefined? ==>
                && (r == Plaintext(e.plaintext) <==>
                     Authenticates(n, e, aad) && e.aadHash in {None, Some([]), Some(hash(e.authenticated))})
                && (r == KeyCollision <==> Normalizes(e) && Collides(n, aad))
                && (Authenticates(n, e, aad) && r != Plaintext(e.plaintext) ==> r == AadHashMismatch)
                && (r == AuthenticationFailed ==> !Authenticates(n, e, aad))))
  {
    EncodingNamed(e);
    if Fresh(e.expiresAt, now) && Known(e) && !aad.Undefined? { FreshDecrypts(n, hash, e, aad, now); }
  }

  /** An envelope sealed now says how its data were encoded. */
  lemma {:induction false} SealedWith(n: Normalizer, hash: Text -> Text, plaintext: Text, aad: Value, expiresAt: Expiry)
    requires EncryptV2(n, hash, plaintext, aad, expiresAt).Some?
    ensures var e := EncryptV2(n, hash, plaintext, aad, expiresAt).value;
      && e.v == 2 && e.aadEncoding == Some(Ascii("nfkc-json-v2")) && e.aadHash == Some(hash(e.authenticated))
      && e.expiresAt == expiresAt && e.plaintext == plaintext && Authenticates(n, e, aad)
  {
    CryptoAadText(n, aad);
  }

  lemma {:induction false} V2OpensUnderText(n: Normalizer, hash: Text -> Text, plaintext: Text, text: Text,
                                            expiresAt: Expiry, other: Value, now: int)
    ensures Decrypt(n, hash, EnvelopeV2(hash, plaintext, text, expiresAt), other, now) == Plaintext(plaintext)
       <==> Fresh(expiresAt, now) && !other.Undefined? && CanonicalizeCryptoAad(n, other) == Some(text)
  {
    assert |CRYPTO_AAD_ENCODING_V2| == 12;
  }

  /**
   A v2 envelope opens exactly while it is fresh, and under data whose normalised
   tree is equivalent to that of the data it was sealed with.
   */
  lemma {:induction false} V2OpensIff(n: Normalizer, hash: Text -> Text, plaintext: Text, aad: Value,
                                      expiresAt: Expiry, other: Value, now: int)
    requires Valid(aad) && Valid(other)
    ensures var e := EncryptV2(n, hash, plaintext, aad, expiresAt);
      && (e.None? <==> aad.Undefined? || Collides(n, aad) || expiresAt.Malformed?)
      && (e.Some? ==>
            (Decrypt(n, hash, e.value, other, now) == Plaintext(plaintext)
             <==> Fresh(expiresAt, now) && !other.Undefined? && !Collides(n, other)
                  && Equivalent(Normalized(n, aad), Normalized(n, other))))
  {
    CryptoAadText(n, aad);
    CryptoAadText(n, other);
    if !Collides(n, aad) {
      V2OpensUnderText(n, hash, plaintext, CanonicalizeCryptoAad(n, aad).value, expiresAt, other, now);
      if !Collides(n, other) { CryptoAadUnambiguous(n, aad, other); }
    }
  }

  /** A v1 envelope opens exactly while it is fresh, and under equivalent data, without normalisation. */
  lemma {:induction false} V1OpensIff(n: Normalizer, hash: Text -> Text, plaintext: Text, aad: Value,
                                      expiresAt: Expiry, other: Value, now: int)
    requires Valid(aad) && Valid(other) && !aad.Undefined?
    ensures Decrypt(n, hash, EncryptV1(hash, plaintext, aad, expiresAt), other, now) == Plaintext(plaintext)
       <==> Fresh(expiresAt, now) && Equivalent(aad, other)
  {
    CanonicalUnambiguous(aad, other);
  }

  lemma {:induction false} OneFieldEquivalent(key: Text, x: Value, y: Value)
    requires Equivalent(x, y)
    ensures Equivalent(Obj([Field(key, x)]), Obj([Field(key, y)]))
  {
    assert Keys([Field(key, x)]) == [key] == Keys([Field(key, y)]);
  }

  /** An envelope sealed for a field `[undefined]` opens for a field `[]`, in either version. */
  lemma {:induction false} LoneUndefinedOpens(n: Normalizer, hash: Text -> Text, plaintext: Text, key: Text, now: int)
    ensures var aad, other := Obj([Field(key, Arr([Undefined]))]), Obj([Field(key, Arr([]))]);
      var e := EncryptV2(n, hash, plaintext, aad, Never);
      && e.Some? && Decrypt(n, hash, e.value, other, now) == Plaintext(plaintext)
      && Decrypt(n, hash, EncryptV1(hash, plaintext, aad, Never), other, now) == Plaintext(plaintext)
  {
    var xs, ys := Arr([Undefined]), Arr([]);
    var fs, gs := [Field(key, xs)], [Field(key, ys)];
    assert Keys(fs) == [key] == Keys(gs);
    assert Keys(NormalizedFields(n, fs)) == [n(key)] == Keys(NormalizedFields(n, gs));
    assert NormalizedItems(n, [Undefined]) == [Undefined] && NormalizedItems(n, []) == [];
    OneFieldEquivalent(key, xs, ys);
    OneFieldEquivalent(n(key), xs, ys);
    assert NormalizedFields(n, fs) == [Field(n(key), xs)] && NormalizedFields(n, gs) == [Field(n(key), ys)];
    V2OpensIff(n, hash, plaintext, Obj(fs), Never, Obj(gs), now);
    V1OpensIff(n, hash, plaintext, Obj(fs), Never, Obj(gs), now);
  }
}
