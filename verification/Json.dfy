/**
 JSON values as the program holds them in memory, the text `JSON.stringify`
 gives to scalars, and a printer that keeps field order. The printer is proved
 to be unambiguous up to one confusion, `[undefined]` and `[]`: a printed value
 can be told apart from whatever follows it.
 */
module Json {
  import opened Texts

  /**
   A value the program may hash or store. `Undefined` is a property or item that
   is present but holds `undefined`. A number printed as a plain integer is an
   `Int`; any other finite number carries its `Number::toString` text.
   */
  datatype Value =
    | Undefined
    | Null
    | Bool(b: bool)
    | Int(n: int)
    | Num(text: Text)
    | Str(s: Text)
    | Arr(items: seq<Value>)
    | Obj(fields: seq<Field>)

  datatype Field = Field(key: Text, value: Value)

  const QUOTE: Unit := 34
  const COMMA: Unit := 44
  const COLON: Unit := 58
  const LBRACKET: Unit := 91
  const BACKSLASH: Unit := 92
  const RBRACKET: Unit := 93
  const LBRACE: Unit := 123
  const RBRACE: Unit := 125

  const NULL := Ascii("null")
  const TRUE := Ascii("true")
  const FALSE := Ascii("false")
  const UNDEFINED := Ascii("undefined")

  // ----- Objects -----

  function Keys(fs: seq<Field>): (ks: seq<Text>)
    ensures |ks| == |fs| && forall i :: 0 <= i < |fs| ==> ks[i] == fs[i].key
  {
    seq(|fs|, i requires 0 <= i < |fs| => fs[i].key)
  }

  function IndexOf(fs: seq<Field>, key: Text): (i: nat)
    requires key in Keys(fs)
    ensures i < |fs| && fs[i].key == key
  {
    if fs[0].key == key then 0
    else
      assert Keys(fs[1..]) == Keys(fs)[1..];
      IndexOf(fs[1..], key) + 1
  }

  /** `object[key]` for a key the object has. */
  function Get(fs: seq<Field>, key: Text): Value
    requires key in Keys(fs)
  {
    fs[IndexOf(fs, key)].value
  }

  lemma {:induction false} GetAt(fs: seq<Field>, i: nat)
    requires i < |fs| && Distinct(Keys(fs))
    ensures fs[i].key in Keys(fs) && Get(fs, fs[i].key) == fs[i].value
  {
    assert Keys(fs)[i] == fs[i].key;
    assert Keys(fs)[IndexOf(fs, fs[i].key)] == fs[i].key;
  }

  // ----- Well-formed values -----

  predicate IsNumberUnit(u: Unit) { IsDigit(u) || u == 43 || u == 45 || u == 46 || u == 101 }

  /** The text of a number that is not printed as a plain integer. */
  predicate IsFractionText(t: Text) {
    && t != []
    && (IsDigit(t[0]) || t[0] == 45)
    && (forall i :: 0 <= i < |t| ==> IsNumberUnit(t[i]))
    && (exists i :: 0 <= i < |t| && (t[i] == 46 || t[i] == 101))
  }

  /** Keys are distinct at every level and numbers carry number text. */
  ghost predicate Valid(v: Value) {
    match v
    case Num(t) => IsFractionText(t)
    case Arr(xs) => forall i :: 0 <= i < |xs| ==> Valid(xs[i])
    case Obj(fs) => Distinct(Keys(fs)) && forall i :: 0 <= i < |fs| ==> Valid(fs[i].value)
    case _ => true
  }

  lemma {:induction false} ValidGet(fs: seq<Field>, key: Text)
    requires Valid(Obj(fs)) && key in Keys(fs)
    ensures Valid(Get(fs, key))
  {
  }

  // ----- String literals -----

  predicate IsHigh(u: Unit) { 0xD800 <= u < 0xDC00 }

  predicate IsLow(u: Unit) { 0xDC00 <= u < 0xE000 }

  function HexDigit(n: int): Unit
    requires 0 <= n < 16
  {
    if n < 10 then 48 + n else 87 + n
  }

  function Hex4(u: Unit): Text {
    [HexDigit(u / 16 / 16 / 16), HexDigit(u / 16 / 16 % 16), HexDigit(u / 16 % 16), HexDigit(u % 16)]
  }

  lemma {:induction false} Hex4Injective(u: Unit, v: Unit)
    requires Hex4(u) == Hex4(v)
    ensures u == v
  {
    var a, b := Hex4(u), Hex4(v);
    assert a[0] == b[0] && a[1] == b[1] && a[2] == b[2] && a[3] == b[3];
    assert u / 16 / 16 == v / 16 / 16;
    assert u / 16 == v / 16;
  }

  /** Control units, quotes, backslashes and unpaired surrogates are escaped. */
  function EscapeUnit(u: Unit): Text {
    if u == 8 then [BACKSLASH, 98]
    else if u == 9 then [BACKSLASH, 116]
    else if u == 10 then [BACKSLASH, 110]
    else if u == 12 then [BACKSLASH, 102]
    else if u == 13 then [BACKSLASH, 114]
    else if u == QUOTE || u == BACKSLASH then [BACKSLASH, u]
    else if u < 32 || IsHigh(u) || IsLow(u) then [BACKSLASH, 117] + Hex4(u)
    else [u]
  }

  predicate StartsWithPair(s: Text) {
    |s| >= 2 && IsHigh(s[0]) && IsLow(s[1])
  }

  /** Units taken from the front of `s` in one step: a surrogate pair is kept whole. */
  function Step(s: Text): nat
    requires s != []
  {
    if StartsWithPair(s) then 2 else 1
  }

  function Piece(s: Text): Text
    requires s != []
  {
    if StartsWithPair(s) then s[..2] else EscapeUnit(s[0])
  }

  function Escape(s: Text): Text {
    if s == [] then [] else Piece(s) + Escape(s[Step(s)..])
  }

  /** `JSON.stringify` of a string: section 7 of RFC 8259 with lower-case escapes. */
  function Quote(s: Text): Text {
    [QUOTE] + Escape(s) + [QUOTE]
  }

  lemma {:induction false} PieceDetermined(s: Text, k: Text, t: Text, l: Text)
    requires s != [] && t != []
    requires Piece(s) + k == Piece(t) + l
    ensures Piece(s) == Piece(t) && k == l && s[..Step(s)] == t[..Step(t)]
  {
    var p, q := Piece(s), Piece(t);
    var x := p + k;
    assert x[0] == p[0] == q[0];
    if p[0] == BACKSLASH {
      assert x[1] == p[1] == q[1];
      if p[1] == 117 {
        assert p[2..] == Hex4(s[0]) && q[2..] == Hex4(t[0]);
        assert x[2..6] == p[2..] && x[2..6] == q[2..];
        Hex4Injective(s[0], t[0]);
      }
    } else if IsHigh(p[0]) {
      assert x[1] == p[1] == q[1];
    }
    assert |p| == |q|;
    assert p == x[..|p|] == q;
    assert k == x[|p|..] == l;
  }

  lemma {:induction false} PieceNotQuote(s: Text, k: Text)
    requires s != []
    ensures (Piece(s) + k)[0] != QUOTE
  {
  }

  function Literal(s: Text, k: Text): Text { Escape(s) + [QUOTE] + k }

  lemma {:induction false} LiteralUnfold(s: Text, k: Text)
    requires s != []
    ensures Literal(s, k) == Piece(s) + Literal(s[Step(s)..], k)
    ensures Literal(s, k)[0] != QUOTE
  {
    PieceNotQuote(s, Literal(s[Step(s)..], k));
  }

  lemma {:induction false} LiteralUnambiguous(s: Text, k: Text, t: Text, l: Text)
    requires Literal(s, k) == Literal(t, l)
    ensures s == t && k == l
  {
    if s != [] { LiteralUnfold(s, k); }
    if t != [] { LiteralUnfold(t, l); }
    if s == [] {
      assert k == Literal(s, k)[1..] && l == Literal(t, l)[1..];
    } else {
      var s', t' := s[Step(s)..], t[Step(t)..];
      PieceDetermined(s, Literal(s', k), t, Literal(t', l));
      LiteralUnambiguous(s', k, t', l);
      assert s == s[..Step(s)] + s' && t == t[..Step(t)] + t';
    }
  }

  lemma {:induction false} QuoteUnambiguous(s: Text, k: Text, t: Text, l: Text)
    requires Quote(s) + k == Quote(t) + l
    ensures s == t && k == l
  {
    assert (Quote(s) + k)[1..] == Literal(s, k);
    assert (Quote(t) + l)[1..] == Literal(t, l);
    LiteralUnambiguous(s, k, t, l);
  }

  // ----- Printing in field order -----

  /**
   The text of `v` followed by `k`. A template literal prints `undefined` as that
   word; `Array.prototype.join` prints an undefined item as nothing.
   */
  function PrintTo(v: Value, k: Text): Text
    decreases v
  {
    match v
    case Undefined => UNDEFINED + k
    case Null => NULL + k
    case Bool(b) => (if b then TRUE else FALSE) + k
    case Int(n) => Integer(n) + k
    case Num(t) => t + k
    case Str(s) => Quote(s) + k
    case Arr(xs) => [LBRACKET] + ItemsTo(xs, [RBRACKET] + k)
    case Obj(fs) => [LBRACE] + FieldsTo(fs, [RBRACE] + k)
  }

  function ItemsTo(xs: seq<Value>, k: Text): Text
    decreases xs
  {
    if xs == [] then k
    else
      var rest := if |xs| == 1 then k else [COMMA] + ItemsTo(xs[1..], k);
      if xs[0].Undefined? then rest else PrintTo(xs[0], rest)
  }

  function FieldsTo(fs: seq<Field>, k: Text): Text
    decreases fs
  {
    if fs == [] then k
    else
      var f := fs[0];
      EntryTo(f.key, PrintTo(f.value, if |fs| == 1 then k else [COMMA] + FieldsTo(fs[1..], k)))
  }

  function EntryTo(key: Text, k: Text): Text { Quote(key) + ([COLON] + k) }

  function Print(v: Value): Text { PrintTo(v, []) }

  /** The items whose text is empty. */
  predicate Blank(xs: seq<Value>) { xs == [] || xs == [Undefined] }

  /** No array at any depth holds a single undefined item and nothing else. */
  ghost predicate Settled(v: Value) {
    match v
    case Arr(xs) => xs != [Undefined] && forall i :: 0 <= i < |xs| ==> Settled(xs[i])
    case Obj(fs) => forall i :: 0 <= i < |fs| ==> Settled(fs[i].value)
    case _ => true
  }

  // ----- The printer is unambiguous -----

  /** What can follow a printed value: nothing, a comma or a closing bracket. */
  predicate Follows(k: Text) {
    k == [] || k[0] == COMMA || k[0] == RBRACKET || k[0] == RBRACE
  }

  function NumberText(v: Value): Text
    requires v.Int? || v.Num?
  {
    if v.Int? then Integer(v.n) else v.text
  }

  lemma {:induction false} NumberTextUnits(v: Value)
    requires (v.Int? || v.Num?) && Valid(v)
    ensures var t := NumberText(v);
      t != [] && (IsDigit(t[0]) || t[0] == 45) && forall i :: 0 <= i < |t| ==> IsNumberUnit(t[i])
    ensures v.Int? <==> forall i :: 0 <= i < |NumberText(v)| ==> NumberText(v)[i] != 46 && NumberText(v)[i] != 101
  {
    if v.Int? && v.n < 0 {
      var t := Integer(v.n);
      assert forall i :: 1 <= i < |t| ==> t[i] == Decimal(-v.n)[i - 1];
    }
  }

  lemma {:induction false} UnitAfter(s: Text, k: Text, t: Text, l: Text)
    requires s + k == t + l && |s| < |t|
    ensures k != [] && t[|s|] == k[0]
  {
    assert (s + k)[|s|] == (t + l)[|s|];
  }

  lemma {:induction false} NumberEnds(s: Text, k: Text, t: Text, l: Text)
    requires s + k == t + l && Follows(k)
    requires forall i :: 0 <= i < |t| ==> IsNumberUnit(t[i])
    ensures |t| <= |s|
  {
    if |s| < |t| {
      UnitAfter(s, k, t, l);
      assert false;
    }
  }

  lemma {:induction false} NumberUnambiguous(v: Value, k: Text, w: Value, l: Text)
    requires (v.Int? || v.Num?) && (w.Int? || w.Num?) && Valid(v) && Valid(w)
    requires Follows(k) && Follows(l)
    requires NumberText(v) + k == NumberText(w) + l
    ensures v == w && k == l
  {
    var s, t := NumberText(v), NumberText(w);
    NumberTextUnits(v);
    NumberTextUnits(w);
    NumberEnds(s, k, t, l);
    NumberEnds(t, l, s, k);
    assert s == (s + k)[..|s|] && t == (t + l)[..|t|];
    assert k == (s + k)[|s|..] && l == (t + l)[|t|..];
    assert v.Int? <==> w.Int?;
    if v.Int? {
      IntegerInjective(v.n, w.n);
    }
  }

  /** The first unit of a printed value, which tells its kind. */
  lemma {:induction false} PrintHead(v: Value, k: Text)
    requires Valid(v)
    ensures PrintTo(v, k) != []
    ensures match v
      case Undefined => PrintTo(v, k)[0] == 117
      case Null => PrintTo(v, k)[0] == 110
      case Bool(b) => PrintTo(v, k)[0] == if b then 116 else 102
      case Int(_) => IsDigit(PrintTo(v, k)[0]) || PrintTo(v, k)[0] == 45
      case Num(_) => IsDigit(PrintTo(v, k)[0]) || PrintTo(v, k)[0] == 45
      case Str(_) => PrintTo(v, k)[0] == QUOTE
      case Arr(_) => PrintTo(v, k)[0] == LBRACKET
      case Obj(_) => PrintTo(v, k)[0] == LBRACE
  {
    if v.Int? || v.Num? {
      NumberTextUnits(v);
    }
  }

  /**
   Two printed values that agree with their continuations are the same value,
   field order included, with the same continuation.
   */
  lemma {:induction false} PrintUnambiguous(v: Value, k: Text, w: Value, l: Text)
    requires Valid(v) && Valid(w) && Settled(v) && Settled(w) && Follows(k) && Follows(l)
    requires PrintTo(v, k) == PrintTo(w, l)
    ensures v == w && k == l
    decreases v
  {
    PrintHead(v, k);
    PrintHead(w, l);
    var x := PrintTo(v, k);
    match v
    case Undefined => assert k == x[9..] && l == x[9..];
    case Null => assert k == x[4..] && l == x[4..];
    case Bool(b) =>
      var n := if b then 4 else 5;
      assert k == x[n..] && l == x[n..];
    case Int(_) => NumberUnambiguous(v, k, w, l);
    case Num(_) => NumberUnambiguous(v, k, w, l);
    case Str(s) => QuoteUnambiguous(s, k, w.s, l);
    case Arr(xs) =>
      assert x[1..] == ItemsTo(xs, [RBRACKET] + k) == ItemsTo(w.items, [RBRACKET] + l);
      assert k == ([RBRACKET] + k)[1..] && l == ([RBRACKET] + l)[1..];
      if xs == [] {
        EmptyItems(k, w.items, l);
      } else if w.items == [] {
        EmptyItems(l, xs, k);
      } else {
        ItemsUnambiguous(xs, k, w.items, l);
      }
    case Obj(fs) =>
      assert x[1..] == FieldsTo(fs, [RBRACE] + k) == FieldsTo(w.fields, [RBRACE] + l);
      FieldsUnambiguous(fs, k, w.fields, l);
  }

  /** What follows an item of an array. */
  predicate EndsItem(k: Text) { k != [] && (k[0] == COMMA || k[0] == RBRACKET) }

  function AfterItem(xs: seq<Value>, k: Text): (rest: Text)
    requires xs != []
    ensures EndsItem(rest) && (rest[0] == RBRACKET <==> |xs| == 1)
  {
    if |xs| == 1 then [RBRACKET] + k else [COMMA] + ItemsTo(xs[1..], [RBRACKET] + k)
  }

  /** Only no items, or one undefined one, print as nothing. */
  lemma {:induction false} EmptyItems(k: Text, ys: seq<Value>, l: Text)
    requires (forall i :: 0 <= i < |ys| ==> Valid(ys[i])) && ys != [Undefined]
    requires [RBRACKET] + k == ItemsTo(ys, [RBRACKET] + l)
    ensures ys == []
  {
    if ys == [] {
    } else {
      var rest := AfterItem(ys, l);
      if !ys[0].Undefined? { PrintHead(ys[0], rest); }
      assert false;
    }
  }

  lemma {:induction false} ItemsUnambiguous(xs: seq<Value>, k: Text, ys: seq<Value>, l: Text)
    requires xs != [] && ys != []
    requires forall i :: 0 <= i < |xs| ==> Valid(xs[i]) && Settled(xs[i])
    requires forall i :: 0 <= i < |ys| ==> Valid(ys[i]) && Settled(ys[i])
    requires ItemsTo(xs, [RBRACKET] + k) == ItemsTo(ys, [RBRACKET] + l)
    ensures xs == ys && k == l
    decreases xs
  {
    var a, b := AfterItem(xs, k), AfterItem(ys, l);
    if !xs[0].Undefined? { PrintHead(xs[0], a); }
    if !ys[0].Undefined? { PrintHead(ys[0], b); }
    assert xs[0].Undefined? <==> ys[0].Undefined?;
    if !xs[0].Undefined? { PrintUnambiguous(xs[0], a, ys[0], b); }
    assert a == b;
    assert k == ([RBRACKET] + k)[1..] && l == ([RBRACKET] + l)[1..];
    if |xs| > 1 {
      assert a[1..] == ItemsTo(xs[1..], [RBRACKET] + k) && b[1..] == ItemsTo(ys[1..], [RBRACKET] + l);
      ItemsUnambiguous(xs[1..], k, ys[1..], l);
    }
    assert xs == [xs[0]] + xs[1..] && ys == [ys[0]] + ys[1..];
  }

  lemma {:induction false} FieldsUnambiguous(fs: seq<Field>, k: Text, gs: seq<Field>, l: Text)
    requires forall i :: 0 <= i < |fs| ==> Valid(fs[i].value) && Settled(fs[i].value)
    requires forall i :: 0 <= i < |gs| ==> Valid(gs[i].value) && Settled(gs[i].value)
    requires FieldsTo(fs, [RBRACE] + k) == FieldsTo(gs, [RBRACE] + l)
    ensures fs == gs && k == l
    decreases fs
  {
    var k', l' := [RBRACE] + k, [RBRACE] + l;
    var a := if |fs| <= 1 then k' else [COMMA] + FieldsTo(fs[1..], k');
    var b := if |gs| <= 1 then l' else [COMMA] + FieldsTo(gs[1..], l');
    assert fs != [] ==> FieldsTo(fs, k')[0] == QUOTE;
    assert gs != [] ==> FieldsTo(gs, l')[0] == QUOTE;
    assert k == k'[1..] && l == l'[1..];
    if fs != [] {
      var f, g := fs[0], gs[0];
      EntryUnambiguous(f.key, PrintTo(f.value, a), g.key, PrintTo(g.value, b));
      PrintUnambiguous(f.value, a, g.value, b);
      if |fs| > 1 {
        assert a[1..] == FieldsTo(fs[1..], k') && b[1..] == FieldsTo(gs[1..], l');
        FieldsUnambiguous(fs[1..], k, gs[1..], l);
      }
      assert fs == [fs[0]] + fs[1..] && gs == [gs[0]] + gs[1..];
    }
  }

  lemma {:induction false} EntryUnambiguous(s: Text, k: Text, t: Text, l: Text)
    requires EntryTo(s, k) == EntryTo(t, l)
    ensures s == t && k == l
  {
    QuoteUnambiguous(s, [COLON] + k, t, [COLON] + l);
    assert k == ([COLON] + k)[1..] && l == ([COLON] + l)[1..];
  }
}
