/**
 The texts themselves: string literals are read back by the rules of section 7 of
 RFC 8259, and canonical texts list the keys of objects in ascending order.
 */
module JsonText {
  import Sorting
  import opened Texts
  import opened Json
  import opened Canonical

  // ----- String literals -----

  function HexValue(u: Unit): nat {
    if '0' as int <= u <= '9' as int then u - '0' as int
    else if 'a' as int <= u <= 'f' as int then u - 'a' as int + 10
    else 0
  }

  /** The unit that four hexadecimal digits name. */
  function HexUnit(t: Text): Unit
    requires |t| == 4
  {
    (((HexValue(t[0]) * 16 + HexValue(t[1])) * 16 + HexValue(t[2])) * 16 + HexValue(t[3])) % 0x10000
  }

  /** What a letter behind a backslash stands for. */
  function Named(u: Unit): Unit {
    if u == 'b' as int then 8
    else if u == 't' as int then 9
    else if u == 'n' as int then 10
    else if u == 'f' as int then 12
    else if u == 'r' as int then 13
    else u
  }

  /** The string that the inside of a literal stands for. */
  function Unescape(t: Text): Text
    decreases |t|
  {
    if |t| >= 6 && t[0] == '\\' as int && t[1] == 'u' as int then [HexUnit(t[2..6])] + Unescape(t[6..])
    else if |t| >= 2 && t[0] == '\\' as int then [Named(t[1])] + Unescape(t[2..])
    else if t == [] then []
    else [t[0]] + Unescape(t[1..])
  }

  lemma {:induction false} HexUnitOf(u: Unit)
    ensures HexUnit(Hex4(u)) == u
  {
    var a, b, c, d := u / 16 / 16 / 16, u / 16 / 16 % 16, u / 16 % 16, u % 16;
    HexValueOf(a);
    HexValueOf(b);
    HexValueOf(c);
    HexValueOf(d);
    assert u / 16 / 16 == a * 16 + b;
    assert u / 16 == (a * 16 + b) * 16 + c;
  }

  lemma {:induction false} HexValueOf(n: int)
    requires 0 <= n < 16
    ensures HexValue(HexDigit(n)) == n
  {
  }

  lemma {:induction false} UnescapePiece(s: Text, rest: Text)
    requires s != []
    ensures Unescape(Piece(s) + rest) == s[..Step(s)] + Unescape(rest)
  {
    var p := Piece(s);
    var t := p + rest;
    if StartsWithPair(s) {
      assert t[1..] == [s[1]] + rest && ([s[1]] + rest)[1..] == rest;
      assert s[..2] == [s[0]] + [s[1]];
    } else {
      UnescapeUnit(s[0], rest);
    }
  }

  lemma {:induction false} UnescapeUnit(u: Unit, rest: Text)
    ensures Unescape(EscapeUnit(u) + rest) == [u] + Unescape(rest)
  {
    var t := EscapeUnit(u) + rest;
    if |EscapeUnit(u)| == 6 {
      assert t[2..6] == Hex4(u) && t[6..] == rest;
      HexUnitOf(u);
    } else if |EscapeUnit(u)| == 2 {
      assert t[2..] == rest;
    } else {
      assert t[1..] == rest;
    }
  }

  /** A literal stands for the string it was made of. */
  lemma {:induction false} UnescapeEscape(s: Text)
    ensures Unescape(Escape(s)) == s
    decreases |s|
  {
    if s == [] {
    } else {
      UnescapePiece(s, Escape(s[Step(s)..]));
      UnescapeEscape(s[Step(s)..]);
      assert s == s[..Step(s)] + s[Step(s)..];
    }
  }

  /** The units from which nothing but an escape can be made: control units, quote, backslash, half a pair. */
  predicate MustEscape(s: Text)
    requires s != []
  {
    var paired := 0xD800 <= s[0] <= 0xDBFF && |s| > 1 && 0xDC00 <= s[1] <= 0xDFFF;
    s[0] < 0x20 || s[0] == '"' as int || s[0] == '\\' as int || (0xD800 <= s[0] <= 0xDFFF && !paired)
  }

  /** These and no others are escaped, five of them by a letter; a surrogate pair stays as it is. */
  lemma {:induction false} EscapedExactly(s: Text)
    requires s != []
    ensures Piece(s)[0] == '\\' as int <==> MustEscape(s)
    ensures !MustEscape(s) ==> Piece(s) == s[..Step(s)]
    ensures Step(s) == if 0xD800 <= s[0] <= 0xDBFF && |s| > 1 && 0xDC00 <= s[1] <= 0xDFFF then 2 else 1
    ensures MustEscape(s) ==>
      |Piece(s)| == if s[0] in [8, 9, 10, 12, 13, '"' as int, '\\' as int] then 2 else 6
    ensures |Piece(s)| == 6 ==> forall i :: 2 <= i < 6 ==>
      '0' as int <= Piece(s)[i] <= '9' as int || 'a' as int <= Piece(s)[i] <= 'f' as int
  {
  }

  // ----- Canonical texts -----

  /** The canonical text is that of the tree with the keys of every object in ascending order. */
  lemma {:induction false} CanonicalText(v: Value)
    ensures Canonicalize(v) == Print(InOrder(v))
    ensures v.Obj? && Valid(v) ==>
      Ascending(Keys(InOrder(v).fields)) && SameElements(Keys(InOrder(v).fields), Keys(v.fields))
  {
    CanonicalPrints(v, []);
    assert Canonicalize(v) + [] == Canonicalize(v);
    if v.Obj? && Valid(v) {
      SortElements(Keys(v.fields));
      SortAscending(Keys(v.fields));
      FieldsInOrderKeys(v.fields, Sort(Keys(v.fields)));
    }
  }

  lemma {:induction false} Scalars()
    ensures Print(Undefined) == Ascii("undefined") && Print(Null) == Ascii("null")
    ensures Print(Bool(true)) == Ascii("true") && Print(Bool(false)) == Ascii("false")
    ensures Print(Int(-12)) == Ascii("-12") && Print(Str([97, 10])) == Ascii("\"a\\n\"")
  {
    assert forall t: Text :: t + [] == t;
    assert Print(Int(-12)) == Integer(-12) == [45] + Decimal(12);
    assert Decimal(12) == Decimal(1) + [50];
    assert [97, 10][1..] == [10] && [10][1..] == [];
    assert Escape([97, 10]) == [97] + Escape([10]) && Escape([10]) == [BACKSLASH, 110] + Escape([]);
  }

  lemma {:induction false} Punctuation()
    ensures Ascii("{") == [LBRACE] && Ascii("}") == [RBRACE] && Ascii(":") == [COLON] && Ascii(",") == [COMMA]
    ensures Ascii("[") == [LBRACKET] && Ascii("]") == [RBRACKET]
  {
  }

  /** The text of an array of two items. */
  lemma {:induction false} TwoItemsText(v: Value, w: Value)
    requires !v.Undefined? && !w.Undefined?
    ensures Canonicalize(Arr([v, w])) == Ascii("[") + (Canonicalize(v) + (Ascii(",") + Canonicalize(w))) + Ascii("]")
  {
    Punctuation();
    assert [v, w][1..] == [w];
    assert CanonicalItems([w]) == Canonicalize(w) + [];
  }

  lemma {:induction false} FieldsText(fs: seq<Field>, keys: seq<Text>)
    requires Sort(Keys(fs)) == keys && forall k :: k in keys ==> k in Keys(fs)
    ensures Canonicalize(Obj(fs)) == [LBRACE] + CanonicalFields(fs, keys) + [RBRACE]
  {
  }

  /** An empty array and an empty object. */
  lemma {:induction false} NothingText(fs: seq<Field>)
    requires fs == []
    ensures Canonicalize(Obj(fs)) == Ascii("{}") && Canonicalize(Arr([])) == Ascii("[]")
  {
    assert Keys(fs) == [] && Sort([]) == [];
    FieldsText(fs, []);
  }

  /** The text of an object of two fields. */
  lemma {:induction false} TwoFieldsText(v: Value, w: Value, a: Text, b: Text)
    requires Less(a, b)
    ensures Canonicalize(Obj([Field(b, w), Field(a, v)]))
         == Ascii("{") + (Quote(a) + Ascii(":") + Canonicalize(v)
            + (Ascii(",") + (Quote(b) + Ascii(":") + Canonicalize(w)))) + Ascii("}")
  {
    var fs := [Field(b, w), Field(a, v)];
    TwoSorted(a, b);
    assert Keys(fs) == [b, a];
    TwoFields(fs, a, b, v, w);
    FieldsText(fs, [a, b]);
    Punctuation();
  }

  lemma {:induction false} TwoSorted(a: Text, b: Text)
    requires Less(a, b)
    ensures Sort([b, a]) == [a, b]
  {
    LessIrreflexive(a);
    if Less(b, a) { LessTransitive(a, b, a); }
    var none: seq<Text> := [];
    assert [b, a][1..] == [a] && [a][1..] == none;
    assert Sorting.Sort(Less, none) == none;
    assert Sorting.Sort(Less, [a]) == Sorting.Insert(Less, a, none) == [a];
    assert Sorting.Insert(Less, b, none) == [b];
    assert Sorting.Insert(Less, b, [a]) == [a] + Sorting.Insert(Less, b, none);
  }

  lemma {:induction false} TwoFields(fs: seq<Field>, a: Text, b: Text, v: Value, w: Value)
    requires fs == [Field(b, w), Field(a, v)] && Less(a, b)
    ensures a in Keys(fs) && b in Keys(fs)
    ensures CanonicalFields(fs, [a, b])
         == Quote(a) + [COLON] + Canonicalize(v) + ([COMMA] + (Quote(b) + [COLON] + Canonicalize(w)))
  {
    LessIrreflexive(a);
    assert Keys(fs) == [b, a] && a != b;
    assert fs[1..] == [Field(a, v)];
    assert Get(fs, a) == v && Get(fs, b) == w;
    assert [a, b][1..] == [b];
    var y := Quote(b) + [COLON] + Canonicalize(w);
    assert y + [] == y;
  }
}
