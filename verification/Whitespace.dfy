/** White space as `String.prototype.trim` and the regular expression class `\s` define it. */
module Whitespace {
  import opened Texts

  const LF: Unit := 10
  const CR: Unit := 13

  predicate IsLineTerminator(u: Unit) {
    u == LF || u == CR || u == 0x2028 || u == 0x2029
  }

  predicate IsSpace(u: Unit) {
    || IsLineTerminator(u) || u in [9, 11, 12, 32, 0xA0, 0x1680, 0x202F, 0x205F, 0x3000, 0xFEFF]
    || 0x2000 <= u <= 0x200A
  }

  /** White space unit by unit, as ECMA-262 lists it. */
  lemma {:induction false} SpaceExactly(u: Unit)
    ensures IsSpace(u) <==>
      u in {0x9, 0xA, 0xB, 0xC, 0xD, 0x20, 0xA0, 0x1680, 0x2000, 0x2001, 0x2002, 0x2003, 0x2004, 0x2005, 0x2006, 0x2007,
            0x2008, 0x2009, 0x200A, 0x2028, 0x2029, 0x202F, 0x205F, 0x3000, 0xFEFF}
  {
  }

  /** How many units of white space the text starts with. */
  function Leading(text: Text): (n: nat)
    ensures n <= |text|
    ensures forall i :: 0 <= i < n ==> IsSpace(text[i])
    ensures n < |text| ==> !IsSpace(text[n])
  {
    if text == [] || !IsSpace(text[0]) then 0 else 1 + Leading(text[1..])
  }

  function TrimStart(text: Text): Text {
    text[Leading(text)..]
  }

  function TrimEnd(text: Text): Text {
    if text == [] || !IsSpace(text[|text| - 1]) then text else TrimEnd(text[..|text| - 1])
  }

  function Trim(text: Text): Text {
    TrimEnd(TrimStart(text))
  }

  /** No white space at either end. */
  predicate Tight(text: Text) {
    text != [] ==> !IsSpace(text[0]) && !IsSpace(text[|text| - 1])
  }

  lemma {:induction false} TrimEndTight(text: Text)
    requires text != [] ==> !IsSpace(text[0])
    ensures Tight(TrimEnd(text)) && TrimEnd(text) <= text
  {
    if text == [] || !IsSpace(text[|text| - 1]) {
    } else {
      TrimEndTight(text[..|text| - 1]);
    }
  }

  /** What is trimmed has no white space at either end. */
  lemma {:induction false} TrimTight(text: Text)
    ensures Tight(Trim(text))
  {
    TrimEndTight(TrimStart(text));
  }

  lemma {:induction false} TrimIdentity(text: Text)
    requires Tight(text)
    ensures Trim(text) == text
  {
    assert Leading(text) == 0;
    assert text[0..] == text;
  }
}
