/** The peer-range check of the satellites: versions, ranges, and their order. */
module PeerRange {
  import opened Options
  import opened Texts
  import opened Whitespace

  datatype Version = Version(major: nat, minor: nat, patch: nat)

  const DOT: Unit := '.' as int
  const LESS: Unit := '<' as int
  const EQUALS: Unit := '=' as int
  const GREATER: Unit := '>' as int
  const SPACE: Unit := ' ' as int

  // ----- Parsing -----

  function Digits(t: Text): (n: nat)
    ensures n <= |t| && (forall i :: 0 <= i < n ==> IsDigit(t[i])) && (n < |t| ==> !IsDigit(t[n]))
  {
    if t == [] || !IsDigit(t[0]) then 0 else 1 + Digits(t[1..])
  }

  function DigitValue(u: Unit): nat
    requires IsDigit(u)
  {
    u - 48
  }

  function ValueOf(t: Text): nat
    requires forall i :: 0 <= i < |t| ==> IsDigit(t[i])
  {
    if t == [] then 0 else 10 * ValueOf(t[..|t| - 1]) + DigitValue(t[|t| - 1])
  }

  /** A run of digits at the start, and the text after it. */
  function TakeNumber(t: Text): Option<(nat, Text)> {
    var n := Digits(t);
    if n == 0 then None else Some((ValueOf(t[..n]), t[n..]))
  }

  function TakeUnit(t: Text, u: Unit): Option<Text> {
    if t != [] && t[0] == u then Some(t[1..]) else None
  }

  /** Three numbers with dots between them, and the text after them. */
  function TakeVersion(t: Text): Option<(Version, Text)> {
    var major := TakeNumber(t);
    if major.None? then None
    else
      var dot := TakeUnit(major.value.1, DOT);
      if dot.None? then None
      else
        var minor := TakeNumber(dot.value);
        if minor.None? then None
        else
          var dot2 := TakeUnit(minor.value.1, DOT);
          if dot2.None? then None
          else
            var patch := TakeNumber(dot2.value);
            if patch.None? then None
            else Some((Version(major.value.0, minor.value.0, patch.value.0), patch.value.1))
  }

  function ParseVersion(t: Text): Option<Version> {
    var v := TakeVersion(t);
    if v.None? || v.value.1 != [] then None else Some(v.value.0)
  }

  /** `>=A.B.C <D.E.F` with white space between the two comparators and around them. */
  function ParseRange(range: Text): Option<(Version, Version)> {
    var t := Trim(range);
    if |t| < 2 || t[..2] != [GREATER, EQUALS] then None else ParseBounds(t[2..])
  }

  function ParseBounds(t: Text): Option<(Version, Version)> {
    var lower := TakeVersion(t);
    if lower.None? then None
    else
      var upper := ParseUpper(lower.value.1);
      if upper.None? then None else Some((lower.value.0, upper.value))
  }

  function ParseUpper(rest: Text): Option<Version> {
    var less := TakeUnit(TrimStart(rest), LESS);
    if Leading(rest) == 0 || less.None? then None else ParseVersion(less.value)
  }

  // ----- Comparing -----

  function At(v: Version, i: nat): nat {
    if i == 0 then v.major else if i == 1 then v.minor else v.patch
  }

  ghost predicate Before(a: Version, b: Version) {
    || a.major < b.major
    || (a.major == b.major && a.minor < b.minor)
    || (a.major == b.major && a.minor == b.minor && a.patch < b.patch)
  }

  /** Negative, zero or positive, as a comes before, at or after b. */
  method Cmp(a: Version, b: Version) returns (r: int)
    ensures r == if Before(a, b) then -1 else if Before(b, a) then 1 else 0
    ensures r == 0 <==> a == b
  {
    for i := 0 to 3
      invariant forall j :: 0 <= j < i ==> At(a, j) == At(b, j)
      invariant i >= 1 ==> a.major == b.major
      invariant i >= 2 ==> a.minor == b.minor
      invariant i >= 3 ==> a.patch == b.patch
    {
      if At(a, i) < At(b, i) { return -1; }
      if At(a, i) > At(b, i) { return 1; }
    }
    return 0;
  }

  /** None stands for the error on an unsupported range or version. */
  method Satisfies(version: Text, range: Text) returns (r: Option<bool>)
    ensures r == SatisfiesSpec(version, range)
  {
    var bounds := ParseRange(range);
    if bounds.None? { return None; }
    var v := ParseVersion(version);
    if v.None? { return None; }
    var low := Cmp(v.value, bounds.value.0);
    var high := Cmp(v.value, bounds.value.1);
    return Some(low >= 0 && high < 0);
  }

  ghost function SatisfiesSpec(version: Text, range: Text): Option<bool> {
    var bounds, v := ParseRange(range), ParseVersion(version);
    if bounds.None? || v.None? then None
    else Some(!Before(v.value, bounds.value.0) && Before(v.value, bounds.value.1))
  }

  // ----- Printing -----

  function Print(v: Version): Text {
    Decimal(v.major) + ([DOT] + (Decimal(v.minor) + ([DOT] + Decimal(v.patch))))
  }

  function PrintRange(lower: Version, upper: Version): Text {
    [GREATER, EQUALS] + (Print(lower) + ([SPACE, LESS] + Print(upper)))
  }

  lemma {:induction false} DecimalValue(n: nat)
    ensures Decimal(n) != [] && (forall i :: 0 <= i < |Decimal(n)| ==> IsDigit(Decimal(n)[i]))
    ensures ValueOf(Decimal(n)) == n
  {
    if n < 10 {
      assert Decimal(n)[..0] == [];
      assert ValueOf([]) == 0;
    } else {
      DecimalValue(n / 10);
      assert Decimal(n)[..|Decimal(n)| - 1] == Decimal(n / 10);
    }
  }

  lemma {:induction false} DigitsThen(t: Text, rest: Text)
    requires forall i :: 0 <= i < |t| ==> IsDigit(t[i])
    requires rest == [] || !IsDigit(rest[0])
    ensures Digits(t + rest) == |t|
  {
    var all := t + rest;
    assert forall i :: 0 <= i < |t| ==> all[i] == t[i];
    assert rest != [] ==> all[|t|] == rest[0];
  }

  /** A run of decimal digits. */
  predicate Numeral(t: Text) { t != [] && forall i :: 0 <= i < |t| ==> '0' as int <= t[i] <= '9' as int }

  lemma {:induction false} NumeralThen(t: Text, rest: Text)
    requires Numeral(t) && (rest == [] || !IsDigit(rest[0]))
    ensures TakeNumber(t + rest) == Some((ValueOf(t), rest))
  {
    DigitsThen(t, rest);
    var all := t + rest;
    assert all[..|t|] == t && all[|t|..] == rest;
  }

  lemma {:induction false} NumberThen(n: nat, rest: Text)
    requires rest == [] || !IsDigit(rest[0])
    ensures TakeNumber(Decimal(n) + rest) == Some((n, rest))
  {
    DecimalValue(n);
    NumeralThen(Decimal(n), rest);
  }

  lemma {:induction false} UnitThen(u: Unit, rest: Text)
    ensures TakeUnit([u] + rest, u) == Some(rest)
  {
  }

  lemma {:induction false} VersionThen(v: Version, rest: Text)
    requires rest == [] || !IsDigit(rest[0])
    ensures TakeVersion(Print(v) + rest) == Some((v, rest))
  {
    var c := Decimal(v.patch) + rest;
    var b := Decimal(v.minor) + ([DOT] + c);
    NumberThen(v.patch, rest);
    NumberThen(v.minor, [DOT] + c);
    NumberThen(v.major, [DOT] + b);
    UnitThen(DOT, c);
    UnitThen(DOT, b);
    PrintedVersion(v, rest);
  }

  lemma {:induction false} PrintedVersion(v: Version, rest: Text)
    ensures Print(v) + rest
         == Decimal(v.major) + ([DOT] + (Decimal(v.minor) + ([DOT] + (Decimal(v.patch) + rest))))
  {
  }

  /** Three numerals with dots between them, and a text. */
  function Dotted(a: Text, b: Text, c: Text, rest: Text): Text {
    a + ([DOT] + (b + ([DOT] + (c + rest))))
  }

  /** The text starts with three numerals that stand for the version. */
  ghost predicate Written(t: Text, v: Version, a: Text, b: Text, c: Text, rest: Text) {
    && Numeral(a) && Numeral(b) && Numeral(c) && t == Dotted(a, b, c, rest)
    && v == Version(ValueOf(a), ValueOf(b), ValueOf(c))
  }

  lemma {:induction false} DottedThen(t: Text, v: Version, a: Text, b: Text, c: Text, rest: Text)
    requires Written(t, v, a, b, c, rest) && (rest == [] || !IsDigit(rest[0]))
    ensures TakeVersion(t) == Some((v, rest))
  {
    var last := c + rest;
    var middle := b + ([DOT] + last);
    NumeralThen(c, rest);
    NumeralThen(b, [DOT] + last);
    NumeralThen(a, [DOT] + middle);
    UnitThen(DOT, last);
    UnitThen(DOT, middle);
  }

  lemma {:induction false} NumberTaken(t: Text)
    requires TakeNumber(t).Some?
    ensures var n := Digits(t);
      Numeral(t[..n]) && t == t[..n] + t[n..] && TakeNumber(t) == Some((ValueOf(t[..n]), t[n..]))
      && (t[n..] == [] || !IsDigit(t[n..][0]))
  {
  }

  lemma {:induction false} UnitTaken(t: Text, u: Unit)
    requires TakeUnit(t, u).Some?
    ensures t == [u] + TakeUnit(t, u).value
  {
  }

  lemma {:induction false} VersionTaken(t: Text) returns (a: Text, b: Text, c: Text)
    requires TakeVersion(t).Some?
    ensures Written(t, TakeVersion(t).value.0, a, b, c, TakeVersion(t).value.1)
    ensures TakeVersion(t).value.1 == [] || !IsDigit(TakeVersion(t).value.1[0])
  {
    NumberTaken(t);
    var t1 := t[Digits(t)..];
    var middle := TakeUnit(t1, DOT).value;
    NumberTaken(middle);
    var t2 := middle[Digits(middle)..];
    var last := TakeUnit(t2, DOT).value;
    NumberTaken(last);
    UnitTaken(t1, DOT);
    UnitTaken(t2, DOT);
    a, b, c := t[..Digits(t)], middle[..Digits(middle)], last[..Digits(last)];
  }

  /** A version is read from exactly the texts of three numerals with dots between them. */
  lemma {:induction false} ParseVersionExactly(t: Text, v: Version)
    ensures ParseVersion(t) == Some(v) <==> exists a, b, c :: Written(t, v, a, b, c, [])
  {
    if ParseVersion(t) == Some(v) {
      var a, b, c := VersionTaken(t);
      assert Written(t, v, a, b, c, []);
    }
    if a, b, c :| Written(t, v, a, b, c, []) { DottedThen(t, v, a, b, c, []); }
  }

  /** `>=`, a version, some white space, `<` and a version. */
  ghost predicate WrittenRange(t: Text, lower: Version, upper: Version, low: Text, space: Text, high: Text) {
    && t == [GREATER, EQUALS] + (low + (space + ([LESS] + high)))
    && ParseVersion(low) == Some(lower) && ParseVersion(high) == Some(upper)
    && space != [] && forall i :: 0 <= i < |space| ==> IsSpace(space[i])
  }

  lemma {:induction false} LeadingSplits(t: Text)
    ensures t == t[..Leading(t)] + TrimStart(t)
    ensures forall i :: 0 <= i < Leading(t) ==> IsSpace(t[..Leading(t)][i])
  {
  }

  lemma {:induction false} UpperTaken(rest: Text) returns (space: Text, high: Text)
    requires ParseUpper(rest).Some?
    ensures rest == space + ([LESS] + high) && ParseVersion(high) == ParseUpper(rest)
    ensures space != [] && forall i :: 0 <= i < |space| ==> IsSpace(space[i])
  {
    space := rest[..Leading(rest)];
    high := TakeUnit(TrimStart(rest), LESS).value;
    LeadingSplits(rest);
    UnitTaken(TrimStart(rest), LESS);
  }

  lemma {:induction false} UpperRead(space: Text, high: Text)
    requires space != [] && forall i :: 0 <= i < |space| ==> IsSpace(space[i])
    ensures ParseUpper(space + ([LESS] + high)) == ParseVersion(high)
  {
    var rest := space + ([LESS] + high);
    assert rest[|space|] == LESS && forall i :: 0 <= i < |space| ==> rest[i] == space[i];
    assert Leading(rest) == |space| && rest[|space|..] == [LESS] + high;
    UnitThen(LESS, high);
  }

  lemma {:induction false} DottedAppend(a: Text, b: Text, c: Text, rest: Text)
    ensures Dotted(a, b, c, []) + rest == Dotted(a, b, c, rest)
  {
    assert c + [] == c;
    Regroup([DOT], c, rest);
    Regroup(b, [DOT] + c, rest);
    Regroup([DOT], b + ([DOT] + c), rest);
    Regroup(a, [DOT] + (b + ([DOT] + c)), rest);
  }

  lemma {:induction false} PrefixWritten(low: Text, lower: Version, rest: Text)
    requires ParseVersion(low) == Some(lower) && (rest == [] || !IsDigit(rest[0]))
    ensures TakeVersion(low + rest) == Some((lower, rest))
  {
    ParseVersionExactly(low, lower);
    var a, b, c :| Written(low, lower, a, b, c, []);
    DottedAppend(a, b, c, rest);
    DottedThen(low + rest, lower, a, b, c, rest);
  }

  lemma {:induction false} VersionSplit(t: Text, v: Version, rest: Text) returns (low: Text)
    requires TakeVersion(t) == Some((v, rest))
    ensures t == low + rest && ParseVersion(low) == Some(v)
  {
    var a, b, c := VersionTaken(t);
    low := Dotted(a, b, c, []);
    DottedThen(low, v, a, b, c, []);
    DottedAppend(a, b, c, rest);
  }

  lemma {:induction false} RangeTaken(body: Text, lower: Version, later: Text, upper: Version)
      returns (low: Text, space: Text, high: Text)
    requires TakeVersion(body) == Some((lower, later)) && ParseUpper(later) == Some(upper)
    ensures WrittenRange([GREATER, EQUALS] + body, lower, upper, low, space, high)
  {
    low := VersionSplit(body, lower, later);
    space, high := UpperTaken(later);
  }

  lemma {:induction false} RangeRead(body: Text, lower: Version, upper: Version, low: Text, space: Text, high: Text)
    requires WrittenRange([GREATER, EQUALS] + body, lower, upper, low, space, high)
    ensures var later := space + ([LESS] + high);
      TakeVersion(body) == Some((lower, later)) && ParseUpper(later) == Some(upper)
  {
    var later := space + ([LESS] + high);
    SamePrefix([GREATER, EQUALS], body, low + later);
    assert later[0] == space[0];
    PrefixWritten(low, lower, later);
    UpperRead(space, high);
  }

  /** The text behind `>=` is a version and an upper bound. */
  ghost predicate Parts(body: Text, lower: Version, later: Text, upper: Version) {
    TakeVersion(body) == Some((lower, later)) && ParseUpper(later) == Some(upper)
  }

  ghost predicate HasParts(t: Text, lower: Version, upper: Version) {
    exists body, later :: t == [GREATER, EQUALS] + body && Parts(body, lower, later, upper)
  }

  ghost predicate ReadAs(t: Text, lower: Version, upper: Version) {
    exists low, space, high :: WrittenRange(t, lower, upper, low, space, high)
  }

  lemma {:induction false} BoundsParsed(body: Text, lower: Version, upper: Version)
    ensures ParseBounds(body) == Some((lower, upper)) <==> exists later :: Parts(body, lower, later, upper)
  {
    if ParseBounds(body) == Some((lower, upper)) { assert Parts(body, lower, TakeVersion(body).value.1, upper); }
  }

  lemma {:induction false} PrefixParsed(range: Text, t: Text, body: Text)
    requires t == Trim(range) && t == [GREATER, EQUALS] + body
    ensures ParseRange(range) == ParseBounds(body)
  {
    assert t[..2] == [GREATER, EQUALS] && t[2..] == body;
  }

  lemma {:induction false} Prefixed(t: Text)
    requires |t| >= 2 && t[..2] == [GREATER, EQUALS]
    ensures t == [GREATER, EQUALS] + t[2..]
  {
  }

  lemma {:induction false} PrefixNeeded(range: Text, t: Text) returns (body: Text)
    requires t == Trim(range) && ParseRange(range).Some?
    ensures t == [GREATER, EQUALS] + body
  {
    body := t[2..];
    Prefixed(t);
  }

  lemma {:induction false} PartsWritten(t: Text, lower: Version, upper: Version)
    requires HasParts(t, lower, upper)
    ensures ReadAs(t, lower, upper)
  {
    var body, later :| t == [GREATER, EQUALS] + body && Parts(body, lower, later, upper);
    var low, space, high := RangeTaken(body, lower, later, upper);
  }

  lemma {:induction false} WrittenParts(t: Text, lower: Version, upper: Version)
    requires ReadAs(t, lower, upper)
    ensures HasParts(t, lower, upper)
  {
    var low, space, high :| WrittenRange(t, lower, upper, low, space, high);
    var body := low + (space + ([LESS] + high));
    RangeRead(body, lower, upper, low, space, high);
    assert Parts(body, lower, space + ([LESS] + high), upper);
  }

  lemma {:induction false} ParsedIsWritten(range: Text, t: Text, lower: Version, upper: Version)
    requires t == Trim(range) && ParseRange(range) == Some((lower, upper))
    ensures ReadAs(t, lower, upper)
  {
    var body := PrefixNeeded(range, t);
    PrefixParsed(range, t, body);
    BoundsParsed(body, lower, upper);
    PartsWritten(t, lower, upper);
  }

  lemma {:induction false} WrittenIsParsed(range: Text, t: Text, lower: Version, upper: Version)
    requires t == Trim(range) && ReadAs(t, lower, upper)
    ensures ParseRange(range) == Some((lower, upper))
  {
    WrittenParts(t, lower, upper);
    var body, later :| t == [GREATER, EQUALS] + body && Parts(body, lower, later, upper);
    BoundsParsed(body, lower, upper);
    PrefixParsed(range, t, body);
  }

  /** A range is read from exactly these texts, with white space around them. */
  lemma {:induction false} ParseRangeExactly(range: Text, lower: Version, upper: Version)
    ensures ParseRange(range) == Some((lower, upper)) <==> ReadAs(Trim(range), lower, upper)
  {
    if ParseRange(range) == Some((lower, upper)) { ParsedIsWritten(range, Trim(range), lower, upper); }
    if ReadAs(Trim(range), lower, upper) { WrittenIsParsed(range, Trim(range), lower, upper); }
  }

  /** Printed versions parse back. */
  lemma {:induction false} VersionRoundTrip(v: Version)
    ensures ParseVersion(Print(v)) == Some(v)
  {
    VersionThen(v, []);
    assert Print(v) + [] == Print(v);
  }

  lemma {:induction false} PrintEnds(v: Version)
    ensures Print(v) != [] && IsDigit(Print(v)[0]) && IsDigit(Print(v)[|Print(v)| - 1])
  {
    DecimalValue(v.major);
    DecimalValue(v.patch);
    assert Print(v)[0] == Decimal(v.major)[0];
    assert Print(v)[|Print(v)| - 1] == Decimal(v.patch)[|Decimal(v.patch)| - 1];
  }

  lemma {:induction false} UpperThen(upper: Version)
    ensures ParseUpper([SPACE, LESS] + Print(upper)) == Some(upper)
  {
    var tail := [SPACE, LESS] + Print(upper);
    assert tail[0] == SPACE && tail[1] == LESS;
    assert Leading(tail) == 1;
    assert tail[1..] == [LESS] + Print(upper);
    UnitThen(LESS, Print(upper));
    VersionRoundTrip(upper);
  }

  lemma {:induction false} RangeTight(lower: Version, upper: Version)
    ensures Trim(PrintRange(lower, upper)) == PrintRange(lower, upper)
  {
    var t := PrintRange(lower, upper);
    PrintEnds(upper);
    assert t[0] == GREATER && t[|t| - 1] == Print(upper)[|Print(upper)| - 1];
    TrimIdentity(t);
  }

  /** Printed ranges parse back. */
  lemma {:induction false} RangeRoundTrip(lower: Version, upper: Version)
    ensures ParseRange(PrintRange(lower, upper)) == Some((lower, upper))
  {
    var t, tail := PrintRange(lower, upper), [SPACE, LESS] + Print(upper);
    RangeTight(lower, upper);
    assert t[..2] == [GREATER, EQUALS] && t[2..] == Print(lower) + tail;
    VersionThen(lower, tail);
    UpperThen(upper);
  }

  /** On printed versions and ranges, `satisfies` is lower <= v < upper. */
  lemma {:induction false} SatisfiesExactly(v: Version, lower: Version, upper: Version)
    ensures SatisfiesSpec(Print(v), PrintRange(lower, upper)) == Some(!Before(v, lower) && Before(v, upper))
  {
    VersionRoundTrip(v);
    RangeRoundTrip(lower, upper);
  }

  /** Accepted versions are convex: what lies between two of them is accepted. */
  lemma {:induction false} Convex(a: Version, b: Version, c: Version, lower: Version, upper: Version)
    requires SatisfiesSpec(Print(a), PrintRange(lower, upper)) == Some(true)
    requires SatisfiesSpec(Print(c), PrintRange(lower, upper)) == Some(true)
    requires !Before(b, a) && !Before(c, b)
    ensures SatisfiesSpec(Print(b), PrintRange(lower, upper)) == Some(true)
  {
    SatisfiesExactly(a, lower, upper);
    SatisfiesExactly(b, lower, upper);
    SatisfiesExactly(c, lower, upper);
  }
}
