/** The SHA256SUMS manifest: its printer and its parser. */
module Manifest {
  import opened Options
  import opened Texts
  import opened Whitespace

  datatype Entry = Entry(hash: Text, name: Text)

  // ----- Printing -----

  function FormatManifestLine(e: Entry): Text {
    e.hash + [32, 32] + e.name
  }

  /** The format of `sha256sum`: two blanks between the digest and the name. */
  lemma {:induction false} LineFormat(e: Entry)
    ensures FormatManifestLine(e) == e.hash + Ascii("  ") + e.name
  {
    assert Ascii("  ") == [32, 32];
  }

  function Join(lines: seq<Text>): Text {
    if lines == [] then [] else if |lines| == 1 then lines[0] else lines[0] + [LF] + Join(lines[1..])
  }

  function Formatted(es: seq<Entry>): seq<Text> {
    if es == [] then [] else [FormatManifestLine(es[0])] + Formatted(es[1..])
  }

  lemma {:induction false} FormattedFrom(es: seq<Entry>, i: nat)
    requires i < |es|
    ensures Formatted(es[i..]) == [FormatManifestLine(es[i])] + Formatted(es[i + 1..])
  {
    assert es[i..][1..] == es[i + 1..];
  }

  function Print(es: seq<Entry>): Text {
    Join(Formatted(es)) + [LF]
  }

  /** The files given by their digest and base name. */
  method GenerateManifest(files: seq<Entry>) returns (text: Text)
    ensures text == Print(files)
  {
    var lines: seq<Text> := [];
    assert files[0..] == files;
    for i := 0 to |files|
      invariant lines + Formatted(files[i..]) == Formatted(files)
    {
      FormattedFrom(files, i);
      lines := lines + [FormatManifestLine(files[i])];
    }
    assert lines + Formatted(files[|files|..]) == lines;
    text := Join(lines) + [LF];
  }

  // ----- Parsing -----

  function FirstLf(text: Text): (i: nat)
    ensures i <= |text|
    ensures forall j :: 0 <= j < i ==> text[j] != LF
    ensures i < |text| ==> text[i] == LF
  {
    if text == [] || text[0] == LF then 0 else 1 + FirstLf(text[1..])
  }

  /** The text split at line feeds, each taking one carriage return before it along. */
  function Lines(text: Text): seq<Text>
    decreases |text|
  {
    var i := FirstLf(text);
    if i == |text| then [text]
    else [if i > 0 && text[i - 1] == CR then text[..i - 1] else text[..i]] + Lines(text[i + 1..])
  }

  predicate IsHex(u: Unit) {
    48 <= u <= 57 || 97 <= u <= 102
  }

  predicate IsHash(t: Text) {
    |t| == 64 && forall i :: 0 <= i < |t| ==> IsHex(t[i])
  }

  lemma {:induction false} HashExactly(t: Text)
    ensures IsHash(t) <==>
      |t| == 64 && forall u :: u in t ==> '0' as int <= u <= '9' as int || 'a' as int <= u <= 'f' as int
  {
    if IsHash(t) {
      forall u | u in t ensures IsHex(u) {
        var i :| 0 <= i < |t| && t[i] == u;
      }
    }
    assert forall i :: 0 <= i < |t| ==> t[i] in t;
  }

  predicate OneLine(t: Text) {
    forall i :: 0 <= i < |t| ==> !IsLineTerminator(t[i])
  }

  /** A hash, then all the white space there is, then a name to the end. */
  function ParseLine(line: Text): Option<Entry> {
    if |line| < 64 || !IsHash(line[..64]) then None
    else
      var rest := line[64..];
      var name := TrimStart(rest);
      if Leading(rest) == 0 || name == [] || !OneLine(name) then None else Some(Entry(line[..64], name))
  }

  function ParseLines(lines: seq<Text>): Option<seq<Entry>> {
    if lines == [] then Some([])
    else
      var line := Trim(lines[0]);
      if line == [] then ParseLines(lines[1..])
      else
        var first, others := ParseLine(line), ParseLines(lines[1..]);
        if first.None? || others.None? then None else Some([first.value] + others.value)
  }

  function ParseManifest(text: Text): Option<seq<Entry>> {
    ParseLines(Lines(text))
  }

  // ----- The pattern of a line -----

  ghost predicate AllSpace(t: Text) {
    forall i :: 0 <= i < |t| ==> IsSpace(t[i])
  }

  /** One way to read the line as a hash, some white space and a name. */
  ghost predicate Reads(line: Text, space: Text, e: Entry) {
    line == e.hash + space + e.name && IsHash(e.hash) && space != [] && AllSpace(space) && e.name != []
      && OneLine(e.name)
  }

  /**
   The parser accepts a trimmed line exactly when it can be read at all, and takes
   the reading with the most white space.
   */
  lemma {:induction false} ParseLineGreedy(line: Text)
    requires Tight(line)
    ensures ParseLine(line).Some? <==> exists space, e :: Reads(line, space, e)
    ensures ParseLine(line).Some? ==>
      exists space :: Reads(line, space, ParseLine(line).value)
        && forall space', e' :: Reads(line, space', e') ==> |space'| <= |space|
  {
    forall space, e | Reads(line, space, e)
      ensures ParseLine(line).Some? && |space| <= Leading(line[64..])
    {
      ReadIsAccepted(line, space, e);
    }
    if ParseLine(line).Some? {
      var rest := line[64..];
      var n := Leading(rest);
      assert line == line[..64] + rest[..n] + rest[n..];
      assert Reads(line, rest[..n], ParseLine(line).value);
    }
  }

  lemma {:induction false} ReadIsAccepted(line: Text, space: Text, e: Entry)
    requires Tight(line) && Reads(line, space, e)
    ensures ParseLine(line).Some? && |space| <= Leading(line[64..])
  {
    var rest := line[64..];
    assert line[..64] == e.hash;
    assert rest == space + e.name;
    var n := Leading(rest);
    assert |space| <= n;
    assert line[|line| - 1] == rest[|rest| - 1];
    var name := rest[n..];
    assert name != [];
    forall i | 0 <= i < |name| ensures !IsLineTerminator(name[i]) {
      assert name[i] == e.name[n - |space| + i];
    }
  }

  // ----- Round trips -----

  /**
   What can be written and read back: a digest, and a name that stays on one line
   and has no white space at its ends.
   */
  predicate Printable(e: Entry) {
    IsHash(e.hash) && e.name != [] && OneLine(e.name) && Tight(e.name)
  }

  predicate AllPrintable(es: seq<Entry>) {
    forall i :: 0 <= i < |es| ==> Printable(es[i])
  }

  lemma {:induction false} PrintedLine(e: Entry)
    requires Printable(e)
    ensures var line := FormatManifestLine(e);
      Tight(line) && line != [] && OneLine(line) && ParseLine(line) == Some(e)
  {
    var line := FormatManifestLine(e);
    assert line[0] == e.hash[0] && IsHex(e.hash[0]);
    assert line[|line| - 1] == e.name[|e.name| - 1];
    forall i | 0 <= i < |line| ensures !IsLineTerminator(line[i]) {
      if i < 64 { assert line[i] == e.hash[i] && IsHex(e.hash[i]); }
      else if i >= 66 { assert line[i] == e.name[i - 66]; }
    }
    assert line[..64] == e.hash;
    var rest := line[64..];
    assert rest[0] == 32 && rest[1] == 32 && rest[2] == e.name[0];
    assert Leading(rest) == 2;
    assert rest[2..] == e.name;
  }

  lemma {:induction false} FirstLfAt(line: Text, rest: Text)
    requires OneLine(line)
    ensures FirstLf(line + [LF] + rest) == |line|
  {
    var text := line + [LF] + rest;
    assert text[|line|] == LF;
    assert forall j :: 0 <= j < |line| ==> text[j] == line[j];
  }

  lemma {:induction false} LinesCons(line: Text, rest: Text)
    requires OneLine(line)
    ensures Lines(line + [LF] + rest) == [line] + Lines(rest)
  {
    var text := line + [LF] + rest;
    FirstLfAt(line, rest);
    assert text[..|line|] == line && text[|line| + 1..] == rest;
    if |line| > 0 { assert text[|line| - 1] == line[|line| - 1]; }
  }

  lemma {:induction false} ParseCons(e: Entry, rest: Text)
    requires Printable(e)
    ensures ParseManifest(FormatManifestLine(e) + [LF] + rest)
         == if ParseManifest(rest).None? then None else Some([e] + ParseManifest(rest).value)
  {
    PrintedLine(e);
    var line := FormatManifestLine(e);
    LinesCons(line, rest);
    TrimIdentity(line);
    assert ([line] + Lines(rest))[1..] == Lines(rest);
  }

  lemma {:induction false} ParseBlank()
    ensures ParseManifest([]) == Some([]) && ParseManifest([LF]) == Some([])
  {
    LinesCons([], []);
    assert [] + [LF] + [] == [LF];
    assert Lines([]) == [[]];
    TrimIdentity([]);
    assert ([[]] + Lines([]))[1..] == Lines([]);
    assert ParseLines(Lines([])) == Some([]);
  }

  lemma {:induction false} PrintCons(e: Entry, rest: seq<Entry>)
    ensures Print([e] + rest) == FormatManifestLine(e) + [LF] + if rest == [] then [] else Print(rest)
  {
    assert ([e] + rest)[1..] == rest;
    assert Formatted([e] + rest)[1..] == Formatted(rest);
  }

  lemma {:induction false} PrintedParses(es: seq<Entry>)
    requires AllPrintable(es)
    ensures ParseManifest(Print(es)) == Some(es)
  {
    ParseBlank();
    if es == [] {
      assert Print(es) == [LF];
    } else {
      var e, rest := es[0], es[1..];
      assert es == [e] + rest;
      PrintedParses(rest);
      PrintCons(e, rest);
      ParseCons(e, if rest == [] then [] else Print(rest));
    }
  }

  /** Whatever the parser returns can be printed. */
  lemma {:induction false} LinePrintable(line: Text)
    requires Tight(line) && ParseLine(line).Some?
    ensures Printable(ParseLine(line).value)
  {
    var name := ParseLine(line).value.name;
    assert name[|name| - 1] == line[|line| - 1];
  }

  lemma {:induction false} ParsedPrintable(lines: seq<Text>)
    requires ParseLines(lines).Some?
    ensures AllPrintable(ParseLines(lines).value)
  {
    if lines == [] {
    } else {
      var line, others := Trim(lines[0]), ParseLines(lines[1..]);
      ParsedPrintable(lines[1..]);
      TrimTight(lines[0]);
      if line != [] {
        LinePrintable(line);
        AllPrintableCons(ParseLine(line).value, others.value);
      }
    }
  }

  lemma {:induction false} AllPrintableCons(e: Entry, es: seq<Entry>)
    requires Printable(e) && AllPrintable(es)
    ensures AllPrintable([e] + es)
  {
  }

  /** A printed manifest parses back to its entries exactly when every entry is printable. */
  lemma {:induction false} RoundTrip(es: seq<Entry>)
    ensures ParseManifest(Print(es)) == Some(es) <==> AllPrintable(es)
  {
    if AllPrintable(es) { PrintedParses(es); }
    if ParseManifest(Print(es)) == Some(es) { ParsedPrintable(Lines(Print(es))); }
  }

  /** Printing what was parsed from any accepted text, and parsing again, gives the same entries. */
  lemma {:induction false} Reprint(text: Text)
    requires ParseManifest(text).Some?
    ensures ParseManifest(Print(ParseManifest(text).value)) == ParseManifest(text)
  {
    ParsedPrintable(Lines(text));
    PrintedParses(ParseManifest(text).value);
  }
}
