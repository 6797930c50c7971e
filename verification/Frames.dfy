/** The frame splitter of a streamed response: frames end at a delimiter, chunks anywhere. */
module Frames {
  import opened Texts
  import opened Whitespace

  const SSE: Text := [LF, LF]
  const NDJSON: Text := [LF]

  /** The delimiter stands at position i. */
  predicate FoundAt(text: Text, delimiter: Text, i: nat) {
    i + |delimiter| <= |text| && forall k :: 0 <= k < |delimiter| ==> text[i + k] == delimiter[k]
  }

  /** The first position of the delimiter, or None by way of the text's length. */
  function IndexOf(text: Text, delimiter: Text, from: nat): (i: nat)
    requires from <= |text| && delimiter != []
    ensures from <= i <= |text|
    ensures i < |text| ==> FoundAt(text, delimiter, i)
    ensures forall j :: from <= j < i ==> !FoundAt(text, delimiter, j)
    decreases |text| - from
  {
    if from == |text| || FoundAt(text, delimiter, from) then from else IndexOf(text, delimiter, from + 1)
  }

  /** The complete frames of a text, each with its delimiter, and the partial frame after them. */
  function Split(text: Text, delimiter: Text): (seq<Text>, Text)
    requires delimiter != []
    decreases |text|
  {
    var i := IndexOf(text, delimiter, 0);
    if i == |text| then ([], text)
    else
      var (frames, rest) := Split(text[i + |delimiter|..], delimiter);
      ([text[..i + |delimiter|]] + frames, rest)
  }

  function UnlessBlank(frame: Text): seq<Text> {
    if Trim(frame) == [] then [] else [frame]
  }

  /** The frames that are not blank. */
  function Filled(frames: seq<Text>): seq<Text> {
    if frames == [] then [] else UnlessBlank(frames[0]) + Filled(frames[1..])
  }

  lemma {:induction false} FilledCons(frame: Text, frames: seq<Text>)
    ensures Filled([frame] + frames) == UnlessBlank(frame) + Filled(frames)
  {
    assert ([frame] + frames)[1..] == frames;
  }

  /** Of all the text, `out` has been delivered and `buffer` remains to be split. */
  ghost predicate Remains(all: Text, out: seq<Text>, buffer: Text, delimiter: Text)
    requires delimiter != []
  {
    && Split(buffer, delimiter).1 == Split(all, delimiter).1
    && out + Filled(Split(buffer, delimiter).0) == Filled(Split(all, delimiter).0)
  }

  lemma {:induction false} RemainsAtStart(all: Text, delimiter: Text)
    requires delimiter != []
    ensures Remains(all, [], all, delimiter)
  {
  }

  lemma {:induction false} RemainsAtEnd(all: Text, out: seq<Text>, buffer: Text, delimiter: Text)
    requires delimiter != [] && Remains(all, out, buffer, delimiter) && IndexOf(buffer, delimiter, 0) == |buffer|
    ensures out == Filled(Split(all, delimiter).0) && buffer == Split(all, delimiter).1
  {
    assert Split(buffer, delimiter) == ([], buffer);
    assert out + Filled([]) == out;
  }

  class Splitter {
    const delimiter: Text
    var buffer: Text

    ghost predicate Valid()
      reads this
    {
      delimiter != []
    }

    constructor (sse: bool)
      ensures Valid() && buffer == [] && delimiter == if sse then SSE else NDJSON
    {
      delimiter := if sse then SSE else NDJSON;
      buffer := [];
    }

    method Push(text: Text) returns (out: seq<Text>)
      requires Valid()
      modifies `buffer
      ensures out == Filled(Split(old(buffer) + text, delimiter).0)
      ensures buffer == Split(old(buffer) + text, delimiter).1
    {
      buffer := buffer + text;
      out := [];
      ghost var all := buffer;
      RemainsAtStart(all, delimiter);
      var index := IndexOf(buffer, delimiter, 0);
      while index < |buffer|
        invariant index == IndexOf(buffer, delimiter, 0)
        invariant Remains(all, out, buffer, delimiter)
        decreases |buffer|
      {
        ghost var before, whole := out, buffer;
        var raw := buffer[..index + |delimiter|];
        buffer := buffer[index + |delimiter|..];
        assert whole == raw + buffer;
        FirstFrame(raw, buffer, delimiter);
        if Trim(raw) != [] {
          out := out + [raw];
        }
        FilledStep(all, before, raw, buffer, delimiter);
        assert out == before + UnlessBlank(raw);
        index := IndexOf(buffer, delimiter, 0);
      }
      RemainsAtEnd(all, out, buffer, delimiter);
    }

    method End(text: Text) returns (out: seq<Text>)
      modifies `buffer
      ensures buffer == [] && out == Filled([old(buffer) + text])
    {
      var remainder := buffer + text;
      buffer := [];
      if Trim(remainder) == [] { return []; }
      return [remainder];
    }
  }

  /** Everything a splitter delivers for a stream of chunks: the frames of each push, then the remainder. */
  function Delivered(buffer: Text, chunks: seq<Text>, delimiter: Text): seq<Text>
    requires delimiter != []
    decreases |chunks|
  {
    if chunks == [] then Filled([buffer])
    else
      var (frames, rest) := Split(buffer + chunks[0], delimiter);
      Filled(frames) + Delivered(rest, chunks[1..], delimiter)
  }

  function Joined(texts: seq<Text>): Text {
    if texts == [] then [] else texts[0] + Joined(texts[1..])
  }

  // ----- Frames -----

  /** The text ends with its first and only delimiter. */
  ghost predicate IsFrame(text: Text, delimiter: Text)
    requires delimiter != []
  {
    |text| >= |delimiter| && IndexOf(text, delimiter, 0) == |text| - |delimiter|
  }

  lemma {:induction false} FoundAlike(text: Text, more: Text, delimiter: Text, i: nat)
    requires i + |delimiter| <= |text|
    ensures FoundAt(text + more, delimiter, i) <==> FoundAt(text, delimiter, i)
  {
    var all := text + more;
    if FoundAt(all, delimiter, i) {
      forall k | 0 <= k < |delimiter| ensures text[i + k] == delimiter[k] { assert all[i + k] == delimiter[k]; }
    }
    if FoundAt(text, delimiter, i) {
      forall k | 0 <= k < |delimiter| ensures all[i + k] == delimiter[k] { assert text[i + k] == delimiter[k]; }
    }
  }

  lemma {:induction false} IndexAlike(text: Text, more: Text, delimiter: Text, i: nat)
    requires delimiter != [] && i + |delimiter| <= |text|
    ensures IndexOf(text, delimiter, 0) == i <==> IndexOf(text + more, delimiter, 0) == i
  {
    forall j | 0 <= j <= i ensures FoundAt(text + more, delimiter, j) <==> FoundAt(text, delimiter, j) {
      FoundAlike(text, more, delimiter, j);
    }
  }

  /** A text in which a delimiter is found starts with a frame. */
  lemma {:induction false} FirstFrame(frame: Text, rest: Text, delimiter: Text)
    requires delimiter != [] && |frame| >= |delimiter|
    requires IndexOf(frame + rest, delimiter, 0) == |frame| - |delimiter|
    ensures IsFrame(frame, delimiter)
  {
    IndexAlike(frame, rest, delimiter, |frame| - |delimiter|);
  }

  lemma {:induction false} SplitCons(frame: Text, rest: Text, delimiter: Text)
    requires delimiter != [] && IsFrame(frame, delimiter)
    ensures Split(frame + rest, delimiter) == ([frame] + Split(rest, delimiter).0, Split(rest, delimiter).1)
  {
    IndexAlike(frame, rest, delimiter, |frame| - |delimiter|);
    var text := frame + rest;
    assert text[..|frame|] == frame && text[|frame|..] == rest;
  }

  /** Taking the first frame off the buffer. */
  lemma {:induction false} FilledStep(all: Text, out: seq<Text>, frame: Text, rest: Text, delimiter: Text)
    requires delimiter != [] && IsFrame(frame, delimiter) && Remains(all, out, frame + rest, delimiter)
    ensures Remains(all, out + UnlessBlank(frame), rest, delimiter)
  {
    SplitCons(frame, rest, delimiter);
    FilledCons(frame, Split(rest, delimiter).0);
    Regroup(out, UnlessBlank(frame), Filled(Split(rest, delimiter).0));
  }

  // ----- Splitting -----

  /** The frames and the partial frame of the text, put together, are the text. */
  ghost predicate MakeUp(text: Text, delimiter: Text)
    requires delimiter != []
  {
    Joined(Split(text, delimiter).0) + Split(text, delimiter).1 == text
  }

  lemma {:induction false} MakeUpCons(frame: Text, rest: Text, delimiter: Text)
    requires delimiter != [] && IsFrame(frame, delimiter) && MakeUp(rest, delimiter)
    ensures MakeUp(frame + rest, delimiter)
  {
    SplitCons(frame, rest, delimiter);
    var frames := Split(rest, delimiter).0;
    assert ([frame] + frames)[1..] == frames;
    Regroup(frame, Joined(frames), Split(rest, delimiter).1);
  }

  /** No text is lost or reordered by splitting. */
  lemma {:induction false} SplitConserves(text: Text, delimiter: Text)
    requires delimiter != []
    ensures MakeUp(text, delimiter)
    decreases |text|
  {
    var i := IndexOf(text, delimiter, 0);
    if i == |text| {
    } else {
      var frame, rest := text[..i + |delimiter|], text[i + |delimiter|..];
      assert text == frame + rest;
      FirstFrame(frame, rest, delimiter);
      SplitConserves(rest, delimiter);
      MakeUpCons(frame, rest, delimiter);
    }
  }

  /** Splitting a text and then its partial frame with more text gives the same frames as splitting all at once. */
  ghost predicate Resumes(text: Text, more: Text, delimiter: Text)
    requires delimiter != []
  {
    var (frames, rest) := Split(text, delimiter);
    Split(text + more, delimiter) == (frames + Split(rest + more, delimiter).0, Split(rest + more, delimiter).1)
  }

  lemma {:induction false} ResumesCons(frame: Text, rest: Text, more: Text, delimiter: Text)
    requires delimiter != [] && IsFrame(frame, delimiter) && Resumes(rest, more, delimiter)
    ensures Resumes(frame + rest, more, delimiter)
  {
    SplitCons(frame, rest, delimiter);
    SplitCons(frame, rest + more, delimiter);
    Regroup(frame, rest, more);
    var split := Split(rest, delimiter);
    Regroup([frame], split.0, Split(split.1 + more, delimiter).0);
  }

  lemma {:induction false} SplitResumes(text: Text, more: Text, delimiter: Text)
    requires delimiter != []
    ensures Resumes(text, more, delimiter)
    decreases |text|
  {
    var i := IndexOf(text, delimiter, 0);
    if i < |text| {
      var frame, rest := text[..i + |delimiter|], text[i + |delimiter|..];
      assert text == frame + rest;
      FirstFrame(frame, rest, delimiter);
      SplitResumes(rest, more, delimiter);
      ResumesCons(frame, rest, more, delimiter);
    } else {
      assert Split(text, delimiter) == ([], text);
      assert [] + Split(text + more, delimiter).0 == Split(text + more, delimiter).0;
    }
  }

  /** The text has more than white space. */
  ghost predicate Inked(text: Text) {
    exists i :: 0 <= i < |text| && !IsSpace(text[i])
  }

  lemma {:induction false} TrimmedAway(text: Text)
    ensures Trim(text) == [] <==> !Inked(text)
  {
    var start := TrimStart(text);
    assert text == text[..Leading(text)] + start;
    if Leading(text) == |text| {
    } else {
      TrimEndInked(start);
    }
  }

  lemma {:induction false} TrimEndInked(text: Text)
    requires text != [] && !IsSpace(text[0])
    ensures TrimEnd(text) != []
  {
    if !IsSpace(text[|text| - 1]) {
    } else {
      TrimEndInked(text[..|text| - 1]);
    }
  }

  /** A frame is delivered exactly when it has more than white space; several are delivered one by one, in order. */
  lemma {:induction false} DeliveredExactly(frame: Text, frames: seq<Text>)
    ensures Filled([]) == []
    ensures Filled([frame] + frames) == if Inked(frame) then [frame] + Filled(frames) else Filled(frames)
  {
    TrimmedAway(frame);
    FilledCons(frame, frames);
    assert [] + Filled(frames) == Filled(frames);
  }

  lemma {:induction false} FilledAppend(a: seq<Text>, b: seq<Text>)
    ensures Filled(a + b) == Filled(a) + Filled(b)
  {
    if a == [] {
      assert a + b == b;
    } else {
      var first, others := a[0], a[1..];
      FilledAppend(others, b);
      FilledAppendCons(first, others, b);
      assert a == [first] + others;
    }
  }

  lemma {:induction false} FilledAppendCons(first: Text, others: seq<Text>, b: seq<Text>)
    requires Filled(others + b) == Filled(others) + Filled(b)
    ensures Filled([first] + others + b) == Filled([first] + others) + Filled(b)
  {
    Regroup([first], others, b);
    FilledCons(first, others + b);
    FilledCons(first, others);
    Regroup(UnlessBlank(first), Filled(others), Filled(b));
  }

  /** The frames delivered do not depend on where the stream is cut into chunks. */
  lemma {:induction false} ChunkIndependent(buffer: Text, chunks: seq<Text>, delimiter: Text)
    requires delimiter != []
    requires Split(buffer, delimiter).0 == []
    ensures var (frames, rest) := Split(buffer + Joined(chunks), delimiter);
      Delivered(buffer, chunks, delimiter) == Filled(frames) + Filled([rest])
    decreases |chunks|
  {
    if chunks == [] {
      assert buffer + Joined(chunks) == buffer;
      assert Split(buffer, delimiter).1 == buffer;
    } else {
      var (frames, rest) := Split(buffer + chunks[0], delimiter);
      var later := Joined(chunks[1..]);
      RestIsPartial(buffer + chunks[0], delimiter);
      ChunkIndependent(rest, chunks[1..], delimiter);
      SplitResumes(buffer + chunks[0], later, delimiter);
      Regroup(buffer, chunks[0], later);
      var more := Split(rest + later, delimiter);
      FilledAppend(frames, more.0);
      Regroup(Filled(frames), Filled(more.0), Filled([more.1]));
    }
  }

  lemma {:induction false} RestIsPartial(text: Text, delimiter: Text)
    requires delimiter != []
    ensures Split(Split(text, delimiter).1, delimiter).0 == []
    decreases |text|
  {
    var i := IndexOf(text, delimiter, 0);
    if i == |text| {
    } else {
      RestIsPartial(text[i + |delimiter|..], delimiter);
    }
  }

  /** A stream delivered in chunks is a stream delivered whole. */
  lemma {:induction false} DeliveredWhole(chunks: seq<Text>, others: seq<Text>, delimiter: Text)
    requires delimiter != [] && Joined(chunks) == Joined(others)
    ensures Delivered([], chunks, delimiter) == Delivered([], others, delimiter)
  {
    assert [] + Joined(chunks) == Joined(chunks) && [] + Joined(others) == Joined(others);
    assert IndexOf([], delimiter, 0) == 0;
    ChunkIndependent([], chunks, delimiter);
    ChunkIndependent([], others, delimiter);
  }
}
