/** Cutting a stream of text into frames at a delimiter, however the stream arrives. */
module Framing {
  import opened Sequences

  predicate At(s: string, d: string, i: nat) {
    i + |d| <= |s| && s[i..i + |d|] == d
  }

  /** The first occurrence, or -1. */
  function IndexOf(s: string, d: string): (i: int)
    ensures -1 <= i && (i >= 0 ==> i + |d| <= |s|)
  {
    FirstFrom(s, d, 0)
  }

  function FirstFrom(s: string, d: string, from: nat): (i: int)
    requires from <= |s| + 1
    ensures -1 <= i && (i >= 0 ==> i + |d| <= |s|)
    decreases |s| + 1 - from
  {
    if from > |s| then -1 else if At(s, d, from) then from else FirstFrom(s, d, from + 1)
  }

  predicate First(s: string, d: string, i: int) {
    0 <= i && At(s, d, i) && forall j: nat :: j < i ==> !At(s, d, j)
  }

  lemma {:induction false} FirstFromIs(s: string, d: string, from: nat)
    requires from <= |s| + 1 && forall j: nat :: j < from ==> !At(s, d, j)
    ensures var i := FirstFrom(s, d, from); if i < 0 then forall j: nat :: !At(s, d, j) else First(s, d, i)
    decreases |s| + 1 - from
  {
    if from <= |s| && !At(s, d, from) {
      FirstFromIs(s, d, from + 1);
    }
  }

  lemma IndexIs(s: string, d: string, i: nat)
    requires First(s, d, i)
    ensures IndexOf(s, d) == i
  {
    FirstFromIs(s, d, 0);
    var k := IndexOf(s, d);
    assert k >= 0;
    assert !(k < i) && !(i < k);
  }

  datatype Cut = Cut(frames: seq<string>, rest: string)

  /** The pieces between delimiters, with the last piece, which no delimiter has ended yet, kept apart. */
  function Split(s: string, d: string): Cut
    requires d != []
    decreases |s|
  {
    var i := IndexOf(s, d);
    if i < 0 then Cut([], s)
    else
      var later := Split(s[i + |d|..], d);
      Cut([s[..i]] + later.frames, later.rest)
  }

  // ------------------------------------------------------- splitting undoes joining, and back

  function Join(frames: seq<string>, d: string): string {
    if frames == [] then [] else frames[0] + d + Join(frames[1..], d)
  }

  /** Written before a delimiter, the frame is ended by that delimiter and not by an earlier one. */
  predicate Frame(f: string, d: string) {
    IndexOf(f + d, d) == |f|
  }

  predicate Framed(c: Cut, d: string) {
    (forall i :: 0 <= i < |c.frames| ==> Frame(c.frames[i], d)) && IndexOf(c.rest, d) < 0
  }

  lemma SameAt(s: string, t: string, d: string, j: nat)
    requires j + |d| <= |s| && j + |d| <= |t| && s[..j + |d|] == t[..j + |d|]
    ensures At(s, d, j) <==> At(t, d, j)
  {
    assert s[j..j + |d|] == s[..j + |d|][j..] && t[j..j + |d|] == t[..j + |d|][j..];
  }

  /** The first occurrence depends only on the text up to its end. */
  lemma IndexInPrefix(s: string, t: string, d: string)
    requires IndexOf(s, d) >= 0 && IndexOf(s, d) + |d| <= |t| && t[..IndexOf(s, d) + |d|] == s[..IndexOf(s, d) + |d|]
    ensures IndexOf(t, d) == IndexOf(s, d) && s[..IndexOf(s, d) + |d|] == s[..IndexOf(s, d)] + d
  {
    var i := IndexOf(s, d);
    FirstFromIs(s, d, 0);
    SameAt(s, t, d, i);
    forall j: nat | j < i ensures !At(t, d, j) {
      assert s[..j + |d|] == s[..i + |d|][..j + |d|] == t[..j + |d|];
      SameAt(s, t, d, j);
    }
    IndexIs(t, d, i);
  }

  lemma Head(f: string, d: string, tail: string)
    ensures var s := f + d + tail; s[..|f| + |d|] == f + d && s[|f| + |d|..] == tail && s[..|f|] == f
  {
  }

  /** A frame in front of its delimiter is the first piece. */
  lemma SplitStep(f: string, d: string, tail: string)
    requires d != [] && Frame(f, d)
    ensures Split(f + d + tail, d) == Cut([f] + Split(tail, d).frames, Split(tail, d).rest)
  {
    Head(f, d, tail);
    IndexInPrefix(f + d, f + d + tail, d);
  }

  /** Taking the text apart at the first delimiter. */
  lemma FirstPiece(s: string, d: string) returns (f: string, tail: string)
    requires d != [] && IndexOf(s, d) >= 0
    ensures Frame(f, d) && s == f + d + tail && f == s[..IndexOf(s, d)] && tail == s[IndexOf(s, d) + |d|..]
        && |tail| < |s|
  {
    var i := IndexOf(s, d);
    f, tail := s[..i], s[i + |d|..];
    FirstFromIs(s, d, 0);
    assert s[..i + |d|] == f + d;
    assert s == s[..i + |d|] + tail;
    IndexInPrefix(s, f + d, d);
  }

  lemma {:induction false} SplitIsFramed(s: string, d: string)
    requires d != []
    ensures Framed(Split(s, d), d) && s == Join(Split(s, d).frames, d) + Split(s, d).rest
    decreases |s|
  {
    if IndexOf(s, d) >= 0 {
      var f, tail := FirstPiece(s, d);
      SplitIsFramed(tail, d);
      SplitStep(f, d, tail);
      JoinStep(f, Split(tail, d).frames, d, Split(tail, d).rest);
    }
  }

  lemma JoinStep(f: string, frames: seq<string>, d: string, rest: string)
    ensures Join([f] + frames, d) + rest == f + d + (Join(frames, d) + rest)
  {
    assert ([f] + frames)[1..] == frames;
  }

  /** Any frames and rest come back from the text they were written to. */
  lemma {:induction false} SplitOfJoin(c: Cut, d: string)
    requires d != [] && Framed(c, d)
    ensures Split(Join(c.frames, d) + c.rest, d) == c
    decreases |c.frames|
  {
    if c.frames == [] {
      assert Join(c.frames, d) + c.rest == c.rest;
    } else {
      var f, later := c.frames[0], Cut(c.frames[1..], c.rest);
      SplitOfJoin(later, d);
      assert c.frames == [f] + later.frames;
      JoinStep(f, later.frames, d, c.rest);
      SplitStep(f, d, Join(later.frames, d) + later.rest);
    }
  }

  // ------------------------------------------------------------------------ piece by piece

  /** What is left of one piece is carried into the next; nothing else is remembered. */
  lemma {:induction false} SplitOfPieces(a: string, b: string, d: string)
    requires d != []
    ensures var first := Split(a, d);
            var second := Split(first.rest + b, d);
            Split(a + b, d) == Cut(first.frames + second.frames, second.rest)
    decreases |a|
  {
    if IndexOf(a, d) < 0 {
      assert [] + Split(a + b, d).frames == Split(a + b, d).frames;
    } else {
      var f, tail := FirstPiece(a, d);
      SplitOfPieces(tail, b, d);
      SplitStep(f, d, tail);
      SplitStep(f, d, tail + b);
      Regroup(f + d, tail, b);
      Regroup([f], Split(tail, d).frames, Split(Split(tail, d).rest + b, d).frames);
    }
  }

  function Whole(chunks: seq<string>): string {
    if chunks == [] then [] else Whole(chunks[..|chunks| - 1]) + chunks[|chunks| - 1]
  }

  // -------------------------------------------------------- the bridge: one message per line

  /** apps/zhi-slack-bridge/src/bridge-server.ts; `white` says what `trim` removes. */
  predicate Blank(white: char -> bool, line: string) {
    forall i :: 0 <= i < |line| ==> white(line[i])
  }

  function Messages(white: char -> bool, lines: seq<string>): seq<string> {
    if lines == [] then []
    else Messages(white, lines[..|lines| - 1]) + if Blank(white, lines[|lines| - 1]) then [] else [lines[|lines| - 1]]
  }

  lemma {:induction false} MessagesConcat(white: char -> bool, a: seq<string>, b: seq<string>)
    ensures Messages(white, a + b) == Messages(white, a) + Messages(white, b)
  {
    if b == [] {
      assert a + b == a;
    } else {
      assert (a + b)[..|a + b| - 1] == a + b[..|b| - 1];
      MessagesConcat(white, a, b[..|b| - 1]);
    }
  }

  ghost function NonBlankAt(white: char -> bool, lines: seq<string>): nat -> bool {
    (k: nat) => k < |lines| && exists i :: 0 <= i < |lines[k]| && !white(lines[k][i])
  }

  ghost function LineAt(lines: seq<string>): (nat, string) -> bool {
    (k: nat, line: string) => k < |lines| && line == lines[k]
  }

  /** The lines that hold something besides white space, as they are and in order. */
  ghost predicate NonBlank(white: char -> bool, lines: seq<string>, handed: seq<string>) {
    Picks(|lines|, NonBlankAt(white, lines), LineAt(lines), handed)
  }

  lemma {:induction false} FirstMessages(white: char -> bool, lines: seq<string>, n: nat)
    requires n <= |lines|
    ensures Picks(n, NonBlankAt(white, lines), LineAt(lines), Messages(white, lines[..n]))
  {
    var keep, says := NonBlankAt(white, lines), LineAt(lines);
    if n == 0 {
      PicksNothing(keep, says);
    } else {
      FirstMessages(white, lines, n - 1);
      assert lines[..n] == lines[..n - 1] + [lines[n - 1]];
      MessagesSnoc(white, lines[..n - 1], lines[n - 1]);
      var before := Messages(white, lines[..n - 1]);
      if Blank(white, lines[n - 1]) {
        PicksSame(n - 1, keep, says, before);
        assert before + [] == before;
      } else {
        PicksMore(n - 1, keep, says, before, lines[n - 1]);
      }
    }
  }

  lemma MessagesAre(white: char -> bool, lines: seq<string>)
    ensures NonBlank(white, lines, Messages(white, lines))
  {
    FirstMessages(white, lines, |lines|);
    assert lines[..|lines|] == lines;
  }

  /** One connection: the text that no newline has ended yet. */
  class Connection {
    const white: char -> bool
    var buffer: string
    ghost var received: string
    ghost var handled: seq<string>

    /** Everything handled so far is what the whole stream so far contains. */
    ghost predicate Valid()
      reads this
    {
      buffer == Split(received, "\n").rest && handled == Messages(white, Split(received, "\n").frames)
    }

    constructor (white: char -> bool)
      ensures Valid() && this.white == white && received == "" && handled == []
    {
      this.white, buffer, received, handled := white, "", "", [];
    }

    /** The `data` listener: returns the lines it hands on. */
    method OnData(chunk: string) returns (lines: seq<string>)
      requires Valid()
      modifies this
      ensures Valid() && received == old(received) + chunk && handled == old(handled) + lines
      ensures NonBlank(white, Split(received, "\n").frames, handled)
    {
      SplitOfPieces(received, chunk, "\n");
      MessagesConcat(white, Split(received, "\n").frames, Split(buffer + chunk, "\n").frames);
      lines, buffer := Lines(white, buffer + chunk);
      received, handled := received + chunk, handled + lines;
      MessagesAre(white, Split(received, "\n").frames);
    }
  }

  /** Part-way: these lines have been cut off the front, this text is left. */
  ghost predicate Cutting(text: string, done: seq<string>, buffer: string) {
    Split(text, "\n") == Cut(done + Split(buffer, "\n").frames, Split(buffer, "\n").rest)
  }

  lemma CuttingStep(text: string, done: seq<string>, buffer: string)
    requires Cutting(text, done, buffer) && IndexOf(buffer, "\n") >= 0
    ensures var i := IndexOf(buffer, "\n"); Cutting(text, done + [buffer[..i]], buffer[i + 1..])
  {
    var i := IndexOf(buffer, "\n");
    Regroup(done, [buffer[..i]], Split(buffer[i + 1..], "\n").frames);
  }

  lemma CuttingEnds(text: string, done: seq<string>, buffer: string)
    requires Cutting(text, done, buffer) && IndexOf(buffer, "\n") < 0
    ensures Split(text, "\n") == Cut(done, buffer)
  {
    assert done + [] == done;
  }

  lemma CuttingStarts(text: string)
    ensures Cutting(text, [], text)
  {
    assert [] + Split(text, "\n").frames == Split(text, "\n").frames;
  }

  lemma MessagesSnoc(white: char -> bool, lines: seq<string>, line: string)
    ensures Messages(white, lines + [line]) == Messages(white, lines) + if Blank(white, line) then [] else [line]
  {
    assert (lines + [line])[..|lines|] == lines;
  }

  /** The loop of the listener: lines are cut off the front of the buffer, blank ones are dropped. */
  method Lines(white: char -> bool, text: string) returns (lines: seq<string>, buffer: string)
    ensures lines == Messages(white, Split(text, "\n").frames) && buffer == Split(text, "\n").rest
  {
    lines, buffer := [], text;
    ghost var done: seq<string> := [];
    CuttingStarts(text);
    var newlineIdx := IndexOf(buffer, "\n");
    while newlineIdx != -1
      invariant newlineIdx == IndexOf(buffer, "\n") && lines == Messages(white, done) && Cutting(text, done, buffer)
      decreases |buffer|
    {
      CuttingStep(text, done, buffer);
      var line := buffer[..newlineIdx];
      MessagesSnoc(white, done, line);
      buffer, done := buffer[newlineIdx + 1..], done + [line];
      if !Blank(white, line) {
        lines := lines + [line];
      }
      newlineIdx := IndexOf(buffer, "\n");
    }
    CuttingEnds(text, done, buffer);
  }

  // ------------------------------------------------------- the benchmark: server-sent events

  const DATA: string := "data: "

  /** What follows the field name on the lines that carry data. */
  function DataLines(lines: seq<string>): seq<string> {
    if lines == [] then []
    else (if DATA <= lines[0] then [lines[0][|DATA|..]] else []) + DataLines(lines[1..])
  }

  function JoinLines(lines: seq<string>): string {
    if lines == [] then [] else if |lines| == 1 then lines[0] else lines[0] + "\n" + JoinLines(lines[1..])
  }

  /** The data of one event block. */
  function EventData(block: string): string {
    var cut := Split(block, "\n");
    JoinLines(DataLines(cut.frames + [cut.rest]))
  }

  predicate Skipped(data: string) {
    data == "" || data == "[DONE]"
  }

  function Events(blocks: seq<string>): seq<string> {
    if blocks == [] then []
    else
      var data := EventData(blocks[|blocks| - 1]);
      Events(blocks[..|blocks| - 1]) + if Skipped(data) then [] else [data]
  }

  // --------------------------------------------------------------------- what a payload is

  predicate Unbroken(s: string) {
    forall i :: 0 <= i < |s| ==> s[i] != '\n'
  }

  lemma BreakAt(s: string, i: nat)
    ensures At(s, "\n", i) <==> i < |s| && s[i] == '\n'
  {
    if i < |s| {
      assert s[i..i + 1] == [s[i]];
    }
  }

  /** A line ends at its newline exactly when it holds none itself. */
  lemma LineIsUnbroken(s: string)
    ensures Frame(s, "\n") <==> Unbroken(s)
    ensures IndexOf(s, "\n") < 0 <==> Unbroken(s)
  {
    FirstFromIs(s + "\n", "\n", 0);
    FirstFromIs(s, "\n", 0);
    forall i: nat ensures At(s, "\n", i) <==> i < |s| && s[i] == '\n' {
      BreakAt(s, i);
    }
    forall i: nat ensures At(s + "\n", "\n", i) <==> i == |s| || (i < |s| && s[i] == '\n') {
      BreakAt(s + "\n", i);
    }
    if Unbroken(s) {
      IndexIs(s + "\n", "\n", |s|);
    }
  }

  ghost function LinesOf(block: string): seq<string> {
    Split(block, "\n").frames + [Split(block, "\n").rest]
  }

  ghost function DataAt(lines: seq<string>): nat -> bool {
    (k: nat) => k < |lines| && "data: " <= lines[k]
  }

  ghost function Stripped(lines: seq<string>): (nat, string) -> bool {
    (k: nat, data: string) => k < |lines| && lines[k] == "data: " + data
  }

  /** The data lines of a block without the field name, in order: they are the lines of the payload. */
  ghost predicate IsPayload(block: string, payload: string) {
    exists data ::
      && Picks(|LinesOf(block)|, DataAt(LinesOf(block)), Stripped(LinesOf(block)), data)
      && if data == [] then payload == "" else LinesOf(payload) == data
  }

  lemma {:induction false} FirstDataLines(lines: seq<string>, n: nat)
    requires n <= |lines|
    ensures Picks(n, DataAt(lines), Stripped(lines), DataLines(lines[..n]))
  {
    var keep, says := DataAt(lines), Stripped(lines);
    if n == 0 {
      PicksNothing(keep, says);
    } else {
      FirstDataLines(lines, n - 1);
      assert lines[..n] == lines[..n - 1] + [lines[n - 1]];
      DataLinesSnoc(lines[..n - 1], lines[n - 1]);
      var before := DataLines(lines[..n - 1]);
      if DATA <= lines[n - 1] {
        assert lines[n - 1] == DATA + lines[n - 1][|DATA|..];
        PicksMore(n - 1, keep, says, before, lines[n - 1][|DATA|..]);
      } else {
        PicksSame(n - 1, keep, says, before);
        assert before + [] == before;
      }
    }
  }

  lemma {:induction false} DataLinesSnoc(lines: seq<string>, line: string)
    ensures DataLines(lines + [line]) == DataLines(lines) + if DATA <= line then [line[|DATA|..]] else []
  {
    if lines == [] {
      assert [] + [line] == [line] && [line][1..] == [];
      assert DataLines([]) == [];
    } else {
      assert (lines + [line])[1..] == lines[1..] + [line];
      DataLinesSnoc(lines[1..], line);
    }
  }

  lemma {:induction false} DataLinesUnbroken(lines: seq<string>)
    requires forall i :: 0 <= i < |lines| ==> Unbroken(lines[i])
    ensures forall i :: 0 <= i < |DataLines(lines)| ==> Unbroken(DataLines(lines)[i])
  {
    if lines != [] {
      DataLinesUnbroken(lines[1..]);
    }
  }

  lemma {:induction false} JoinedLines(lines: seq<string>)
    requires lines != [] && forall i :: 0 <= i < |lines| ==> Unbroken(lines[i])
    ensures Split(JoinLines(lines), "\n") == Cut(lines[..|lines| - 1], lines[|lines| - 1])
  {
    LineIsUnbroken(lines[0]);
    if |lines| == 1 {
      assert lines[..0] == [];
    } else {
      JoinedLines(lines[1..]);
      SplitStep(lines[0], "\n", JoinLines(lines[1..]));
      assert [lines[0]] + lines[1..][..|lines| - 2] == lines[..|lines| - 1];
    }
  }

  lemma LinesAreUnbroken(block: string)
    ensures forall i :: 0 <= i < |LinesOf(block)| ==> Unbroken(LinesOf(block)[i])
  {
    SplitIsFramed(block, "\n");
    forall i | 0 <= i < |LinesOf(block)| ensures Unbroken(LinesOf(block)[i]) {
      LineIsUnbroken(LinesOf(block)[i]);
    }
  }

  lemma EventDataIs(block: string)
    ensures IsPayload(block, EventData(block))
  {
    var lines := LinesOf(block);
    FirstDataLines(lines, |lines|);
    assert lines[..|lines|] == lines;
    LinesAreUnbroken(block);
    DataLinesUnbroken(lines);
    var data := DataLines(lines);
    if data != [] {
      JoinedLines(data);
      assert LinesOf(JoinLines(data)) == data;
    }
  }

  lemma PayloadIsUnique(block: string, p: string, q: string)
    requires IsPayload(block, p) && IsPayload(block, q)
    ensures p == q
  {
    var lines := LinesOf(block);
    var a :| Picks(|lines|, DataAt(lines), Stripped(lines), a) && if a == [] then p == "" else LinesOf(p) == a;
    var b :| Picks(|lines|, DataAt(lines), Stripped(lines), b) && if b == [] then q == "" else LinesOf(q) == b;
    forall k: nat, x, y | Stripped(lines)(k, x) && Stripped(lines)(k, y) ensures x == y {
      assert x == lines[k][|DATA|..] == y;
    }
    PicksAreUnique(|lines|, DataAt(lines), Stripped(lines), a, b);
    if a != [] {
      SplitIsFramed(p, "\n");
      SplitIsFramed(q, "\n");
      SameCut(Split(p, "\n"), Split(q, "\n"));
    }
  }

  lemma SameCut(c: Cut, d: Cut)
    requires c.frames + [c.rest] == d.frames + [d.rest]
    ensures c == d
  {
    var lines, others := c.frames + [c.rest], d.frames + [d.rest];
    assert lines[..|lines| - 1] == c.frames && others[..|others| - 1] == d.frames;
    assert lines[|lines| - 1] == c.rest && others[|others| - 1] == d.rest;
  }

  ghost function CarriesAt(blocks: seq<string>): nat -> bool {
    (k: nat) => k < |blocks| && !IsPayload(blocks[k], "") && !IsPayload(blocks[k], "[DONE]")
  }

  ghost function PayloadAt(blocks: seq<string>): (nat, string) -> bool {
    (k: nat, payload: string) => k < |blocks| && IsPayload(blocks[k], payload)
  }

  /** The payloads of the blocks in order, without the empty ones and the end mark. */
  ghost predicate Payloads(blocks: seq<string>, events: seq<string>) {
    Picks(|blocks|, CarriesAt(blocks), PayloadAt(blocks), events)
  }

  lemma {:induction false} EventsConcat(a: seq<string>, b: seq<string>)
    ensures Events(a + b) == Events(a) + Events(b)
  {
    if b == [] {
      assert a + b == a;
    } else {
      assert (a + b)[..|a + b| - 1] == a + b[..|b| - 1];
      EventsConcat(a, b[..|b| - 1]);
    }
  }

  lemma {:induction false} FirstEvents(blocks: seq<string>, n: nat)
    requires n <= |blocks|
    ensures Picks(n, CarriesAt(blocks), PayloadAt(blocks), Events(blocks[..n]))
  {
    var keep, says := CarriesAt(blocks), PayloadAt(blocks);
    if n == 0 {
      PicksNothing(keep, says);
    } else {
      FirstEvents(blocks, n - 1);
      var block, before := blocks[n - 1], Events(blocks[..n - 1]);
      assert blocks[..n] == blocks[..n - 1] + [block];
      EventsSnoc(blocks[..n - 1], block);
      EventDataIs(block);
      SkippedIs(block);
      if Skipped(EventData(block)) {
        PicksSame(n - 1, keep, says, before);
        assert before + [] == before;
      } else {
        PicksMore(n - 1, keep, says, before, EventData(block));
      }
    }
  }

  lemma SkippedIs(block: string)
    ensures Skipped(EventData(block)) <==> IsPayload(block, "") || IsPayload(block, "[DONE]")
  {
    EventDataIs(block);
    if IsPayload(block, "") {
      PayloadIsUnique(block, EventData(block), "");
    }
    if IsPayload(block, "[DONE]") {
      PayloadIsUnique(block, EventData(block), "[DONE]");
    }
  }

  lemma EventsAre(blocks: seq<string>)
    ensures Payloads(blocks, Events(blocks))
  {
    FirstEvents(blocks, |blocks|);
    assert blocks[..|blocks|] == blocks;
  }

  /** The payloads before the first that is not JSON. */
  function Parsed(parses: string -> bool, events: seq<string>): seq<string> {
    if events == [] || !parses(events[0]) then [] else [events[0]] + Parsed(parses, events[1..])
  }

  predicate AllParse(parses: string -> bool, events: seq<string>) {
    forall i :: 0 <= i < |events| ==> parses(events[i])
  }

  lemma {:induction false} ParsedPrefix(parses: string -> bool, a: seq<string>, b: seq<string>)
    requires AllParse(parses, a)
    ensures Parsed(parses, a + b) == a + Parsed(parses, b) && Parsed(parses, a) == a
  {
    if a == [] {
      assert a + b == b;
    } else {
      assert (a + b)[1..] == a[1..] + b;
      ParsedPrefix(parses, a[1..], b);
    }
  }

  /** Whatever comes after a payload that is not JSON. */
  lemma ParsedStops(parses: string -> bool, a: seq<string>, bad: string, rest: seq<string>)
    requires AllParse(parses, a) && !parses(bad)
    ensures Parsed(parses, a + ([bad] + rest)) == a && !AllParse(parses, a + ([bad] + rest))
  {
    ParsedPrefix(parses, a, [bad] + rest);
    assert (a + ([bad] + rest))[|a|] == bad;
    assert a + [] == a;
  }

  lemma EventsSnoc(blocks: seq<string>, block: string)
    ensures Events(blocks + [block]) == Events(blocks) + if Skipped(EventData(block)) then [] else [EventData(block)]
  {
    assert (blocks + [block])[..|blocks|] == blocks;
  }

  lemma SplitBlocks(blocks: seq<string>, k: nat)
    requires k < |blocks|
    ensures blocks[..k + 1] == blocks[..k] + [blocks[k]] && blocks == blocks[..k + 1] + blocks[k + 1..]
  {
  }

  /** The events of these blocks; a payload that is not JSON throws. */
  method CollectEvents(parses: string -> bool, blocks: seq<string>) returns (events: seq<string>, failed: bool)
    ensures events == Parsed(parses, Events(blocks)) && (failed <==> !AllParse(parses, Events(blocks)))
  {
    events, failed := [], false;
    for k := 0 to |blocks|
      invariant events == Events(blocks[..k]) && AllParse(parses, events)
    {
      SplitBlocks(blocks, k);
      EventsSnoc(blocks[..k], blocks[k]);
      var data := EventData(blocks[k]);
      if Skipped(data) {
        continue;
      }
      if !parses(data) {
        failed := true;
        EventsConcat(blocks[..k + 1], blocks[k + 1..]);
        Regroup(events, [data], Events(blocks[k + 1..]));
        ParsedStops(parses, events, data, Events(blocks[k + 1..]));
        return;
      }
      events := events + [data];
    }
    assert blocks[..|blocks|] == blocks;
    ParsedPrefix(parses, events, []);
  }

  lemma {:induction false} ParsedConcat(parses: string -> bool, a: seq<string>, b: seq<string>)
    requires !AllParse(parses, a)
    ensures Parsed(parses, a + b) == Parsed(parses, a) && !AllParse(parses, a + b)
  {
    if parses(a[0]) {
      assert (a + b)[1..] == a[1..] + b;
      assert !AllParse(parses, a[1..]) by {
        var i :| 0 <= i < |a| && !parses(a[i]);
        assert a[1..][i - 1] == a[i];
      }
      ParsedConcat(parses, a[1..], b);
    }
    var i :| 0 <= i < |a| && !parses(a[i]);
    assert (a + b)[i] == a[i];
  }

  lemma {:induction false} WholeConcat(a: seq<string>, b: seq<string>)
    ensures Whole(a + b) == Whole(a) + Whole(b)
  {
    if b == [] {
      assert a + b == a;
    } else {
      assert (a + b)[..|a + b| - 1] == a + b[..|b| - 1];
      WholeConcat(a, b[..|b| - 1]);
      Regroup(Whole(a), Whole(b[..|b| - 1]), b[|b| - 1]);
    }
  }

  /** What the pieces after the first `k` add. */
  lemma LaterEvents(pieces: seq<string>, k: nat) returns (more: seq<string>)
    requires k <= |pieces|
    ensures Events(Split(Whole(pieces), "\n\n").frames) == Events(Split(Whole(pieces[..k]), "\n\n").frames) + more
  {
    assert pieces == pieces[..k] + pieces[k..];
    WholeConcat(pieces[..k], pieces[k..]);
    SplitOfPieces(Whole(pieces[..k]), Whole(pieces[k..]), "\n\n");
    var first := Split(Whole(pieces[..k]), "\n\n");
    var second := Split(first.rest + Whole(pieces[k..]), "\n\n");
    EventsConcat(first.frames, second.frames);
    more := Events(second.frames);
  }

  /** The payloads of these blocks that come before the first that is not JSON, and whether there is one. */
  ghost predicate ParsesUpTo(parses: string -> bool, blocks: seq<string>, events: seq<string>, failed: bool) {
    exists all :: Payloads(blocks, all) && events <= all && AllParse(parses, events)
      && if failed then |events| < |all| && !parses(all[|events|]) else events == all
  }

  lemma {:induction false} ParsedIs(parses: string -> bool, all: seq<string>)
    ensures Parsed(parses, all) <= all && AllParse(parses, Parsed(parses, all))
    ensures AllParse(parses, all) ==> Parsed(parses, all) == all
    ensures !AllParse(parses, all) ==>
        |Parsed(parses, all)| < |all| && !parses(all[|Parsed(parses, all)|])
  {
    if all != [] && parses(all[0]) {
      ParsedIs(parses, all[1..]);
      assert all == [all[0]] + all[1..];
    }
  }

  /** The payloads that `consumeTurn` parses, in order, up to one that is not JSON, which ends the turn. */
  method ReadEvents(parses: string -> bool, pieces: seq<string>) returns (events: seq<string>, failed: bool)
    ensures var all := Events(Split(Whole(pieces), "\n\n").frames);
            events == Parsed(parses, all) && (failed <==> !AllParse(parses, all))
    ensures ParsesUpTo(parses, Split(Whole(pieces), "\n\n").frames, events, failed)
  {
    events, failed := ReadPieces(parses, pieces);
    EventsAre(Split(Whole(pieces), "\n\n").frames);
    ParsedIs(parses, Events(Split(Whole(pieces), "\n\n").frames));
  }

  /** Its read loop. The reader yields the decoded text piece by piece, the last one with `done` set. */
  method ReadPieces(parses: string -> bool, pieces: seq<string>) returns (events: seq<string>, failed: bool)
    ensures var all := Events(Split(Whole(pieces), "\n\n").frames);
            events == Parsed(parses, all) && (failed <==> !AllParse(parses, all))
  {
    events, failed := [], false;
    var pending := "";
    for k := 0 to |pieces|
      invariant pending == Split(Whole(pieces[..k]), "\n\n").rest
      invariant events == Events(Split(Whole(pieces[..k]), "\n\n").frames) && AllParse(parses, events)
    {
      assert pieces[..k + 1][..k] == pieces[..k];
      SplitOfPieces(Whole(pieces[..k]), pieces[k], "\n\n");
      pending := pending + pieces[k];
      var cut := Split(pending, "\n\n");
      EventsConcat(Split(Whole(pieces[..k]), "\n\n").frames, cut.frames);
      var blocks := cut.frames;
      pending := cut.rest;
      var found, stopped := CollectEvents(parses, blocks);
      ParsedPrefix(parses, events, Events(blocks));
      ghost var more := LaterEvents(pieces, k + 1);
      if stopped {
        failed := true;
        NotAllParse(parses, events, Events(blocks));
        ParsedConcat(parses, events + Events(blocks), more);
        events := events + found;
        return;
      }
      ParsedPrefix(parses, Events(blocks), []);
      events := events + found;
    }
    assert pieces[..|pieces|] == pieces;
    ParsedPrefix(parses, events, []);
  }

  lemma NotAllParse(parses: string -> bool, a: seq<string>, b: seq<string>)
    requires !AllParse(parses, b)
    ensures !AllParse(parses, a + b)
  {
    var i :| 0 <= i < |b| && !parses(b[i]);
    assert (a + b)[|a| + i] == b[i];
  }
}
