/** chronicle/src/onnx/pii.rs: replacing spans from the right, against writing the text once from the left. */
module Redaction {
  import opened Numbers
  import opened Sequences
  import opened Sorting
  import opened Wrappers

  import opened Utf8
  import opened PiiTokens
  import opened PiiSpans

  /** `redact_tag`; everything below holds for any table of tags. */
  function Tag(t: EntityType): string {
    match t
    case Person => "[PERSON]"
    case Email => "[EMAIL]"
    case PhoneNumber => "[PHONE_NUMBER]"
    case CreditCard => "[CREDIT_CARD]"
    case Address => "[ADDRESS]"
    case ApiKey => "[API_KEY]"
    case Ssn => "[SSN]"
    case IpAddress => "[IP_ADDRESS]"
  }

  /** Each tag is in brackets, and no two types have the same one. */
  lemma TagsAreDistinct(t: EntityType, u: EntityType)
    ensures |Tag(t)| > 2 && Tag(t)[0] == '[' && Tag(t)[|Tag(t)| - 1] == ']'
    ensures Tag(t) == Tag(u) <==> t == u
  {
    assert Tag(Address)[2] != Tag(ApiKey)[2];
  }

  type Tags = EntityType -> string

  // -------------------------------------------------------------------------- the specification

  /** Spans in text order from `from` on, none empty, none sharing a character with another. */
  predicate Placed(text: string, spans: seq<Span>, from: nat) {
    if spans == [] then from <= |text|
    else from <= spans[0].start < spans[0].end <= |text| && Placed(text, spans[1..], spans[0].end)
  }

  /** The text from `from` on, copied up to each span, which is written as its tag. */
  function OnePass(tags: Tags, text: string, spans: seq<Span>, from: nat): string
    requires Placed(text, spans, from)
  {
    if spans == [] then text[from..]
    else text[from..spans[0].start] + tags(spans[0].entityType) + OnePass(tags, text, spans[1..], spans[0].end)
  }

  /** Where a character outside all spans ends up. */
  function Moved(tags: Tags, spans: seq<Span>, k: int): int {
    if spans == [] || k < spans[0].start then k
    else Moved(tags, spans[1..], k) + |tags(spans[0].entityType)| - (spans[0].end - spans[0].start)
  }

  ghost predicate Outside(spans: seq<Span>, k: int) {
    forall x :: x in spans ==> !(x.start <= k < x.end)
  }

  lemma OutsideTail(spans: seq<Span>, k: int)
    requires spans != [] && Outside(spans, k)
    ensures Outside(spans[1..], k) && !(spans[0].start <= k < spans[0].end)
  {
  }

  lemma IndexInThird(a: string, b: string, c: string, i: int)
    requires 0 <= i < |c|
    ensures |a| + |b| + i < |a + b + c| && (a + b + c)[|a| + |b| + i] == c[i]
  {
  }

  lemma IndexInFirst(a: string, b: string, c: string, i: int)
    requires 0 <= i < |a|
    ensures i < |a + b + c| && (a + b + c)[i] == a[i]
  {
  }

  /** Text outside the spans is kept, at the position the tags before it leave for it. */
  lemma {:induction false} OutsideIsVerbatim(tags: Tags, text: string, spans: seq<Span>, from: nat, k: nat)
    requires Placed(text, spans, from) && from <= k < |text| && Outside(spans, k)
    ensures 0 <= Moved(tags, spans, k) - from < |OnePass(tags, text, spans, from)|
    ensures OnePass(tags, text, spans, from)[Moved(tags, spans, k) - from] == text[k]
  {
    if spans != [] {
      var copied, tag, rest := text[from..spans[0].start], tags(spans[0].entityType),
        OnePass(tags, text, spans[1..], spans[0].end);
      assert OnePass(tags, text, spans, from) == copied + tag + rest;
      if k >= spans[0].start {
        OutsideTail(spans, k);
        OutsideIsVerbatim(tags, text, spans[1..], spans[0].end, k);
        IndexInThird(copied, tag, rest, Moved(tags, spans[1..], k) - spans[0].end);
        assert Moved(tags, spans, k) - from == |copied| + |tag| + (Moved(tags, spans[1..], k) - spans[0].end);
      } else {
        IndexInFirst(copied, tag, rest, k - from);
      }
    }
  }

  /** No character is added or lost besides the spans and their tags. */
  lemma {:induction false} LengthIsAccountedFor(tags: Tags, text: string, spans: seq<Span>, from: nat)
    requires Placed(text, spans, from)
    ensures |OnePass(tags, text, spans, from)| + from == Moved(tags, spans, |text|)
  {
    if spans != [] {
      LengthIsAccountedFor(tags, text, spans[1..], spans[0].end);
    }
  }

  /** Each span has its tag, whole, where the text before it ends. */
  lemma {:induction false} TagsInPlace(tags: Tags, text: string, spans: seq<Span>, from: nat, i: nat)
    requires Placed(text, spans, from) && i < |spans|
    ensures var tag, at := tags(spans[i].entityType), Moved(tags, spans[..i], spans[i].start) - from;
            && 0 <= at <= at + |tag| <= |OnePass(tags, text, spans, from)|
            && OnePass(tags, text, spans, from)[at..at + |tag|] == tag
  {
    var copied, tag, rest := text[from..spans[0].start], tags(spans[0].entityType),
      OnePass(tags, text, spans[1..], spans[0].end);
    assert OnePass(tags, text, spans, from) == copied + tag + rest;
    if i > 0 {
      PlacedFrom(text, spans, from, i);
      TagsInPlace(tags, text, spans[1..], spans[0].end, i - 1);
      assert spans[..i][1..] == spans[1..][..i - 1];
      SliceOfThird(copied, tag, rest, Moved(tags, spans[1..][..i - 1], spans[i].start) - spans[0].end,
        |tags(spans[i].entityType)|);
    }
  }

  lemma SliceOfThird(a: string, b: string, c: string, at: int, n: nat)
    requires 0 <= at <= at + n <= |c|
    ensures (a + b + c)[|a| + |b| + at..|a| + |b| + at + n] == c[at..at + n]
  {
  }

  // ------------------------------------------------------------------------- from the right

  /** The order of the sort: later starts first. */
  predicate Later(a: Span, b: Span) {
    a.start >= b.start
  }

  ghost predicate Rising(s: seq<Span>) {
    forall i, j :: 0 <= i < j < |s| ==> s[i].start < s[j].start
  }

  lemma FirstOfRising(a: seq<Span>, b: seq<Span>)
    requires Rising(a) && Rising(b) && a != [] && b != [] && a[0] in b && b[0] in a
    ensures a[0] == b[0]
  {
    var i :| 0 <= i < |b| && b[i] == a[0];
    var j :| 0 <= j < |a| && a[j] == b[0];
    assert i > 0 ==> b[0].start < b[i].start;
    assert j > 0 ==> a[0].start < a[j].start;
  }

  lemma InTail(s: seq<Span>, x: Span)
    requires Rising(s) && s != []
    ensures x in s[1..] <==> x in s && x != s[0]
    ensures Rising(s[1..])
  {
    assert s == [s[0]] + s[1..];
    assert s[0] !in s[1..];
  }

  /** Strictly rising lists with the same members are the same list. */
  lemma {:induction false} RisingIsUnique(a: seq<Span>, b: seq<Span>)
    requires Rising(a) && Rising(b) && forall x :: x in a <==> x in b
    ensures a == b
  {
    assert b != [] ==> b[0] in b && b[0] in a;
    if a != [] {
      assert a[0] in b;
      FirstOfRising(a, b);
      forall x ensures x in a[1..] <==> x in b[1..] {
        InTail(a, x);
        InTail(b, x);
      }
      InTail(a, a[0]);
      InTail(b, b[0]);
      RisingIsUnique(a[1..], b[1..]);
      assert a == [a[0]] + a[1..] && b == [b[0]] + b[1..];
    }
  }

  /** The spans may come in any order, but no two of them share a character. */
  ghost predicate Disjoint(spans: seq<Span>) {
    Distinct(spans) && forall x, y :: x in spans && y in spans && x != y ==> x.end <= y.start || y.end <= x.start
  }

  /** The spans from last to first, as both functions visit them. */
  function FromTheRight(spans: seq<Span>): seq<Span> {
    Sort(spans, Later)
  }

  function FromTheLeft(spans: seq<Span>): seq<Span> {
    Reversed(FromTheRight(spans))
  }

  lemma LaterIsTotal()
    ensures TotalPreorder(Later)
  {
  }

  lemma FromTheLeftIsRising(spans: seq<Span>)
    requires Disjoint(spans) && forall x :: x in spans ==> x.start < x.end
    ensures Rising(FromTheLeft(spans)) && forall x :: x in FromTheLeft(spans) <==> x in spans
  {
    var sorted, placed := FromTheRight(spans), FromTheLeft(spans);
    LaterIsTotal();
    SortOrdered(spans, Later);
    SortDistinct(spans, Later);
    ReversedAt(sorted);
    forall x ensures x in placed <==> x in spans {
      ReversedMembers(sorted, x);
    }
    forall i, j | 0 <= i < j < |placed| ensures placed[i].start < placed[j].start {
      var x, y := sorted[|sorted| - 1 - i], sorted[|sorted| - 1 - j];
      assert placed[i] == x && placed[j] == y && Later(y, x) && x != y;
      assert x in spans && y in spans;
    }
  }

  ghost predicate Proper(text: string, spans: seq<Span>) {
    forall x :: x in spans ==> x.start < x.end <= |text|
  }

  /** In order and apart, in terms of any two spans rather than of neighbours. */
  lemma {:induction false} ApartIsPlaced(text: string, spans: seq<Span>, from: nat)
    requires Proper(text, spans) && Apart(spans) && from <= |text| && (spans != [] ==> from <= spans[0].start)
    ensures Placed(text, spans, from)
  {
    if spans != [] {
      assert spans[0] in spans;
      assert spans == [spans[0]] + spans[1..];
      assert Apart(spans[1..]) by {
        assert forall i :: 0 <= i < |spans[1..]| ==> spans[1..][i] == spans[i + 1];
      }
      ApartIsPlaced(text, spans[1..], spans[0].end);
    }
  }

  lemma {:induction false} PlacedIsApart(text: string, spans: seq<Span>, from: nat)
    requires Placed(text, spans, from)
    ensures from <= |text| && Rising(spans)
    ensures forall i :: 0 <= i < |spans| ==> from <= spans[i].start < spans[i].end <= |text|
    ensures Apart(spans)
  {
    if spans != [] {
      PlacedIsApart(text, spans[1..], spans[0].end);
      assert forall i :: 1 <= i < |spans| ==> spans[i] == spans[1..][i - 1];
    }
  }

  /** Sorted from the right and turned around, disjoint spans are in text order. */
  lemma FromTheLeftIsPlaced(text: string, spans: seq<Span>)
    requires Proper(text, spans) && Disjoint(spans)
    ensures Placed(text, FromTheLeft(spans), 0)
  {
    FromTheLeftIsRising(spans);
    var placed := FromTheLeft(spans);
    forall i, j | 0 <= i < j < |placed| ensures placed[i].end <= placed[j].start {
      assert placed[i] in placed && placed[j] in placed;
      assert placed[i] != placed[j];
    }
    ApartIsPlaced(text, placed, 0);
  }

  lemma PlacedIsDisjoint(text: string, spans: seq<Span>)
    requires Placed(text, spans, 0)
    ensures Proper(text, spans) && Disjoint(spans)
  {
    PlacedIsApart(text, spans, 0);
    forall x, y | x in spans && y in spans && x != y ensures x.end <= y.start || y.end <= x.start {
      var i :| 0 <= i < |spans| && spans[i] == x;
      var j :| 0 <= j < |spans| && spans[j] == y;
    }
  }

  /** A list that is in text order already comes back unchanged. */
  lemma PlacedIsItsOwnOrder(text: string, spans: seq<Span>)
    requires Placed(text, spans, 0)
    ensures FromTheLeft(spans) == spans
  {
    PlacedIsDisjoint(text, spans);
    PlacedIsApart(text, spans, 0);
    FromTheLeftIsRising(spans);
    RisingIsUnique(FromTheLeft(spans), spans);
  }

  // ----------------------------------------------------------------------- one span at a time

  /** One round of `redact_with_spans`: offsets are those of the text so far, and a span whose offsets
      come out of order is skipped. */
  function ReplaceSpan(tags: Tags, result: string, x: Span): string {
    var byteStart, byteEnd := CharToByte(result, x.start), CharToByte(result, x.end);
    CharByteChar(result, x.start);
    CharByteChar(result, x.end);
    if byteStart <= byteEnd && byteEnd <= Bytes(result)
      then ReplaceRange(result, byteStart, byteEnd, tags(x.entityType)) else result
  }

  function ReplaceEach(tags: Tags, text: string, spans: seq<Span>): string {
    if spans == [] then text else ReplaceSpan(tags, ReplaceEach(tags, text, spans[..|spans| - 1]), spans[|spans| - 1])
  }

  /** While the text is the original up to the end of a span, the span has its original byte range. */
  lemma SameOffsets(tags: Tags, text: string, result: string, after: string, x: Span)
    requires x.start < x.end <= |text| && result == text[..x.end] + after
    ensures CharToByte(result, x.start) == CharToByte(text, x.start)
        && CharToByte(result, x.end) == CharToByte(text, x.end)
    ensures Range(result, CharToByte(result, x.start), CharToByte(result, x.end))
        && CharToByte(result, x.end) <= Bytes(result)
    ensures ReplaceRange(result, CharToByte(result, x.start), CharToByte(result, x.end), tags(x.entityType))
        == ReplaceSpan(tags, result, x)
    ensures ReplaceSpan(tags, result, x) == text[..x.start] + tags(x.entityType) + after
  {
    assert result[..x.end] == text[..x.end];
    assert result[..x.start] == text[..x.start];
    assert result[x.end..] == after;
    SamePrefix(result, text, x.start);
    SamePrefix(result, text, x.end);
    RangeOfChars(result, x.start, x.end);
    CharByteChar(result, x.end);
  }

  /** Replacing from the right is writing from the left. */
  lemma {:induction false} ReplaceEachIsOnePass(tags: Tags, text: string, spans: seq<Span>, from: nat)
    requires Placed(text, spans, from)
    ensures from <= |text| && ReplaceEach(tags, text, Reversed(spans))
        == text[..from] + OnePass(tags, text, spans, from)
  {
    if spans == [] {
      assert text == text[..from] + text[from..];
    } else {
      var x := spans[0];
      ReplaceEachIsOnePass(tags, text, spans[1..], x.end);
      ReversedTail(spans);
      SameOffsets(tags, text, ReplaceEach(tags, text, Reversed(spans[1..])), OnePass(tags, text, spans[1..], x.end), x);
      Rejoin(text, from, x.start, tags(x.entityType), OnePass(tags, text, spans[1..], x.end));
    }
  }

  lemma Rejoin(text: string, from: nat, start: nat, tag: string, after: string)
    requires from <= start <= |text|
    ensures text[..start] + tag + after == text[..from] + (text[from..start] + tag + after)
  {
    assert text[..start] == text[..from] + text[from..start];
  }

  lemma {:induction false} PlacedFrom(text: string, spans: seq<Span>, from: nat, n: nat)
    requires Placed(text, spans, from) && n < |spans|
    ensures spans[n].start < spans[n].end <= |text| && Placed(text, spans[n + 1..], spans[n].end)
  {
    if n > 0 {
      PlacedFrom(text, spans[1..], spans[0].end, n - 1);
      assert spans[1..][n..] == spans[n + 1..];
    }
  }

  lemma StateBefore(tags: Tags, text: string, spans: seq<Span>, sorted: seq<Span>, i: nat) returns (after: string)
    requires Placed(text, spans, 0) && sorted == Reversed(spans) && i < |sorted|
    ensures sorted[i].start < sorted[i].end <= |text|
        && ReplaceEach(tags, text, sorted[..i]) == text[..sorted[i].end] + after
  {
    ReversedAt(spans);
    var n := |spans| - i - 1;
    ReversedPrefix(spans, n + 1);
    assert sorted[i] == spans[n];
    PlacedFrom(text, spans, 0, n);
    ReplaceEachIsOnePass(tags, text, spans[n + 1..], spans[n].end);
    after := OnePass(tags, text, spans[n + 1..], spans[n].end);
  }

  lemma ReplaceEachStep(tags: Tags, text: string, sorted: seq<Span>, i: nat)
    requires i < |sorted|
    ensures ReplaceEach(tags, text, sorted[..i + 1])
        == ReplaceSpan(tags, ReplaceEach(tags, text, sorted[..i]), sorted[i])
  {
    assert sorted[..i + 1][..i] == sorted[..i];
  }

  /** When the turn of a span comes, its offsets in the text so far are those in the original. */
  lemma OffsetsStay(tags: Tags, text: string, spans: seq<Span>, sorted: seq<Span>, i: nat, result: string)
    requires Placed(text, spans, 0) && sorted == Reversed(spans) && i < |sorted|
        && result == ReplaceEach(tags, text, sorted[..i])
    ensures var from, to := CharToByte(text, sorted[i].start), CharToByte(text, sorted[i].end);
            && Range(result, from, to)
            && ReplaceRange(result, from, to, tags(sorted[i].entityType)) == ReplaceEach(tags, text, sorted[..i + 1])
  {
    ReplaceEachStep(tags, text, sorted, i);
    var after := StateBefore(tags, text, spans, sorted, i);
    SameOffsets(tags, text, result, after, sorted[i]);
  }

  // ------------------------------------------------------------------------------- redaction

  /** The loop of `redact`: offsets are always those of the original text. */
  method RedactDetected(tags: Tags, text: string, spans: seq<Span>) returns (result: string)
    requires Placed(text, spans, 0)
    ensures result == OnePass(tags, text, spans, 0)
  {
    if spans == [] {
      return text;
    }
    var sorted := FromTheRight(spans);
    ReversedTwice(sorted);
    PlacedIsItsOwnOrder(text, spans);
    ReversedAt(sorted);
    result := text;
    for i := 0 to |sorted|
      invariant sorted == Reversed(spans) && result == ReplaceEach(tags, text, sorted[..i])
    {
      OffsetsStay(tags, text, spans, sorted, i, result);
      var byteStart := CharToByte(text, sorted[i].start);
      var byteEnd := CharToByte(text, sorted[i].end);
      result := ReplaceRange(result, byteStart, byteEnd, tags(sorted[i].entityType));
    }
    assert sorted[..|sorted|] == sorted;
    ReplaceEachIsOnePass(tags, text, spans, 0);
  }

  /** `redact_with_spans`, for any spans at all */
  method RedactWithSpans(tags: Tags, text: string, spans: seq<Span>) returns (result: string)
    ensures result == ReplaceEach(tags, text, FromTheRight(spans))
  {
    if spans == [] {
      return text;
    }
    var sorted := FromTheRight(spans);
    result := text;
    for i := 0 to |sorted|
      invariant result == ReplaceEach(tags, text, sorted[..i])
    {
      assert sorted[..i + 1][..i] == sorted[..i];
      var byteStart := CharToByte(result, sorted[i].start);
      var byteEnd := CharToByte(result, sorted[i].end);
      CharByteChar(result, sorted[i].start);
      CharByteChar(result, sorted[i].end);
      if byteStart <= byteEnd && byteEnd <= Bytes(result) {
        result := ReplaceRange(result, byteStart, byteEnd, tags(sorted[i].entityType));
      }
    }
    assert sorted[..|sorted|] == sorted;
  }

  /** For disjoint spans of the text, in any order, replacing from the right is the one pass from the
      left; on the spans that `redact` finds, the two functions agree. */
  lemma FromTheRightIsOnePass(tags: Tags, text: string, spans: seq<Span>)
    requires Proper(text, spans) && Disjoint(spans)
    ensures Placed(text, FromTheLeft(spans), 0) && forall x :: x in FromTheLeft(spans) <==> x in spans
    ensures ReplaceEach(tags, text, FromTheRight(spans)) == OnePass(tags, text, FromTheLeft(spans), 0)
    ensures Placed(text, spans, 0) ==> FromTheLeft(spans) == spans
  {
    FromTheLeftIsPlaced(text, spans);
    FromTheLeftIsRising(spans);
    ReversedTwice(FromTheRight(spans));
    ReplaceEachIsOnePass(tags, text, FromTheLeft(spans), 0);
    if Placed(text, spans, 0) {
      PlacedIsItsOwnOrder(text, spans);
    }
  }

  ghost function Words(text: string, cuts: seq<Cut>): seq<Token>
    requires InText(text, cuts)
  {
    seq(|cuts|, i requires 0 <= i < |cuts| => TokenOf(text, cuts[i]))
  }

  lemma NoTokens(u: Classes)
    ensures Tokenizes(u, [], 0, [])
  {
    assert forall k :: !InSome([], k) && !InSame([], k);
  }

  /** What detection promises about a text cut into these words. */
  ghost predicate Detected(d: Detector, model: seq<Token> -> Outcome<Scores>, text: string, cuts: seq<Cut>,
          r: Outcome<seq<Span>>)
  {
    && InText(text, cuts)
    && (cuts == [] ==> r == Ok([]))
    && (cuts != [] ==> (r.Ok? <==> model(Words(text, cuts)).Ok?))
    && (r.Ok? ==> Placed(text, r.value, 0))
    && (r.Ok? && cuts != [] ==>
          var scores := model(Words(text, cuts)).value;
          && (forall x :: x in r.value ==> Hit(d, scores, text, cuts, x))
          && (forall x :: Hit(d, scores, text, cuts, x) ==> x in r.value || Displaced(r.value, x)))
  }

  ghost predicate DetectedIn(u: Classes, d: Detector, model: seq<Token> -> Outcome<Scores>, text: string,
          r: Outcome<seq<Span>>)
  {
    exists cuts :: Tokenizes(u, text, |text|, cuts) && Detected(d, model, text, cuts, r)
  }

  /** `detect`; the tokenizer and the network are the argument `model`, which may fail. */
  method Detect(u: Classes, d: Detector, model: seq<Token> -> Outcome<Scores>, text: string)
    returns (r: Outcome<seq<Span>>)
    requires Unicode(u)
    ensures DetectedIn(u, d, model, text, r)
  {
    if text == [] {
      NoTokens(u);
      assert Detected(d, model, text, [], Ok([]));
      return Ok([]);
    }
    var tokens := SplitTextTokens(u, text);
    ghost var cuts :| Tokenizes(u, text, |text|, cuts) && CutFrom(text, tokens, cuts);
    assert tokens == Words(text, cuts);
    if tokens == [] {
      assert Detected(d, model, text, cuts, Ok([]));
      return Ok([]);
    }
    match model(tokens) {
      case Failed =>
        r := Failed;
      case Ok(scores) =>
        var spans := ExtractSpans(d, scores, text, tokens, cuts);
        ApartIsPlaced(text, spans, 0);
        r := Ok(spans);
    }
    assert Detected(d, model, text, cuts, r);
  }

  ghost predicate RedactedFrom(text: string, detected: Outcome<seq<Span>>, r: Outcome<string>) {
    match detected
    case Failed => r == Failed
    case Ok(spans) => Placed(text, spans, 0) && r == Ok(OnePass(Tag, text, spans, 0))
  }

  /** `redact` */
  method Redact(u: Classes, d: Detector, model: seq<Token> -> Outcome<Scores>, text: string)
    returns (r: Outcome<string>)
    requires Unicode(u)
    ensures exists detected :: DetectedIn(u, d, model, text, detected) && RedactedFrom(text, detected, r)
  {
    var detected := Detect(u, d, model, text);
    if detected.Failed? {
      r := Failed;
    } else {
      var result := RedactDetected(Tag, text, detected.value);
      r := Ok(result);
    }
    assert RedactedFrom(text, detected, r);
  }

  // ------------------------------------------------------------------------- any spans at all

  function Drop(s: string, n: nat): string {
    s[Min(n, |s|)..]
  }

  /** Spans in the order of their starts, which lie in the text; they may overlap and reach past its end. */
  predicate Rises(text: string, spans: seq<Span>, from: nat) {
    if spans == [] then from <= |text|
    else from <= spans[0].start <= |text| && spans[0].start <= spans[0].end && Rises(text, spans[1..], spans[0].start)
  }

  /** The text from `from` on after all spans have been replaced: each takes its own length out of whatever
      the spans that start after it have left there, tag or text. */
  function Overlaid(tags: Tags, text: string, spans: seq<Span>, from: nat): string
    requires Rises(text, spans, from)
  {
    if spans == [] then text[from..]
    else
      var x := spans[0];
      text[from..x.start] + tags(x.entityType) + Drop(Overlaid(tags, text, spans[1..], x.start), x.end - x.start)
  }

  /** A round in terms of characters; positions past the end saturate. */
  lemma ReplacedChars(tags: Tags, s: string, x: Span)
    requires x.start <= x.end
    ensures ReplaceSpan(tags, s, x) == s[..Min(x.start, |s|)] + tags(x.entityType) + Drop(s, x.end)
  {
    CharByteChar(s, x.start);
    CharByteChar(s, x.end);
    if |s| <= x.end {
      CharToByteEnd(s, x.end);
    } else if x.start < x.end {
      CharToByteGrows(s, x.start, x.end);
    }
  }

  lemma DropBeyond(s: string, t: string, n: nat)
    requires |s| <= n
    ensures Drop(s + t, n) == Drop(t, n - |s|)
  {
  }

  lemma ReplacedAfter(tags: Tags, head: string, rest: string, x: Span)
    requires |head| == x.start <= x.end
    ensures ReplaceSpan(tags, head + rest, x) == head + tags(x.entityType) + Drop(rest, x.end - x.start)
  {
    ReplacedChars(tags, head + rest, x);
    DropBeyond(head, rest, x.end);
    assert (head + rest)[..x.start] == head;
  }

  lemma {:induction false} RisesInText(text: string, spans: seq<Span>, from: nat)
    requires Rises(text, spans, from)
    ensures from <= |text|
  {
  }

  lemma FirstIsLast(tags: Tags, text: string, spans: seq<Span>)
    requires spans != []
    ensures ReplaceEach(tags, text, Reversed(spans))
         == ReplaceSpan(tags, ReplaceEach(tags, text, Reversed(spans[1..])), spans[0])
  {
    ReversedTail(spans);
  }

  lemma {:induction false} ReplaceEachIsOverlaid(tags: Tags, text: string, spans: seq<Span>, from: nat)
    requires Rises(text, spans, from) && from <= |text|
    ensures ReplaceEach(tags, text, Reversed(spans)) == text[..from] + Overlaid(tags, text, spans, from)
  {
    if spans == [] {
      assert text == text[..from] + text[from..];
    } else {
      ReplaceEachIsOverlaid(tags, text, spans[1..], spans[0].start);
      FirstIsLast(tags, text, spans);
      OverlaidFirst(tags, text, spans, from);
    }
  }

  lemma OverlaidFirst(tags: Tags, text: string, spans: seq<Span>, from: nat)
    requires spans != [] && Rises(text, spans, from)
    ensures var x := spans[0];
            ReplaceSpan(tags, text[..x.start] + Overlaid(tags, text, spans[1..], x.start), x)
              == text[..from] + Overlaid(tags, text, spans, from)
  {
    var x := spans[0];
    var rest := Overlaid(tags, text, spans[1..], x.start);
    ReplacedAfter(tags, text[..x.start], rest, x);
    Rejoin(text, from, x.start, tags(x.entityType), Drop(rest, x.end - x.start));
  }

  ghost predicate StartInText(text: string, spans: seq<Span>) {
    forall x :: x in spans ==> x.start <= |text| && x.start <= x.end
  }

  lemma {:induction false} OrderedRises(text: string, spans: seq<Span>, from: nat)
    requires StartInText(text, spans) && from <= |text| && (spans != [] ==> from <= spans[0].start)
    requires forall i, j :: 0 <= i < j < |spans| ==> spans[i].start <= spans[j].start
    ensures Rises(text, spans, from)
  {
    if spans != [] {
      assert spans[0] in spans && forall x :: x in spans[1..] ==> x in spans;
      OrderedRises(text, spans[1..], spans[0].start);
    }
  }

  /** The whole result on any list of spans, overlapping or not, in any order. */
  lemma RedactsAnySpans(tags: Tags, text: string, spans: seq<Span>)
    requires StartInText(text, spans)
    ensures Rises(text, FromTheLeft(spans), 0)
    ensures ReplaceEach(tags, text, FromTheRight(spans)) == Overlaid(tags, text, FromTheLeft(spans), 0)
  {
    var sorted, placed := FromTheRight(spans), FromTheLeft(spans);
    LaterIsTotal();
    SortOrdered(spans, Later);
    SortMembers(spans, Later);
    ReversedAt(sorted);
    forall x ensures x in placed <==> x in spans {
      ReversedMembers(sorted, x);
    }
    forall i, j | 0 <= i < j < |placed| ensures placed[i].start <= placed[j].start {
      assert Later(sorted[|sorted| - 1 - j], sorted[|sorted| - 1 - i]);
    }
    OrderedRises(text, placed, 0);
    ReversedTwice(sorted);
    ReplaceEachIsOverlaid(tags, text, placed, 0);
  }

  /** Of any number of spans, each reaches at most as far as the next one, and into no more than its tag. */
  predicate EachFits(tags: Tags, spans: seq<Span>, reach: nat) {
    spans != [] ==>
      && reach <= spans[0].end && reach <= spans[0].start + |tags(spans[0].entityType)|
      && EachFits(tags, spans[1..], spans[0].end)
  }

  /** The text from `reach` on, with the spans as tags; a span that starts before `reach` has lost as much of
      its tag. */
  function Chained(tags: Tags, text: string, spans: seq<Span>, from: nat, reach: nat): string
    requires Rises(text, spans, from) && EachFits(tags, spans, reach)
  {
    if spans == [] then Drop(text, reach)
    else
      var x := spans[0];
      var tag := tags(x.entityType);
      (if reach <= x.start then text[reach..x.start] + tag else tag[reach - x.start..])
      + Chained(tags, text, spans[1..], x.start, x.end)
  }

  /** Then the redaction is clean: the text outside all spans stays and none of the text inside. */
  lemma {:induction false} ChainIsClean(tags: Tags, text: string, spans: seq<Span>, from: nat, reach: nat)
    requires Rises(text, spans, from) && from <= reach && from <= |text| && EachFits(tags, spans, reach)
    ensures Drop(Overlaid(tags, text, spans, from), reach - from) == Chained(tags, text, spans, from, reach)
  {
    if spans != [] {
      var x := spans[0];
      ChainIsClean(tags, text, spans[1..], x.start, x.end);
      var gap, rest := text[from..x.start], Chained(tags, text, spans[1..], x.start, x.end);
      assert Overlaid(tags, text, spans, from) == gap + tags(x.entityType) + rest;
      DropInside(gap, tags(x.entityType), rest, reach - from);
      if reach <= x.start {
        assert gap[reach - from..] == text[reach..x.start];
      }
    }
  }

  lemma DropInside(a: string, b: string, c: string, n: nat)
    requires n <= |a| + |b|
    ensures Drop(a + b + c, n) == (if n <= |a| then a[n..] + b else b[n - |a|..]) + c
  {
    if n <= |a| {
      assert (a + b + c)[n..] == a[n..] + b + c;
    } else {
      assert (a + b + c)[n..] == b[n - |a|..] + c;
    }
  }

  // ---------------------------------------------------------------------------- two that overlap

  /** Two spans of a text of `n` characters that share some; `b` does not start before `a`. */
  predicate Overlapping(a: Span, b: Span, n: nat) {
    a.start <= b.start < a.end <= n && b.start < b.end <= n
  }

  /** What becomes of them when `b` is replaced first: `a` then takes what it has left to take out of the tag
      of `b` and the text after it. */
  function OverlapResult(tags: Tags, text: string, a: Span, b: Span): string
    requires Overlapping(a, b, |text|)
  {
    text[..a.start] + tags(a.entityType) + Drop(tags(b.entityType) + text[b.end..], a.end - b.start)
  }

  /** The later start is replaced first, and of two equal ones the span listed first. */
  lemma LaterFirst(a: Span, b: Span)
    requires a.start <= b.start
    ensures FromTheRight([b, a]) == [b, a]
    ensures a.start < b.start ==> FromTheRight([a, b]) == [b, a]
  {
    assert [a, b][1..] == [b] && [b][1..] == [] && [b, a][1..] == [a] && [a][1..] == [];
    assert Sort([b], Later) == [b] && Sort([a], Later) == [a];
    assert Insert(a, [], Later) == [a];
  }

  lemma FirstRound(tags: Tags, text: string, b: Span)
    requires b.start < b.end <= |text|
    ensures ReplaceSpan(tags, text, b) == text[..b.start] + (tags(b.entityType) + text[b.end..])
  {
    ReplacedChars(tags, text, b);
  }

  lemma SecondRound(tags: Tags, head: string, rest: string, a: Span)
    requires a.start <= |head| <= a.end
    ensures ReplaceSpan(tags, head + rest, a) == head[..a.start] + tags(a.entityType) + Drop(rest, a.end - |head|)
  {
    ReplacedChars(tags, head + rest, a);
    DropBeyond(head, rest, a.end);
    assert (head + rest)[..a.start] == head[..a.start];
  }

  lemma TwoRounds(tags: Tags, text: string, a: Span, b: Span, head: string, rest: string)
    requires Overlapping(a, b, |text|) && head == text[..b.start] && rest == tags(b.entityType) + text[b.end..]
    ensures ReplaceSpan(tags, head + rest, a) == OverlapResult(tags, text, a, b)
  {
    SecondRound(tags, head, rest, a);
    assert head[..a.start] == text[..a.start];
  }

  lemma ReplaceTwo(tags: Tags, text: string, a: Span, b: Span)
    ensures ReplaceEach(tags, text, [b, a]) == ReplaceSpan(tags, ReplaceSpan(tags, text, b), a)
  {
    assert [b, a][..1] == [b] && [b][..0] == [];
    assert ReplaceEach(tags, text, [b]) == ReplaceSpan(tags, ReplaceEach(tags, text, []), b);
  }

  /** The whole result on two overlapping spans, listed in either order; when they start together the one
      listed first is the one that is replaced first. */
  lemma OverlapCutsATag(tags: Tags, text: string, a: Span, b: Span)
    requires Overlapping(a, b, |text|)
    ensures ReplaceEach(tags, text, FromTheRight([b, a])) == OverlapResult(tags, text, a, b)
    ensures a.start < b.start ==> ReplaceEach(tags, text, FromTheRight([a, b])) == OverlapResult(tags, text, a, b)
  {
    LaterFirst(a, b);
    ReplaceTwo(tags, text, a, b);
    FirstRound(tags, text, b);
    TwoRounds(tags, text, a, b, text[..b.start], tags(b.entityType) + text[b.end..]);
  }

  /** What a reader expects: the text outside both spans as it was, nothing of what they covered, and
      between the two the tags, of which the second may have lost its head. */
  ghost predicate Clean(tags: Tags, text: string, a: Span, b: Span, result: string)
    requires Overlapping(a, b, |text|)
  {
    exists k :: 0 <= k <= |tags(b.entityType)| && result == CutBy(tags, text, a, b, k)
  }

  function CutBy(tags: Tags, text: string, a: Span, b: Span, k: nat): string
    requires Overlapping(a, b, |text|) && k <= |tags(b.entityType)|
  {
    text[..a.start] + tags(a.entityType) + (tags(b.entityType)[k..] + text[Max(a.end, b.end)..])
  }

  /** When the later span also ends later, the overlap must fit into its tag, or no text may follow.
      When it lies inside the other, its tag must be exactly as long as the span, or shorter with no text
      to follow. */
  predicate TagFits(a: Span, b: Span, tag: nat, n: nat) {
    if a.end <= b.end then a.end - b.start <= tag || b.end == n
    else tag == b.end - b.start || (tag < b.end - b.start && a.end == n)
  }

  lemma FitsIsClean(tags: Tags, text: string, a: Span, b: Span)
    requires Overlapping(a, b, |text|) && TagFits(a, b, |tags(b.entityType)|, |text|)
    ensures Clean(tags, text, a, b, OverlapResult(tags, text, a, b))
  {
    var tag, overlap: nat := tags(b.entityType), a.end - b.start;
    if overlap <= |tag| {
      DropWithin(tag, text[b.end..], overlap);
      assert OverlapResult(tags, text, a, b) == CutBy(tags, text, a, b, overlap);
    } else {
      WholeTagGoes(tag, text, b.end, overlap, Max(a.end, b.end));
      assert OverlapResult(tags, text, a, b) == CutBy(tags, text, a, b, |tag|);
    }
  }

  /** When the whole tag is taken, and `further` is where the text goes on or both places are past its end. */
  lemma WholeTagGoes(tag: string, text: string, end: nat, overlap: nat, further: nat)
    requires |tag| < overlap && end <= further <= |text|
    requires end + (overlap - |tag|) == further || (further == |text| && |text| <= end + (overlap - |tag|))
    ensures Drop(tag + text[end..], overlap) == tag[|tag|..] + text[further..]
  {
    DropBeyond(tag, text[end..], overlap);
    DropFrom(text, end, overlap - |tag|);
    NothingOfTag(tag, text[further..]);
  }

  lemma DropWithin(s: string, t: string, n: nat)
    requires n <= |s|
    ensures Drop(s + t, n) == s[n..] + t
  {
  }

  lemma DropFrom(s: string, k: nat, n: nat)
    requires k <= |s|
    ensures Drop(s[k..], n) == Drop(s, k + n)
  {
  }

  lemma NothingOfTag(tag: string, s: string)
    ensures tag[|tag|..] + s == s
  {
  }

  /** A clean result on a tag that does not fit is an accident of the text: a nested span shorter than
      its tag leaves the character before the end of the outer one, which happens to end the tag too. */
  lemma CleanByAccident(tags: Tags, text: string, a: Span, b: Span)
    requires Overlapping(a, b, |text|) && !TagFits(a, b, |tags(b.entityType)|, |text|)
    requires Clean(tags, text, a, b, OverlapResult(tags, text, a, b))
    ensures b.end < a.end && b.end - b.start < |tags(b.entityType)|
    ensures text[a.end - 1] == tags(b.entityType)[|tags(b.entityType)| - 1]
  {
    var tag, rest, overlap := tags(b.entityType), text[b.end..], a.end - b.start;
    var k: nat :| 0 <= k <= |tag| && OverlapResult(tags, text, a, b) == CutBy(tags, text, a, b, k);
    SameEnd(text[..a.start] + tags(a.entityType), Drop(tag + rest, overlap), tag[k..] + text[Max(a.end, b.end)..]);
    DropLength(tag + rest, overlap);
    if b.end < a.end {
      var inner, tail := text[b.end..a.end], text[a.end..];
      assert rest == inner + tail;
      InnerIsLeft(tag, inner, tail, b.end - b.start, k);
    }
  }

  lemma DropLength(s: string, n: nat)
    ensures |Drop(s, n)| == if n <= |s| then |s| - n else 0
  {
  }

  /** Of a span that lies `width` characters deep inside another one, whose last characters are `inner`. */
  lemma InnerIsLeft(tag: string, inner: string, tail: string, width: nat, k: nat)
    requires inner != "" && width > 0 && k <= |tag|
    requires Drop(tag + (inner + tail), width + |inner|) == tag[k..] + tail
    ensures |tag| == width || (|tag| < width && tail == "") || (width < |tag| && inner[|inner| - 1] == tag[|tag| - 1])
  {
    var all, cut := tag + (inner + tail), width + |inner|;
    if width < |tag| {
      var i := |tag| - width - 1;
      assert k == width;
      assert Drop(all, cut)[i] == all[cut + i] == inner[|inner| - 1];
      assert (tag[k..] + tail)[i] == tag[|tag| - 1];
    }
  }

  lemma SameEnd(s: string, t: string, u: string)
    requires s + t == s + u
    ensures t == u
  {
    assert t == (s + t)[|s|..] && u == (s + u)[|s|..];
  }

  /** A text none of whose characters is `c`. */
  function Without(c: char, n: nat): (text: string)
    ensures |text| == n && forall i :: 0 <= i < n ==> text[i] != c
  {
    seq(n, _ => if c == 'x' then 'y' else 'x')
  }

  /** Two overlapping spans are redacted cleanly, whatever the text, exactly when the later one's tag fits. */
  lemma OverlapIsCleanExactly(tags: Tags, n: nat, a: Span, b: Span)
    requires Overlapping(a, b, n)
    ensures TagFits(a, b, |tags(b.entityType)|, n) <==>
            forall text: string :: |text| == n ==> Clean(tags, text, a, b, OverlapResult(tags, text, a, b))
  {
    if TagFits(a, b, |tags(b.entityType)|, n) {
      forall text: string | |text| == n ensures Clean(tags, text, a, b, OverlapResult(tags, text, a, b)) {
        FitsIsClean(tags, text, a, b);
      }
    } else {
      var tag := tags(b.entityType);
      var text := Without(if tag == "" then ' ' else tag[|tag| - 1], n);
      if Clean(tags, text, a, b, OverlapResult(tags, text, a, b)) {
        CleanByAccident(tags, text, a, b);
        assert false;
      }
    }
  }

  /** An overlap longer than the tag deletes text that no span covers: here the characters 9 and 10. */
  lemma OverlapEatsText(tags: Tags, text: string)
    requires |text| == 12 && |tags(Ssn)| == 5
    ensures var a, b := Span(Person, text[..8], 0, 8, 0.9), Span(Ssn, text[1..9], 1, 9, 0.9);
            ReplaceEach(tags, text, FromTheRight([a, b])) == tags(Person) + text[11..]
  {
    var a, b := Span(Person, text[..8], 0, 8, 0.9), Span(Ssn, text[1..9], 1, 9, 0.9);
    OverlapCutsATag(tags, text, a, b);
    DropBeyond(tags(Ssn), text[9..], 7);
    assert text[..0] + tags(Person) == tags(Person);
  }

  /** A nested span shorter than its tag leaves text that a span covers: here the last four characters. */
  lemma NestedSpanLeavesText(tags: Tags, text: string)
    requires |text| == 12 && |tags(Ssn)| == 5
    ensures var a, b := Span(Person, text, 0, 12, 0.9), Span(Ssn, text[1..2], 1, 2, 0.9);
            ReplaceEach(tags, text, FromTheRight([a, b])) == tags(Person) + text[8..]
  {
    var a, b := Span(Person, text, 0, 12, 0.9), Span(Ssn, text[1..2], 1, 2, 0.9);
    OverlapCutsATag(tags, text, a, b);
    DropBeyond(tags(Ssn), text[2..], 11);
    assert text[..0] + tags(Person) == tags(Person);
  }

  /** Spans that start together: the result depends on the order in which they are listed. */
  lemma TiesFollowTheList(tags: Tags, text: string)
    requires |text| == 12 && |tags(Ssn)| == 5 && |tags(Person)| == 8
    ensures var a, b := Span(Person, text[..8], 0, 8, 0.9), Span(Ssn, text[..8], 0, 8, 0.9);
            && ReplaceEach(tags, text, FromTheRight([b, a])) == tags(Person) + text[11..]
            && ReplaceEach(tags, text, FromTheRight([a, b])) == tags(Ssn) + text[8..]
    ensures var a, c := Span(Person, text[..8], 0, 8, 0.9), Span(Ssn, text[..3], 0, 3, 0.9);
            ReplaceEach(tags, text, FromTheRight([c, a])) == tags(Person) + text[6..]
  {
    var a, b, c :=
      Span(Person, text[..8], 0, 8, 0.9), Span(Ssn, text[..8], 0, 8, 0.9), Span(Ssn, text[..3], 0, 3, 0.9);
    OverlapCutsATag(tags, text, a, b);
    OverlapCutsATag(tags, text, b, a);
    OverlapCutsATag(tags, text, a, c);
    DropBeyond(tags(Ssn), text[8..], 8);
    DropBeyond(tags(Person), text[8..], 8);
    DropBeyond(tags(Ssn), text[3..], 8);
    assert text[..0] + tags(Person) == tags(Person) && text[..0] + tags(Ssn) == tags(Ssn);
  }

  lemma TagLengths()
    ensures |Tag(Ssn)| == 5 && |Tag(Person)| == 8
  {
  }

  /** These instances with the program's own tags. */
  lemma OverlapExamples(text: string)
    requires text == "abcdefghijkl"
    ensures var outer, shifted := Span(Person, text[..8], 0, 8, 0.9), Span(Ssn, text[1..9], 1, 9, 0.9);
            ReplaceEach(Tag, text, FromTheRight([outer, shifted])) == Tag(Person) + "l"
    ensures var whole, inner := Span(Person, text, 0, 12, 0.9), Span(Ssn, text[1..2], 1, 2, 0.9);
            ReplaceEach(Tag, text, FromTheRight([whole, inner])) == Tag(Person) + "ijkl"
    ensures var outer, same := Span(Person, text[..8], 0, 8, 0.9), Span(Ssn, text[..8], 0, 8, 0.9);
            ReplaceEach(Tag, text, FromTheRight([same, outer])) == Tag(Person) + "l"
  {
    TagLengths();
    OverlapEatsText(Tag, text);
    NestedSpanLeavesText(Tag, text);
    TiesFollowTheList(Tag, text);
    assert text[11..] == "l";
    assert text[8..] == "ijkl";
  }
}
