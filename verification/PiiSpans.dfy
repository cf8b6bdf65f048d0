/** chronicle/src/onnx/pii.rs: from model scores to a list of spans without overlaps. */
module PiiSpans {
  import opened Utf8
  import opened PiiTokens
  import opened Sorting

  datatype EntityType = Person | Email | PhoneNumber | CreditCard | Address | ApiKey | Ssn | IpAddress

  /** Character offsets into the text. */
  datatype Span = Span(entityType: EntityType, text: string, start: nat, end: nat, confidence: real)

  // ------------------------------------------------------------------------- overlap removal

  /** Span `k` survives when no earlier survivor reaches past its start. */
  predicate Survives(spans: seq<Span>, k: nat)
    requires k < |spans|
  {
    forall j :: 0 <= j < k && Survives(spans, j) ==> spans[j].end <= spans[k].start
  }

  function Survivors(spans: seq<Span>, n: nat): seq<Span>
    requires n <= |spans|
  {
    if n == 0 then []
    else Survivors(spans, n - 1) + if Survives(spans, n - 1) then [spans[n - 1]] else []
  }

  function Clear(spans: seq<Span>, end: nat): (r: seq<Span>)
    ensures |r| <= |spans|
  {
    if spans == [] then []
    else (if spans[0].start < end then [] else [spans[0]]) + Clear(spans[1..], end)
  }

  /** The loop's own order of work: keep the head and clear the rest of what it overlaps. */
  function Greedy(spans: seq<Span>): seq<Span>
    decreases |spans|
  {
    if spans == [] then [] else [spans[0]] + Greedy(Clear(spans[1..], spans[0].end))
  }

  lemma {:induction false} ClearSnoc(spans: seq<Span>, x: Span, end: nat)
    ensures Clear(spans + [x], end) == Clear(spans, end) + if x.start < end then [] else [x]
  {
    if spans != [] {
      assert (spans + [x])[1..] == spans[1..] + [x];
      ClearSnoc(spans[1..], x, end);
    }
  }

  ghost predicate Fits(kept: seq<Span>, x: Span) {
    forall j :: 0 <= j < |kept| ==> kept[j].end <= x.start
  }

  lemma FitsCons(head: Span, rest: seq<Span>, x: Span)
    ensures Fits([head] + rest, x) <==> head.end <= x.start && Fits(rest, x)
  {
    var all := [head] + rest;
    assert all[0] == head && forall j :: 0 <= j < |rest| ==> all[j + 1] == rest[j];
  }

  /** Clearing ahead of time is the same as looking back when a span's turn comes. */
  lemma {:induction false} GreedySnoc(spans: seq<Span>, x: Span)
    ensures Greedy(spans + [x]) == Greedy(spans) + if Fits(Greedy(spans), x) then [x] else []
    decreases |spans|
  {
    if spans == [] {
      assert Clear([x][1..], x.end) == [];
    } else {
      var head, rest := spans[0], Clear(spans[1..], spans[0].end);
      assert (spans + [x])[1..] == spans[1..] + [x];
      ClearSnoc(spans[1..], x, head.end);
      FitsCons(head, Greedy(rest), x);
      if head.end <= x.start {
        GreedySnoc(rest, x);
      } else {
        assert rest + [] == rest;
      }
    }
  }

  lemma {:induction false} SurvivorIndices(spans: seq<Span>, n: nat, x: Span)
    requires n <= |spans|
    ensures Fits(Survivors(spans, n), x) <==> forall j :: 0 <= j < n && Survives(spans, j) ==> spans[j].end <= x.start
  {
    if n > 0 {
      SurvivorIndices(spans, n - 1, x);
      var before, now := Survivors(spans, n - 1), Survivors(spans, n);
      assert forall j :: 0 <= j < |before| ==> now[j] == before[j];
      assert Survives(spans, n - 1) ==> now[|before|] == spans[n - 1];
    }
  }

  lemma {:induction false} GreedyKeepsSurvivors(spans: seq<Span>, n: nat)
    requires n <= |spans|
    ensures Greedy(spans[..n]) == Survivors(spans, n)
  {
    if n > 0 {
      GreedyKeepsSurvivors(spans, n - 1);
      assert spans[..n] == spans[..n - 1] + [spans[n - 1]];
      GreedySnoc(spans[..n - 1], spans[n - 1]);
      SurvivorIndices(spans, n - 1, spans[n - 1]);
    }
  }

  /** The list without its element `j`. */
  function Remove(spans: seq<Span>, j: nat): seq<Span>
    requires j < |spans|
  {
    spans[..j] + spans[j + 1..]
  }

  /** Part-way through clearing: the spans from `i + 1` to `j` have been looked at. */
  ghost predicate Clearing(spans: seq<Span>, i: nat, kept: seq<Span>, j: nat)
    requires i < |spans|
  {
    && i < j <= |kept| && kept[..i + 1] == spans[..i + 1]
    && kept[i + 1..j] + Clear(kept[j..], spans[i].end) == Clear(spans[i + 1..], spans[i].end)
  }

  lemma ClearStep(kept: seq<Span>, j: nat, end: nat)
    requires j < |kept|
    ensures Clear(kept[j..], end) == (if kept[j].start < end then [] else [kept[j]]) + Clear(kept[j + 1..], end)
  {
    assert kept[j..][1..] == kept[j + 1..];
  }

  lemma ClearingRemoves(spans: seq<Span>, i: nat, kept: seq<Span>, j: nat)
    requires i < |spans| && Clearing(spans, i, kept, j) && j < |kept| && kept[j].start < spans[i].end
    ensures Clearing(spans, i, Remove(kept, j), j)
  {
    ClearStep(kept, j, spans[i].end);
    var less := Remove(kept, j);
    assert less[j..] == kept[j + 1..] && less[i + 1..j] == kept[i + 1..j] && less[..i + 1] == kept[..i + 1];
  }

  lemma ClearingAdvances(spans: seq<Span>, i: nat, kept: seq<Span>, j: nat)
    requires i < |spans| && Clearing(spans, i, kept, j) && j < |kept| && kept[j].start >= spans[i].end
    ensures Clearing(spans, i, kept, j + 1)
  {
    ClearStep(kept, j, spans[i].end);
    var rest := Clear(kept[j + 1..], spans[i].end);
    assert kept[i + 1..j + 1] == kept[i + 1..j] + [kept[j]];
    assert kept[i + 1..j] + ([kept[j]] + rest) == kept[i + 1..j + 1] + rest;
  }

  /** The inner loop: removes, in place, what span `i` overlaps. */
  method ClearAfter(spans: seq<Span>, i: nat) returns (kept: seq<Span>)
    requires i < |spans|
    ensures kept == spans[..i + 1] + Clear(spans[i + 1..], spans[i].end)
  {
    kept := spans;
    var j := i + 1;
    assert kept[i + 1..j] == [];
    while j < |kept|
      invariant i < j && Clearing(spans, i, kept, j)
      decreases |kept| - j
    {
      assert kept[i] == kept[..i + 1][i] == spans[..i + 1][i] == spans[i];
      if kept[j].start < kept[i].end {
        ClearingRemoves(spans, i, kept, j);
        kept := Remove(kept, j);
      } else {
        ClearingAdvances(spans, i, kept, j);
        j := j + 1;
      }
    }
    assert kept[j..] == [] && kept == kept[..i + 1] + kept[i + 1..j];
  }

  /** One round of the outer loop. */
  lemma GreedyRound(before: seq<Span>, i: nat)
    requires i < |before|
    ensures var kept := before[..i + 1] + Clear(before[i + 1..], before[i].end);
            kept[..i + 1] + Greedy(kept[i + 1..]) == before[..i] + Greedy(before[i..])
  {
    var cleared := Clear(before[i + 1..], before[i].end);
    var kept := before[..i + 1] + cleared;
    assert before[i..][1..] == before[i + 1..] && before[i..][0] == before[i];
    assert kept[i + 1..] == cleared && kept[..i + 1] == before[..i] + [before[i]];
    assert (before[..i] + [before[i]]) + Greedy(cleared) == before[..i] + ([before[i]] + Greedy(cleared));
  }

  /** `dedup_overlapping`, on any list */
  method DedupOverlapping(spans: seq<Span>) returns (kept: seq<Span>)
    ensures kept == Survivors(spans, |spans|)
  {
    kept := spans;
    var i := 0;
    while i < |kept|
      invariant i <= |kept| && kept[..i] + Greedy(kept[i..]) == Greedy(spans)
      decreases |kept| - i
    {
      GreedyRound(kept, i);
      kept := ClearAfter(kept, i);
      i := i + 1;
    }
    assert kept[i..] == [] && kept[..i] == kept;
    GreedyKeepsSurvivors(spans, |spans|);
    assert spans[..|spans|] == spans;
  }

  // ------------------------------------------------------------------- what the survivors are

  /** In order, and no two of them share a character. */
  ghost predicate Apart(spans: seq<Span>) {
    forall i, j :: 0 <= i < j < |spans| ==> spans[i].end <= spans[j].start
  }

  lemma {:induction false} SurvivorsAreApart(spans: seq<Span>, n: nat)
    requires n <= |spans|
    ensures Apart(Survivors(spans, n))
  {
    if n > 0 {
      SurvivorsAreApart(spans, n - 1);
      SurvivorIndices(spans, n - 1, spans[n - 1]);
    }
  }

  lemma {:induction false} SurvivorsAreMembers(spans: seq<Span>, n: nat)
    requires n <= |spans|
    ensures forall x :: x in Survivors(spans, n) ==> x in spans
    ensures forall k :: 0 <= k < n && Survives(spans, k) ==> spans[k] in Survivors(spans, n)
  {
    if n > 0 {
      SurvivorsAreMembers(spans, n - 1);
    }
  }

  /** The order of the sort: earlier start first, then higher confidence. */
  predicate Before(a: Span, b: Span) {
    a.start < b.start || (a.start == b.start && a.confidence >= b.confidence)
  }

  lemma BeforeIsTotal()
    ensures TotalPreorder(Before)
  {
  }

  /** `y` is why `x` had to go. */
  predicate Displaces(y: Span, x: Span) {
    y.start <= x.start < y.end && (y.start == x.start ==> y.confidence >= x.confidence)
  }

  ghost predicate Displaced(kept: seq<Span>, x: Span) {
    exists y :: y in kept && Displaces(y, x)
  }

  /** After the sort: a span is kept, or overlaps a kept one that starts no later, and at an equal
      start has no less confidence. */
  lemma RemovedAreDisplaced(spans: seq<Span>, x: Span)
    requires Ordered(spans, Before) && x in spans
    ensures x in Survivors(spans, |spans|) || Displaced(Survivors(spans, |spans|), x)
  {
    SurvivorsAreMembers(spans, |spans|);
    var k :| 0 <= k < |spans| && spans[k] == x;
    if !Survives(spans, k) {
      var j :| 0 <= j < k && Survives(spans, j) && spans[k].start < spans[j].end;
      assert Before(spans[j], spans[k]);
      assert Displaces(spans[j], x);
    }
  }

  // ------------------------------------------------------------------- the promise about confidence

  predicate Overlap(a: Span, b: Span) {
    a.start < b.end && b.start < a.end
  }

  /** The comment on the function: of two overlapping spans the more confident one stays. */
  ghost predicate ConfidenceWins(spans: seq<Span>) {
    forall x :: x in spans && x !in Survivors(spans, |spans|) ==>
      exists y :: y in Survivors(spans, |spans|) && Overlap(x, y) && y.confidence >= x.confidence
  }

  /** It fails as soon as a less confident span starts first. */
  lemma ConfidenceCanLose()
    ensures var spans := [Span(Person, "Ada L", 0, 5, 0.6), Span(Email, " Love", 3, 8, 0.9)];
            Ordered(spans, Before) && Survivors(spans, 2) == spans[..1] && !ConfidenceWins(spans)
  {
    var spans := [Span(Person, "Ada L", 0, 5, 0.6), Span(Email, " Love", 3, 8, 0.9)];
    ConfidenceOfAPair(spans[0], spans[1]);
    assert spans == [spans[0], spans[1]] && spans[..1] == [spans[0]];
  }

  /** Between two overlapping spans it holds exactly when the one that starts first is not the weaker. */
  lemma ConfidenceOfAPair(a: Span, b: Span)
    requires Before(a, b) && Overlap(a, b) && a != b
    ensures Survivors([a, b], 2) == [a]
    ensures ConfidenceWins([a, b]) <==> !(a.start < b.start && a.confidence < b.confidence)
  {
    var spans := [a, b];
    assert Survives(spans, 0);
    assert !Survives(spans, 1);
    assert Survivors(spans, 0) == [];
    assert Survivors(spans, 1) == [a];
    assert Survivors(spans, 2) == Survivors(spans, 1) + [] == [a];
    assert b in spans && b !in [a];
    assert a in spans;
  }

  /** No two spans overlap with the weaker one starting first. */
  ghost predicate StrongerFirst(spans: seq<Span>) {
    forall x, y :: x in spans && y in spans && Overlap(x, y) && x.start < y.start ==> x.confidence >= y.confidence
  }

  /** For a whole list it is enough that no overlapping pair has the weaker span first. */
  lemma ConfidenceWinsWhen(spans: seq<Span>)
    requires Ordered(spans, Before) && forall x :: x in spans ==> x.start < x.end
    requires StrongerFirst(spans)
    ensures ConfidenceWins(spans)
  {
    SurvivorsAreMembers(spans, |spans|);
    forall x | x in spans && x !in Survivors(spans, |spans|)
      ensures exists y :: y in Survivors(spans, |spans|) && Overlap(x, y) && y.confidence >= x.confidence
    {
      RemovedAreDisplaced(spans, x);
      var y :| y in Survivors(spans, |spans|) && Displaces(y, x);
      assert y in spans && Overlap(x, y) && Overlap(y, x);
    }
  }

  /** A list, in the order of the sort, of some of the spans. */
  ghost predicate Selects(some: seq<Span>, spans: seq<Span>) {
    Ordered(some, Before) && forall x :: x in some ==> x in spans
  }

  /** Of a whole list: the comment holds, whichever of its spans are found, exactly when no overlapping
      pair has the weaker span first. */
  lemma ConfidenceWinsExactly(spans: seq<Span>)
    requires Ordered(spans, Before) && forall x :: x in spans ==> x.start < x.end
    ensures (forall some :: Selects(some, spans) ==> ConfidenceWins(some)) <==> StrongerFirst(spans)
  {
    if StrongerFirst(spans) {
      forall some | Selects(some, spans) ensures ConfidenceWins(some) {
        ConfidenceWinsWhen(some);
      }
    } else {
      var x, y :| x in spans && y in spans && Overlap(x, y) && x.start < y.start && x.confidence < y.confidence;
      assert Selects([x, y], spans);
      ConfidenceOfAPair(x, y);
      assert !ConfidenceWins([x, y]);
    }
  }

  // ------------------------------------------------------------------------------ extraction

  /** The model's output after the sigmoid: one score per start, width and entity type. */
  datatype Scores = Scores(rows: nat, maxWidth: nat, types: nat, score: (nat, nat, nat) -> real)

  datatype Detector = Detector(entityTypes: seq<EntityType>, threshold: real)

  function SpanAt(d: Detector, scores: Scores, text: string, cuts: seq<Cut>, start: nat, width: nat, t: nat): Span
    requires start + width < |cuts| && cuts[start].lo <= cuts[start + width].hi <= |text| && t < |d.entityTypes|
  {
    var lo, hi := cuts[start].lo, cuts[start + width].hi;
    Span(d.entityTypes[t], text[lo..hi], lo, hi, scores.score(start, width, t))
  }

  ghost predicate InText(text: string, cuts: seq<Cut>) {
    InOrder(cuts) && forall i :: 0 <= i < |cuts| ==> cuts[i].hi <= |text|
  }

  function TypesSeen(d: Detector, scores: Scores): nat {
    if scores.types < |d.entityTypes| then scores.types else |d.entityTypes|
  }

  function Rows(scores: Scores, tokens: nat): nat {
    if scores.rows < tokens then scores.rows else tokens
  }

  /** What the body of a counting loop pushes, gathered over its first `n` rounds. */
  ghost function Gather<T>(push: nat -> seq<T>, n: nat): seq<T> {
    if n == 0 then [] else Gather(push, n - 1) + push(n - 1)
  }

  lemma {:induction false} GatheredAt<T>(push: nat -> seq<T>, n: nat, x: T) returns (i: nat)
    requires x in Gather(push, n)
    ensures i < n && x in push(i)
  {
    if x in Gather(push, n - 1) {
      i := GatheredAt(push, n - 1, x);
    } else {
      i := n - 1;
    }
  }

  lemma {:induction false} GatherHas<T>(push: nat -> seq<T>, n: nat, i: nat, x: T)
    requires i < n && x in push(i)
    ensures x in Gather(push, n)
  {
    if i < n - 1 {
      GatherHas(push, n - 1, i, x);
    }
  }

  ghost function Pushed(d: Detector, scores: Scores, text: string, cuts: seq<Cut>, start: nat, width: nat,
          t: nat): seq<Span>
  {
    if InText(text, cuts) && start + width < |cuts| && t < |d.entityTypes|
      && scores.score(start, width, t) > d.threshold
    then Ascends(cuts, start, width); [SpanAt(d, scores, text, cuts, start, width, t)]
    else []
  }

  lemma Ascends(cuts: seq<Cut>, start: nat, width: nat)
    requires InOrder(cuts) && start + width < |cuts|
    ensures cuts[start].lo < cuts[start + width].hi
  {
    assert width == 0 || cuts[start].hi <= cuts[start + width].lo;
  }

  ghost function PerType(d: Detector, scores: Scores, text: string, cuts: seq<Cut>, start: nat,
          width: nat): nat -> seq<Span>
  {
    (t: nat) => Pushed(d, scores, text, cuts, start, width, t)
  }

  ghost function PerWidth(d: Detector, scores: Scores, text: string, cuts: seq<Cut>, start: nat): nat -> seq<Span> {
    (width: nat) => Gather(PerType(d, scores, text, cuts, start, width), TypesSeen(d, scores))
  }

  ghost function PerStart(d: Detector, scores: Scores, text: string, cuts: seq<Cut>): nat -> seq<Span> {
    (start: nat) => Gather(PerWidth(d, scores, text, cuts, start), scores.maxWidth)
  }

  /** Every score above the threshold whose words exist, by start, then width, then type. */
  ghost function Hits(d: Detector, scores: Scores, text: string, cuts: seq<Cut>): seq<Span> {
    Gather(PerStart(d, scores, text, cuts), Rows(scores, |cuts|))
  }

  /** `x` stands for the words from `start` to `start + width`, all of them, and the type of index `t`: it begins
      where the first word does, ends where the last one does and has the score as its confidence. */
  ghost predicate HitAt(d: Detector, scores: Scores, text: string, cuts: seq<Cut>, x: Span, start: nat, width: nat,
          t: nat)
  {
    && start < scores.rows && width < scores.maxWidth && start + width < |cuts|
    && t < scores.types && t < |d.entityTypes| && scores.score(start, width, t) > d.threshold
    && x.start == cuts[start].lo && x.end == cuts[start + width].hi && x.entityType == d.entityTypes[t]
    && x.confidence == scores.score(start, width, t)
    && x.start < x.end <= |text| && x.text == text[x.start..x.end]
  }

  ghost predicate Hit(d: Detector, scores: Scores, text: string, cuts: seq<Cut>, x: Span) {
    exists start: nat, width: nat, t: nat :: HitAt(d, scores, text, cuts, x, start, width, t)
  }

  lemma PushedIsHit(d: Detector, scores: Scores, text: string, cuts: seq<Cut>, x: Span, start: nat, width: nat, t: nat)
    requires InText(text, cuts)
    ensures HitAt(d, scores, text, cuts, x, start, width, t) <==>
              && start < Rows(scores, |cuts|) && width < scores.maxWidth && t < TypesSeen(d, scores)
              && x in Pushed(d, scores, text, cuts, start, width, t)
  {
    if start + width < |cuts| {
      Ascends(cuts, start, width);
    }
  }

  /** The loops collect the hits and nothing else. */
  lemma HitsAreHits(d: Detector, scores: Scores, text: string, cuts: seq<Cut>, x: Span)
    requires InText(text, cuts)
    ensures x in Hits(d, scores, text, cuts) <==> Hit(d, scores, text, cuts, x)
  {
    if x in Hits(d, scores, text, cuts) {
      var start := GatheredAt(PerStart(d, scores, text, cuts), Rows(scores, |cuts|), x);
      var width := GatheredAt(PerWidth(d, scores, text, cuts, start), scores.maxWidth, x);
      var t := GatheredAt(PerType(d, scores, text, cuts, start, width), TypesSeen(d, scores), x);
      PushedIsHit(d, scores, text, cuts, x, start, width, t);
    }
    if Hit(d, scores, text, cuts, x) {
      var start: nat, width: nat, t: nat :| HitAt(d, scores, text, cuts, x, start, width, t);
      PushedIsHit(d, scores, text, cuts, x, start, width, t);
      GatherHas(PerType(d, scores, text, cuts, start, width), TypesSeen(d, scores), t, x);
      GatherHas(PerWidth(d, scores, text, cuts, start), scores.maxWidth, width, x);
      GatherHas(PerStart(d, scores, text, cuts), Rows(scores, |cuts|), start, x);
    }
  }

  /** A span of the text: not empty, within it, and carrying its own characters. */
  ghost predicate SpanOf(text: string, x: Span) {
    x.start < x.end <= |text| && x.text == text[x.start..x.end]
  }

  /** The innermost loop, with the offsets turned from bytes into characters. */
  method CollectTypes(d: Detector, scores: Scores, text: string, tokens: seq<Token>, start: nat, width: nat,
          ghost cuts: seq<Cut>)
    returns (spans: seq<Span>)
    requires CutFrom(text, tokens, cuts) && start + width < |tokens|
    ensures spans == PerWidth(d, scores, text, cuts, start)(width)
  {
    spans := [];
    var end := start + width;
    ghost var lo, hi := cuts[start].lo, cuts[end].hi;
    Ascends(cuts, start, width);
    RangeOfChars(text, lo, hi);
    CharByteChar(text, lo);
    CharByteChar(text, hi);
    CharToByteGrows(text, lo, hi);
    for t := 0 to TypesSeen(d, scores)
      invariant spans == Gather(PerType(d, scores, text, cuts, start, width), t)
    {
      var score := scores.score(start, width, t);
      var startOffset, endOffset := tokens[start].start, tokens[end].end;
      if score > d.threshold && startOffset < endOffset && endOffset <= Bytes(text) {
        spans := spans + [Span(d.entityTypes[t], Slice(text, startOffset, endOffset),
                               ByteToChar(text, startOffset), ByteToChar(text, endOffset), score)];
      }
      assert Pushed(d, scores, text, cuts, start, width, t)
          == if score > d.threshold then [SpanAt(d, scores, text, cuts, start, width, t)] else [];
    }
  }

  lemma {:induction false} NothingGathered<T>(push: nat -> seq<T>, n: nat)
    requires forall i: nat :: i < n ==> push(i) == []
    ensures Gather(push, n) == []
  {
    if n > 0 {
      NothingGathered(push, n - 1);
    }
  }

  /** One round of the loop over the widths, when the words do not reach that far. */
  lemma WidthTooLong(d: Detector, scores: Scores, text: string, cuts: seq<Cut>, start: nat, width: nat)
    requires |cuts| <= start + width
    ensures PerWidth(d, scores, text, cuts, start)(width) == []
  {
    NothingGathered(PerType(d, scores, text, cuts, start, width), TypesSeen(d, scores));
  }

  method CollectWidths(d: Detector, scores: Scores, text: string, tokens: seq<Token>, start: nat, ghost cuts: seq<Cut>)
    returns (spans: seq<Span>)
    requires CutFrom(text, tokens, cuts)
    ensures spans == PerStart(d, scores, text, cuts)(start)
  {
    spans := [];
    ghost var perWidth := PerWidth(d, scores, text, cuts, start);
    for width := 0 to scores.maxWidth
      invariant spans == Gather(perWidth, width)
    {
      if start + width < |tokens| {
        var found := CollectTypes(d, scores, text, tokens, start, width, cuts);
        spans := spans + found;
      } else {
        WidthTooLong(d, scores, text, cuts, start, width);
      }
    }
  }

  method CollectSpans(d: Detector, scores: Scores, text: string, tokens: seq<Token>, ghost cuts: seq<Cut>)
    returns (spans: seq<Span>)
    requires CutFrom(text, tokens, cuts)
    ensures spans == Hits(d, scores, text, cuts)
  {
    spans := [];
    for start := 0 to Rows(scores, |tokens|)
      invariant spans == Gather(PerStart(d, scores, text, cuts), start)
    {
      var found := CollectWidths(d, scores, text, tokens, start, cuts);
      spans := spans + found;
    }
  }

  /** `extract_spans` */
  method ExtractSpans(d: Detector, scores: Scores, text: string, tokens: seq<Token>, ghost cuts: seq<Cut>)
    returns (spans: seq<Span>)
    requires CutFrom(text, tokens, cuts)
    ensures var sorted := Sort(Hits(d, scores, text, cuts), Before); spans == Survivors(sorted, |sorted|)
    ensures Apart(spans)
    ensures forall x :: x in spans ==> Hit(d, scores, text, cuts, x) && SpanOf(text, x)
    ensures forall x :: Hit(d, scores, text, cuts, x) ==> x in spans || Displaced(spans, x)
  {
    var collected := CollectSpans(d, scores, text, tokens, cuts);
    var sorted := Sort(collected, Before);
    spans := DedupOverlapping(sorted);
    BeforeIsTotal();
    SortOrdered(collected, Before);
    SortMembers(collected, Before);
    SurvivorsAreApart(sorted, |sorted|);
    SurvivorsAreMembers(sorted, |sorted|);
    forall x ensures x in collected <==> Hit(d, scores, text, cuts, x) {
      HitsAreHits(d, scores, text, cuts, x);
    }
    forall x | x in sorted ensures x in spans || Displaced(spans, x) {
      RemovedAreDisplaced(sorted, x);
    }
  }
}
