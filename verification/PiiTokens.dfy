/** chronicle/src/onnx/pii.rs: cutting a text into words, and the two tensors that describe the words
    to the model. */
module PiiTokens {
  import opened Numbers
  import opened Utf8
  import opened Wrappers

  /** `char::is_whitespace` and `char::is_alphanumeric` */
  datatype Classes = Classes(white: char -> bool, alphanumeric: char -> bool)

  /** What the tokenizer needs to know about them. */
  ghost predicate Unicode(u: Classes) {
    && (forall c :: u.alphanumeric(c) ==> !u.white(c))
    && !u.white('_') && !u.white('-') && !u.alphanumeric('-')
  }

  predicate WordChar(u: Classes, c: char) {
    u.alphanumeric(c) || c == '_'
  }

  predicate Word(u: Classes, s: string, i: int) {
    0 <= i < |s| && WordChar(u, s[i])
  }

  // ------------------------------------------------------------------------------ text tokens

  /** Byte offsets into the text. */
  datatype Token = Token(text: string, start: nat, end: nat)

  /** The same token in characters. */
  datatype Cut = Cut(lo: nat, hi: nat)

  /** Two neighbouring characters belong together: both are word characters, or they are a hyphen with
      a word character on both sides and one of those. */
  predicate Glued(u: Classes, s: string, k: int) {
    || (Word(u, s, k) && Word(u, s, k + 1))
    || (Word(u, s, k) && k + 1 < |s| && s[k + 1] == '-' && Word(u, s, k + 2))
    || (0 <= k < |s| && s[k] == '-' && Word(u, s, k - 1) && Word(u, s, k + 1))
  }

  predicate Within(c: Cut, k: int) {
    c.lo <= k < c.hi
  }

  ghost predicate InSome(cuts: seq<Cut>, k: int) {
    exists i :: 0 <= i < |cuts| && Within(cuts[i], k)
  }

  ghost predicate InSame(cuts: seq<Cut>, k: int) {
    exists i :: 0 <= i < |cuts| && Within(cuts[i], k) && Within(cuts[i], k + 1)
  }

  ghost predicate InOrder(cuts: seq<Cut>) {
    && (forall i :: 0 <= i < |cuts| ==> cuts[i].lo < cuts[i].hi)
    && (forall i, j :: 0 <= i < j < |cuts| ==> cuts[i].hi <= cuts[j].lo)
  }

  /** The tokens of the first `n` characters: non-empty, ordered and disjoint, covering exactly what is
      not white space, and split exactly where two characters are not glued. */
  ghost predicate Tokenizes(u: Classes, s: string, n: nat, cuts: seq<Cut>)
    requires n <= |s|
  {
    && InOrder(cuts)
    && (forall k {:trigger InSome(cuts, k)} :: InSome(cuts, k) <==> 0 <= k < n && !u.white(s[k]))
    && (forall k {:trigger InSame(cuts, k)} :: InSame(cuts, k) <==> k + 1 < n && Glued(u, s, k))
  }

  lemma AgreeSoFar(u: Classes, s: string, a: seq<Cut>, b: seq<Cut>, i: nat)
    requires Tokenizes(u, s, |s|, a) && Tokenizes(u, s, |s|, b)
    requires i < |a| && i <= |b| && a[..i] == b[..i]
    ensures i < |b| && b[i].lo <= a[i].lo
  {
    assert Within(a[i], a[i].lo);
    assert InSome(a, a[i].lo) && InSome(b, a[i].lo);
    forall m | 0 <= m < i ensures b[m] == a[m] {
      assert b[m] == b[..i][m] && a[m] == a[..i][m];
    }
    var j :| 0 <= j < |b| && Within(b[j], a[i].lo);
  }

  lemma SameEnd(u: Classes, s: string, a: seq<Cut>, b: seq<Cut>, i: nat)
    requires Tokenizes(u, s, |s|, a) && Tokenizes(u, s, |s|, b)
    requires i < |a| && i < |b| && a[i].lo == b[i].lo
    ensures a[i].hi <= b[i].hi
  {
    var k := b[i].hi - 1;
    assert Within(b[i], k) && !Within(b[i], k + 1);
    assert forall j :: 0 <= j < |b| && j != i ==> !Within(b[j], k);
    assert !InSame(b, k) && !InSame(a, k);
    assert !(Within(a[i], k) && Within(a[i], k + 1));
  }

  /** These conditions leave no choice: a text has one tokenization. */
  lemma {:induction false} TokensAreDetermined(u: Classes, s: string, a: seq<Cut>, b: seq<Cut>, i: nat)
    requires Tokenizes(u, s, |s|, a) && Tokenizes(u, s, |s|, b)
    requires i <= |a| && i <= |b| && a[..i] == b[..i]
    ensures a == b
    decreases |a| + |b| - 2 * i
  {
    if i < |a| || i < |b| {
      if i < |a| { AgreeSoFar(u, s, a, b, i); }
      if i < |b| { AgreeSoFar(u, s, b, a, i); }
      AgreeSoFar(u, s, a, b, i);
      SameEnd(u, s, a, b, i);
      SameEnd(u, s, b, a, i);
      assert a[..i + 1] == a[..i] + [a[i]] && b[..i + 1] == b[..i] + [b[i]];
      TokensAreDetermined(u, s, a, b, i + 1);
    } else {
      assert a == a[..i] && b == b[..i];
    }
  }

  lemma Extend(u: Classes, s: string, n: nat, cuts: seq<Cut>, hi: nat)
    requires Unicode(u) && n < hi <= |s| && Tokenizes(u, s, n, cuts)
    requires !Glued(u, s, n - 1) && forall k :: n <= k < hi ==> !u.white(s[k])
    requires forall k :: n <= k < hi - 1 ==> Glued(u, s, k)
    ensures Tokenizes(u, s, hi, cuts + [Cut(n, hi)])
  {
    var more := cuts + [Cut(n, hi)];
    assert forall i :: 0 <= i < |cuts| ==> more[i] == cuts[i];
    forall i | 0 <= i < |cuts| ensures cuts[i].hi <= n {
      assert Within(cuts[i], cuts[i].hi - 1);
      assert InSome(cuts, cuts[i].hi - 1);
    }
    forall k ensures InSome(more, k) <==> 0 <= k < hi && !u.white(s[k]) {
      assert InSome(cuts, k) <==> 0 <= k < n && !u.white(s[k]);
      if InSome(cuts, k) {
        var i :| 0 <= i < |cuts| && Within(cuts[i], k);
        assert Within(more[i], k);
      }
      assert Within(more[|cuts|], k) <==> n <= k < hi;
    }
    forall k ensures InSame(more, k) <==> k + 1 < hi && Glued(u, s, k) {
      assert InSame(cuts, k) <==> k + 1 < n && Glued(u, s, k);
      if InSame(cuts, k) {
        var i :| 0 <= i < |cuts| && Within(cuts[i], k) && Within(cuts[i], k + 1);
        assert Within(more[i], k) && Within(more[i], k + 1);
      }
      assert Within(more[|cuts|], k) && Within(more[|cuts|], k + 1) <==> n <= k && k + 1 < hi;
    }
  }

  lemma Skip(u: Classes, s: string, n: nat, cuts: seq<Cut>)
    requires Unicode(u) && n < |s| && Tokenizes(u, s, n, cuts) && u.white(s[n]) && !Glued(u, s, n - 1)
    ensures Tokenizes(u, s, n + 1, cuts) && !Glued(u, s, n)
  {
  }

  function TokenOf(s: string, c: Cut): Token
    requires c.lo < c.hi <= |s|
  {
    Token(s[c.lo..c.hi], CharToByte(s, c.lo), CharToByte(s, c.hi))
  }

  /** The inner loop: from a word character to the end of its token. */
  method ScanWord(u: Classes, s: string, pos: nat, start: nat) returns (next: nat, end: nat)
    requires Unicode(u) && Word(u, s, pos) && start == CharToByte(s, pos)
    ensures pos < next <= |s| && end == CharToByte(s, next)
    ensures forall k :: pos <= k < next ==> !u.white(s[k])
    ensures forall k :: pos <= k < next - 1 ==> Glued(u, s, k)
    ensures !Glued(u, s, next - 1)
  {
    next := pos + 1;
    end := start + Width(s[pos]);
    CharToByteNext(s, pos);
    var lastWordEnd: nat := end;
    while next < |s|
      invariant pos < next <= |s| && end == CharToByte(s, next) && lastWordEnd <= end
      invariant forall k :: pos <= k < next ==> !u.white(s[k])
      invariant forall k :: pos <= k < next - 1 ==> Glued(u, s, k)
      invariant Word(u, s, next - 1) || (s[next - 1] == '-' && Word(u, s, next - 2) && Word(u, s, next))
    {
      CharToByteNext(s, next);
      if WordChar(u, s[next]) {
        end := end + Width(s[next]);
        lastWordEnd := end;
      } else if (s[next] == '-' || s[next] == '_') && Word(u, s, next + 1) {
        end := end + Width(s[next]);
      } else {
        break;
      }
      next := next + 1;
    }
    end := Max(lastWordEnd, end);
  }

  /** The tokens with their text and byte offsets. */
  ghost predicate CutFrom(text: string, tokens: seq<Token>, cuts: seq<Cut>) {
    InOrder(cuts) && |tokens| == |cuts| && forall i :: 0 <= i < |cuts| ==>
      cuts[i].hi <= |text| && tokens[i] == TokenOf(text, cuts[i])
  }

  /** `split_text_tokens` */
  method SplitTextTokens(u: Classes, text: string) returns (tokens: seq<Token>)
    requires Unicode(u)
    ensures exists cuts :: Tokenizes(u, text, |text|, cuts) && CutFrom(text, tokens, cuts)
  {
    tokens := [];
    ghost var cuts: seq<Cut> := [];
    var pos, at := 0, 0;
    assert CharToByte(text, 0) == 0;
    while pos < |text|
      invariant pos <= |text| && at == CharToByte(text, pos)
      invariant Tokenizes(u, text, pos, cuts) && !Glued(u, text, pos - 1)
      invariant |tokens| == |cuts| && forall i :: 0 <= i < |cuts| ==>
          cuts[i].hi <= |text| && tokens[i] == TokenOf(text, cuts[i])
    {
      var next, end := pos + 1, at + Width(text[pos]);
      CharToByteNext(text, pos);
      if u.white(text[pos]) {
        Skip(u, text, pos, cuts);
      } else {
        if WordChar(u, text[pos]) {
          next, end := ScanWord(u, text, pos, at);
        }
        Extend(u, text, pos, cuts, next);
        cuts := cuts + [Cut(pos, next)];
        RangeOfChars(text, pos, next);
        tokens := tokens + [Token(Slice(text, at, end), at, end)];
      }
      pos, at := next, end;
    }
    assert CutFrom(text, tokens, cuts);
  }

  // ------------------------------------------------------------------------------- words mask

  /** The last word seen before position `k`; positions without a word do not count. */
  function WordBefore(ids: seq<Option<nat>>, k: nat): Option<nat>
    requires k <= |ids|
  {
    if k == 0 then None else if ids[k - 1].Some? then ids[k - 1] else WordBefore(ids, k - 1)
  }

  predicate StartsWord(ids: seq<Option<nat>>, k: nat)
    requires k < |ids|
  {
    ids[k].Some? && ids[k] != WordBefore(ids, k)
  }

  function WordsBefore(ids: seq<Option<nat>>, k: nat): nat
    requires k <= |ids|
  {
    if k == 0 then 0 else WordsBefore(ids, k - 1) + if StartsWord(ids, k - 1) then 1 else 0
  }

  /** The number of the word that starts at position `k`, not counting the words of the prompt. */
  function Mark(ids: seq<Option<nat>>, promptLen: nat, k: nat): nat
    requires k < |ids|
  {
    if StartsWord(ids, k) && WordsBefore(ids, k) >= promptLen then WordsBefore(ids, k) + 1 - promptLen else 0
  }

  predicate IsMask(ids: seq<Option<nat>>, promptLen: nat, mask: seq<nat>) {
    |mask| == |ids| && forall k :: 0 <= k < |ids| ==> mask[k] == Mark(ids, promptLen, k)
  }

  /** `build_words_mask` */
  method BuildWordsMask(wordIds: seq<Option<nat>>, promptLen: nat) returns (mask: seq<nat>)
    ensures IsMask(wordIds, promptLen, mask)
  {
    mask := [];
    var prev: Option<nat> := None;
    var seenWords := 0;
    for i := 0 to |wordIds|
      invariant |mask| == i && prev == WordBefore(wordIds, i) && seenWords == WordsBefore(wordIds, i)
      invariant forall k :: 0 <= k < i ==> mask[k] == Mark(wordIds, promptLen, k)
    {
      match wordIds[i] {
        case None => mask := mask + [0];
        case Some(id) =>
          if Some(id) != prev {
            seenWords := seenWords + 1;
            if seenWords > promptLen {
              mask := mask + [seenWords - promptLen];
            } else {
              mask := mask + [0];
            }
          } else {
            mask := mask + [0];
          }
          prev := Some(id);
      }
    }
  }

  function Marks(mask: seq<nat>): seq<nat> {
    if mask == [] then []
    else Marks(mask[..|mask| - 1]) + if mask[|mask| - 1] != 0 then [mask[|mask| - 1]] else []
  }

  /** The words after the prompt are numbered 1, 2, 3, … in order, without gaps. */
  lemma {:induction false} MarksCount(ids: seq<Option<nat>>, promptLen: nat, mask: seq<nat>, n: nat)
    requires IsMask(ids, promptLen, mask) && n <= |ids|
    ensures var words := WordsBefore(ids, n);
            Marks(mask[..n]) == seq(if words > promptLen then words - promptLen else 0, i => i + 1)
  {
    if n > 0 {
      MarksCount(ids, promptLen, mask, n - 1);
      assert mask[..n][..n - 1] == mask[..n - 1] && mask[..n][n - 1] == mask[n - 1];
    }
  }

  /** Word ids never decrease along the encoding. */
  ghost predicate Sequential(ids: seq<Option<nat>>) {
    forall j, k :: 0 <= j < k < |ids| && ids[j].Some? && ids[k].Some? ==> ids[j].value <= ids[k].value
  }

  lemma {:induction false} WordBeforeIsLatest(ids: seq<Option<nat>>, k: nat)
    requires Sequential(ids) && k <= |ids|
    ensures WordBefore(ids, k).Some? ==> WordBefore(ids, k) in ids[..k]
    ensures forall j :: 0 <= j < k && ids[j].Some? ==>
        WordBefore(ids, k).Some? && ids[j].value <= WordBefore(ids, k).value
  {
    if k > 0 && ids[k - 1].None? {
      WordBeforeIsLatest(ids, k - 1);
      if WordBefore(ids, k).Some? {
        var j :| 0 <= j < k - 1 && ids[j] == WordBefore(ids, k - 1);
        assert ids[..k][j] == ids[j];
      }
    } else if k > 0 {
      assert ids[..k][k - 1] == ids[k - 1];
    }
  }

  /** A mark stands on the first sub-token of its word, and only there. */
  lemma StartsAreFirst(ids: seq<Option<nat>>, k: nat)
    requires Sequential(ids) && k < |ids|
    ensures StartsWord(ids, k) <==> ids[k].Some? && ids[k] !in ids[..k]
  {
    WordBeforeIsLatest(ids, k);
    if ids[k].Some? && ids[k] in ids[..k] {
      var j :| 0 <= j < k && ids[..k][j] == ids[k];
      assert ids[j] == ids[k];
      var i :| 0 <= i < k && ids[..k][i] == WordBefore(ids, k);
      assert ids[i].value <= ids[k].value;
    }
  }

  // -------------------------------------------------------------------------- candidate spans

  datatype Candidate = Candidate(start: nat, end: nat, valid: bool)

  /** Candidates are listed start by start, and by width within a start. */
  function Position(start: nat, width: nat, maxWidth: nat): nat {
    if start == 0 then width else maxWidth + Position(start - 1, width, maxWidth)
  }

  lemma {:induction false} PositionIs(start: nat, width: nat, maxWidth: nat)
    ensures Position(start, width, maxWidth) == start * maxWidth + width
  {
    if start != 0 {
      PositionIs(start - 1, width, maxWidth);
      assert start * maxWidth == (start - 1) * maxWidth + maxWidth;
    }
  }

  lemma {:induction false} PositionSplits(start: nat, width: nat, maxWidth: nat)
    ensures Position(start, width, maxWidth) == Position(start, 0, maxWidth) + width
  {
    if start != 0 {
      PositionSplits(start - 1, width, maxWidth);
    }
  }

  ghost predicate Listed(spans: seq<Candidate>, numTokens: nat, maxWidth: nat, start: nat, width: nat) {
    var k := Position(start, width, maxWidth);
    k < |spans| && spans[k] == Candidate(start, start + width, start + width < numTokens)
  }

  /** `build_candidate_spans` */
  method BuildCandidateSpans(numTokens: nat, maxWidth: nat) returns (spans: seq<Candidate>)
    ensures |spans| == numTokens * maxWidth
    ensures forall start, width :: 0 <= start < numTokens && 0 <= width < maxWidth ==>
        Listed(spans, numTokens, maxWidth, start, width)
  {
    spans := [];
    for start := 0 to numTokens
      invariant |spans| == Position(start, 0, maxWidth)
      invariant forall i, w :: 0 <= i < start && 0 <= w < maxWidth ==> Listed(spans, numTokens, maxWidth, i, w)
    {
      for width := 0 to maxWidth
        invariant |spans| == Position(start, 0, maxWidth) + width
        invariant forall i, w :: 0 <= i < start && 0 <= w < maxWidth ==> Listed(spans, numTokens, maxWidth, i, w)
        invariant forall w :: 0 <= w < width ==> Listed(spans, numTokens, maxWidth, start, w)
      {
        var end := start + width;
        PositionSplits(start, width, maxWidth);
        ghost var before := spans;
        spans := spans + [Candidate(start, end, end < numTokens)];
        assert forall i, w :: 0 <= i && 0 <= w && Listed(before, numTokens, maxWidth, i, w) ==>
            Listed(spans, numTokens, maxWidth, i, w);
      }
    }
    PositionIs(numTokens, 0, maxWidth);
  }

  lemma {:induction false} RowsInOrder(i: nat, v: nat, j: nat, w: nat, maxWidth: nat)
    requires v < maxWidth && i < j
    ensures Position(i, v, maxWidth) < Position(j, w, maxWidth)
  {
    if i == 0 {
      PositionSplits(j - 1, w, maxWidth);
    } else {
      RowsInOrder(i - 1, v, j - 1, w, maxWidth);
    }
  }

  lemma {:induction false} SomePosition(numTokens: nat, maxWidth: nat, k: nat) returns (start: nat, width: nat)
    requires k < Position(numTokens, 0, maxWidth)
    ensures start < numTokens && width < maxWidth && Position(start, width, maxWidth) == k
  {
    if k < maxWidth {
      return 0, k;
    }
    start, width := SomePosition(numTokens - 1, maxWidth, k - maxWidth);
    start := start + 1;
  }

  /** Every position of the list is one pair of a start and a width: nothing is listed twice. */
  lemma PositionsArePairs(numTokens: nat, maxWidth: nat, k: nat)
    requires k < numTokens * maxWidth
    ensures exists start: nat, width: nat ::
              start < numTokens && width < maxWidth && Position(start, width, maxWidth) == k
    ensures forall i: nat, v: nat, j: nat, w: nat {:trigger Position(i, v, maxWidth), Position(j, w, maxWidth)} ::
              v < maxWidth && w < maxWidth && Position(i, v, maxWidth) == Position(j, w, maxWidth) ==> i == j && v == w
  {
    PositionIs(numTokens, 0, maxWidth);
    var start, width := SomePosition(numTokens, maxWidth, k);
    forall i: nat, v: nat, j: nat, w: nat
      | v < maxWidth && w < maxWidth && Position(i, v, maxWidth) == Position(j, w, maxWidth) ensures i == j && v == w
    {
      PositionSplits(i, v, maxWidth);
      PositionSplits(j, w, maxWidth);
      if i < j {
        RowsInOrder(i, v, j, w, maxWidth);
      } else if j < i {
        RowsInOrder(j, w, i, v, maxWidth);
      }
    }
  }
}
