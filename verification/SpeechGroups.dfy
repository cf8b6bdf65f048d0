/** What both voice-activity detectors compute: speech frames grouped by the length of the gaps. */
module SpeechGroups {

  /** From the first to the last speech frame of a group. */
  datatype Group = Group(first: nat, last: nat)

  /** Whether two successive speech frames with this many silent frames between them stay together. */
  type Rule = nat -> bool

  /** Both detectors: they do when they touch or the silence is shorter than the limit. */
  function ShorterThan(frameSize: nat, limit: nat): Rule {
    (gap: nat) => gap == 0 || gap * frameSize < limit
  }

  /** Once a silence is too long it stays too long. */
  ghost predicate Monotone(joins: Rule) {
    joins(0) && forall gap: nat :: !joins(gap) ==> !joins(gap + 1)
  }

  lemma ShorterThanIsMonotone(frameSize: nat, limit: nat)
    ensures Monotone(ShorterThan(frameSize, limit))
  {
    forall gap: nat | !ShorterThan(frameSize, limit)(gap) ensures !ShorterThan(frameSize, limit)(gap + 1) {
      assert (gap + 1) * frameSize == gap * frameSize + frameSize;
    }
  }

  predicate Successive(speech: seq<bool>, n: nat, a: nat, b: nat)
    requires n <= |speech|
  {
    a < b < n && speech[a] && speech[b] && forall k :: a < k < b ==> !speech[k]
  }

  predicate In(g: Group, k: nat) {
    g.first <= k <= g.last
  }

  ghost predicate Grouped(groups: seq<Group>, k: nat) {
    exists i :: 0 <= i < |groups| && In(groups[i], k)
  }

  ghost predicate Together(groups: seq<Group>, a: nat, b: nat) {
    exists i :: 0 <= i < |groups| && In(groups[i], a) && In(groups[i], b)
  }

  ghost predicate Ends(speech: seq<bool>, n: nat, g: Group)
    requires n <= |speech|
  {
    g.first <= g.last < n && speech[g.first] && speech[g.last]
  }

  ghost predicate InOrder(groups: seq<Group>) {
    forall i, j :: 0 <= i < j < |groups| ==> groups[i].last < groups[j].first
  }

  ghost predicate AllEnd(speech: seq<bool>, n: nat, groups: seq<Group>)
    requires n <= |speech|
  {
    forall i {:trigger Ends(speech, n, groups[i])} :: 0 <= i < |groups| ==> Ends(speech, n, groups[i])
  }

  ghost predicate Covers(speech: seq<bool>, n: nat, groups: seq<Group>)
    requires n <= |speech|
  {
    forall k: nat {:trigger Grouped(groups, k)} :: k < n && speech[k] ==> Grouped(groups, k)
  }

  ghost predicate Decides(speech: seq<bool>, n: nat, joins: Rule, groups: seq<Group>)
    requires n <= |speech|
  {
    forall a: nat, b: nat {:trigger Together(groups, a, b)} :: Successive(speech, n, a, b) ==>
      (Together(groups, a, b) <==> joins(b - a - 1))
  }

  /** The groups of the first `n` frames: in order, each from speech to speech, holding every speech
      frame, and holding two successive ones together exactly when they join. */
  ghost predicate IsGrouping(speech: seq<bool>, n: nat, joins: Rule, groups: seq<Group>)
    requires n <= |speech|
  {
    InOrder(groups) && AllEnd(speech, n, groups) && Covers(speech, n, groups) && Decides(speech, n, joins, groups)
  }

  /** A stretch of audio, in samples and in milliseconds. */
  datatype SpeechSegment = SpeechSegment(startSample: nat, endSample: nat, startMs: nat, endMs: nat, energy: real)

  // ---------------------------------------------------------------------- there is only one

  lemma {:induction false} NextSpeech(speech: seq<bool>, n: nat, a: nat, k: nat) returns (b: nat)
    requires n <= |speech| && a < k < n && speech[a] && speech[k]
    ensures Successive(speech, n, a, b) && b <= k
    decreases k
  {
    if exists m :: a < m < k && speech[m] {
      var m :| a < m < k && speech[m];
      b := NextSpeech(speech, n, a, m);
    } else {
      b := k;
    }
  }

  lemma StartsNoLater(speech: seq<bool>, joins: Rule, a: seq<Group>, b: seq<Group>, i: nat)
    requires IsGrouping(speech, |speech|, joins, a) && IsGrouping(speech, |speech|, joins, b)
    requires i < |a| && i <= |b| && a[..i] == b[..i]
    ensures i < |b| && b[i].first <= a[i].first
  {
    assert Ends(speech, |speech|, a[i]);
    assert Grouped(b, a[i].first);
    forall m | 0 <= m < i ensures b[m] == a[m] {
      assert b[m] == b[..i][m] && a[m] == a[..i][m];
    }
    var j :| 0 <= j < |b| && In(b[j], a[i].first);
    assert forall m :: 0 <= m < |b| ==> Ends(speech, |speech|, b[m]);
    assert forall m :: 0 <= m < |a| ==> Ends(speech, |speech|, a[m]);
  }

  lemma TogetherWith(speech: seq<bool>, n: nat, joins: Rule, groups: seq<Group>, i: nat, a: nat, b: nat)
    requires n <= |speech| && IsGrouping(speech, n, joins, groups) && i < |groups| && In(groups[i], a)
        && Together(groups, a, b)
    ensures In(groups[i], b)
  {
    var m :| 0 <= m < |groups| && In(groups[m], a) && In(groups[m], b);
  }

  lemma EndsNoEarlier(speech: seq<bool>, joins: Rule, a: seq<Group>, b: seq<Group>, i: nat)
    requires IsGrouping(speech, |speech|, joins, a) && IsGrouping(speech, |speech|, joins, b)
    requires i < |a| && i < |b| && a[i].first == b[i].first
    ensures b[i].last <= a[i].last
  {
    assert Ends(speech, |speech|, a[i]) && Ends(speech, |speech|, b[i]);
    if a[i].last < b[i].last {
      var next := NextSpeech(speech, |speech|, a[i].last, b[i].last);
      assert In(b[i], a[i].last) && In(b[i], next) && In(a[i], a[i].last);
      assert Together(b, a[i].last, next);
      TogetherWith(speech, |speech|, joins, a, i, a[i].last, next);
    }
  }

  /** The conditions determine the groups. */
  lemma {:induction false} GroupingIsUnique(speech: seq<bool>, joins: Rule, a: seq<Group>, b: seq<Group>, i: nat)
    requires IsGrouping(speech, |speech|, joins, a) && IsGrouping(speech, |speech|, joins, b)
    requires i <= |a| && i <= |b| && a[..i] == b[..i]
    ensures a == b
    decreases |a| + |b| - 2 * i
  {
    if i < |a| || i < |b| {
      if i < |a| { StartsNoLater(speech, joins, a, b, i); }
      if i < |b| { StartsNoLater(speech, joins, b, a, i); }
      StartsNoLater(speech, joins, a, b, i);
      EndsNoEarlier(speech, joins, a, b, i);
      EndsNoEarlier(speech, joins, b, a, i);
      assert a[..i + 1] == a[..i] + [a[i]] && b[..i + 1] == b[..i] + [b[i]];
      GroupingIsUnique(speech, joins, a, b, i + 1);
    } else {
      assert a == a[..i] && b == b[..i];
    }
  }

  // ------------------------------------------------------------------------- frame by frame

  /** The state of a detector after `n` frames: the last group is open while its silence joins. */
  ghost predicate Scan(speech: seq<bool>, n: nat, joins: Rule, groups: seq<Group>, open: bool)
    requires n <= |speech|
  {
    && IsGrouping(speech, n, joins, groups)
    && (groups == [] ==> !open)
    && (groups != [] ==> groups[|groups| - 1].last < n && (open <==> joins(n - groups[|groups| - 1].last - 1)))
  }

  lemma ScanStart(speech: seq<bool>, joins: Rule)
    ensures Scan(speech, 0, joins, [], false)
  {
  }

  lemma LastIsLatest(speech: seq<bool>, n: nat, joins: Rule, groups: seq<Group>, k: nat)
    requires n <= |speech| && IsGrouping(speech, n, joins, groups) && k < n && speech[k]
    ensures groups != [] && k <= groups[|groups| - 1].last
  {
    assert Grouped(groups, k);
    var i :| 0 <= i < |groups| && In(groups[i], k);
    assert i == |groups| - 1 || groups[i].last < groups[|groups| - 1].first;
    assert Ends(speech, n, groups[|groups| - 1]);
  }

  /** A silent frame. */
  lemma ScanSilence(speech: seq<bool>, n: nat, joins: Rule, groups: seq<Group>, open: bool)
    requires Monotone(joins) && n < |speech| && !speech[n] && Scan(speech, n, joins, groups, open)
    ensures var still := open && joins(n - groups[|groups| - 1].last); Scan(speech, n + 1, joins, groups, still)
  {
    assert forall a: nat, b: nat :: Successive(speech, n + 1, a, b) ==> Successive(speech, n, a, b);
    assert forall i :: 0 <= i < |groups| ==> Ends(speech, n, groups[i]);
    if groups != [] && !open {
      assert !joins(n - groups[|groups| - 1].last - 1) && !joins(n - groups[|groups| - 1].last - 1 + 1);
    }
  }

  lemma TogetherGrows(groups: seq<Group>, more: seq<Group>, a: nat, b: nat)
    requires |groups| <= |more| && (forall i :: 0 <= i < |groups| ==> more[i] == groups[i])
    requires forall i :: |groups| <= i < |more| ==> !In(more[i], a)
    ensures Together(more, a, b) <==> Together(groups, a, b)
  {
    if Together(groups, a, b) {
      var i :| 0 <= i < |groups| && In(groups[i], a) && In(groups[i], b);
      assert In(more[i], a) && In(more[i], b);
    }
  }

  lemma OpensDecided(speech: seq<bool>, n: nat, joins: Rule, groups: seq<Group>, a: nat, b: nat)
    requires n < |speech| && speech[n] && Scan(speech, n, joins, groups, false) && Successive(speech, n + 1, a, b)
    ensures Together(groups + [Group(n, n)], a, b) <==> joins(b - a - 1)
  {
    var more := groups + [Group(n, n)];
    assert forall i :: 0 <= i < |groups| ==> more[i] == groups[i];
    LastIsLatest(speech, n, joins, groups, a);
    TogetherGrows(groups, more, a, b);
    if b < n {
      assert Successive(speech, n, a, b);
      assert Together(groups, a, b) <==> joins(b - a - 1);
    } else {
      assert Ends(speech, n, groups[|groups| - 1]);
      assert a == groups[|groups| - 1].last;
      assert forall i :: 0 <= i < |groups| ==> Ends(speech, n, groups[i]);
      assert !Together(groups, a, b);
    }
  }

  /** A speech frame after a closed group, or the first one, begins a group. */
  lemma ScanOpens(speech: seq<bool>, n: nat, joins: Rule, groups: seq<Group>)
    requires Monotone(joins) && n < |speech| && speech[n] && Scan(speech, n, joins, groups, false)
    ensures Scan(speech, n + 1, joins, groups + [Group(n, n)], true)
  {
    var more := groups + [Group(n, n)];
    assert forall i :: 0 <= i < |groups| ==> more[i] == groups[i] && Ends(speech, n, groups[i]);
    assert InOrder(more) && AllEnd(speech, n + 1, more);
    forall k: nat | k < n + 1 && speech[k] ensures Grouped(more, k) {
      if k < n {
        assert Grouped(groups, k);
        var i :| 0 <= i < |groups| && In(groups[i], k);
        assert In(more[i], k);
      } else {
        assert In(more[|groups|], k);
      }
    }
    forall a: nat, b: nat | Successive(speech, n + 1, a, b) ensures Together(more, a, b) <==> joins(b - a - 1) {
      OpensDecided(speech, n, joins, groups, a, b);
    }
    assert Covers(speech, n + 1, more) && Decides(speech, n + 1, joins, more);
  }

  function Extended(groups: seq<Group>, n: nat): seq<Group>
    requires groups != []
  {
    groups[..|groups| - 1] + [Group(groups[|groups| - 1].first, n)]
  }

  lemma ExtendedAt(groups: seq<Group>, n: nat)
    requires groups != []
    ensures |Extended(groups, n)| == |groups|
    ensures forall i :: 0 <= i < |groups| ==>
        Extended(groups, n)[i] == if i < |groups| - 1 then groups[i] else Group(groups[i].first, n)
  {
  }

  lemma ExtendsInOrder(speech: seq<bool>, n: nat, groups: seq<Group>)
    requires n < |speech| && speech[n] && groups != [] && InOrder(groups) && AllEnd(speech, n, groups)
    ensures InOrder(Extended(groups, n)) && AllEnd(speech, n + 1, Extended(groups, n))
  {
    ExtendedAt(groups, n);
    assert forall i :: 0 <= i < |groups| ==> Ends(speech, n, groups[i]);
  }

  lemma ExtendsCovers(speech: seq<bool>, n: nat, groups: seq<Group>)
    requires n < |speech| && groups != [] && AllEnd(speech, n, groups) && Covers(speech, n, groups)
    ensures Covers(speech, n + 1, Extended(groups, n))
  {
    var more := Extended(groups, n);
    ExtendedAt(groups, n);
    assert Ends(speech, n, groups[|groups| - 1]);
    forall k: nat | k < n + 1 && speech[k] ensures Grouped(more, k) {
      if k < n {
        assert Grouped(groups, k);
        var i :| 0 <= i < |groups| && In(groups[i], k);
        assert In(more[i], k);
      } else {
        assert In(more[|groups| - 1], k);
      }
    }
  }

  lemma SameTogether(groups: seq<Group>, n: nat, a: nat, b: nat)
    requires groups != [] && groups[|groups| - 1].last <= n
    requires a <= groups[|groups| - 1].last && b <= groups[|groups| - 1].last
    ensures Together(Extended(groups, n), a, b) <==> Together(groups, a, b)
  {
    var more := Extended(groups, n);
    ExtendedAt(groups, n);
    if Together(groups, a, b) {
      var i :| 0 <= i < |groups| && In(groups[i], a) && In(groups[i], b);
      assert In(more[i], a) && In(more[i], b);
    }
    if Together(more, a, b) {
      var i :| 0 <= i < |more| && In(more[i], a) && In(more[i], b);
      assert In(groups[i], a) && In(groups[i], b);
    }
  }

  lemma ExtendsDecided(speech: seq<bool>, n: nat, joins: Rule, groups: seq<Group>, a: nat, b: nat)
    requires n < |speech| && speech[n] && Scan(speech, n, joins, groups, true) && Successive(speech, n + 1, a, b)
    ensures Together(Extended(groups, n), a, b) <==> joins(b - a - 1)
  {
    var top := |groups| - 1;
    assert Ends(speech, n, groups[top]);
    LastIsLatest(speech, n, joins, groups, a);
    if b < n {
      LastIsLatest(speech, n, joins, groups, b);
      assert Successive(speech, n, a, b);
      assert Together(groups, a, b) <==> joins(b - a - 1);
      SameTogether(groups, n, a, b);
    } else {
      assert a == groups[top].last;
      ExtendedAt(groups, n);
      assert In(Extended(groups, n)[top], a) && In(Extended(groups, n)[top], b);
      assert Together(Extended(groups, n), a, b);
    }
  }

  /** A speech frame while a group is open extends it. */
  lemma ScanExtends(speech: seq<bool>, n: nat, joins: Rule, groups: seq<Group>)
    requires Monotone(joins) && n < |speech| && speech[n] && Scan(speech, n, joins, groups, true)
    ensures Scan(speech, n + 1, joins, Extended(groups, n), true)
  {
    ExtendsInOrder(speech, n, groups);
    ExtendsCovers(speech, n, groups);
    forall a: nat, b: nat | Successive(speech, n + 1, a, b)
      ensures Together(Extended(groups, n), a, b) <==> joins(b - a - 1)
    {
      ExtendsDecided(speech, n, joins, groups, a, b);
    }
    assert Decides(speech, n + 1, joins, Extended(groups, n));
    ExtendedAt(groups, n);
  }
}
