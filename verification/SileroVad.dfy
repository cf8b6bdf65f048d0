/** chronicle/src/onnx/vad.rs: the neural detector, with the network as an oracle. */
module SileroVad {
  import opened Sequences
  import opened SpeechGroups

  const SILERO_CHUNK_SIZE: nat := 512
  const SILERO_SAMPLE_RATE: nat := 16000

  datatype SileroVadConfig = SileroVadConfig(threshold: real, minSpeechMs: nat, minSilenceMs: nat, speechPadMs: nat)

  datatype Response<T> = Ok(value: T) | Failed | InvalidArgument

  /** At 16 kHz a millisecond is sixteen samples. */
  function Samples(ms: nat): nat {
    ms * 16
  }

  // ------------------------------------------------------------------------------- the network

  datatype Hidden<S> = Hidden(h: S, c: S)

  /** A call gives a probability and the next hidden state; or it fails, before anything is stored or between
      the two halves of the state. */
  datatype Answer<S> = Heard(prob: real, next: Hidden<S>) | NoAnswer | OnlyFirstHalf(h: S)

  type Network<!S> = (seq<real>, Hidden<S>) -> Answer<S>

  function Chunk(samples: seq<real>, k: nat): seq<real>
    requires (k + 1) * 512 <= |samples|
  {
    samples[k * 512..(k + 1) * 512]
  }

  /** The probabilities of the first `n` chunks, heard one after the other from a cleared state. */
  function Listen<S>(network: Network<S>, zero: Hidden<S>, samples: seq<real>,
          n: nat): (r: Response<(seq<real>, Hidden<S>)>)
    requires n * 512 <= |samples|
    ensures r.Ok? ==> |r.value.0| == n
  {
    if n == 0 then Ok(([], zero))
    else
      match Listen(network, zero, samples, n - 1)
      case Ok((probs, state)) =>
        (match network(Chunk(samples, n - 1), state)
         case Heard(prob, next) => Ok((probs + [prob], next))
         case _ => Failed)
      case _ => Failed
  }

  lemma {:induction false} ListenPrefix<S>(network: Network<S>, zero: Hidden<S>, samples: seq<real>, i: nat, n: nat)
    requires i <= n && n * 512 <= |samples|
    ensures !Listen(network, zero, samples, i).Ok? ==>
        Listen(network, zero, samples, n) == Listen(network, zero, samples, i)
    ensures Listen(network, zero, samples, n).Ok? ==>
              Listen(network, zero, samples, i).Ok?
                && Listen(network, zero, samples, i).value.0 == Listen(network, zero, samples, n).value.0[..i]
  {
    if i < n {
      ListenPrefix(network, zero, samples, i, n - 1);
    }
  }

  /** Chunk after chunk, 512 samples each, from a cleared state: every answer is a probability and the state that
      the next chunk is heard in. */
  ghost predicate Hears<S>(network: Network<S>, zero: Hidden<S>, samples: seq<real>, n: nat, probs: seq<real>,
          states: seq<Hidden<S>>)
  {
    && n * 512 <= |samples| && |probs| == n && |states| == n + 1 && states[0] == zero
    && forall k {:trigger states[k]} :: 0 <= k < n ==>
         network(samples[k * 512..k * 512 + 512], states[k]) == Heard(probs[k], states[k + 1])
  }

  ghost predicate FailsAfter<S>(network: Network<S>, zero: Hidden<S>, samples: seq<real>, n: nat, probs: seq<real>,
          states: seq<Hidden<S>>)
  {
    && Hears(network, zero, samples, n, probs, states) && n * 512 + 512 <= |samples|
    && !network(samples[n * 512..n * 512 + 512], states[n]).Heard?
  }

  lemma HearsMore<S>(network: Network<S>, zero: Hidden<S>, samples: seq<real>, n: nat, probs: seq<real>,
          states: seq<Hidden<S>>, p: real, next: Hidden<S>)
    requires Hears(network, zero, samples, n, probs, states) && n * 512 + 512 <= |samples|
    requires network(samples[n * 512..n * 512 + 512], states[n]) == Heard(p, next)
    ensures Hears(network, zero, samples, n + 1, probs + [p], states + [next])
  {
  }

  lemma HearsFewer<S>(network: Network<S>, zero: Hidden<S>, samples: seq<real>, n: nat, probs: seq<real>,
          states: seq<Hidden<S>>)
    requires n > 0 && Hears(network, zero, samples, n, probs, states)
    ensures Hears(network, zero, samples, n - 1, probs[..n - 1], states[..n])
    ensures states[..n][n - 1] == states[n - 1] && probs == probs[..n - 1] + [probs[n - 1]]
    ensures (n - 1) * 512 + 512 <= |samples|
    ensures network(samples[(n - 1) * 512..(n - 1) * 512 + 512], states[n - 1]) == Heard(probs[n - 1], states[n])
  {
    var k := n - 1;
    assert states[k] == states[n - 1];
  }

  lemma ListenStep<S>(network: Network<S>, zero: Hidden<S>, samples: seq<real>, n: nat)
    requires (n + 1) * 512 <= |samples| && Listen(network, zero, samples, n).Ok?
    ensures var answer := network(samples[n * 512..n * 512 + 512], Listen(network, zero, samples, n).value.1);
            var probs := Listen(network, zero, samples, n).value.0;
            Listen(network, zero, samples, n + 1)
              == if answer.Heard? then Ok((probs + [answer.prob], answer.next)) else Failed
  {
  }

  lemma ListenOneMore<S>(network: Network<S>, zero: Hidden<S>, samples: seq<real>, n: nat, probs: seq<real>,
          last: Hidden<S>, p: real, next: Hidden<S>)
    requires (n + 1) * 512 <= |samples| && Listen(network, zero, samples, n) == Ok((probs, last))
    requires network(samples[n * 512..n * 512 + 512], last) == Heard(p, next)
    ensures Listen(network, zero, samples, n + 1) == Ok((probs + [p], next))
  {
    ListenStep(network, zero, samples, n);
  }

  lemma {:induction false} ListenGivesHearing<S>(network: Network<S>, zero: Hidden<S>, samples: seq<real>, n: nat)
    returns (states: seq<Hidden<S>>)
    requires n * 512 <= |samples| && Listen(network, zero, samples, n).Ok?
    ensures var (probs, last) := Listen(network, zero, samples, n).value;
            Hears(network, zero, samples, n, probs, states) && states[n] == last
  {
    if n == 0 {
      states := [zero];
    } else {
      var before := ListenGivesHearing(network, zero, samples, n - 1);
      ListenStep(network, zero, samples, n - 1);
      var probs := Listen(network, zero, samples, n - 1).value.0;
      var answer := network(samples[(n - 1) * 512..(n - 1) * 512 + 512], before[n - 1]);
      HearsMore(network, zero, samples, n - 1, probs, before, answer.prob, answer.next);
      states := before + [answer.next];
    }
  }

  lemma {:induction false} HearingGivesListen<S>(network: Network<S>, zero: Hidden<S>, samples: seq<real>, n: nat,
          probs: seq<real>, states: seq<Hidden<S>>)
    requires Hears(network, zero, samples, n, probs, states)
    ensures Listen(network, zero, samples, n) == Ok((probs, states[n]))
  {
    if n > 0 {
      HearsFewer(network, zero, samples, n, probs, states);
      HearingGivesListen(network, zero, samples, n - 1, probs[..n - 1], states[..n]);
      ListenOneMore(network, zero, samples, n - 1, probs[..n - 1], states[n - 1], probs[n - 1], states[n]);
    }
  }

  /** Listening succeeds exactly with the probabilities and the last state of such a hearing. */
  lemma ListenIsHearing<S(!new)>(network: Network<S>, zero: Hidden<S>, samples: seq<real>, n: nat, probs: seq<real>,
          last: Hidden<S>)
    requires n * 512 <= |samples|
    ensures Listen(network, zero, samples, n) == Ok((probs, last)) <==>
            exists states :: Hears(network, zero, samples, n, probs, states) && states[n] == last
  {
    if Listen(network, zero, samples, n) == Ok((probs, last)) {
      var states := ListenGivesHearing(network, zero, samples, n);
    }
    forall states | Hears(network, zero, samples, n, probs, states)
      ensures Listen(network, zero, samples, n) == Ok((probs, states[n]))
    {
      HearingGivesListen(network, zero, samples, n, probs, states);
    }
  }

  lemma {:induction false} FailureIsAfter<S>(network: Network<S>, zero: Hidden<S>, samples: seq<real>, n: nat)
    returns (m: nat, probs: seq<real>, states: seq<Hidden<S>>)
    requires n * 512 <= |samples| && !Listen(network, zero, samples, n).Ok?
    ensures m < n && FailsAfter(network, zero, samples, m, probs, states)
    ensures Listen(network, zero, samples, n) == Failed
  {
    if Listen(network, zero, samples, n - 1).Ok? {
      m, probs := n - 1, Listen(network, zero, samples, n - 1).value.0;
      states := ListenGivesHearing(network, zero, samples, n - 1);
      ListenStep(network, zero, samples, n - 1);
    } else {
      m, probs, states := FailureIsAfter(network, zero, samples, n - 1);
    }
  }

  lemma AfterFailure<S>(network: Network<S>, zero: Hidden<S>, samples: seq<real>, n: nat, m: nat, probs: seq<real>,
          states: seq<Hidden<S>>)
    requires m < n && n * 512 <= |samples| && FailsAfter(network, zero, samples, m, probs, states)
    ensures Listen(network, zero, samples, n) == Failed
  {
    HearingGivesListen(network, zero, samples, m, probs, states);
    ListenStep(network, zero, samples, m);
    ListenPrefix(network, zero, samples, m + 1, n);
  }

  /** It fails exactly when the network gives no answer, or half of one, to some chunk after such a hearing. */
  lemma ListenFails<S(!new)>(network: Network<S>, zero: Hidden<S>, samples: seq<real>, n: nat)
    requires n * 512 <= |samples|
    ensures Listen(network, zero, samples, n) == Failed <==>
            exists m: nat, probs, states :: m < n && FailsAfter(network, zero, samples, m, probs, states)
    ensures Listen(network, zero, samples, n) == Failed || Listen(network, zero, samples, n).Ok?
  {
    if !Listen(network, zero, samples, n).Ok? {
      var m, probs, states := FailureIsAfter(network, zero, samples, n);
    }
    forall m: nat, probs, states | m < n && FailsAfter(network, zero, samples, m, probs, states)
      ensures Listen(network, zero, samples, n) == Failed
    {
      AfterFailure(network, zero, samples, n, m, probs, states);
    }
  }

  function Speech(c: SileroVadConfig, probs: seq<real>): seq<bool> {
    seq(|probs|, k requires 0 <= k < |probs| => probs[k] >= c.threshold)
  }

  // ------------------------------------------------------------------------------ the segments

  /** Speech before padding, in samples. */
  datatype Stretch = Stretch(start: nat, end: nat)

  function StretchOf(g: Group): Stretch {
    Stretch(g.first * 512, (g.last + 1) * 512)
  }

  ghost function Stretches(groups: seq<Group>): seq<Stretch> {
    seq(|groups|, i requires 0 <= i < |groups| => StretchOf(groups[i]))
  }

  /** The group still open after the last chunk reaches to the end of that chunk, silence included. */
  ghost function AllStretches(n: nat, groups: seq<Group>, open: bool): seq<Stretch>
    requires open ==> groups != []
  {
    if open then Stretches(groups[..|groups| - 1]) + [Stretch(groups[|groups| - 1].first * 512, n * 512)]
      else Stretches(groups)
  }

  function Padding(c: SileroVadConfig): nat {
    Samples(c.speechPadMs)
  }

  function PaddedStart(pad: nat, t: Stretch): nat {
    if t.start < pad then 0 else t.start - pad
  }

  function PaddedEnd(pad: nat, t: Stretch, length: nat): nat {
    if t.end + pad < length then t.end + pad else length
  }

  predicate Within(t: Stretch, length: nat) {
    t.start < t.end <= length
  }

  function SegmentOf(c: SileroVadConfig, rms: seq<real> -> real, samples: seq<real>, t: Stretch): SpeechSegment
    requires Within(t, |samples|)
  {
    var start, end := PaddedStart(Padding(c), t), PaddedEnd(Padding(c), t, |samples|);
    SpeechSegment(start, end, start / 16, end / 16, rms(samples[t.start..t.end]))
  }

  function Emit(c: SileroVadConfig, rms: seq<real> -> real, samples: seq<real>, t: Stretch): seq<SpeechSegment>
    requires Within(t, |samples|)
  {
    if t.end - t.start >= Samples(c.minSpeechMs) then [SegmentOf(c, rms, samples, t)] else []
  }

  ghost predicate AllWithin(ts: seq<Stretch>, length: nat) {
    forall i :: 0 <= i < |ts| ==> Within(ts[i], length)
  }

  ghost function Segments(c: SileroVadConfig, rms: seq<real> -> real, samples: seq<real>,
          ts: seq<Stretch>): seq<SpeechSegment>
    requires AllWithin(ts, |samples|)
  {
    if ts == [] then []
    else Segments(c, rms, samples, ts[..|ts| - 1]) + Emit(c, rms, samples, ts[|ts| - 1])
  }

  // ------------------------------------------------------------------- padding and disjointness

  lemma {:induction false} SegmentComesFrom(c: SileroVadConfig, rms: seq<real> -> real, samples: seq<real>,
          ts: seq<Stretch>, x: SpeechSegment)
    returns (i: nat)
    requires AllWithin(ts, |samples|) && x in Segments(c, rms, samples, ts)
    ensures i < |ts| && x == SegmentOf(c, rms, samples, ts[i])
  {
    if x in Segments(c, rms, samples, ts[..|ts| - 1]) {
      i := SegmentComesFrom(c, rms, samples, ts[..|ts| - 1], x);
    } else {
      i := |ts| - 1;
    }
  }

  /** Two padded stretches stay apart exactly when twice the padding fits between them. */
  lemma PaddingFits(pad: nat, a: Stretch, b: Stretch, length: nat)
    requires Within(a, length) && Within(b, length) && a.end <= b.start
    ensures PaddedEnd(pad, a, length) <= PaddedStart(pad, b) <==> a.end + 2 * pad <= b.start
    ensures PaddedStart(pad, a) <= PaddedStart(pad, b) && PaddedEnd(pad, a, length) <= PaddedEnd(pad, b, length)
  {
  }

  lemma PaddingStaysInside(pad: nat, t: Stretch, length: nat)
    requires Within(t, length)
    ensures PaddedStart(pad, t) <= t.start && t.end <= PaddedEnd(pad, t, length) <= length
  {
  }

  ghost predicate Spaced(ts: seq<Stretch>, gap: nat) {
    forall i, j :: 0 <= i < j < |ts| ==> ts[i].end + gap <= ts[j].start
  }

  ghost predicate InOrderWithin(segments: seq<SpeechSegment>, length: nat) {
    && (forall i :: 0 <= i < |segments| ==> segments[i].startSample < segments[i].endSample <= length)
    && (forall i, j :: 0 <= i < j < |segments| ==>
          segments[i].startSample <= segments[j].startSample && segments[i].endSample <= segments[j].endSample)
  }

  ghost predicate PairwiseDisjoint(segments: seq<SpeechSegment>) {
    forall i, j :: 0 <= i < j < |segments| ==> segments[i].endSample <= segments[j].startSample
  }

  lemma OneMore(before: seq<SpeechSegment>, x: SpeechSegment, length: nat, apart: bool)
    requires InOrderWithin(before, length) && (apart ==> PairwiseDisjoint(before))
    requires x.startSample < x.endSample <= length
    requires forall i :: 0 <= i < |before| ==>
        before[i].startSample <= x.startSample && before[i].endSample <= x.endSample
    requires apart ==> forall i :: 0 <= i < |before| ==> before[i].endSample <= x.startSample
    ensures InOrderWithin(before + [x], length) && (apart ==> PairwiseDisjoint(before + [x]))
  {
  }

  /** Segments lie inside the recording and in order; when twice the padding is no more than the least
      silence between stretches of speech, no two of them overlap. */
  lemma {:induction false} SegmentsAreOrdered(c: SileroVadConfig, rms: seq<real> -> real, samples: seq<real>,
          ts: seq<Stretch>, gap: nat)
    requires AllWithin(ts, |samples|) && Spaced(ts, gap)
    ensures InOrderWithin(Segments(c, rms, samples, ts), |samples|)
    ensures 2 * Padding(c) <= gap ==> PairwiseDisjoint(Segments(c, rms, samples, ts))
  {
    if ts != [] {
      var n := |ts| - 1;
      SegmentsAreOrdered(c, rms, samples, ts[..n], gap);
      var before := Segments(c, rms, samples, ts[..n]);
      var x := SegmentOf(c, rms, samples, ts[n]);
      PaddingStaysInside(Padding(c), ts[n], |samples|);
      forall i | 0 <= i < |before|
        ensures before[i].startSample <= x.startSample && before[i].endSample <= x.endSample
        ensures 2 * Padding(c) <= gap ==> before[i].endSample <= x.startSample
      {
        var m := SegmentComesFrom(c, rms, samples, ts[..n], before[i]);
        PaddingFits(Padding(c), ts[m], ts[n], |samples|);
      }
      OneMore(before, x, |samples|, 2 * Padding(c) <= gap);
      assert before + [] == before;
    }
  }

  // -------------------------------------------------------------- how far apart the groups are

  function Gaps(c: SileroVadConfig): Rule {
    ShorterThan(512, Samples(c.minSilenceMs))
  }

  lemma NeighboursAreSuccessive(speech: seq<bool>, n: nat, joins: Rule, groups: seq<Group>, i: nat)
    requires n <= |speech| && IsGrouping(speech, n, joins, groups) && i + 1 < |groups|
    ensures Successive(speech, n, groups[i].last, groups[i + 1].first)
    ensures !Together(groups, groups[i].last, groups[i + 1].first)
  {
    var a, b := groups[i].last, groups[i + 1].first;
    assert Ends(speech, n, groups[i]) && Ends(speech, n, groups[i + 1]);
    forall k | a < k < b ensures !speech[k] {
      forall m | 0 <= m < |groups| ensures !In(groups[m], k) {
        assert m < i ==> groups[m].last < groups[i].first;
        assert i + 1 < m ==> groups[i + 1].last < groups[m].first;
      }
      assert !Grouped(groups, k);
    }
    forall m | 0 <= m < |groups| ensures !(In(groups[m], a) && In(groups[m], b)) {
      assert m < i ==> groups[m].last < groups[i].first;
      assert i + 1 < m ==> groups[i + 1].last < groups[m].first;
    }
  }

  /** The silence between two groups is at least one chunk and at least the configured minimum. */
  lemma GroupsAreFarApart(c: SileroVadConfig, speech: seq<bool>, n: nat, groups: seq<Group>, i: nat, j: nat)
    requires n <= |speech| && IsGrouping(speech, n, Gaps(c), groups) && i < j < |groups|
    ensures groups[i].last < groups[j].first
    ensures groups[j].first - groups[i].last - 1 >= GapChunks(c)
  {
    NeighboursAreSuccessive(speech, n, Gaps(c), groups, i);
    assert !Gaps(c)(groups[i + 1].first - groups[i].last - 1);
    assert Ends(speech, n, groups[i + 1]);
    assert i + 1 < j ==> groups[i + 1].last < groups[j].first;
  }

  /** The fewest silent chunks that end a group. */
  function GapChunks(c: SileroVadConfig): (g: nat)
    ensures g >= 1 && !Gaps(c)(g) && forall k: nat :: k < g ==> Gaps(c)(k)
  {
    if Samples(c.minSilenceMs) == 0 then 1 else (Samples(c.minSilenceMs) + 511) / 512
  }

  function LeastGap(c: SileroVadConfig): nat {
    GapChunks(c) * 512
  }

  lemma StretchesAreSpaced(c: SileroVadConfig, speech: seq<bool>, groups: seq<Group>, open: bool)
    requires Scan(speech, |speech|, Gaps(c), groups, open)
    ensures AllWithin(AllStretches(|speech|, groups, open), |speech| * 512)
        && Spaced(AllStretches(|speech|, groups, open), LeastGap(c))
  {
    var ts := AllStretches(|speech|, groups, open);
    forall i | 0 <= i < |ts| ensures Within(ts[i], |speech| * 512) {
      assert Ends(speech, |speech|, groups[i]);
    }
    forall i, j | 0 <= i < j < |ts| ensures ts[i].end + LeastGap(c) <= ts[j].start {
      GroupsAreFarApart(c, speech, |speech|, groups, i, j);
    }
  }

  // ------------------------------------------------------------------- the variables of the loop

  datatype VadState = InSilence | InSpeech

  ghost predicate Inv(c: SileroVadConfig, rms: seq<real> -> real, samples: seq<real>, speech: seq<bool>, n: nat,
          groups: seq<Group>, state: VadState, start: nat, silence: nat, segments: seq<SpeechSegment>)
  {
    match state
    case InSilence =>
      && n <= |speech| && |speech| * 512 <= |samples| && Scan(speech, n, Gaps(c), groups, false)
      && AllWithin(Stretches(groups), |samples|) && segments == Segments(c, rms, samples, Stretches(groups))
    case InSpeech =>
      && n <= |speech| && |speech| * 512 <= |samples| && Scan(speech, n, Gaps(c), groups, true)
      && start == groups[|groups| - 1].first * 512 && silence == (n - groups[|groups| - 1].last - 1) * 512
      && AllWithin(Stretches(groups[..|groups| - 1]), |samples|)
           && segments == Segments(c, rms, samples, Stretches(groups[..|groups| - 1]))
  }

  lemma Opens(c: SileroVadConfig, rms: seq<real> -> real, samples: seq<real>, speech: seq<bool>, n: nat,
          groups: seq<Group>, start: nat, silence: nat, segments: seq<SpeechSegment>)
    requires Inv(c, rms, samples, speech, n, groups, InSilence, start, silence, segments) && n < |speech| && speech[n]
    ensures Inv(c, rms, samples, speech, n + 1, groups + [Group(n, n)], InSpeech, n * 512, 0, segments)
  {
    ShorterThanIsMonotone(512, Samples(c.minSilenceMs));
    ScanOpens(speech, n, Gaps(c), groups);
    assert (groups + [Group(n, n)])[..|groups|] == groups;
  }

  lemma Extends(c: SileroVadConfig, rms: seq<real> -> real, samples: seq<real>, speech: seq<bool>, n: nat,
          groups: seq<Group>, start: nat, silence: nat, segments: seq<SpeechSegment>)
    requires Inv(c, rms, samples, speech, n, groups, InSpeech, start, silence, segments) && n < |speech| && speech[n]
    ensures groups != [] && Inv(c, rms, samples, speech, n + 1, Extended(groups, n), InSpeech, start, 0, segments)
  {
    ShorterThanIsMonotone(512, Samples(c.minSilenceMs));
    ScanExtends(speech, n, Gaps(c), groups);
    ExtendedAt(groups, n);
    assert Extended(groups, n)[..|groups| - 1] == groups[..|groups| - 1];
  }

  lemma StaysSilent(c: SileroVadConfig, rms: seq<real> -> real, samples: seq<real>, speech: seq<bool>, n: nat,
          groups: seq<Group>, start: nat, silence: nat, segments: seq<SpeechSegment>)
    requires Inv(c, rms, samples, speech, n, groups, InSilence, start, silence, segments) && n < |speech| && !speech[n]
    ensures Inv(c, rms, samples, speech, n + 1, groups, InSilence, start, silence, segments)
  {
    ShorterThanIsMonotone(512, Samples(c.minSilenceMs));
    ScanSilence(speech, n, Gaps(c), groups, false);
  }

  lemma Waits(c: SileroVadConfig, rms: seq<real> -> real, samples: seq<real>, speech: seq<bool>, n: nat,
          groups: seq<Group>, start: nat, silence: nat, segments: seq<SpeechSegment>)
    requires Inv(c, rms, samples, speech, n, groups, InSpeech, start, silence, segments) && n < |speech| && !speech[n]
    requires silence + 512 < Samples(c.minSilenceMs)
    ensures Inv(c, rms, samples, speech, n + 1, groups, InSpeech, start, silence + 512, segments)
  {
    ShorterThanIsMonotone(512, Samples(c.minSilenceMs));
    ScanSilence(speech, n, Gaps(c), groups, true);
  }

  lemma AddStretch(c: SileroVadConfig, rms: seq<real> -> real, samples: seq<real>, groups: seq<Group>)
    requires groups != [] && AllWithin(Stretches(groups[..|groups| - 1]), |samples|)
    requires Within(StretchOf(groups[|groups| - 1]), |samples|)
    ensures AllWithin(Stretches(groups), |samples|)
    ensures Segments(c, rms, samples, Stretches(groups))
         == Segments(c, rms, samples, Stretches(groups[..|groups| - 1]))
           + Emit(c, rms, samples, StretchOf(groups[|groups| - 1]))
  {
    var top, ts := |groups| - 1, Stretches(groups);
    assert ts == Stretches(groups[..top]) + [StretchOf(groups[top])];
    assert ts[..top] == Stretches(groups[..top]);
  }

  /** When the silence is long enough, the stretch up to its beginning is emitted. */
  lemma Closes(c: SileroVadConfig, rms: seq<real> -> real, samples: seq<real>, speech: seq<bool>, n: nat,
          groups: seq<Group>, start: nat, silence: nat, segments: seq<SpeechSegment>)
    requires Inv(c, rms, samples, speech, n, groups, InSpeech, start, silence, segments) && n < |speech| && !speech[n]
    requires silence + 512 >= Samples(c.minSilenceMs)
    ensures n * 512 + 512 >= silence + 512
    ensures var t := Stretch(start, n * 512 + 512 - (silence + 512));
            && Within(t, |samples|)
            && Inv(c, rms, samples, speech, n + 1, groups, InSilence, start, 0, segments + Emit(c, rms, samples, t))
  {
    ShorterThanIsMonotone(512, Samples(c.minSilenceMs));
    ScanSilence(speech, n, Gaps(c), groups, true);
    var last := groups[|groups| - 1];
    assert Ends(speech, n, last);
    assert StretchOf(last) == Stretch(start, n * 512 + 512 - (silence + 512));
    AddStretch(c, rms, samples, groups);
  }

  /** A stretch still open at the end reaches to the end of the last chunk. */
  lemma Flushes(c: SileroVadConfig, rms: seq<real> -> real, samples: seq<real>, speech: seq<bool>, groups: seq<Group>,
          start: nat, silence: nat, segments: seq<SpeechSegment>)
    requires Inv(c, rms, samples, speech, |speech|, groups, InSpeech, start, silence, segments)
    ensures groups != [] && Within(Stretch(start, |speech| * 512), |samples|)
    ensures AllWithin(AllStretches(|speech|, groups, true), |samples|)
    ensures segments + Emit(c, rms, samples, Stretch(start, |speech| * 512))
        == Segments(c, rms, samples, AllStretches(|speech|, groups, true))
  {
    var top, ts := |groups| - 1, AllStretches(|speech|, groups, true);
    assert Ends(speech, |speech|, groups[top]);
    assert ts[..top] == Stretches(groups[..top]);
  }

  // --------------------------------------------------------------------------------- detection

  /** Where the speech of group `k` ends; a group still open after `n` chunks goes on to their end. */
  ghost function Until(n: nat, groups: seq<Group>, open: bool, k: nat): nat
    requires k < |groups|
  {
    if open && k == |groups| - 1 then 512 * n else 512 * (groups[k].last + 1)
  }

  /** At 16 samples a millisecond, the speech of group `k` is long enough. */
  ghost function Long(c: SileroVadConfig, n: nat, groups: seq<Group>, open: bool): nat -> bool {
    (k: nat) => k < |groups| && Until(n, groups, open, k) - 512 * groups[k].first >= 16 * c.minSpeechMs
  }

  /** `x` is the speech from sample `from` to `to`, padded on both sides, clamped to the recording, timed to the
      millisecond, and as loud as the speech without the padding. */
  ghost predicate Describes(c: SileroVadConfig, rms: seq<real> -> real, samples: seq<real>, from: nat, to: nat,
          x: SpeechSegment)
  {
    && from < to <= |samples|
    && x.startSample == (if from < 16 * c.speechPadMs then 0 else from - 16 * c.speechPadMs)
    && x.endSample == (if to + 16 * c.speechPadMs < |samples| then to + 16 * c.speechPadMs else |samples|)
    && x.startMs == x.startSample / 16 && x.endMs == x.endSample / 16
    && x.energy == rms(samples[from..to])
  }

  ghost function Describing(c: SileroVadConfig, rms: seq<real> -> real, samples: seq<real>, n: nat, groups: seq<Group>,
          open: bool): (nat, SpeechSegment) -> bool
  {
    (k: nat, x: SpeechSegment) =>
      k < |groups| && Describes(c, rms, samples, 512 * groups[k].first, Until(n, groups, open, k), x)
  }

  /** One segment for each group that is long enough, in order, and no others. */
  ghost predicate Reports(c: SileroVadConfig, rms: seq<real> -> real, samples: seq<real>, n: nat, groups: seq<Group>,
          open: bool, segments: seq<SpeechSegment>)
  {
    Picks(|groups|, Long(c, n, groups, open), Describing(c, rms, samples, n, groups, open), segments)
  }

  /** What a run promises when the network answers for every chunk. */
  ghost predicate Detects(c: SileroVadConfig, rms: seq<real> -> real, samples: seq<real>, probs: seq<real>,
          segments: seq<SpeechSegment>, groups: seq<Group>, open: bool)
  {
    && Scan(seq(|probs|, k requires 0 <= k < |probs| => probs[k] >= c.threshold), |probs|,
            ShorterThan(512, 16 * c.minSilenceMs), groups, open)
    && AllWithin(AllStretches(|probs|, groups, open), |samples|)
    && segments == Segments(c, rms, samples, AllStretches(|probs|, groups, open))
    && Reports(c, rms, samples, |probs|, groups, open, segments)
  }

  lemma {:induction false} FirstAreReported(c: SileroVadConfig, rms: seq<real> -> real, samples: seq<real>, n: nat,
          groups: seq<Group>, open: bool, k: nat)
    requires (open ==> groups != []) && k <= |groups|
    requires AllWithin(AllStretches(n, groups, open), |samples|)
    ensures var ts := AllStretches(n, groups, open);
            Picks(k, Long(c, n, groups, open), Describing(c, rms, samples, n, groups, open),
                  Segments(c, rms, samples, ts[..k]))
  {
    var keep, says := Long(c, n, groups, open), Describing(c, rms, samples, n, groups, open);
    var ts := AllStretches(n, groups, open);
    if k == 0 {
      PicksNothing(keep, says);
    } else {
      FirstAreReported(c, rms, samples, n, groups, open, k - 1);
      assert ts[..k][..k - 1] == ts[..k - 1];
      var t, before := ts[k - 1], Segments(c, rms, samples, ts[..k - 1]);
      assert t.start == 512 * groups[k - 1].first && t.end == Until(n, groups, open, k - 1);
      var x := SegmentOf(c, rms, samples, t);
      assert Segments(c, rms, samples, ts[..k]) == before + Emit(c, rms, samples, t);
      if t.end - t.start >= Samples(c.minSpeechMs) {
        PicksMore(k - 1, keep, says, before, x);
      } else {
        PicksSame(k - 1, keep, says, before);
        assert before + [] == before;
      }
    }
  }

  /** What the stretches give is what is promised of the groups. */
  lemma SegmentsAreReported(c: SileroVadConfig, rms: seq<real> -> real, samples: seq<real>, n: nat,
          groups: seq<Group>, open: bool)
    requires open ==> groups != []
    requires AllWithin(AllStretches(n, groups, open), |samples|)
    ensures Reports(c, rms, samples, n, groups, open, Segments(c, rms, samples, AllStretches(n, groups, open)))
  {
    var ts := AllStretches(n, groups, open);
    FirstAreReported(c, rms, samples, n, groups, open, |groups|);
    assert ts[..|groups|] == ts;
  }

  /** Whatever is detected lies in the recording and in order, and stays apart when twice the padding is no
      more than the least silence in whole chunks. */
  lemma DetectedAreOrdered(c: SileroVadConfig, rms: seq<real> -> real, samples: seq<real>, probs: seq<real>,
          segments: seq<SpeechSegment>, groups: seq<Group>, open: bool)
    requires Detects(c, rms, samples, probs, segments, groups, open)
    ensures InOrderWithin(segments, |samples|)
    ensures 2 * Padding(c) <= LeastGap(c) ==> PairwiseDisjoint(segments)
  {
    StretchesAreSpaced(c, Speech(c, probs), groups, open);
    SegmentsAreOrdered(c, rms, samples, AllStretches(|probs|, groups, open), LeastGap(c));
  }

  /** The network's last layer is a sigmoid. */
  ghost predicate Probabilities(probs: seq<real>) {
    forall k :: 0 <= k < |probs| ==> 0.0 <= probs[k] <= 1.0
  }

  /** No recording, and nothing a network may answer for it, gives segments that overlap. */
  ghost predicate AlwaysApart(c: SileroVadConfig) {
    forall rms: seq<real> -> real, samples, probs, segments, groups, open ::
      Probabilities(probs) && Detects(c, rms, samples, probs, segments, groups, open) ==> PairwiseDisjoint(segments)
  }

  /** They always stay apart exactly when twice the padding is no more than the least silence, unless every chunk
      or none would be speech. */
  lemma ApartExactly(c: SileroVadConfig)
    ensures AlwaysApart(c) <==> 2 * Padding(c) <= LeastGap(c) || c.threshold <= 0.0 || c.threshold > 1.0
  {
    if 2 * Padding(c) <= LeastGap(c) || c.threshold <= 0.0 || c.threshold > 1.0 {
      forall rms: seq<real> -> real, samples, probs, segments, groups, open |
        Probabilities(probs) && Detects(c, rms, samples, probs, segments, groups, open)
        ensures PairwiseDisjoint(segments)
      {
        if 2 * Padding(c) <= LeastGap(c) {
          DetectedAreOrdered(c, rms, samples, probs, segments, groups, open);
        } else {
          var ts := AllStretches(|probs|, groups, open);
          if |groups| <= 1 { SegmentsAreOrdered(c, rms, samples, ts, 2 * Padding(c)); }
          else { TwoGroupsNeedBoth(c, probs, groups, open); }
        }
      }
    } else {
      TwoTooClose(c, samples => 0.0);
    }
  }

  lemma TwoGroupsNeedBoth(c: SileroVadConfig, probs: seq<real>, groups: seq<Group>, open: bool)
    requires Probabilities(probs) && Scan(Speech(c, probs), |probs|, Gaps(c), groups, open) && |groups| > 1
    ensures 0.0 < c.threshold <= 1.0
  {
    GroupsAreFarApart(c, Speech(c, probs), |probs|, groups, 0, 1);
    NeighboursAreSuccessive(Speech(c, probs), |probs|, Gaps(c), groups, 0);
    assert !Speech(c, probs)[groups[0].last + 1] && Speech(c, probs)[groups[0].last];
    assert probs[groups[0].last + 1] < c.threshold <= probs[groups[0].last];
  }

  /** `m` chunks of speech, the least silence that ends a group, and `m` chunks of speech again. */
  function SpeechTwice(m: nat, g: nat): seq<real> {
    seq(2 * m + g, k => if m <= k < m + g then 0.0 else 1.0)
  }

  lemma TwiceIsTwoGroups(c: SileroVadConfig, m: nat, g: nat)
    requires 0.0 < c.threshold <= 1.0 && m >= 1 && g >= 1 && !Gaps(c)(g)
    ensures Scan(Speech(c, SpeechTwice(m, g)), 2 * m + g, Gaps(c),
                 [Group(0, m - 1), Group(m + g, 2 * m + g - 1)], true)
  {
    var speech, groups := Speech(c, SpeechTwice(m, g)), [Group(0, m - 1), Group(m + g, 2 * m + g - 1)];
    assert forall k :: 0 <= k < |speech| ==> (speech[k] <==> !(m <= k < m + g));
    forall k: nat | k < |speech| && speech[k] ensures Grouped(groups, k) {
      assert In(groups[0], k) || In(groups[1], k);
    }
    forall a: nat, b: nat | Successive(speech, |speech|, a, b)
      ensures Together(groups, a, b) <==> Gaps(c)(b - a - 1)
    {
      if a == m - 1 {
        assert speech[m + g];
        assert !Together(groups, a, b);
      } else {
        assert speech[a + 1];
        assert (In(groups[0], a) && In(groups[0], b)) || (In(groups[1], a) && In(groups[1], b));
      }
    }
  }

  lemma TwoTooClose(c: SileroVadConfig, rms: seq<real> -> real)
    requires 0.0 < c.threshold <= 1.0 && 2 * Padding(c) > LeastGap(c)
    ensures !AlwaysApart(c)
  {
    var m, g := Samples(c.minSpeechMs) + 1, GapChunks(c);
    var probs, groups := SpeechTwice(m, g), [Group(0, m - 1), Group(m + g, 2 * m + g - 1)];
    var samples: seq<real> := seq((2 * m + g) * 512, k => 0.0);
    TwiceIsTwoGroups(c, m, g);
    var a, b := Stretch(0, m * 512), Stretch((m + g) * 512, (2 * m + g) * 512);
    var ts := AllStretches(|probs|, groups, true);
    assert ts == [a, b];
    var x, y := SegmentOf(c, rms, samples, a), SegmentOf(c, rms, samples, b);
    var segments := Segments(c, rms, samples, ts);
    assert ts[..1] == [a];
    assert [a][..0] == [];
    assert Segments(c, rms, samples, [a]) == [x];
    assert segments == [x, y];
    PaddingFits(Padding(c), a, b, |samples|);
    assert segments[0].endSample > segments[1].startSample;
    SegmentsAreReported(c, rms, samples, |probs|, groups, true);
    assert Detects(c, rms, samples, probs, segments, groups, true);
  }

  method Push(c: SileroVadConfig, rms: seq<real> -> real, samples: seq<real>, segments: seq<SpeechSegment>, start: nat,
          end: nat)
    returns (r: seq<SpeechSegment>)
    requires Within(Stretch(start, end), |samples|)
    ensures r == segments + Emit(c, rms, samples, Stretch(start, end))
  {
    r := segments;
    var duration := if end < start then 0 else end - start;
    if duration >= Samples(c.minSpeechMs) {
      var segStart := if start < Padding(c) then 0 else start - Padding(c);
      var segEnd := if end + Padding(c) < |samples| then end + Padding(c) else |samples|;
      r := segments + [SpeechSegment(segStart, segEnd, segStart / 16, segEnd / 16, rms(samples[start..end]))];
    }
  }

  lemma ScanOfPrefix(speech: seq<bool>, more: seq<bool>, n: nat, joins: Rule, groups: seq<Group>, open: bool)
    requires n <= |speech| <= |more| && speech == more[..|speech|] && Scan(speech, n, joins, groups, open)
    ensures Scan(more, n, joins, groups, open)
  {
    assert forall k :: 0 <= k < n ==> speech[k] == more[k];
    forall i | 0 <= i < |groups| ensures Ends(more, n, groups[i]) {
      assert Ends(speech, n, groups[i]);
    }
    forall k: nat | k < n && more[k] ensures Grouped(groups, k) {
      assert speech[k];
      assert Grouped(groups, k);
    }
    forall a: nat, b: nat | Successive(more, n, a, b) ensures Together(groups, a, b) <==> joins(b - a - 1) {
      assert Successive(speech, n, a, b);
    }
  }

  /** Hearing one more chunk does not change what is known about the chunks before it. */
  lemma OneMoreChunk(c: SileroVadConfig, rms: seq<real> -> real, samples: seq<real>, probs: seq<real>, p: real, n: nat,
          groups: seq<Group>, state: VadState, start: nat, silence: nat, segments: seq<SpeechSegment>)
    requires Inv(c, rms, samples, Speech(c, probs), n, groups, state, start, silence, segments) && |probs| == n
        && (n + 1) * 512 <= |samples|
    ensures Inv(c, rms, samples, Speech(c, probs + [p]), n, groups, state, start, silence, segments)
  {
    assert Speech(c, probs) == Speech(c, probs + [p])[..n];
    ScanOfPrefix(Speech(c, probs), Speech(c, probs + [p]), n, Gaps(c), groups, state == InSpeech);
  }

  /** A silent chunk inside speech. */
  method Pause(c: SileroVadConfig, rms: seq<real> -> real, samples: seq<real>, offset: nat, start: nat, silence: nat,
          segments: seq<SpeechSegment>, ghost speech: seq<bool>, ghost n: nat, ghost groups: seq<Group>)
    returns (next: VadState, silenceCount: nat, r: seq<SpeechSegment>)
    requires Inv(c, rms, samples, speech, n, groups, InSpeech, start, silence, segments)
    requires n < |speech| && !speech[n] && offset == n * 512
    ensures Inv(c, rms, samples, speech, n + 1, groups, next, start, silenceCount, r)
  {
    next, silenceCount, r := InSpeech, silence + 512, segments;
    if silenceCount >= Samples(c.minSilenceMs) {
      Closes(c, rms, samples, speech, n, groups, start, silence, segments);
      var endSample: nat := offset + 512 - silenceCount;
      r := Push(c, rms, samples, segments, start, endSample);
      next, silenceCount := InSilence, 0;
    } else {
      Waits(c, rms, samples, speech, n, groups, start, silence, segments);
    }
  }

  /** One round of the loop. */
  method Advance(c: SileroVadConfig, rms: seq<real> -> real, samples: seq<real>, offset: nat, prob: real,
          state: VadState, start: nat, silence: nat, segments: seq<SpeechSegment>, ghost probs: seq<real>, ghost n: nat,
          ghost groups: seq<Group>)
    returns (next: VadState, speechStart: nat, silenceCount: nat, r: seq<SpeechSegment>, ghost more: seq<Group>)
    requires Inv(c, rms, samples, Speech(c, probs), n, groups, state, start, silence, segments)
    requires n < |probs| && probs[n] == prob && offset == n * 512
    ensures Inv(c, rms, samples, Speech(c, probs), n + 1, more, next, speechStart, silenceCount, r)
  {
    next, speechStart, silenceCount, r, more := state, start, silence, segments, groups;
    if prob >= c.threshold {
      if state == InSilence {
        Opens(c, rms, samples, Speech(c, probs), n, groups, start, silence, segments);
        next, speechStart, silenceCount, more := InSpeech, offset, 0, groups + [Group(n, n)];
      } else {
        Extends(c, rms, samples, Speech(c, probs), n, groups, start, silence, segments);
        silenceCount, more := 0, Extended(groups, n);
      }
    } else if state == InSpeech {
      next, silenceCount, r :=
        Pause(c, rms, samples, offset, start, silence, segments, Speech(c, probs), n, groups);
    } else {
      StaysSilent(c, rms, samples, Speech(c, probs), n, groups, start, silence, segments);
    }
  }

  /** The segment that is still open after the last chunk. */
  method Flush(c: SileroVadConfig, rms: seq<real> -> real, samples: seq<real>, numChunks: nat, state: VadState,
          start: nat, silence: nat, segments: seq<SpeechSegment>, ghost probs: seq<real>, ghost groups: seq<Group>)
    returns (r: seq<SpeechSegment>)
    requires Inv(c, rms, samples, Speech(c, probs), numChunks, groups, state, start, silence, segments)
        && numChunks == |probs|
    ensures Detects(c, rms, samples, probs, r, groups, state == InSpeech)
  {
    r := segments;
    if state == InSpeech {
      Flushes(c, rms, samples, Speech(c, probs), groups, start, silence, segments);
      r := Push(c, rms, samples, segments, start, numChunks * 512);
    }
    SegmentsAreReported(c, rms, samples, numChunks, groups, state == InSpeech);
  }

  class SileroVad<!S> {
    const network: Network<S>
    const zero: S
    const config: SileroVadConfig
    var stateH: S
    var stateC: S

    constructor (network: Network<S>, zero: S, config: SileroVadConfig)
      ensures this.network == network && this.zero == zero && this.config == config && Now() == Hidden(zero, zero)
    {
      this.network, this.zero, this.config, this.stateH, this.stateC := network, zero, config, zero, zero;
    }

    function Now(): Hidden<S>
      reads this
    {
      Hidden(stateH, stateC)
    }

    method Reset()
      modifies this
      ensures Now() == Hidden(zero, zero)
    {
      stateH, stateC := zero, zero;
    }

    /** `process_chunk` */
    method ProcessChunk(chunk: seq<real>) returns (r: Response<real>)
      modifies this
      ensures |chunk| != 512 ==> r == InvalidArgument && Now() == old(Now())
      ensures |chunk| == 512 ==>
                match network(chunk, old(Now()))
                case Heard(prob, next) => r == Ok(prob) && Now() == next
                case NoAnswer => r == Failed && Now() == old(Now())
                case OnlyFirstHalf(h) => r == Failed && Now() == Hidden(h, old(stateC))
    {
      if |chunk| != SILERO_CHUNK_SIZE {
        return InvalidArgument;
      }
      match network(chunk, Hidden(stateH, stateC)) {
        case Heard(prob, next) =>
          stateH := next.h;
          stateC := next.c;
          return Ok(prob);
        case NoAnswer =>
          return Failed;
        case OnlyFirstHalf(h) =>
          stateH := h;
          return Failed;
      }
    }

    /** `detect_speech`; the hidden state left by earlier calls plays no part. */
    method DetectSpeech(rms: seq<real> -> real, samples: seq<real>, sampleRate: nat)
      returns (r: Response<seq<SpeechSegment>>, ghost groups: seq<Group>, ghost open: bool)
      modifies this
      ensures sampleRate != SILERO_SAMPLE_RATE ==> r == InvalidArgument && Now() == Hidden(zero, zero)
      ensures sampleRate == SILERO_SAMPLE_RATE ==>
                match Listen(network, Hidden(zero, zero), samples, |samples| / 512)
                case Ok((probs, last)) =>
                  r.Ok? && Now() == last && Detects(config, rms, samples, probs, r.value, groups, open)
                case _ => r == Failed
    {
      groups, open := [], false;
      Reset();
      if sampleRate != SILERO_SAMPLE_RATE {
        return InvalidArgument, [], false;
      }
      r, groups, open := ScanChunks(rms, samples, |samples| / 512);
    }

    /** The loop of `detect_speech`. */
    method ScanChunks(rms: seq<real> -> real, samples: seq<real>, numChunks: nat)
      returns (r: Response<seq<SpeechSegment>>, ghost groups: seq<Group>, ghost open: bool)
      requires numChunks * 512 <= |samples| && Now() == Hidden(zero, zero)
      modifies this
      ensures match Listen(network, Hidden(zero, zero), samples, numChunks)
              case Ok((probs, last)) =>
                r.Ok? && Now() == last && Detects(config, rms, samples, probs, r.value, groups, open)
              case _ => r == Failed
    {
      groups, open := [], false;
      var vad, speechStart: nat, silenceCount: nat, segments := InSilence, 0, 0, [];
      ghost var probs: seq<real> := [];
      ScanStart(Speech(config, []), Gaps(config));
      for i := 0 to numChunks
        invariant Listen(network, Hidden(zero, zero), samples, i) == Ok((probs, Now()))
        invariant Inv(config, rms, samples, Speech(config, probs), i, groups, vad, speechStart, silenceCount, segments)
      {
        var offset := i * 512;
        ListenPrefix(network, Hidden(zero, zero), samples, i + 1, numChunks);
        assert samples[offset..offset + 512] == Chunk(samples, i);
        var prob := ProcessChunk(samples[offset..offset + 512]);
        match prob {
          case Failed => return Failed, [], false;
          case Ok(p) =>
            OneMoreChunk(config, rms, samples, probs, p, i, groups, vad, speechStart, silenceCount, segments);
            probs := probs + [p];
            vad, speechStart, silenceCount, segments, groups :=
              Advance(config, rms, samples, offset, p, vad, speechStart, silenceCount, segments, probs, i, groups);
        }
      }
      open := vad == InSpeech;
      segments := Flush(config, rms, samples, numChunks, vad, speechStart, silenceCount, segments, probs, groups);
      r := Ok(segments);
    }
  }
}
