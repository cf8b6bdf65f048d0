/** chronicle/src/audio/vad.rs: the energy-based detector. */
module EnergyVad {
  import opened Sequences
  import opened SpeechGroups

  datatype VadConfig = VadConfig(energyThreshold: real, minSpeechMs: nat, maxSilenceMs: nat, frameSize: nat,
    sampleRate: nat)

  /** The configuration in the units of the loop: a limit in samples and a clock from samples to
      milliseconds. */
  datatype Settings = Settings(energyThreshold: real, minSpeechMs: nat, silenceLimit: nat, frameSize: nat,
    ms: nat -> nat)

  /** The code divides by the frame size. */
  predicate Usable(c: Settings) {
    c.frameSize > 0
  }

  /** The root mean square of a frame. */
  type Loudness = seq<real> -> real

  // --------------------------------------------------------------------------- frames and time

  /** The samples before frame `k`. */
  function At(c: Settings, k: nat): nat {
    if k == 0 then 0 else At(c, k - 1) + c.frameSize
  }

  lemma {:induction false} AtIs(c: Settings, k: nat)
    ensures At(c, k) == k * c.frameSize
  {
    if k > 0 {
      AtIs(c, k - 1);
      assert k * c.frameSize == (k - 1) * c.frameSize + c.frameSize;
    }
  }

  lemma {:induction false} AtAdds(c: Settings, a: nat, b: nat)
    ensures At(c, a + b) == At(c, a) + At(c, b)
  {
    if b > 0 {
      AtAdds(c, a, b - 1);
      assert a + b - 1 == a + (b - 1);
    }
  }

  lemma QuotientFits(n: nat, d: nat)
    requires d > 0
    ensures n / d * d <= n
  {
  }

  lemma FramesFit(c: Settings, samples: seq<real>)
    requires Usable(c)
    ensures At(c, |samples| / c.frameSize) <= |samples|
  {
    QuotientFits(|samples|, c.frameSize);
    AtIs(c, |samples| / c.frameSize);
  }

  function Level(c: Settings, rms: Loudness, samples: seq<real>, start: nat): real
    requires start + c.frameSize <= |samples|
  {
    rms(samples[start..start + c.frameSize])
  }

  /** The loudness of each whole frame. */
  function Levels(c: Settings, rms: Loudness, samples: seq<real>, n: nat): (r: seq<real>)
    requires At(c, n) <= |samples|
    ensures |r| == n
  {
    if n == 0 then [] else Levels(c, rms, samples, n - 1) + [Level(c, rms, samples, At(c, n - 1))]
  }

  lemma {:induction false} LevelsAt(c: Settings, rms: Loudness, samples: seq<real>, n: nat, k: nat)
    requires At(c, n) <= |samples| && k < n
    ensures At(c, k) + c.frameSize <= |samples| && Levels(c, rms, samples, n)[k] == Level(c, rms, samples, At(c, k))
  {
    if k < n - 1 {
      LevelsAt(c, rms, samples, n - 1, k);
    }
  }

  function Speech(c: Settings, levels: seq<real>): seq<bool> {
    seq(|levels|, k requires 0 <= k < |levels| => levels[k] >= c.energyThreshold)
  }

  ghost function Gaps(c: Settings): Rule {
    ShorterThan(c.frameSize, c.silenceLimit)
  }

  // --------------------------------------------------------------------------- from a group to a segment

  ghost function SpeechEnergy(c: Settings, levels: seq<real>, from: nat, to: nat): real
    requires from <= to <= |levels|
  {
    if from == to then 0.0
    else SpeechEnergy(c, levels, from, to - 1) + if levels[to - 1] >= c.energyThreshold then levels[to - 1] else 0.0
  }

  ghost function SpeechFrames(c: Settings, levels: seq<real>, from: nat, to: nat): nat
    requires from <= to <= |levels|
  {
    if from == to then 0
    else SpeechFrames(c, levels, from, to - 1) + if levels[to - 1] >= c.energyThreshold then 1 else 0
  }

  function Mean(sum: real, count: nat): real {
    if count > 0 then sum / count as real else 0.0
  }

  /** From the first speech frame to the last, with the mean energy of its speech frames. */
  ghost function SegmentOf(c: Settings, levels: seq<real>, g: Group): SpeechSegment
    requires Usable(c) && g.first <= g.last < |levels|
  {
    var start, end := At(c, g.first), At(c, g.last + 1);
    var n := SpeechFrames(c, levels, g.first, g.last + 1);
    SpeechSegment(start, end, c.ms(start), c.ms(end), Mean(SpeechEnergy(c, levels, g.first, g.last + 1), n))
  }

  ghost predicate LongEnough(c: Settings, g: Group)
    requires Usable(c) && g.first <= g.last
  {
    c.ms(At(c, g.last + 1 - g.first)) >= c.minSpeechMs
  }

  ghost predicate Inside(levels: seq<real>, groups: seq<Group>) {
    forall i :: 0 <= i < |groups| ==> groups[i].first <= groups[i].last < |levels|
  }

  ghost function Segments(c: Settings, levels: seq<real>, groups: seq<Group>): seq<SpeechSegment>
    requires Usable(c) && Inside(levels, groups)
  {
    if groups == [] then []
    else
      var g := groups[|groups| - 1];
      Segments(c, levels, groups[..|groups| - 1]) + if LongEnough(c, g) then [SegmentOf(c, levels, g)] else []
  }

  // ------------------------------------------------------------------- the variables of the loop

  datatype VadState = InSilence | InSpeech

  datatype Open = Open(start: nat, silence: nat, energySum: real, frameCount: nat)

  /** What the variables say about the open group after `n` frames. */
  ghost predicate Tracks(c: Settings, levels: seq<real>, n: nat, g: Group, v: Open) {
    && g.first <= g.last < n <= |levels|
    && v.start == At(c, g.first) && v.silence == At(c, n - g.last - 1)
    && v.energySum == SpeechEnergy(c, levels, g.first, g.last + 1)
         && v.frameCount == SpeechFrames(c, levels, g.first, g.last + 1)
  }

  ghost predicate Inv(c: Settings, levels: seq<real>, n: nat, groups: seq<Group>, state: VadState, v: Open,
          segments: seq<SpeechSegment>)
  {
    match state
    case InSilence =>
      && Usable(c) && n <= |levels| && Inside(levels, groups) && Scan(Speech(c, levels), n, Gaps(c), groups, false)
      && segments == Segments(c, levels, groups)
    case InSpeech =>
      && Usable(c) && n <= |levels| && Inside(levels, groups) && Scan(Speech(c, levels), n, Gaps(c), groups, true)
      && Tracks(c, levels, n, groups[|groups| - 1], v)
      && segments == Segments(c, levels, groups[..|groups| - 1])
  }

  lemma {:induction false} SilenceAddsNothing(c: Settings, levels: seq<real>, from: nat, mid: nat, to: nat)
    requires from <= mid <= to <= |levels| && forall k :: mid <= k < to ==> levels[k] < c.energyThreshold
    ensures SpeechEnergy(c, levels, from, to) == SpeechEnergy(c, levels, from, mid)
    ensures SpeechFrames(c, levels, from, to) == SpeechFrames(c, levels, from, mid)
  {
    if mid < to {
      SilenceAddsNothing(c, levels, from, mid, to - 1);
    }
  }

  lemma SilentSinceLast(c: Settings, levels: seq<real>, n: nat, groups: seq<Group>, open: bool, k: nat)
    requires n <= |levels| && Scan(Speech(c, levels), n, Gaps(c), groups, open) && groups != []
    requires groups[|groups| - 1].last < k < n
    ensures levels[k] < c.energyThreshold
  {
    if levels[k] >= c.energyThreshold {
      assert Speech(c, levels)[k];
      LastIsLatest(Speech(c, levels), n, Gaps(c), groups, k);
    }
  }

  lemma Opens(c: Settings, levels: seq<real>, n: nat, groups: seq<Group>, v: Open, segments: seq<SpeechSegment>)
    requires Inv(c, levels, n, groups, InSilence, v, segments) && n < |levels| && levels[n] >= c.energyThreshold
    ensures Inv(c, levels, n + 1, groups + [Group(n, n)], InSpeech, Open(At(c, n), 0, levels[n], 1), segments)
  {
    ShorterThanIsMonotone(c.frameSize, c.silenceLimit);
    ScanOpens(Speech(c, levels), n, Gaps(c), groups);
    assert SpeechEnergy(c, levels, n, n) == 0.0 && SpeechFrames(c, levels, n, n) == 0;
    assert (groups + [Group(n, n)])[..|groups|] == groups;
  }

  lemma Extends(c: Settings, levels: seq<real>, n: nat, groups: seq<Group>, v: Open, segments: seq<SpeechSegment>)
    requires Inv(c, levels, n, groups, InSpeech, v, segments) && n < |levels| && levels[n] >= c.energyThreshold
    ensures groups != []
    ensures Inv(c, levels, n + 1, Extended(groups, n), InSpeech,
        Open(v.start, 0, v.energySum + levels[n], v.frameCount + 1), segments)
  {
    ShorterThanIsMonotone(c.frameSize, c.silenceLimit);
    ScanExtends(Speech(c, levels), n, Gaps(c), groups);
    var g := groups[|groups| - 1];
    forall k | g.last < k < n ensures levels[k] < c.energyThreshold {
      SilentSinceLast(c, levels, n, groups, true, k);
    }
    SilenceAddsNothing(c, levels, g.first, g.last + 1, n);
    ExtendedAt(groups, n);
    assert Extended(groups, n)[..|groups| - 1] == groups[..|groups| - 1];
  }

  lemma StaysSilent(c: Settings, levels: seq<real>, n: nat, groups: seq<Group>, v: Open, segments: seq<SpeechSegment>)
    requires Inv(c, levels, n, groups, InSilence, v, segments) && n < |levels| && levels[n] < c.energyThreshold
    ensures Inv(c, levels, n + 1, groups, InSilence, v, segments)
  {
    ShorterThanIsMonotone(c.frameSize, c.silenceLimit);
    ScanSilence(Speech(c, levels), n, Gaps(c), groups, false);
  }

  /** One more silent frame: the count against the limit is the rule. */
  lemma SilenceCounts(c: Settings, n: nat, last: nat)
    requires Usable(c) && last < n
    ensures Gaps(c)(n - last) <==> At(c, n - last) < c.silenceLimit
  {
    AtIs(c, n - last);
  }

  lemma Waits(c: Settings, levels: seq<real>, n: nat, groups: seq<Group>, v: Open, segments: seq<SpeechSegment>)
    requires Inv(c, levels, n, groups, InSpeech, v, segments) && n < |levels| && levels[n] < c.energyThreshold
    requires v.silence + c.frameSize < c.silenceLimit
    ensures Inv(c, levels, n + 1, groups, InSpeech, v.(silence := v.silence + c.frameSize), segments)
  {
    ShorterThanIsMonotone(c.frameSize, c.silenceLimit);
    ScanSilence(Speech(c, levels), n, Gaps(c), groups, true);
    SilenceCounts(c, n, groups[|groups| - 1].last);
  }

  /** When the silence reaches the limit, counting it back leads to the end of the last speech frame. */
  lemma Closes(c: Settings, levels: seq<real>, n: nat, groups: seq<Group>, v: Open, segments: seq<SpeechSegment>)
    requires Inv(c, levels, n, groups, InSpeech, v, segments) && n < |levels| && levels[n] < c.energyThreshold
    requires v.silence + c.frameSize >= c.silenceLimit
    ensures var last := groups[|groups| - 1].last;
            At(c, n) >= v.silence + c.frameSize && At(c, n) - (v.silence + c.frameSize) + c.frameSize == At(c, last + 1)
    ensures Inv(c, levels, n + 1, groups, InSilence, v, Segments(c, levels, groups))
  {
    ShorterThanIsMonotone(c.frameSize, c.silenceLimit);
    ScanSilence(Speech(c, levels), n, Gaps(c), groups, true);
    var last := groups[|groups| - 1].last;
    SilenceCounts(c, n, last);
    AtAdds(c, last, n - last);
  }

  // --------------------------------------------------------------------------------- detection

  /** `maybe_push_segment` */
  method MaybePushSegment(c: Settings, segments: seq<SpeechSegment>, start: nat, end: nat, energySum: real,
          frameCount: nat, ghost levels: seq<real>, ghost groups: seq<Group>)
    returns (r: seq<SpeechSegment>)
    requires Usable(c) && Inside(levels, groups) && groups != []
    requires segments == Segments(c, levels, groups[..|groups| - 1])
    requires var g := groups[|groups| - 1];
             && start == At(c, g.first) && end == At(c, g.last + 1)
             && energySum == SpeechEnergy(c, levels, g.first, g.last + 1)
                  && frameCount == SpeechFrames(c, levels, g.first, g.last + 1)
    ensures r == Segments(c, levels, groups)
  {
    ghost var g := groups[|groups| - 1];
    AtAdds(c, g.first, g.last + 1 - g.first);
    var durationMs := c.ms(end - start);
    r := segments;
    if durationMs >= c.minSpeechMs {
      r := segments + [SpeechSegment(start, end, c.ms(start), c.ms(end), Mean(energySum, frameCount))];
    }
  }

  /** A silent frame inside speech. */
  method Pause(c: Settings, frameStart: nat, v: Open, segments: seq<SpeechSegment>, ghost levels: seq<real>,
          ghost n: nat, ghost groups: seq<Group>)
    returns (next: VadState, w: Open, r: seq<SpeechSegment>)
    requires Inv(c, levels, n, groups, InSpeech, v, segments) && n < |levels| && frameStart == At(c, n)
    requires levels[n] < c.energyThreshold
    ensures Inv(c, levels, n + 1, groups, next, w, r)
  {
    var silenceCount := v.silence + c.frameSize;
    next, w, r := InSpeech, v.(silence := silenceCount), segments;
    if silenceCount >= c.silenceLimit {
      Closes(c, levels, n, groups, v, segments);
      var counted: nat := frameStart - silenceCount;
      r := MaybePushSegment(c, segments, v.start, counted + c.frameSize, v.energySum, v.frameCount, levels, groups);
      next, w := InSilence, v;
    } else {
      Waits(c, levels, n, groups, v, segments);
    }
  }

  /** One round of the loop. */
  method Advance(c: Settings, frameStart: nat, level: real, state: VadState, v: Open, segments: seq<SpeechSegment>,
          ghost levels: seq<real>, ghost n: nat, ghost groups: seq<Group>)
    returns (next: VadState, w: Open, r: seq<SpeechSegment>, ghost more: seq<Group>)
    requires Inv(c, levels, n, groups, state, v, segments) && n < |levels| && frameStart == At(c, n)
        && level == levels[n]
    ensures Inv(c, levels, n + 1, more, next, w, r)
  {
    next, w, r, more := state, v, segments, groups;
    if level >= c.energyThreshold {
      next := InSpeech;
      if state == InSilence {
        Opens(c, levels, n, groups, v, segments);
        w, more := Open(frameStart, 0, level, 1), groups + [Group(n, n)];
      } else {
        Extends(c, levels, n, groups, v, segments);
        w, more := Open(v.start, 0, v.energySum + level, v.frameCount + 1), Extended(groups, n);
      }
    } else if state == InSpeech {
      next, w, r := Pause(c, frameStart, v, segments, levels, n, groups);
    } else {
      StaysSilent(c, levels, n, groups, v, segments);
    }
  }

  /** The loop of `detect`. */
  method ScanFrames(c: Settings, rms: Loudness, samples: seq<real>, numFrames: nat)
    returns (segments: seq<SpeechSegment>, ghost groups: seq<Group>)
    requires Usable(c) && At(c, numFrames) <= |samples|
    ensures var levels := Levels(c, rms, samples, numFrames);
            && IsGrouping(Speech(c, levels), numFrames, Gaps(c), groups) && Inside(levels, groups)
            && segments == Segments(c, levels, groups)
  {
    ghost var levels := Levels(c, rms, samples, numFrames);
    ScanStart(Speech(c, levels), Gaps(c));
    groups, segments := [], [];
    var state, v, frameStart := InSilence, Open(0, 0, 0.0, 0), 0;
    for i := 0 to numFrames
      invariant Inv(c, levels, i, groups, state, v, segments) && frameStart == At(c, i)
    {
      LevelsAt(c, rms, samples, numFrames, i);
      var level := Level(c, rms, samples, frameStart);
      state, v, segments, groups := Advance(c, frameStart, level, state, v, segments, levels, i, groups);
      frameStart := frameStart + c.frameSize;
    }
    segments := Flush(c, frameStart, state, v, segments, levels, groups);
  }

  /** The trailing segment. */
  method Flush(c: Settings, frameStart: nat, state: VadState, v: Open, segments: seq<SpeechSegment>,
          ghost levels: seq<real>, ghost groups: seq<Group>)
    returns (r: seq<SpeechSegment>)
    requires Inv(c, levels, |levels|, groups, state, v, segments) && frameStart == At(c, |levels|)
    ensures r == Segments(c, levels, groups)
  {
    r := segments;
    if state == InSpeech {
      LastEnd(c, |levels|, groups[|groups| - 1].last);
      var endSample: nat := frameStart - v.silence;
      r := MaybePushSegment(c, segments, v.start, endSample, v.energySum, v.frameCount, levels, groups);
    }
  }

  /** The silence at the end of the input is cut off the last segment. */
  lemma LastEnd(c: Settings, n: nat, last: nat)
    requires last < n
    ensures At(c, n) - At(c, n - last - 1) == At(c, last + 1)
  {
    AtAdds(c, last + 1, n - last - 1);
  }

  const U64_MAX := 0xFFFF_FFFF_FFFF_FFFF

  /** At a rate of zero a sample lasts infinitely long: no silence is short enough to wait, and every time but
      zero saturates. */
  function SettingsOf(config: VadConfig): Settings {
    if config.sampleRate == 0 then
      Settings(config.energyThreshold, config.minSpeechMs, 0, config.frameSize,
               (samples: nat) => if samples == 0 then 0 else U64_MAX)
    else
      Settings(config.energyThreshold, config.minSpeechMs, config.maxSilenceMs * config.sampleRate / 1000,
        config.frameSize,
               (samples: nat) => samples * 1000 / config.sampleRate)
  }

  /** What so many samples last, rounded down. */
  ghost function Milliseconds(config: VadConfig, samples: nat): nat {
    if config.sampleRate > 0 then samples * 1000 / config.sampleRate
    else if samples == 0 then 0 else 0xFFFF_FFFF_FFFF_FFFF
  }

  ghost function SilenceLimit(config: VadConfig): nat {
    if config.sampleRate > 0 then config.maxSilenceMs * config.sampleRate / 1000 else 0
  }

  /** Frame after frame, the rest of the samples left out. */
  ghost predicate LevelsOf(config: VadConfig, rms: Loudness, samples: seq<real>, levels: seq<real>)
    requires config.frameSize > 0
  {
    && |levels| == |samples| / config.frameSize
    && forall k: nat :: k < |levels| ==> LevelFrom(rms, samples, k * config.frameSize, config.frameSize, levels[k])
  }

  ghost predicate LevelFrom(rms: Loudness, samples: seq<real>, start: nat, size: nat, level: real) {
    start + size <= |samples| && level == rms(samples[start..start + size])
  }

  /** From the first speech frame of a group to the last, at least the minimum long. */
  ghost predicate IsLong(config: VadConfig, g: Group) {
    g.first <= g.last && Milliseconds(config, (g.last + 1 - g.first) * config.frameSize) >= config.minSpeechMs
  }

  /** The segment of a group: its frames in samples and milliseconds, and the mean level of those with speech. */
  ghost predicate Describes(config: VadConfig, levels: seq<real>, g: Group, x: SpeechSegment) {
    && g.first <= g.last < |levels|
    && x.startSample == g.first * config.frameSize && x.endSample == (g.last + 1) * config.frameSize
    && x.startMs == Milliseconds(config, x.startSample) && x.endMs == Milliseconds(config, x.endSample)
    && MeanOfLoud(config.energyThreshold, levels[g.first..g.last + 1], x.energy)
  }

  /** The levels at or above the threshold, added up and divided by how many there are. */
  ghost predicate MeanOfLoud(threshold: real, levels: seq<real>, mean: real) {
    exists loud: seq<real> ::
      Picks(|levels|, Loud(threshold, levels), Entry(levels), loud)
      && loud != [] && mean == Total(loud) / |loud| as real
  }

  ghost function Loud(threshold: real, levels: seq<real>): nat -> bool {
    (k: nat) => k < |levels| && levels[k] >= threshold
  }

  ghost function Entry(levels: seq<real>): (nat, real) -> bool {
    (k: nat, level: real) => k < |levels| && level == levels[k]
  }

  ghost function Total(v: seq<real>): real {
    if v == [] then 0.0 else Total(v[..|v| - 1]) + v[|v| - 1]
  }

  /** One segment for each group that is long enough, in order, and no others. */
  ghost predicate Reports(config: VadConfig, levels: seq<real>, groups: seq<Group>, segments: seq<SpeechSegment>) {
    Picks(|groups|, Long(config, groups), Describing(config, levels, groups), segments)
  }

  ghost function Long(config: VadConfig, groups: seq<Group>): nat -> bool {
    (k: nat) => k < |groups| && IsLong(config, groups[k])
  }

  ghost function Describing(config: VadConfig, levels: seq<real>, groups: seq<Group>): (nat, SpeechSegment) -> bool {
    (k: nat, x: SpeechSegment) => k < |groups| && Describes(config, levels, groups[k], x)
  }

  /** The groups are those of the speech in the whole frames, and the segments are theirs. */
  ghost predicate Detects(config: VadConfig, rms: Loudness, samples: seq<real>, segments: seq<SpeechSegment>,
          levels: seq<real>, groups: seq<Group>)
    requires config.frameSize > 0
  {
    && LevelsOf(config, rms, samples, levels)
    && IsGrouping(seq(|levels|, k requires 0 <= k < |levels| => levels[k] >= config.energyThreshold), |levels|,
                  ShorterThan(config.frameSize, SilenceLimit(config)), groups)
    && Reports(config, levels, groups, segments)
  }

  lemma LastsSo(config: VadConfig, n: nat)
    ensures SettingsOf(config).ms(n) == Milliseconds(config, n)
  {
  }

  lemma LevelIsFrom(c: Settings, rms: Loudness, samples: seq<real>, n: nat, k: nat)
    requires k < n && At(c, n) <= |samples|
    ensures LevelFrom(rms, samples, k * c.frameSize, c.frameSize, Levels(c, rms, samples, n)[k])
  {
    LevelsAt(c, rms, samples, n, k);
    AtIs(c, k);
  }

  lemma LevelsAreOf(config: VadConfig, rms: Loudness, samples: seq<real>)
    requires config.frameSize > 0
    ensures var c := SettingsOf(config);
            && At(c, |samples| / c.frameSize) <= |samples|
            && LevelsOf(config, rms, samples, Levels(c, rms, samples, |samples| / c.frameSize))
  {
    var c := SettingsOf(config);
    var n := |samples| / c.frameSize;
    FramesFit(c, samples);
    forall k: nat | k < n
      ensures LevelFrom(rms, samples, k * config.frameSize, config.frameSize, Levels(c, rms, samples, n)[k])
    {
      LevelIsFrom(c, rms, samples, n, k);
    }
  }

  lemma {:induction false} LoudOnes(c: Settings, levels: seq<real>, from: nat, to: nat, n: nat)
    returns (loud: seq<real>)
    requires from + n <= to <= |levels|
    ensures Picks(n, Loud(c.energyThreshold, levels[from..to]), Entry(levels[from..to]), loud)
    ensures Total(loud) == SpeechEnergy(c, levels, from, from + n) && |loud| == SpeechFrames(c, levels, from, from + n)
  {
    var keep, says := Loud(c.energyThreshold, levels[from..to]), Entry(levels[from..to]);
    if n == 0 {
      loud := [];
      PicksNothing(keep, says);
    } else {
      var before := LoudOnes(c, levels, from, to, n - 1);
      var level := levels[from + n - 1];
      assert levels[from..to][n - 1] == level;
      if level >= c.energyThreshold {
        PicksMore(n - 1, keep, says, before, level);
        loud := before + [level];
      } else {
        PicksSame(n - 1, keep, says, before);
        loud := before;
      }
    }
  }

  lemma {:induction false} SomeSpeech(c: Settings, levels: seq<real>, from: nat, to: nat)
    requires from < to <= |levels| && levels[from] >= c.energyThreshold
    ensures SpeechFrames(c, levels, from, to) > 0
  {
    if from < to - 1 {
      SomeSpeech(c, levels, from, to - 1);
    }
  }

  lemma SegmentDescribes(config: VadConfig, levels: seq<real>, g: Group)
    requires config.frameSize > 0 && g.first <= g.last < |levels| && levels[g.first] >= config.energyThreshold
    ensures Describes(config, levels, g, SegmentOf(SettingsOf(config), levels, g))
    ensures IsLong(config, g) <==> LongEnough(SettingsOf(config), g)
  {
    var c := SettingsOf(config);
    AtIs(c, g.first);
    AtIs(c, g.last + 1);
    AtIs(c, g.last + 1 - g.first);
    LastsSo(config, At(c, g.first));
    LastsSo(config, At(c, g.last + 1));
    LastsSo(config, At(c, g.last + 1 - g.first));
    var part := levels[g.first..g.last + 1];
    var loud := LoudOnes(c, levels, g.first, g.last + 1, |part|);
    SomeSpeech(c, levels, g.first, g.last + 1);
  }

  lemma {:induction false} FirstAreReported(config: VadConfig, levels: seq<real>, groups: seq<Group>, n: nat)
    requires config.frameSize > 0 && Inside(levels, groups) && n <= |groups|
    requires forall i :: 0 <= i < |groups| ==> levels[groups[i].first] >= config.energyThreshold
    ensures Picks(n, Long(config, groups), Describing(config, levels, groups),
                  Segments(SettingsOf(config), levels, groups[..n]))
  {
    var keep, says := Long(config, groups), Describing(config, levels, groups);
    var c := SettingsOf(config);
    if n == 0 {
      PicksNothing(keep, says);
    } else {
      FirstAreReported(config, levels, groups, n - 1);
      assert groups[..n][..n - 1] == groups[..n - 1];
      var g, before := groups[n - 1], Segments(c, levels, groups[..n - 1]);
      SegmentDescribes(config, levels, g);
      assert Segments(c, levels, groups[..n]) ==
          before + if LongEnough(c, g) then [SegmentOf(c, levels, g)] else [];
      if LongEnough(c, g) {
        PicksMore(n - 1, keep, says, before, SegmentOf(c, levels, g));
      } else {
        PicksSame(n - 1, keep, says, before);
        assert before + [] == before;
      }
    }
  }

  /** What the loop computes is what is promised. */
  lemma ComputedIsDetected(config: VadConfig, rms: Loudness, samples: seq<real>, segments: seq<SpeechSegment>,
          levels: seq<real>, groups: seq<Group>)
    requires config.frameSize > 0 && LevelsOf(config, rms, samples, levels)
    requires var c := SettingsOf(config);
             && IsGrouping(Speech(c, levels), |levels|, Gaps(c), groups) && Inside(levels, groups)
             && segments == Segments(c, levels, groups)
    ensures Detects(config, rms, samples, segments, levels, groups)
  {
    var c := SettingsOf(config);
    assert Speech(c, levels) == seq(|levels|, k requires 0 <= k < |levels| => levels[k] >= config.energyThreshold);
    forall i | 0 <= i < |groups| ensures levels[groups[i].first] >= config.energyThreshold {
      assert Ends(Speech(c, levels), |levels|, groups[i]);
    }
    FirstAreReported(config, levels, groups, |groups|);
    assert groups[..|groups|] == groups;
  }

  /** `EnergyVad::detect`; without samples the frame size is not looked at. */
  method Detect(config: VadConfig, rms: Loudness, samples: seq<real>) returns (segments: seq<SpeechSegment>)
    requires samples != [] ==> config.frameSize > 0
    ensures samples == [] ==> segments == []
    ensures samples != [] ==> exists levels, groups :: Detects(config, rms, samples, segments, levels, groups)
  {
    if samples == [] {
      return [];
    }
    var c := SettingsOf(config);
    var numFrames := |samples| / c.frameSize;
    FramesFit(c, samples);
    ghost var groups;
    segments, groups := ScanFrames(c, rms, samples, numFrames);
    LevelsAreOf(config, rms, samples);
    ComputedIsDetected(config, rms, samples, segments, Levels(c, rms, samples, numFrames), groups);
  }
}
