/** chronicle/src/daemon.rs and chronicle/src/store/mod.rs: handing transcripts from the inbox to the
    outbox, when any write, rename or the process itself may stop part-way. */
module TranscriptHandoff {
  import opened Wrappers
  import opened Framing
  import opened Sorting

  /** The event line for a manifest's contents at a moment, or nothing when the contents are invalid. */
  type Encoder = (string, int) -> Option<string>

  /** JSON text has no line breaks and is not empty. */
  predicate OneLine(line: string) {
    line != "" && '\n' !in line
  }

  ghost predicate Encodes(encode: Encoder) {
    forall body, time :: encode(body, time).Some? ==> OneLine(encode(body, time).value)
  }

  // ------------------------------------------------------------------------------- the outbox

  /** The complete lines of the file, and what follows the last of them. */
  function CompleteLines(file: string): seq<string> {
    Split(file, "\n").frames
  }

  function Tail(file: string): string {
    Split(file, "\n").rest
  }

  /** What of the line and its newline reaches the file before the write stops. */
  function Written(line: string, count: nat): string {
    var text := line + "\n";
    if count < |text| then text[..count] else text
  }

  predicate Complete(line: string, count: nat) {
    count > |line|
  }

  lemma NoBreak(s: string)
    requires '\n' !in s
    ensures Split(s, "\n") == Cut([], s)
  {
    forall j: nat ensures !At(s, "\n", j) {
      if j < |s| {
        assert s[j..j + 1] == [s[j]];
      }
    }
    FirstFromIs(s, "\n", 0);
  }

  lemma BreakAtEnd(s: string)
    requires '\n' !in s
    ensures Split(s + "\n", "\n") == Cut([s], "")
  {
    var text := s + "\n";
    assert text[|s|..|s| + 1] == "\n";
    forall j: nat | j < |s| ensures !At(text, "\n", j) {
      assert text[j..j + 1][0] == s[j];
    }
    IndexIs(text, "\n", |s|);
    assert text[|s| + 1..] == "" && text[..|s|] == s;
    NoBreak("");
  }

  /** A complete append ends the line that was left open, so it gets a line of its own exactly on a
      file without one; a torn append leaves an open line and adds none. */
  lemma AppendLine(file: string, line: string, count: nat)
    requires '\n' !in line && '\n' !in Tail(file)
    ensures Complete(line, count) ==>
              && CompleteLines(file + Written(line, count)) == CompleteLines(file) + [Tail(file) + line]
              && Tail(file + Written(line, count)) == ""
    ensures !Complete(line, count) ==>
              && CompleteLines(file + Written(line, count)) == CompleteLines(file)
              && Tail(file + Written(line, count)) == Tail(file) + line[..count]
  {
    var text := Written(line, count);
    SplitOfPieces(file, text, "\n");
    if Complete(line, count) {
      assert Tail(file) + text == (Tail(file) + line) + "\n";
      BreakAtEnd(Tail(file) + line);
    } else {
      assert text == line[..count];
      NoBreak(Tail(file) + text);
      assert CompleteLines(file) + [] == CompleteLines(file);
    }
  }

  lemma {:induction false} TailHasNoBreak(file: string)
    ensures '\n' !in Tail(file)
    decreases |file|
  {
    FirstFromIs(file, "\n", 0);
    if IndexOf(file, "\n") < 0 {
      forall i | 0 <= i < |file| ensures file[i] != '\n' {
        assert !At(file, "\n", i);
        assert file[i..i + 1] == [file[i]];
      }
    } else {
      TailHasNoBreak(file[IndexOf(file, "\n") + 1..]);
    }
  }

  // ----------------------------------------------------------------------------------- steps

  /** The outbox file and the manifests by name, waiting or processed. */
  datatype State = State(outbox: string, inbox: map<string, string>, processed: map<string, string>)

  /** A manifest arrives; one is attempted, with `count` characters of its line written and the rename
      done or not; something else is appended. A crash is an attempt that stops and is not followed up. */
  datatype Step = Arrive(name: string, body: string)
                | Attempt(name: string, time: int, count: nat, renamed: bool)
                | Other(line: string, otherCount: nat)

  function Next(encode: Encoder, s: State, step: Step): State {
    match step
    case Arrive(name, body) => if name in s.inbox then s else s.(inbox := s.inbox[name := body])
    case Other(line, count) => if OneLine(line) then s.(outbox := s.outbox + Written(line, count)) else s
    case Attempt(name, time, count, renamed) =>
      if name !in s.inbox || encode(s.inbox[name], time).None? then s
      else
        var line := encode(s.inbox[name], time).value;
        var after := s.(outbox := s.outbox + Written(line, count));
        if Complete(line, count) && renamed then Move(after, name) else after
  }

  /** `fs::rename` into the processed directory: replaces a file of the same name. */
  function Move(s: State, name: string): State
    requires name in s.inbox
  {
    State(s.outbox, s.inbox - {name}, s.processed[name := s.inbox[name]])
  }

  function Run(encode: Encoder, s: State, steps: seq<Step>): State {
    if steps == [] then s else Next(encode, Run(encode, s, steps[..|steps| - 1]), steps[|steps| - 1])
  }

  // ------------------------------------------------------------------------- recorded first

  predicate EndsWith(s: string, end: string) {
    |end| <= |s| && s[|s| - |end|..] == end
  }

  ghost predicate EventAt(encode: Encoder, body: string, line: string, time: int) {
    encode(body, time).Some? && EndsWith(line, encode(body, time).value)
  }

  /** Some line of the outbox ends with the manifest's event. */
  ghost predicate Recorded(encode: Encoder, outbox: string, body: string) {
    exists i, time :: 0 <= i < |CompleteLines(outbox)| && EventAt(encode, body, CompleteLines(outbox)[i], time)
  }

  ghost predicate AllRecorded(encode: Encoder, s: State) {
    forall name :: name in s.processed ==> Recorded(encode, s.outbox, s.processed[name])
  }

  ghost predicate OwnLine(encode: Encoder, outbox: string, body: string) {
    exists time :: encode(body, time).Some? && encode(body, time).value in CompleteLines(outbox)
  }

  ghost predicate AllHaveOwnLine(encode: Encoder, s: State) {
    forall name :: name in s.processed ==> OwnLine(encode, s.outbox, s.processed[name])
  }

  lemma LinesStay(encode: Encoder, file: string, line: string, count: nat, body: string)
    requires '\n' !in line
    ensures Recorded(encode, file, body) ==> Recorded(encode, file + Written(line, count), body)
    ensures OwnLine(encode, file, body) ==> OwnLine(encode, file + Written(line, count), body)
  {
    var more := file + Written(line, count);
    TailHasNoBreak(file);
    AppendLine(file, line, count);
    assert |CompleteLines(file)| <= |CompleteLines(more)| && forall i :: 0 <= i < |CompleteLines(file)| ==>
        CompleteLines(more)[i] == CompleteLines(file)[i];
    if Recorded(encode, file, body) {
      var i, time :| 0 <= i < |CompleteLines(file)| && EventAt(encode, body, CompleteLines(file)[i], time);
      assert EventAt(encode, body, CompleteLines(more)[i], time);
    }
    if OwnLine(encode, file, body) {
      var time :| encode(body, time).Some? && encode(body, time).value in CompleteLines(file);
      var i :| 0 <= i < |CompleteLines(file)| && CompleteLines(file)[i] == encode(body, time).value;
      assert CompleteLines(more)[i] == encode(body, time).value;
    }
  }

  lemma AppendRecords(encode: Encoder, file: string, body: string, time: int, count: nat)
    requires Encodes(encode) && encode(body, time).Some? && Complete(encode(body, time).value, count)
    ensures Recorded(encode, file + Written(encode(body, time).value, count), body)
    ensures Tail(file) == "" ==> OwnLine(encode, file + Written(encode(body, time).value, count), body)
  {
    var line := encode(body, time).value;
    var more := file + Written(line, count);
    TailHasNoBreak(file);
    AppendLine(file, line, count);
    var last := |CompleteLines(file)|;
    assert CompleteLines(more)[last] == Tail(file) + line;
    assert EndsWith(Tail(file) + line, line);
    assert EventAt(encode, body, CompleteLines(more)[last], time);
    if Tail(file) == "" {
      assert CompleteLines(more)[last] == line;
    }
  }

  lemma StepRecords(encode: Encoder, s: State, step: Step)
    requires Encodes(encode) && AllRecorded(encode, s)
    ensures AllRecorded(encode, Next(encode, s, step))
  {
    var t := Next(encode, s, step);
    forall name | name in t.processed ensures Recorded(encode, t.outbox, t.processed[name]) {
      match step {
        case Arrive(_, _) =>
        case Other(line, count) =>
          if OneLine(line) { LinesStay(encode, s.outbox, line, count, t.processed[name]); }
        case Attempt(moved, time, count, renamed) =>
          if moved in s.inbox && encode(s.inbox[moved], time).Some? {
            var line := encode(s.inbox[moved], time).value;
            LinesStay(encode, s.outbox, line, count, t.processed[name]);
            if Complete(line, count) { AppendRecords(encode, s.outbox, s.inbox[moved], time, count); }
          }
      }
    }
  }

  /** In every run, with any faults: a processed manifest's event ends a line of the outbox. */
  lemma {:induction false} ProcessedIsRecorded(encode: Encoder, s: State, steps: seq<Step>)
    requires Encodes(encode) && AllRecorded(encode, s)
    ensures AllRecorded(encode, Run(encode, s, steps))
  {
    if steps != [] {
      ProcessedIsRecorded(encode, s, steps[..|steps| - 1]);
      StepRecords(encode, Run(encode, s, steps[..|steps| - 1]), steps[|steps| - 1]);
    }
  }

  // ------------------------------------------------------------------------- a line of its own

  /** The attempt moves its manifest after writing to a file whose last line had been left open. */
  predicate OnOpenLine(encode: Encoder, s: State, step: Step) {
    && step.Attempt? && step.renamed && step.name in s.inbox && encode(s.inbox[step.name], step.time).Some?
    && Complete(encode(s.inbox[step.name], step.time).value, step.count)
    && Tail(s.outbox) != ""
  }

  /** Such a move does harm unless an earlier attempt has already given the manifest a line of its own. */
  ghost predicate LosesALine(encode: Encoder, s: State, step: Step) {
    OnOpenLine(encode, s, step) && !OwnLine(encode, s.outbox, s.inbox[step.name])
  }

  /** The state after the first `n` steps of a run. */
  function After(encode: Encoder, s: State, steps: seq<Step>, n: nat): State
    requires n <= |steps|
  {
    Run(encode, s, steps[..n])
  }

  ghost predicate NeverLosesALine(encode: Encoder, s: State, steps: seq<Step>) {
    forall n :: 0 <= n < |steps| ==> !LosesALine(encode, After(encode, s, steps, n), steps[n])
  }

  ghost predicate AlwaysOwnLines(encode: Encoder, s: State, steps: seq<Step>) {
    forall n :: 0 <= n <= |steps| ==> AllHaveOwnLine(encode, After(encode, s, steps, n))
  }

  /** No event ends with another one. JSON objects obey this: where the shorter one would begin, the longer
      one is either inside a string, which then never closes, or at a brace that its last one does not match. */
  ghost predicate SuffixFree(encode: Encoder) {
    forall body, time, other, otherTime ::
      encode(body, time).Some? && encode(other, otherTime).Some?
      && EndsWith(encode(body, time).value, encode(other, otherTime).value)
      ==> encode(body, time) == encode(other, otherTime)
  }

  lemma StepGivesOwnLine(encode: Encoder, s: State, step: Step)
    requires Encodes(encode) && AllHaveOwnLine(encode, s) && !LosesALine(encode, s, step)
    ensures AllHaveOwnLine(encode, Next(encode, s, step))
  {
    var t := Next(encode, s, step);
    forall name | name in t.processed ensures OwnLine(encode, t.outbox, t.processed[name]) {
      match step {
        case Arrive(_, _) =>
        case Other(line, count) =>
          if OneLine(line) { LinesStay(encode, s.outbox, line, count, t.processed[name]); }
        case Attempt(moved, time, count, renamed) =>
          if moved in s.inbox && encode(s.inbox[moved], time).Some? {
            var line := encode(s.inbox[moved], time).value;
            LinesStay(encode, s.outbox, line, count, t.processed[name]);
            if Complete(line, count) { AppendRecords(encode, s.outbox, s.inbox[moved], time, count); }
          }
      }
    }
  }

  lemma StepTakesOwnLine(encode: Encoder, s: State, step: Step)
    requires Encodes(encode) && SuffixFree(encode) && LosesALine(encode, s, step)
    ensures !OwnLine(encode, Next(encode, s, step).outbox, s.inbox[step.name])
  {
    var body := s.inbox[step.name];
    var line := encode(body, step.time).value;
    var t := Next(encode, s, step);
    OpenLineSwallowsEvent(encode, s, step);
    assert EndsWith(Tail(s.outbox) + line, line);
    forall time | encode(body, time).Some? ensures encode(body, time).value !in CompleteLines(t.outbox) {
      assert encode(body, time).value !in CompleteLines(s.outbox);
      assert encode(body, time).value != Tail(s.outbox) + line;
    }
  }

  /** One step keeps every processed manifest its own line exactly when it does not move one, after writing
      onto an open line, that has none yet. */
  lemma StepKeepsOwnLines(encode: Encoder, s: State, step: Step)
    requires Encodes(encode) && AllHaveOwnLine(encode, s)
    ensures !LosesALine(encode, s, step) ==> AllHaveOwnLine(encode, Next(encode, s, step))
    ensures SuffixFree(encode) && AllHaveOwnLine(encode, Next(encode, s, step)) ==> !LosesALine(encode, s, step)
  {
    if !LosesALine(encode, s, step) {
      StepGivesOwnLine(encode, s, step);
    } else if SuffixFree(encode) {
      StepTakesOwnLine(encode, s, step);
      OpenLineSwallowsEvent(encode, s, step);
      assert step.name in Next(encode, s, step).processed;
    }
  }

  lemma AfterPrefix(encode: Encoder, s: State, steps: seq<Step>, n: nat, k: nat)
    requires k <= n <= |steps|
    ensures After(encode, s, steps[..n], k) == After(encode, s, steps, k)
  {
    assert steps[..n][..k] == steps[..k];
  }

  lemma NeverSnoc(encode: Encoder, s: State, steps: seq<Step>, n: nat)
    requires |steps| == n + 1
    ensures NeverLosesALine(encode, s, steps) <==>
              NeverLosesALine(encode, s, steps[..n]) && !LosesALine(encode, After(encode, s, steps, n), steps[n])
  {
    forall k: nat | k < n ensures After(encode, s, steps[..n], k) == After(encode, s, steps, k) {
      AfterPrefix(encode, s, steps, n, k);
    }
  }

  lemma AlwaysSnoc(encode: Encoder, s: State, steps: seq<Step>, n: nat)
    requires |steps| == n + 1
    ensures AlwaysOwnLines(encode, s, steps) <==>
              AlwaysOwnLines(encode, s, steps[..n]) && AllHaveOwnLine(encode, After(encode, s, steps, n + 1))
  {
    forall k: nat | k <= n ensures After(encode, s, steps[..n], k) == After(encode, s, steps, k) {
      AfterPrefix(encode, s, steps, n, k);
    }
  }

  /** Throughout a run every processed manifest has a line to itself, exactly when no step of it is such a
      move; only the converse needs the law of the encoder. */
  lemma {:induction false} ProcessedHasOwnLine(encode: Encoder, s: State, steps: seq<Step>)
    requires Encodes(encode) && AllHaveOwnLine(encode, s)
    ensures NeverLosesALine(encode, s, steps) ==> AlwaysOwnLines(encode, s, steps)
    ensures SuffixFree(encode) && AlwaysOwnLines(encode, s, steps) ==> NeverLosesALine(encode, s, steps)
  {
    if steps == [] {
      assert forall n :: 0 <= n <= 0 ==> After(encode, s, steps, n) == s;
    } else {
      var n := |steps| - 1;
      ProcessedHasOwnLine(encode, s, steps[..n]);
      NeverSnoc(encode, s, steps, n);
      AlwaysSnoc(encode, s, steps, n);
      if AlwaysOwnLines(encode, s, steps[..n]) {
        AfterPrefix(encode, s, steps, n, n);
        assert AllHaveOwnLine(encode, After(encode, s, steps, n));
        assert steps[..n + 1] == steps;
        StepKeepsOwnLines(encode, After(encode, s, steps, n), steps[n]);
      }
    }
  }

  /** What an append on an open line does: the event joins the broken line and gets none of its own. */
  lemma OpenLineSwallowsEvent(encode: Encoder, s: State, step: Step)
    requires Encodes(encode) && OnOpenLine(encode, s, step)
    ensures var line := encode(s.inbox[step.name], step.time).value;
            var t := Next(encode, s, step);
            && step.name in t.processed && step.name !in t.inbox
            && CompleteLines(t.outbox) == CompleteLines(s.outbox) + [Tail(s.outbox) + line]
            && (line !in CompleteLines(s.outbox) ==> line !in CompleteLines(t.outbox))
  {
    var line := encode(s.inbox[step.name], step.time).value;
    TailHasNoBreak(s.outbox);
    AppendLine(s.outbox, line, step.count);
    assert |Tail(s.outbox) + line| > |line|;
  }

  /** A run in which that happens: one write breaks off after the first character, the next is whole. */
  lemma TornWriteLosesALine(encode: Encoder, name: string, body: string, time: int)
    requires Encodes(encode) && (forall t: int :: encode(body, t) == encode(body, time)) && encode(body, time).Some?
    ensures var line := encode(body, time).value;
            var steps := [Arrive(name, body), Attempt(name, time, 1, false), Attempt(name, time, |line| + 1, true)];
            var t := Run(encode, State("", map[], map[]), steps);
            && name in t.processed && t.processed[name] == body
            && CompleteLines(t.outbox) == [line[..1] + line] && !AllHaveOwnLine(encode, t)
  {
    var line := encode(body, time).value;
    var steps := [Arrive(name, body), Attempt(name, time, 1, false), Attempt(name, time, |line| + 1, true)];
    var s0 := State("", map[], map[]);
    var s1 := s0.(inbox := map[name := body]);
    assert Run(encode, s0, steps[..0]) == s0;
    assert steps[..1][..0] == steps[..0] && steps[..2][..1] == steps[..1] && steps[..3][..2] == steps[..2]
        && steps[..3] == steps;
    assert Run(encode, s0, steps[..1]) == s1;
    NoBreak("");
    AppendLine("", line, 1);
    var s2 := s1.(outbox := "" + Written(line, 1));
    assert Run(encode, s0, steps[..2]) == s2;
    OpenLineSwallowsEvent(encode, s2, steps[2]);
    var t := Run(encode, s0, steps);
    assert t == Next(encode, s2, steps[2]);
    assert CompleteLines(t.outbox) == [] + [line[..1] + line];
    assert line !in CompleteLines(t.outbox);
    assert !OwnLine(encode, t.outbox, body);
  }

  // ------------------------------------------------------------------------- nothing is lost

  ghost predicate Kept(s: State, name: string, body: string) {
    (name in s.inbox && s.inbox[name] == body) || (name in s.processed && s.processed[name] == body)
  }

  ghost predicate KeepsAll(s: State, t: State) {
    forall name, body :: Kept(s, name, body) ==> Kept(t, name, body)
  }

  /** The attempt renames onto a processed manifest of the same name with other contents. */
  predicate Clobbers(encode: Encoder, s: State, step: Step) {
    && step.Attempt? && step.renamed && step.name in s.inbox && encode(s.inbox[step.name], step.time).Some?
    && Complete(encode(s.inbox[step.name], step.time).value, step.count)
    && step.name in s.processed && s.processed[step.name] != s.inbox[step.name]
  }

  /** One step loses a manifest exactly when it clobbers one. */
  lemma StepKeepsManifests(encode: Encoder, s: State, step: Step)
    ensures KeepsAll(s, Next(encode, s, step)) <==> !Clobbers(encode, s, step)
  {
    var t := Next(encode, s, step);
    if Clobbers(encode, s, step) {
      assert Kept(s, step.name, s.processed[step.name]) && !Kept(t, step.name, s.processed[step.name]);
    }
  }

  predicate ClobbersAt(encode: Encoder, s: State, steps: seq<Step>, n: nat)
    requires n < |steps|
  {
    Clobbers(encode, After(encode, s, steps, n), steps[n])
  }

  ghost predicate KeepsAt(encode: Encoder, s: State, steps: seq<Step>, n: nat)
    requires n < |steps|
  {
    KeepsAll(After(encode, s, steps, n), After(encode, s, steps, n + 1))
  }

  ghost predicate NeverClobbers(encode: Encoder, s: State, steps: seq<Step>) {
    forall n :: 0 <= n < |steps| ==> !ClobbersAt(encode, s, steps, n)
  }

  ghost predicate AlwaysKeeps(encode: Encoder, s: State, steps: seq<Step>) {
    forall n :: 0 <= n < |steps| ==> KeepsAt(encode, s, steps, n)
  }

  lemma AfterNext(encode: Encoder, s: State, steps: seq<Step>, n: nat)
    requires n < |steps|
    ensures After(encode, s, steps, n + 1) == Next(encode, After(encode, s, steps, n), steps[n])
  {
    assert steps[..n + 1][..n] == steps[..n];
  }

  lemma {:induction false} KeptUntil(encode: Encoder, s: State, steps: seq<Step>, n: nat)
    requires n <= |steps| && AlwaysKeeps(encode, s, steps)
    ensures KeepsAll(s, After(encode, s, steps, n))
  {
    if n == 0 {
      assert steps[..0] == [];
    } else {
      KeptUntil(encode, s, steps, n - 1);
      assert KeepsAt(encode, s, steps, n - 1);
    }
  }

  lemma KeepsAtExactly(encode: Encoder, s: State, steps: seq<Step>, n: nat)
    requires n < |steps|
    ensures KeepsAt(encode, s, steps, n) <==> !ClobbersAt(encode, s, steps, n)
  {
    AfterNext(encode, s, steps, n);
    StepKeepsManifests(encode, After(encode, s, steps, n), steps[n]);
  }

  /** In every run, whatever fails, every manifest stays in the inbox or among the processed ones at each step,
      exactly when no newer one of the same name is renamed onto it; and so until the end. */
  lemma ManifestsAreKept(encode: Encoder, s: State, steps: seq<Step>)
    ensures AlwaysKeeps(encode, s, steps) <==> NeverClobbers(encode, s, steps)
    ensures NeverClobbers(encode, s, steps) ==> KeepsAll(s, Run(encode, s, steps))
  {
    forall n: nat | n < |steps| ensures KeepsAt(encode, s, steps, n) <==> !ClobbersAt(encode, s, steps, n) {
      KeepsAtExactly(encode, s, steps, n);
    }
    if AlwaysKeeps(encode, s, steps) {
      KeptUntil(encode, s, steps, |steps|);
      assert steps[..|steps|] == steps;
    }
  }

  /** Names are never lost, even then. */
  lemma {:induction false} NamesAreKept(encode: Encoder, s: State, steps: seq<Step>)
    ensures var t := Run(encode, s, steps); s.inbox.Keys + s.processed.Keys <= t.inbox.Keys + t.processed.Keys
  {
    if steps != [] {
      NamesAreKept(encode, s, steps[..|steps| - 1]);
    }
  }

  // ----------------------------------------------------------------------------- the daemon

  /** What happens to one attempt: the clock, how much of the line gets written, whether the rename works. */
  datatype Fate = Fate(time: int, count: nat, renamed: bool)

  /** A name that is nothing but the extension has none, as `Path::extension` sees it. */
  predicate IsManifest(name: string) {
    EndsWith(name, ".json") && name != ".json"
  }

  function Manifests(entries: seq<string>): seq<string> {
    if entries == [] then []
    else (if IsManifest(entries[0]) then [entries[0]] else []) + Manifests(entries[1..])
  }

  function FirstThree(names: seq<string>): seq<string> {
    if |names| <= 3 then names else names[..3]
  }

  /** The attempts of a pass that gets as far as `|fates|` manifests before it ends or the process stops. */
  function Attempts(names: seq<string>, fates: seq<Fate>): seq<Step> {
    var n := if |names| < |fates| then |names| else |fates|;
    seq(n, i requires 0 <= i < n => Attempt(names[i], fates[i].time, fates[i].count, fates[i].renamed))
  }

  /** What one attempt does. A manifest that is gone or invalid changes nothing. Otherwise as much of its line as
      gets written is appended; only after all of it has been may the manifest be moved, as it is, and then it is
      reported. */
  ghost predicate Handles(encode: Encoder, s: State, t: State, name: string, fate: Fate, reported: bool) {
    if name !in s.inbox || encode(s.inbox[name], fate.time).None? then t == s && !reported
    else
      var text := encode(s.inbox[name], fate.time).value + "\n";
      && (reported <==> fate.count >= |text| && fate.renamed)
      && t.outbox == s.outbox + (if fate.count < |text| then text[..fate.count] else text)
      && t.inbox == (if reported then s.inbox - {name} else s.inbox)
      && t.processed == if reported then s.processed[name := s.inbox[name]] else s.processed
  }

  lemma NextHandles(encode: Encoder, s: State, name: string, fate: Fate)
    ensures var t := Next(encode, s, Attempt(name, fate.time, fate.count, fate.renamed));
            Handles(encode, s, t, name, fate, name in s.inbox && name !in t.inbox)
  {
  }

  /** The attempt finds a valid manifest and nothing fails. */
  ghost predicate Succeeds(encode: Encoder, s: State, name: string, fate: Fate) {
    && name in s.inbox && encode(s.inbox[name], fate.time).Some?
    && fate.count > |encode(s.inbox[name], fate.time).value| && fate.renamed
  }

  /** These manifests have left the inbox and are processed, as they were; nothing else has changed there. */
  ghost predicate MovedAll(s: State, t: State, names: seq<string>) {
    && (forall name :: name in t.inbox <==> name in s.inbox && name !in names)
    && (forall name :: name in t.inbox ==> t.inbox[name] == s.inbox[name])
    && (forall name :: name in names ==>
         name in s.inbox && name in t.processed && t.processed[name] == s.inbox[name])
    && (forall name :: name in s.processed && name !in names ==>
         name in t.processed && t.processed[name] == s.processed[name])
  }

  lemma MovedOneMore(encode: Encoder, s: State, t: State, names: seq<string>, name: string, fate: Fate)
    requires MovedAll(s, t, names) && name !in names && Succeeds(encode, s, name, fate)
    ensures MovedAll(s, Next(encode, t, Attempt(name, fate.time, fate.count, fate.renamed)), names + [name])
  {
    assert name in t.inbox && t.inbox[name] == s.inbox[name];
    var u := Next(encode, t, Attempt(name, fate.time, fate.count, fate.renamed));
    NextHandles(encode, t, name, fate);
    assert forall other :: other in names + [name] <==> other in names || other == name;
  }

  lemma AttemptsSnoc(encode: Encoder, s: State, names: seq<string>, fates: seq<Fate>, m: nat)
    requires |names| == |fates| == m + 1
    ensures Run(encode, s, Attempts(names, fates)) ==
            Next(encode, Run(encode, s, Attempts(names[..m], fates[..m])),
                 Attempt(names[m], fates[m].time, fates[m].count, fates[m].renamed))
  {
    assert Attempts(names, fates)[..m] == Attempts(names[..m], fates[..m]);
  }

  /** A pass in which nothing fails moves every manifest it attempts, as it is, and no other. */
  lemma {:induction false} GoodPassMoves(encode: Encoder, s: State, names: seq<string>, fates: seq<Fate>)
    requires Distinct(names) && |fates| == |names|
    requires forall i :: 0 <= i < |names| ==> Succeeds(encode, s, names[i], fates[i])
    ensures MovedAll(s, Run(encode, s, Attempts(names, fates)), names)
  {
    if names != [] {
      var m := |names| - 1;
      GoodPassMoves(encode, s, names[..m], fates[..m]);
      AttemptsSnoc(encode, s, names, fates, m);
      assert names == names[..m] + [names[m]];
      MovedOneMore(encode, s, Run(encode, s, Attempts(names[..m], fates[..m])), names[..m], names[m], fates[m]);
    }
  }

  class Daemon {
    const encode: Encoder
    var outbox: string
    var inbox: map<string, string>
    var processed: map<string, string>

    constructor (encode: Encoder)
      ensures this.encode == encode && Now() == State("", map[], map[])
    {
      this.encode := encode;
      outbox, inbox, processed := "", map[], map[];
    }

    function Now(): State
      reads this
    {
      State(outbox, inbox, processed)
    }

    /** `append_event`: true when the line and its newline are in the file. */
    method AppendEvent(line: string, count: nat) returns (ok: bool)
      modifies this`outbox
      ensures outbox == old(outbox) + Written(line, count) && (ok <==> Complete(line, count))
      ensures OneLine(line) && ok ==>
                CompleteLines(outbox) == CompleteLines(old(outbox)) + [Tail(old(outbox)) + line] && Tail(outbox) == ""
      ensures OneLine(line) && !ok ==>
                CompleteLines(outbox) == CompleteLines(old(outbox)) && Tail(outbox) == Tail(old(outbox)) + line[..count]
    {
      if OneLine(line) {
        TailHasNoBreak(outbox);
        AppendLine(outbox, line, count);
      }
      outbox := outbox + Written(line, count);
      ok := Complete(line, count);
    }

    /** `mark_transcript_processed` */
    method MarkTranscriptProcessed(name: string, renamed: bool) returns (ok: bool)
      requires name in inbox
      modifies this`inbox, this`processed
      ensures ok == renamed && Now() == if renamed then Move(old(Now()), name) else old(Now())
    {
      if renamed {
        processed := processed[name := inbox[name]];
        inbox := inbox - {name};
      }
      return renamed;
    }

    /** The body of the loop for one manifest: record first, then rename. */
    method ProcessTranscript(name: string, fate: Fate) returns (reported: bool)
      modifies this
      ensures Now() == Next(encode, old(Now()), Attempt(name, fate.time, fate.count, fate.renamed))
      ensures reported <==> name in old(inbox) && name !in inbox
      ensures Handles(encode, old(Now()), Now(), name, fate, reported)
      ensures inbox.Keys == old(inbox.Keys) - if reported then {name} else {}
    {
      NextHandles(encode, Now(), name, fate);
      if name !in inbox {
        return false;
      }
      var event := encode(inbox[name], fate.time);
      if event.None? {
        return false;
      }
      var recorded := AppendEvent(event.value, fate.count);
      if recorded {
        reported := MarkTranscriptProcessed(name, fate.renamed);
      } else {
        reported := false;
      }
    }

    /** The loop over the first manifests; it ends early when the process stops. */
    method TakeEach(names: seq<string>, fates: seq<Fate>) returns (reported: nat)
      modifies this
      ensures Now() == Run(encode, old(Now()), Attempts(names, fates))
      ensures reported + |inbox.Keys| == |old(inbox.Keys)|
    {
      reported := 0;
      ghost var before := Now();
      ghost var steps := Attempts(names, fates);
      for i := 0 to |Attempts(names, fates)|
        invariant Now() == Run(encode, before, steps[..i]) && reported + |inbox.Keys| == |before.inbox.Keys|
      {
        assert steps[..i + 1][..i] == steps[..i];
        var done := ProcessTranscript(names[i], fates[i]);
        if done {
          reported := reported + 1;
        }
      }
      assert steps[..|steps|] == steps;
    }

    /** `process_transcripts`, given the directory listing and the fate of each attempt: a run of at
      most three attempts on the first manifests by name. */
    method ProcessTranscripts(entries: seq<string>, fates: seq<Fate>) returns (reported: nat, ghost names: seq<string>)
      requires Distinct(entries) && forall name :: name in entries <==> name in inbox
      modifies this
      ensures names == FirstThree(Sort(Manifests(entries), AtMost)) && FirstOf(entries, names)
      ensures Now() == Run(encode, old(Now()), Attempts(names, fates))
      ensures reported + |inbox.Keys| == |old(inbox.Keys)|
    {
      var manifests := Sort(Manifests(entries), AtMost);
      FirstByName(entries);
      names := FirstThree(manifests);
      reported := TakeEach(FirstThree(manifests), fates);
    }
  }

  /** At most three manifests, in name order; whatever is left out comes after them. */
  ghost predicate FirstOf(entries: seq<string>, names: seq<string>) {
    && Ordered(names, AtMost) && |names| <= 3
    && (forall name :: name in names ==> name in entries && IsManifest(name))
    && (forall name, other :: name in names && other in entries && IsManifest(other) && other !in names ==>
         AtMost(name, other))
    && (|names| < 3 ==> forall name :: name in entries && IsManifest(name) ==> name in names)
  }

  lemma {:induction false} ManifestsAre(entries: seq<string>)
    requires Distinct(entries)
    ensures Distinct(Manifests(entries)) && forall name :: name in Manifests(entries) <==>
        name in entries && IsManifest(name)
  {
    if entries != [] {
      assert entries == [entries[0]] + entries[1..];
      assert Distinct(entries[1..]) && entries[0] !in entries[1..];
      ManifestsAre(entries[1..]);
    }
  }

  lemma FirstByName(entries: seq<string>)
    requires Distinct(entries)
    ensures FirstOf(entries, FirstThree(Sort(Manifests(entries), AtMost)))
  {
    var manifests := Manifests(entries);
    var sorted := Sort(manifests, AtMost);
    var names := FirstThree(sorted);
    ManifestsAre(entries);
    AtMostIsTotal();
    SortOrdered(manifests, AtMost);
    SortMembers(manifests, AtMost);
    assert forall i :: 0 <= i < |names| ==> names[i] == sorted[i];
    forall name, other | name in names && other in entries && IsManifest(other) && other !in names
      ensures AtMost(name, other)
    {
      var i :| 0 <= i < |names| && names[i] == name;
      var j :| 0 <= j < |sorted| && sorted[j] == other;
      assert j >= |names|;
    }
  }
}
