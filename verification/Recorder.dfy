/** chronicle/src/recorder/manager.rs: which captured frames are stored, over any number of batches. */
module Recorder {
  import opened Sequences
  import opened Wrappers

  /** What the recorder asks of its surroundings about a frame: the display it comes from, whether it is
      private, the fingerprint of its pixels and text (none when reading the text fails), and whether
      storing it succeeds. */
  datatype Rules<!Fr, F> = Rules(display: Fr -> nat, excluded: Fr -> bool, read: Fr -> Option<F>, stores: Fr -> bool)

  type Fingerprints<F> = map<nat, F>

  datatype Report<Fr, F> = Report(observed: nat, filtered: nat, duplicates: nat, persisted: seq<Fr>, latest: Option<F>)

  /** How far a run has come; a failed one stops, but keeps the fingerprints it has. */
  datatype Progress<Fr, F> = Progress(state: Fingerprints<F>, report: Report<Fr, F>, failed: bool)

  function Get<F>(state: Fingerprints<F>, d: nat): Option<F> {
    if d in state then Some(state[d]) else None
  }

  /** One pull from the source; `None` is an error of the source itself. */
  function Take<Fr, F(==)>(rules: Rules<Fr, F>, p: Progress<Fr, F>, item: Option<Fr>): Progress<Fr, F> {
    if item.None? then p.(failed := true)
    else
      var frame := item.value;
      var seen := p.report.(observed := p.report.observed + 1);
      if rules.excluded(frame) then p.(report := seen.(filtered := seen.filtered + 1))
      else
        match rules.read(frame)
        case None => p.(report := seen, failed := true)
        case Some(mark) =>
          var d, latest := rules.display(frame), seen.(latest := Some(mark));
          if Get(p.state, d) == Some(mark) then p.(report := latest.(duplicates := latest.duplicates + 1))
          else if rules.stores(frame) then
            Progress(p.state[d := mark], latest.(persisted := latest.persisted + [frame]), false)
          else Progress(p.state[d := mark], latest, true)
  }

  function Start<Fr, F>(state: Fingerprints<F>): Progress<Fr, F> {
    Progress(state, Report(0, 0, 0, [], None), false)
  }

  /** The run over all items, from the front; nothing is taken after a failure. */
  function Run<Fr, F(==)>(rules: Rules<Fr, F>, state: Fingerprints<F>, items: seq<Option<Fr>>): Progress<Fr, F> {
    if items == [] then Start(state)
    else
      var p := Run(rules, state, items[..|items| - 1]);
      if p.failed then p else Take(rules, p, items[|items| - 1])
  }

  // --------------------------------------------------------------------------------- counting

  /** Every observed frame is filtered, a duplicate or persisted, except the one a run fails on. */
  lemma {:induction false} FramesAreAccountedFor<Fr, F>(rules: Rules<Fr, F>, state: Fingerprints<F>,
          items: seq<Option<Fr>>)
    ensures var p := Run(rules, state, items);
            && p.report.observed <= |items| && (!p.failed ==> p.report.observed == |items|)
            && p.report.observed == p.report.filtered + p.report.duplicates + |p.report.persisted|
                 + Lost(rules, state, items)
    ensures forall x :: x in Run(rules, state, items).report.persisted ==> !rules.excluded(x)
  {
    if items != [] {
      FramesAreAccountedFor(rules, state, items[..|items| - 1]);
    }
  }

  /** One when the run stopped on a frame that had been counted. */
  function Lost<Fr, F(==)>(rules: Rules<Fr, F>, state: Fingerprints<F>, items: seq<Option<Fr>>): nat {
    if items == [] then 0
    else
      var before := items[..|items| - 1];
      if Run(rules, state, before).failed then Lost(rules, state, before)
      else if Run(rules, state, items).failed && items[|items| - 1].Some? then 1 else 0
  }

  // --------------------------------------------------- which frames are stored, without the state

  /** The fingerprint of the last frame of display `d` that could be read, or the one carried in. */
  function Last<Fr, F>(rules: Rules<Fr, F>, state: Fingerprints<F>, items: seq<Option<Fr>>, d: nat): Option<F> {
    if items == [] then Get(state, d)
    else
      var item := items[|items| - 1];
      if item.Some? && Shown(rules, item.value) && rules.display(item.value) == d then rules.read(item.value)
      else Last(rules, state, items[..|items| - 1], d)
  }

  /** Not private, and readable. */
  predicate Shown<Fr, F>(rules: Rules<Fr, F>, frame: Fr) {
    !rules.excluded(frame) && rules.read(frame).Some?
  }

  predicate IsNew<Fr, F(==)>(rules: Rules<Fr, F>, state: Fingerprints<F>, before: seq<Option<Fr>>, frame: Fr) {
    Shown(rules, frame) && Last(rules, state, before, rules.display(frame)) != rules.read(frame)
  }

  /** A frame is stored when it is not private and differs from the one before it on its display. */
  function Stored<Fr, F(==)>(rules: Rules<Fr, F>, state: Fingerprints<F>, items: seq<Option<Fr>>): seq<Fr> {
    if items == [] then []
    else
      var before, item := items[..|items| - 1], items[|items| - 1];
      Stored(rules, state, before)
      + if item.Some? && IsNew(rules, state, before, item.value) then [item.value] else []
  }

  /** The source fails, or a frame that is not private cannot be read, or a new one cannot be stored. */
  predicate Fails<Fr, F(==)>(rules: Rules<Fr, F>, state: Fingerprints<F>, before: seq<Option<Fr>>, item: Option<Fr>) {
    item.None? || (!rules.excluded(item.value) && rules.read(item.value).None?)
    || (IsNew(rules, state, before, item.value) && !rules.stores(item.value))
  }

  /** How many items there are before the first that fails. */
  function Handled<Fr, F(==)>(rules: Rules<Fr, F>, state: Fingerprints<F>, items: seq<Option<Fr>>): (n: nat)
    ensures n <= |items|
  {
    if items == [] then 0
    else
      var before := items[..|items| - 1];
      var n := Handled(rules, state, before);
      if n < |before| || Fails(rules, state, before, items[|items| - 1]) then n else |items|
  }

  /** What the run has looked at: the item it fails on, too. */
  function Reached<Fr, F(==)>(rules: Rules<Fr, F>, state: Fingerprints<F>, items: seq<Option<Fr>>): (n: nat)
    ensures n <= |items|
  {
    var n := Handled(rules, state, items);
    if n < |items| then n + 1 else n
  }

  ghost predicate Knows<Fr, F>(rules: Rules<Fr, F>, state: Fingerprints<F>, items: seq<Option<Fr>>,
          now: Fingerprints<F>)
  {
    forall d: nat :: Get(now, d) == Last(rules, state, items, d)
  }

  /** The recorder keeps one fingerprint a display, yet compares with the last frame shown: a run stores
      what is new before the first failure, and ends with the fingerprints of all it looked at. */
  lemma {:induction false} RunStores<Fr, F>(rules: Rules<Fr, F>, state: Fingerprints<F>, items: seq<Option<Fr>>)
    ensures Run(rules, state, items).failed <==> Handled(rules, state, items) < |items|
    ensures Run(rules, state, items).report.persisted == Stored(rules, state, items[..Handled(rules, state, items)])
    ensures Knows(rules, state, items[..Reached(rules, state, items)], Run(rules, state, items).state)
  {
    if items != [] {
      var before := items[..|items| - 1];
      RunStores(rules, state, before);
      if Handled(rules, state, before) < |before| {
        StaysFailed(rules, state, items);
      } else {
        assert before[..|before|] == before;
        StepStores(rules, state, items);
      }
    }
  }

  lemma StaysFailed<Fr, F>(rules: Rules<Fr, F>, state: Fingerprints<F>, items: seq<Option<Fr>>)
    requires items != [] && Handled(rules, state, items[..|items| - 1]) < |items| - 1
    ensures var before := items[..|items| - 1];
            && items[..Handled(rules, state, items)] == before[..Handled(rules, state, before)]
            && items[..Reached(rules, state, items)] == before[..Reached(rules, state, before)]
  {
  }

  /** One more item after a run without a failure. */
  lemma StepStores<Fr, F>(rules: Rules<Fr, F>, state: Fingerprints<F>, items: seq<Option<Fr>>)
    requires items != [] && !Run(rules, state, items[..|items| - 1]).failed
    requires var before := items[..|items| - 1];
             && Handled(rules, state, before) == |before|
             && Run(rules, state, before).report.persisted == Stored(rules, state, before)
             && Knows(rules, state, before, Run(rules, state, before).state)
    ensures Run(rules, state, items).failed <==> Handled(rules, state, items) < |items|
    ensures Run(rules, state, items).report.persisted == Stored(rules, state, items[..Handled(rules, state, items)])
    ensures Knows(rules, state, items[..Reached(rules, state, items)], Run(rules, state, items).state)
  {
    assert items[..|items|] == items;
    StepFails(rules, state, items);
    StepKnows(rules, state, items);
  }

  lemma StepFails<Fr, F>(rules: Rules<Fr, F>, state: Fingerprints<F>, items: seq<Option<Fr>>)
    requires items != [] && !Run(rules, state, items[..|items| - 1]).failed
    requires var before := items[..|items| - 1];
             && Run(rules, state, before).report.persisted == Stored(rules, state, before)
             && Knows(rules, state, before, Run(rules, state, before).state)
    ensures var before, p := items[..|items| - 1], Run(rules, state, items);
            && (p.failed <==> Fails(rules, state, before, items[|items| - 1]))
            && p.report.persisted == Stored(rules, state, if p.failed then before else items)
  {
    var before, item := items[..|items| - 1], items[|items| - 1];
    if item.Some? {
      var d := rules.display(item.value);
      assert Get(Run(rules, state, before).state, d) == Last(rules, state, before, d);
    }
    TakeStores(rules, state, before, Run(rules, state, before), item);
  }

  lemma TakeStores<Fr, F>(rules: Rules<Fr, F>, state: Fingerprints<F>, before: seq<Option<Fr>>, p: Progress<Fr, F>,
          item: Option<Fr>)
    requires !p.failed
    requires item.Some? ==>
               Get(p.state, rules.display(item.value)) == Last(rules, state, before, rules.display(item.value))
    ensures var q := Take(rules, p, item);
            && (q.failed <==> Fails(rules, state, before, item))
            && q.report.persisted == p.report.persisted
               + if !q.failed && item.Some? && IsNew(rules, state, before, item.value) then [item.value] else []
  {
    assert p.report.persisted + [] == p.report.persisted;
  }

  lemma StepKnows<Fr, F>(rules: Rules<Fr, F>, state: Fingerprints<F>, items: seq<Option<Fr>>)
    requires items != [] && !Run(rules, state, items[..|items| - 1]).failed
    requires Knows(rules, state, items[..|items| - 1], Run(rules, state, items[..|items| - 1]).state)
    ensures Knows(rules, state, items, Run(rules, state, items).state)
  {
    var before, item := items[..|items| - 1], items[|items| - 1];
    var p := Run(rules, state, before);
    assert items == before + [item];
    forall d: nat ensures Get(Take(rules, p, item).state, d) == Last(rules, state, items, d) {
      assert Get(p.state, d) == Last(rules, state, before, d);
      TakeGets(rules, p, item, d);
      LastSnoc(rules, state, before, item, d);
    }
  }

  lemma TakeGets<Fr, F>(rules: Rules<Fr, F>, p: Progress<Fr, F>, item: Option<Fr>, d: nat)
    requires !p.failed
    ensures Get(Take(rules, p, item).state, d) ==
            if From(rules, item, d) && Shown(rules, item.value) then rules.read(item.value) else Get(p.state, d)
  {
  }

  // -------------------------------------------------------------------------------- two batches

  function Joined<Fr, F>(first: Report<Fr, F>, second: Report<Fr, F>): Report<Fr, F> {
    Report(first.observed + second.observed, first.filtered + second.filtered, first.duplicates + second.duplicates,
           first.persisted + second.persisted, if second.latest.Some? then second.latest else first.latest)
  }

  lemma RunSnoc<Fr, F>(rules: Rules<Fr, F>, state: Fingerprints<F>, items: seq<Option<Fr>>, item: Option<Fr>)
    ensures var p := Run(rules, state, items); Run(rules, state, items + [item]) == if p.failed then p
        else Take(rules, p, item)
  {
    assert (items + [item])[..|items|] == items;
  }

  /** Recording in two batches, with the state carried over, is recording once. */
  lemma {:induction false} BatchesJoin<Fr, F>(rules: Rules<Fr, F>, state: Fingerprints<F>, first: seq<Option<Fr>>,
          second: seq<Option<Fr>>)
    requires !Run(rules, state, first).failed
    ensures var p := Run(rules, state, first);
            var q := Run(rules, p.state, second);
            Run(rules, state, first + second) == Progress(q.state, Joined(p.report, q.report), q.failed)
  {
    if second == [] {
      assert first + second == first;
      assert Run(rules, state, first).report.persisted + [] == Run(rules, state, first).report.persisted;
    } else {
      var n := |second| - 1;
      BatchesJoin(rules, state, first, second[..n]);
      RunSnoc(rules, state, first + second[..n], second[n]);
      assert first + second == (first + second[..n]) + [second[n]];
      var p := Run(rules, state, first);
      if !Run(rules, p.state, second[..n]).failed {
        TakeJoins(rules, p.report, Run(rules, p.state, second[..n]), second[n]);
      }
    }
  }

  lemma TakeJoins<Fr, F>(rules: Rules<Fr, F>, before: Report<Fr, F>, p: Progress<Fr, F>, item: Option<Fr>)
    requires !p.failed
    ensures var q := Take(rules, p, item);
            Take(rules, Progress(p.state, Joined(before, p.report), false), item)
              == Progress(q.state, Joined(before, q.report), q.failed)
  {
    if item.Some? && rules.read(item.value).Some? {
      assert before.persisted + (p.report.persisted + [item.value])
          == (before.persisted + p.report.persisted) + [item.value];
    }
  }

  // ------------------------------------------------------------------------------- one display

  predicate From<Fr, F>(rules: Rules<Fr, F>, item: Option<Fr>, d: nat) {
    item.Some? && rules.display(item.value) == d
  }

  function OnDisplay<Fr, F>(rules: Rules<Fr, F>, items: seq<Option<Fr>>, d: nat): seq<Option<Fr>> {
    if items == [] then []
    else OnDisplay(rules, items[..|items| - 1], d) + if From(rules, items[|items| - 1], d) then [items[|items| - 1]]
      else []
  }

  function Frames<Fr, F>(rules: Rules<Fr, F>, frames: seq<Fr>, d: nat): seq<Fr> {
    if frames == [] then []
    else
      Frames(rules, frames[..|frames| - 1], d)
      + if rules.display(frames[|frames| - 1]) == d then [frames[|frames| - 1]] else []
  }

  lemma FramesSnoc<Fr, F>(rules: Rules<Fr, F>, frames: seq<Fr>, x: Fr, d: nat)
    ensures Frames(rules, frames + [x], d) == Frames(rules, frames, d) + if rules.display(x) == d then [x] else []
  {
    assert (frames + [x])[..|frames|] == frames;
  }

  lemma OnDisplaySnoc<Fr, F>(rules: Rules<Fr, F>, items: seq<Option<Fr>>, item: Option<Fr>, d: nat)
    ensures OnDisplay(rules, items + [item], d) == OnDisplay(rules, items, d) + if From(rules, item, d) then [item]
        else []
  {
    assert (items + [item])[..|items|] == items;
  }

  lemma LastSnoc<Fr, F>(rules: Rules<Fr, F>, state: Fingerprints<F>, items: seq<Option<Fr>>, item: Option<Fr>, d: nat)
    ensures Last(rules, state, items + [item], d) ==
            if From(rules, item, d) && Shown(rules, item.value) then rules.read(item.value)
              else Last(rules, state, items, d)
    ensures Stored(rules, state, items + [item]) ==
            Stored(rules, state, items) + if item.Some?
              && IsNew(rules, state, items, item.value) then [item.value] else []
    ensures Handled(rules, state, items) == |items| ==>
            Handled(rules, state, items + [item]) == if Fails(rules, state, items, item) then |items| else |items| + 1
  {
    assert (items + [item])[..|items|] == items;
  }

  lemma {:induction false} AloneStores<Fr, F>(rules: Rules<Fr, F>, state: Fingerprints<F>, items: seq<Option<Fr>>,
          d: nat)
    requires Handled(rules, state, items) == |items|
    ensures var alone := OnDisplay(rules, items, d);
            && Handled(rules, state, alone) == |alone|
            && Last(rules, state, alone, d) == Last(rules, state, items, d)
            && Stored(rules, state, alone) == Frames(rules, Stored(rules, state, items), d)
  {
    if items != [] {
      var before, item := items[..|items| - 1], items[|items| - 1];
      AloneStores(rules, state, before, d);
      assert !Fails(rules, state, before, item);
      AloneStep(rules, state, before, OnDisplay(rules, before, d), item, d);
      assert items == before + [item];
    }
  }

  lemma AloneStep<Fr, F>(rules: Rules<Fr, F>, state: Fingerprints<F>, before: seq<Option<Fr>>, alone: seq<Option<Fr>>,
          item: Option<Fr>, d: nat)
    requires alone == OnDisplay(rules, before, d) && Handled(rules, state, alone) == |alone|
    requires Last(rules, state, alone, d) == Last(rules, state, before, d)
    requires Stored(rules, state, alone) == Frames(rules, Stored(rules, state, before), d)
    requires !Fails(rules, state, before, item)
    ensures var more := OnDisplay(rules, before + [item], d);
            && Handled(rules, state, more) == |more|
            && Last(rules, state, more, d) == Last(rules, state, before + [item], d)
            && Stored(rules, state, more) == Frames(rules, Stored(rules, state, before + [item]), d)
  {
    var stored := Stored(rules, state, before);
    OnDisplaySnoc(rules, before, item, d);
    LastSnoc(rules, state, before, item, d);
    FramesSnoc(rules, stored, item.value, d);
    assert stored + [] == stored && Frames(rules, stored, d) + [] == Frames(rules, stored, d);
    if From(rules, item, d) {
      LastSnoc(rules, state, alone, item, d);
    } else {
      assert alone + [] == alone;
    }
  }

  /** Displays do not disturb each other, save that a failure on one ends the run for all: what a run stores
      of one display is what it would store of that display's frames before the failure alone. */
  lemma DisplaysAreIndependent<Fr, F>(rules: Rules<Fr, F>, state: Fingerprints<F>, items: seq<Option<Fr>>, d: nat)
    ensures var alone := Run(rules, state, OnDisplay(rules, items[..Handled(rules, state, items)], d));
            && !alone.failed
            && alone.report.persisted == Frames(rules, Run(rules, state, items).report.persisted, d)
  {
    var handled := items[..Handled(rules, state, items)];
    HandledPrefix(rules, state, items);
    AloneStores(rules, state, handled, d);
    RunStores(rules, state, items);
    var alone := OnDisplay(rules, handled, d);
    RunStores(rules, state, alone);
    assert alone[..|alone|] == alone;
  }

  lemma {:induction false} HandledPrefix<Fr, F>(rules: Rules<Fr, F>, state: Fingerprints<F>, items: seq<Option<Fr>>)
    ensures var n := Handled(rules, state, items); Handled(rules, state, items[..n]) == n
  {
    var n := Handled(rules, state, items);
    if n < |items| {
      HandledPrefix(rules, state, items[..|items| - 1]);
      assert items[..|items| - 1][..n] == items[..n];
    } else {
      assert items[..n] == items;
    }
  }

  // ----------------------------------------------------------------------- no two in a row alike

  /** The fingerprint of the last frame, or the one carried in. */
  function LastPrint<Fr, F>(rules: Rules<Fr, F>, carried: Option<F>, frames: seq<Fr>): Option<F> {
    if frames == [] then carried else rules.read(frames[|frames| - 1])
  }

  /** Each stored frame differs from the one stored before it on its display, and the first from the
      fingerprint carried in. */
  ghost predicate Alternates<Fr, F>(rules: Rules<Fr, F>, carried: Option<F>, frames: seq<Fr>) {
    forall k :: 0 <= k < |frames| ==> Differs(rules, carried, frames, k)
  }

  predicate Differs<Fr, F(==)>(rules: Rules<Fr, F>, carried: Option<F>, frames: seq<Fr>, k: nat)
    requires k < |frames|
  {
    rules.read(frames[k]) != if k == 0 then carried else rules.read(frames[k - 1])
  }

  lemma AlternatesSnoc<Fr, F>(rules: Rules<Fr, F>, carried: Option<F>, frames: seq<Fr>, x: Fr)
    requires Alternates(rules, carried, frames) && rules.read(x) != LastPrint(rules, carried, frames)
    ensures Alternates(rules, carried, frames + [x])
  {
    forall k | 0 <= k < |frames + [x]| ensures Differs(rules, carried, frames + [x], k) {
      assert k < |frames| ==> Differs(rules, carried, frames, k);
    }
  }

  /** What the state knows of display `d` is what was last stored there. */
  predicate InSync<Fr, F(==)>(rules: Rules<Fr, F>, carried: Option<F>, d: nat, state: Fingerprints<F>, stored: seq<Fr>)
  {
    Get(state, d) == LastPrint(rules, carried, stored)
  }

  /** The run ends because a frame of display `d` could not be stored. */
  predicate FailsToStore<Fr, F(==)>(rules: Rules<Fr, F>, state: Fingerprints<F>, items: seq<Option<Fr>>, d: nat) {
    var n := Handled(rules, state, items);
    n < |items| && From(rules, items[n], d) && Shown(rules, items[n].value)
  }

  lemma TakeFrames<Fr, F>(rules: Rules<Fr, F>, p: Progress<Fr, F>, item: Option<Fr>, d: nat) returns (more: seq<Fr>)
    requires !p.failed
    ensures Frames(rules, Take(rules, p, item).report.persisted, d) == Frames(rules, p.report.persisted, d) + more
    ensures more == if !Take(rules, p, item).failed && From(rules, item, d) && Shown(rules, item.value)
                       && rules.read(item.value) != Get(p.state, d) then [item.value] else []
  {
    var persisted := p.report.persisted;
    assert Frames(rules, persisted, d) + [] == Frames(rules, persisted, d);
    more := [];
    if item.Some? && Take(rules, p, item).report.persisted == persisted + [item.value] {
      FramesSnoc(rules, persisted, item.value, d);
      if rules.display(item.value) == d {
        more := [item.value];
      }
    }
  }

  lemma TakeAlternates<Fr, F>(rules: Rules<Fr, F>, carried: Option<F>, p: Progress<Fr, F>, item: Option<Fr>, d: nat,
          stored: seq<Fr>, more: seq<Fr>)
    requires !p.failed && Alternates(rules, carried, stored) && InSync(rules, carried, d, p.state, stored)
    requires more == if !Take(rules, p, item).failed && From(rules, item, d) && Shown(rules, item.value)
                        && rules.read(item.value) != Get(p.state, d) then [item.value] else []
    ensures Alternates(rules, carried, stored + more)
    ensures InSync(rules, carried, d, Take(rules, p, item).state, stored + more) <==>
            !(Take(rules, p, item).failed && From(rules, item, d) && Shown(rules, item.value))
  {
    assert stored + [] == stored;
    if more != [] {
      AlternatesSnoc(rules, carried, stored, item.value);
    }
  }

  lemma FailsToStoreSnoc<Fr, F>(rules: Rules<Fr, F>, state: Fingerprints<F>, items: seq<Option<Fr>>, d: nat)
    requires items != []
    ensures var before, item := items[..|items| - 1], items[|items| - 1];
            FailsToStore(rules, state, items, d) <==>
              if Run(rules, state, before).failed then FailsToStore(rules, state, before, d)
              else Run(rules, state, items).failed && From(rules, item, d) && Shown(rules, item.value)
  {
    RunStores(rules, state, items[..|items| - 1]);
    RunStores(rules, state, items);
  }

  /** In every run: no two frames stored in a row on a display have the same fingerprint, the carried one
      included; and the state is out of step with what was stored exactly when storing failed. */
  lemma {:induction false} NoAdjacentDuplicates<Fr, F>(rules: Rules<Fr, F>, state: Fingerprints<F>,
          items: seq<Option<Fr>>, d: nat)
    ensures var p := Run(rules, state, items);
            var stored := Frames(rules, p.report.persisted, d);
            && Alternates(rules, Get(state, d), stored)
            && (InSync(rules, Get(state, d), d, p.state, stored) <==> !FailsToStore(rules, state, items, d))
  {
    if items != [] {
      var before := items[..|items| - 1];
      NoAdjacentDuplicates(rules, state, before, d);
      FailsToStoreSnoc(rules, state, items, d);
      var p := Run(rules, state, before);
      if !p.failed {
        RunStores(rules, state, before);
        var more := TakeFrames(rules, p, items[|items| - 1], d);
        TakeAlternates(rules, Get(state, d), p, items[|items| - 1], d, Frames(rules, p.report.persisted, d), more);
      }
    }
  }

  // ----------------------------------------------------------------------- over many batches

  /** The state after some batches, each carried on from the one before, failed or not. */
  function Carry<Fr, F(==)>(rules: Rules<Fr, F>, state: Fingerprints<F>, batches: seq<seq<Option<Fr>>>): Fingerprints<F>
  {
    if batches == [] then state
    else Run(rules, Carry(rules, state, batches[..|batches| - 1]), batches[|batches| - 1]).state
  }

  /** All that was stored of display `d`. */
  function History<Fr, F(==)>(rules: Rules<Fr, F>, state: Fingerprints<F>, batches: seq<seq<Option<Fr>>>,
          d: nat): seq<Fr>
  {
    if batches == [] then []
    else
      var before := batches[..|batches| - 1];
      History(rules, state, before, d)
      + Frames(rules, Run(rules, Carry(rules, state, before), batches[|batches| - 1]).report.persisted, d)
  }

  lemma HistorySnoc<Fr, F>(rules: Rules<Fr, F>, state: Fingerprints<F>, batches: seq<seq<Option<Fr>>>,
          next: seq<Option<Fr>>, d: nat)
    ensures var p := Run(rules, Carry(rules, state, batches), next);
            && Carry(rules, state, batches + [next]) == p.state
            && History(rules, state, batches + [next], d)
                 == History(rules, state, batches, d) + Frames(rules, p.report.persisted, d)
  {
    assert (batches + [next])[..|batches|] == batches;
  }

  lemma AlternatesConcat<Fr, F>(rules: Rules<Fr, F>, carried: Option<F>, a: seq<Fr>, b: seq<Fr>)
    ensures Alternates(rules, carried, a + b) <==>
            Alternates(rules, carried, a) && Alternates(rules, LastPrint(rules, carried, a), b)
  {
    forall k | 0 <= k < |a| ensures Differs(rules, carried, a + b, k) <==> Differs(rules, carried, a, k) {
    }
    forall k | 0 <= k < |b|
      ensures Differs(rules, carried, a + b, |a| + k) <==> Differs(rules, LastPrint(rules, carried, a), b, k)
    {
    }
    if Alternates(rules, carried, a + b) {
      forall k | 0 <= k < |b| ensures Differs(rules, LastPrint(rules, carried, a), b, k) {
        assert Differs(rules, carried, a + b, |a| + k);
      }
      forall k | 0 <= k < |a| ensures Differs(rules, carried, a, k) {
        assert Differs(rules, carried, a + b, k);
      }
    }
    if Alternates(rules, carried, a) && Alternates(rules, LastPrint(rules, carried, a), b) {
      forall k | 0 <= k < |a + b| ensures Differs(rules, carried, a + b, k) {
        assert k < |a| ==> Differs(rules, carried, a, k);
        assert k >= |a| ==> Differs(rules, LastPrint(rules, carried, a), b, k - |a|);
      }
    }
  }

  lemma LastPrintConcat<Fr, F>(rules: Rules<Fr, F>, carried: Option<F>, a: seq<Fr>, b: seq<Fr>)
    ensures LastPrint(rules, carried, a + b) == LastPrint(rules, LastPrint(rules, carried, a), b)
  {
  }

  /** Batch `i` ends because a frame of display `d` could not be stored. */
  predicate FailsAt<Fr, F(==)>(rules: Rules<Fr, F>, state: Fingerprints<F>, batches: seq<seq<Option<Fr>>>, d: nat,
          i: nat)
    requires i < |batches|
  {
    FailsToStore(rules, Carry(rules, state, batches[..i]), batches[i], d)
  }

  /** After the first `n` batches the carried state is in step with what was stored of display `d`. */
  predicate SyncAt<Fr, F(==)>(rules: Rules<Fr, F>, state: Fingerprints<F>, batches: seq<seq<Option<Fr>>>, d: nat,
          n: nat)
    requires n <= |batches|
  {
    InSync(rules, Get(state, d), d, Carry(rules, state, batches[..n]), History(rules, state, batches[..n], d))
  }

  ghost predicate NeverFailsToStore<Fr, F>(rules: Rules<Fr, F>, state: Fingerprints<F>, batches: seq<seq<Option<Fr>>>,
          d: nat)
  {
    forall i :: 0 <= i < |batches| ==> !FailsAt(rules, state, batches, d, i)
  }

  ghost predicate AlwaysInSync<Fr, F>(rules: Rules<Fr, F>, state: Fingerprints<F>, batches: seq<seq<Option<Fr>>>,
          d: nat)
  {
    forall n :: 0 <= n <= |batches| ==> SyncAt(rules, state, batches, d, n)
  }

  lemma PrefixOfBatches<Fr, F>(rules: Rules<Fr, F>, state: Fingerprints<F>, batches: seq<seq<Option<Fr>>>, d: nat,
          m: nat, n: nat)
    requires n <= m <= |batches|
    ensures SyncAt(rules, state, batches[..m], d, n) <==> SyncAt(rules, state, batches, d, n)
    ensures n < m ==> (FailsAt(rules, state, batches[..m], d, n) <==> FailsAt(rules, state, batches, d, n))
  {
    assert batches[..m][..n] == batches[..n];
  }

  /** One more batch, from a state in step. */
  lemma SyncStep<Fr, F>(rules: Rules<Fr, F>, state: Fingerprints<F>, batches: seq<seq<Option<Fr>>>, d: nat, n: nat)
    requires n < |batches| && SyncAt(rules, state, batches, d, n)
    requires Alternates(rules, Get(state, d), History(rules, state, batches[..n], d))
    ensures SyncAt(rules, state, batches, d, n + 1) <==> !FailsAt(rules, state, batches, d, n)
    ensures Alternates(rules, Get(state, d), History(rules, state, batches[..n + 1], d))
  {
    var carried, before := Carry(rules, state, batches[..n]), History(rules, state, batches[..n], d);
    NoAdjacentDuplicates(rules, carried, batches[n], d);
    HistorySnoc(rules, state, batches[..n], batches[n], d);
    assert batches[..n + 1] == batches[..n] + [batches[n]];
    var p := Run(rules, carried, batches[n]);
    ConcatInSync(rules, Get(state, d), before, Frames(rules, p.report.persisted, d), d, p.state);
  }

  lemma ConcatInSync<Fr, F>(rules: Rules<Fr, F>, start: Option<F>, before: seq<Fr>, stored: seq<Fr>, d: nat,
          state: Fingerprints<F>)
    requires Alternates(rules, start, before) && Alternates(rules, LastPrint(rules, start, before), stored)
    ensures Alternates(rules, start, before + stored)
    ensures InSync(rules, start, d, state, before + stored) <==>
              InSync(rules, LastPrint(rules, start, before), d, state, stored)
  {
    AlternatesConcat(rules, start, before, stored);
    LastPrintConcat(rules, start, before, stored);
  }

  /** However many batches: the carried state stays in step exactly as long as no frame of the display failed
      to be stored, and then no two stored in a row there are alike, across batches too. */
  lemma {:induction false} BatchesAlternate<Fr, F>(rules: Rules<Fr, F>, state: Fingerprints<F>,
          batches: seq<seq<Option<Fr>>>, d: nat)
    ensures NeverFailsToStore(rules, state, batches, d) <==> AlwaysInSync(rules, state, batches, d)
    ensures NeverFailsToStore(rules, state, batches, d) ==>
              Alternates(rules, Get(state, d), History(rules, state, batches, d))
  {
    if batches != [] {
      var m := |batches| - 1;
      BatchesAlternate(rules, state, batches[..m], d);
      NeverSnoc(rules, state, batches, d, m);
      InSyncSnoc(rules, state, batches, d, m);
      assert batches[..m + 1] == batches;
      if NeverFailsToStore(rules, state, batches[..m], d) {
        LastInSync(rules, state, batches, d, m);
        SyncStep(rules, state, batches, d, m);
      }
    }
  }

  lemma NeverSnoc<Fr, F>(rules: Rules<Fr, F>, state: Fingerprints<F>, batches: seq<seq<Option<Fr>>>, d: nat, m: nat)
    requires |batches| == m + 1
    ensures NeverFailsToStore(rules, state, batches, d) <==>
              NeverFailsToStore(rules, state, batches[..m], d) && !FailsAt(rules, state, batches, d, m)
  {
    forall i: nat | i < m ensures FailsAt(rules, state, batches[..m], d, i) <==> FailsAt(rules, state, batches, d, i) {
      PrefixOfBatches(rules, state, batches, d, m, i);
    }
  }

  lemma InSyncSnoc<Fr, F>(rules: Rules<Fr, F>, state: Fingerprints<F>, batches: seq<seq<Option<Fr>>>, d: nat, m: nat)
    requires |batches| == m + 1
    ensures AlwaysInSync(rules, state, batches, d) <==>
              AlwaysInSync(rules, state, batches[..m], d) && SyncAt(rules, state, batches, d, m + 1)
  {
    forall i: nat | i <= m ensures SyncAt(rules, state, batches[..m], d, i) <==> SyncAt(rules, state, batches, d, i) {
      PrefixOfBatches(rules, state, batches, d, m, i);
    }
  }

  lemma LastInSync<Fr, F>(rules: Rules<Fr, F>, state: Fingerprints<F>, batches: seq<seq<Option<Fr>>>, d: nat, m: nat)
    requires m <= |batches| && AlwaysInSync(rules, state, batches[..m], d)
    ensures SyncAt(rules, state, batches, d, m)
  {
    assert SyncAt(rules, state, batches[..m], d, m);
    PrefixOfBatches(rules, state, batches, d, m, m);
  }

  /** Display `d` can show again what was last stored there. */
  ghost predicate CanRepeat<Fr(!new), F>(rules: Rules<Fr, F>, carried: Option<F>, d: nat, stored: seq<Fr>) {
    exists x :: Repeats(rules, carried, d, stored, x)
  }

  predicate Repeats<Fr, F(==)>(rules: Rules<Fr, F>, carried: Option<F>, d: nat, stored: seq<Fr>, x: Fr) {
    rules.display(x) == d && Shown(rules, x) && rules.stores(x) && rules.read(x) == LastPrint(rules, carried, stored)
  }

  /** After any batches: whatever comes next, the stored frames of a display go on without two alike in a
      row, exactly when they do so far and the state is in step, or nothing could repeat the last one. */
  lemma NextBatchAlternates<Fr(!new), F(!new)>(rules: Rules<Fr, F>, state: Fingerprints<F>,
          batches: seq<seq<Option<Fr>>>, d: nat)
    ensures var carried, stored := Get(state, d), History(rules, state, batches, d);
            (forall next :: Alternates(rules, carried, History(rules, state, batches + [next], d))) <==>
              && Alternates(rules, carried, stored)
              && (CanRepeat(rules, carried, d, stored) ==>
                   InSync(rules, carried, d, Carry(rules, state, batches), stored))
  {
    var carried, stored, now := Get(state, d), History(rules, state, batches, d), Carry(rules, state, batches);
    var good := Alternates(rules, carried, stored)
      && (CanRepeat(rules, carried, d, stored) ==> InSync(rules, carried, d, now, stored));
    if good {
      forall next ensures Alternates(rules, carried, History(rules, state, batches + [next], d)) {
        NextBatch(rules, state, batches, next, d);
      }
    } else if Alternates(rules, carried, stored) {
      var x :| Repeats(rules, carried, d, stored, x);
      RepeatedAfter(rules, state, batches, d, x);
    } else {
      HistorySnoc(rules, state, batches, [], d);
      assert stored + [] == stored;
      assert !Alternates(rules, carried, History(rules, state, batches + [[]], d));
    }
  }

  lemma NextBatch<Fr(!new), F>(rules: Rules<Fr, F>, state: Fingerprints<F>, batches: seq<seq<Option<Fr>>>,
          next: seq<Option<Fr>>, d: nat)
    requires var carried, stored := Get(state, d), History(rules, state, batches, d);
             && Alternates(rules, carried, stored)
             && (CanRepeat(rules, carried, d, stored) ==>
                  InSync(rules, carried, d, Carry(rules, state, batches), stored))
    ensures Alternates(rules, Get(state, d), History(rules, state, batches + [next], d))
  {
    var carried, stored, now := Get(state, d), History(rules, state, batches, d), Carry(rules, state, batches);
    HistorySnoc(rules, state, batches, next, d);
    NoAdjacentDuplicates(rules, now, next, d);
    var more := Frames(rules, Run(rules, now, next).report.persisted, d);
    AlternatesConcat(rules, carried, stored, more);
    if !InSync(rules, carried, d, now, stored) {
      forall k | 0 <= k < |more| ensures Differs(rules, LastPrint(rules, carried, stored), more, k) {
        assert Differs(rules, Get(now, d), more, k);
        if k == 0 {
          PersistedAreShown(rules, now, next);
          FramesAre(rules, Run(rules, now, next).report.persisted, d);
          assert more[0] in more;
          assert !Repeats(rules, carried, d, stored, more[0]);
        }
      }
    }
  }

  lemma {:induction false} PersistedAreShown<Fr, F>(rules: Rules<Fr, F>, state: Fingerprints<F>, items: seq<Option<Fr>>)
    ensures forall x :: x in Run(rules, state, items).report.persisted ==> Shown(rules, x) && rules.stores(x)
  {
    if items != [] {
      PersistedAreShown(rules, state, items[..|items| - 1]);
    }
  }

  lemma {:induction false} FramesAre<Fr, F>(rules: Rules<Fr, F>, frames: seq<Fr>, d: nat)
    ensures forall x :: x in Frames(rules, frames, d) ==> x in frames && rules.display(x) == d
  {
    if frames != [] {
      FramesAre(rules, frames[..|frames| - 1], d);
    }
  }

  lemma OneFrame<Fr, F>(rules: Rules<Fr, F>, state: Fingerprints<F>, x: Fr)
    requires Shown(rules, x) && rules.stores(x) && Get(state, rules.display(x)) != rules.read(x)
    ensures Run(rules, state, [Some(x)]).report.persisted == [x]
    ensures Frames(rules, [x], rules.display(x)) == [x]
  {
    assert [Some(x)][..0] == [] && [x][..0] == [];
    assert Run(rules, state, []) == Start(state);
  }

  lemma RepeatedAfter<Fr, F>(rules: Rules<Fr, F>, state: Fingerprints<F>, batches: seq<seq<Option<Fr>>>, d: nat, x: Fr)
    requires Repeats(rules, Get(state, d), d, History(rules, state, batches, d), x)
    requires !InSync(rules, Get(state, d), d, Carry(rules, state, batches), History(rules, state, batches, d))
    ensures History(rules, state, batches + [[Some(x)]], d) == History(rules, state, batches, d) + [x]
    ensures !Alternates(rules, Get(state, d), History(rules, state, batches + [[Some(x)]], d))
  {
    var stored := History(rules, state, batches, d);
    HistorySnoc(rules, state, batches, [Some(x)], d);
    OneFrame(rules, Carry(rules, state, batches), x);
    assert !Differs(rules, LastPrint(rules, Get(state, d), stored), [x], 0);
    AlternatesConcat(rules, Get(state, d), stored, [x]);
  }

  // --------------------------------------------------------------------------- after a failure

  /** The fingerprint is kept before the frame is stored: when storing fails, trying the frame again
      finds a duplicate and stores nothing. */
  lemma FailedStoreIsNotRetried<Fr, F>(rules: Rules<Fr, F>, working: Rules<Fr, F>, state: Fingerprints<F>, frame: Fr)
    requires !rules.excluded(frame) && rules.read(frame).Some? && Get(state, rules.display(frame)) != rules.read(frame)
    requires working == rules.(stores := working.stores) && !rules.stores(frame) && working.stores(frame)
    ensures var failed := Run(rules, state, [Some(frame)]);
            var again := Run(working, failed.state, [Some(frame)]);
            && failed.failed && failed.report.persisted == []
            && !again.failed && again.report.duplicates == 1 && again.report.persisted == []
    ensures Run(working, state, [Some(frame)]).report.persisted == [frame]
  {
    assert [Some(frame)][..0] == [];
    assert Run(rules, state, []) == Start(state);
  }

  /** And the frame before it, shown again in the next batch, is stored a second time in a row. */
  lemma FailedStoreRepeats<Fr, F>(rules: Rules<Fr, F>, state: Fingerprints<F>, a: Fr, b: Fr, d: nat)
    requires rules.display(a) == d && Shown(rules, a) && rules.stores(a) && Get(state, d) != rules.read(a)
    requires rules.display(b) == d && Shown(rules, b) && !rules.stores(b) && rules.read(b) != rules.read(a)
    ensures History(rules, state, [[Some(a), Some(b)], [Some(a)]], d) == [a, a]
    ensures !Alternates(rules, Get(state, d), [a, a])
  {
    var first := [Some(a), Some(b)];
    FirstBatch(rules, state, a, b);
    HistorySnoc(rules, state, [], first, d);
    assert [] + [first] == [first] && [] + [a] == [a];
    assert !InSync(rules, Get(state, d), d, Carry(rules, state, [first]), [a]);
    assert [first] + [[Some(a)]] == [first, [Some(a)]] && [a] + [a] == [a, a];
    RepeatedAfter(rules, state, [first], d, a);
  }

  lemma FirstBatch<Fr, F>(rules: Rules<Fr, F>, state: Fingerprints<F>, a: Fr, b: Fr)
    requires rules.display(a) == rules.display(b) && Shown(rules, a) && rules.stores(a)
    requires Get(state, rules.display(a)) != rules.read(a)
    requires Shown(rules, b) && !rules.stores(b) && rules.read(b) != rules.read(a)
    ensures var p := Run(rules, state, [Some(a), Some(b)]);
            && Frames(rules, p.report.persisted, rules.display(a)) == [a]
            && Get(p.state, rules.display(a)) == rules.read(b)
  {
    assert [Some(a), Some(b)][..1] == [Some(a)] && [Some(a)][..0] == [];
    OneFrame(rules, state, a);
  }

  /** A run that fails on an item leaves the state as it was before that item, so that it can be tried
      again, exactly when the source or the reading failed. */
  lemma OtherFailuresLeaveTheState<Fr, F>(rules: Rules<Fr, F>, state: Fingerprints<F>, items: seq<Option<Fr>>)
    requires Run(rules, state, items).failed
    ensures var n := Handled(rules, state, items);
            && n < |items|
            && (Run(rules, state, items).state == Run(rules, state, items[..n]).state <==>
                  items[n].None? || rules.read(items[n].value).None?)
  {
    FailsThere(rules, state, items);
    var n := Handled(rules, state, items);
    TakeKeeps(rules, Run(rules, state, items[..n]), items[n]);
  }

  /** A failed run ends with the item after those it handled. */
  lemma FailsThere<Fr, F>(rules: Rules<Fr, F>, state: Fingerprints<F>, items: seq<Option<Fr>>)
    requires Run(rules, state, items).failed
    ensures var n := Handled(rules, state, items);
            && n < |items| && !Run(rules, state, items[..n]).failed
            && Run(rules, state, items) == Take(rules, Run(rules, state, items[..n]), items[n])
  {
    RunStores(rules, state, items);
    var n := Handled(rules, state, items);
    HandledPrefix(rules, state, items);
    RunStores(rules, state, items[..n]);
    NextFails(rules, state, items, n);
  }

  lemma NextFails<Fr, F>(rules: Rules<Fr, F>, state: Fingerprints<F>, items: seq<Option<Fr>>, n: nat)
    requires n == Handled(rules, state, items) < |items| && !Run(rules, state, items[..n]).failed
    ensures Run(rules, state, items) == Take(rules, Run(rules, state, items[..n]), items[n])
  {
    HandledMore(rules, state, items);
    RunStores(rules, state, items[..n + 1]);
    Stops(rules, state, items, n + 1);
    assert items[..n + 1] == items[..n] + [items[n]];
    RunSnoc(rules, state, items[..n], items[n]);
  }

  lemma TakeKeeps<Fr, F>(rules: Rules<Fr, F>, p: Progress<Fr, F>, item: Option<Fr>)
    requires !p.failed && Take(rules, p, item).failed
    ensures Take(rules, p, item).state == p.state <==> item.None? || rules.read(item.value).None?
  {
    if item.Some? && rules.read(item.value).Some? {
      assert Get(Take(rules, p, item).state, rules.display(item.value)) != Get(p.state, rules.display(item.value));
    }
  }

  /** After a batch that failed, the next one goes on as if only the items before the failure had been taken. */
  ghost predicate GoesOn<Fr, F>(rules: Rules<Fr, F>, state: Fingerprints<F>, first: seq<Option<Fr>>,
          second: seq<Option<Fr>>)
  {
    var handled := first[..Handled(rules, state, first)];
    var q := Run(rules, Run(rules, state, first).state, second);
    Run(rules, state, handled + second)
      == Progress(q.state, Joined(Run(rules, state, handled).report, q.report), q.failed)
  }

  /** A failed batch and any next one are one recording of what the first handled and the second, exactly when
      it was the source or the reading that failed. */
  lemma FailedBatchJoins<Fr(!new), F>(rules: Rules<Fr, F>, state: Fingerprints<F>, first: seq<Option<Fr>>)
    requires Run(rules, state, first).failed
    ensures var n := Handled(rules, state, first);
            && n < |first|
            && ((forall second :: GoesOn(rules, state, first, second)) <==>
                  first[n].None? || rules.read(first[n].value).None?)
  {
    OtherFailuresLeaveTheState(rules, state, first);
    FailsThere(rules, state, first);
    var handled := first[..Handled(rules, state, first)];
    if Run(rules, state, first).state == Run(rules, state, handled).state {
      forall second ensures GoesOn(rules, state, first, second) {
        BatchesJoin(rules, state, handled, second);
      }
    } else {
      assert handled + [] == handled;
      assert !GoesOn(rules, state, first, []);
    }
  }

  lemma {:induction false} HandledMore<Fr, F>(rules: Rules<Fr, F>, state: Fingerprints<F>, items: seq<Option<Fr>>)
    requires Handled(rules, state, items) < |items|
    ensures var n := Handled(rules, state, items);
            Handled(rules, state, items[..n + 1]) == n && Fails(rules, state, items[..n], items[n])
  {
    var n := Handled(rules, state, items);
    if n + 1 < |items| {
      HandledMore(rules, state, items[..|items| - 1]);
      assert items[..|items| - 1][..n] == items[..n] && items[..|items| - 1][..n + 1] == items[..n + 1];
    } else {
      assert items[..n + 1] == items;
    }
  }

  // ------------------------------------------------------------------------------ the report

  /** The places of readable frames that are not private; on one display, or on any. */
  ghost function ShownAt<Fr, F>(rules: Rules<Fr, F>, items: seq<Option<Fr>>): nat -> bool {
    (k: nat) => k < |items| && items[k].Some? && Shown(rules, items[k].value)
  }

  ghost function ShownOn<Fr, F>(rules: Rules<Fr, F>, items: seq<Option<Fr>>, d: nat): nat -> bool {
    (k: nat) =>
      k < |items| && items[k].Some? && Shown(rules, items[k].value) && rules.display(items[k].value) == d
  }

  ghost predicate IsLatest(n: nat, shows: nat -> bool, j: nat) {
    j < n && shows(j) && forall i: nat :: j < i < n ==> !shows(i)
  }

  /** The fingerprint of the latest of these frames among the first `n`, or `none` when there is none. */
  ghost predicate LatestIs<Fr, F>(rules: Rules<Fr, F>, items: seq<Option<Fr>>, n: nat, shows: nat -> bool,
          none: Option<F>, mark: Option<F>)
  {
    || (mark == none && forall i: nat :: i < n ==> !shows(i))
    || exists j: nat :: LatestAt(rules, items, n, shows, mark, j)
  }

  ghost predicate LatestAt<Fr, F>(rules: Rules<Fr, F>, items: seq<Option<Fr>>, n: nat, shows: nat -> bool,
          mark: Option<F>, j: nat)
  {
    IsLatest(n, shows, j) && j < |items| && items[j].Some? && mark == rules.read(items[j].value)
  }

  lemma LatestMore<Fr, F>(rules: Rules<Fr, F>, items: seq<Option<Fr>>, n: nat, shows: nat -> bool, none: Option<F>,
          mark: Option<F>)
    requires n < |items| && (shows(n) ==> items[n].Some?) && LatestIs(rules, items, n, shows, none, mark)
    ensures LatestIs(rules, items, n + 1, shows, none, if shows(n) then rules.read(items[n].value) else mark)
  {
    if shows(n) {
      assert LatestAt(rules, items, n + 1, shows, rules.read(items[n].value), n);
    } else if exists j: nat :: LatestAt(rules, items, n, shows, mark, j) {
      var j: nat :| LatestAt(rules, items, n, shows, mark, j);
      assert LatestAt(rules, items, n + 1, shows, mark, j);
    }
  }

  /** `Last` is the fingerprint of the latest such frame of the display, or the one carried in. */
  lemma {:induction false} LastIs<Fr, F>(rules: Rules<Fr, F>, state: Fingerprints<F>, items: seq<Option<Fr>>, n: nat,
          d: nat)
    requires n <= |items|
    ensures LatestIs(rules, items, n, ShownOn(rules, items, d), if d in state then Some(state[d]) else None,
                     Last(rules, state, items[..n], d))
  {
    if n > 0 {
      LastIs(rules, state, items, n - 1, d);
      assert items[..n][..n - 1] == items[..n - 1];
      LatestMore(rules, items, n - 1, ShownOn(rules, items, d), if d in state then Some(state[d]) else None,
        Last(rules, state, items[..n - 1], d));
    }
  }

  ghost function Below(n: nat, keep: nat -> bool): set<nat> {
    set k: nat | k < n && keep(k)
  }

  lemma OneBelow(n: nat, keep: nat -> bool)
    ensures |Below(n + 1, keep)| == |Below(n, keep)| + if keep(n) then 1 else 0
  {
    if keep(n) {
      assert Below(n + 1, keep) == Below(n, keep) + {n};
    } else {
      assert Below(n + 1, keep) == Below(n, keep);
    }
  }

  ghost function PrivateAt<Fr, F>(rules: Rules<Fr, F>, items: seq<Option<Fr>>): nat -> bool {
    (k: nat) => k < |items| && items[k].Some? && rules.excluded(items[k].value)
  }

  /** Readable, not private, and unlike the frame before it on its display. */
  ghost function NewAt<Fr, F>(rules: Rules<Fr, F>, state: Fingerprints<F>, items: seq<Option<Fr>>): nat -> bool {
    (k: nat) => k < |items| && items[k].Some? && IsNew(rules, state, items[..k], items[k].value)
  }

  ghost function RepeatAt<Fr, F>(rules: Rules<Fr, F>, state: Fingerprints<F>, items: seq<Option<Fr>>): nat -> bool {
    (k: nat) => k < |items| && items[k].Some? && Shown(rules, items[k].value)
                && !IsNew(rules, state, items[..k], items[k].value)
  }

  ghost function FrameAt<Fr, F>(rules: Rules<Fr, F>, items: seq<Option<Fr>>): (nat, Fr) -> bool {
    (k: nat, frame: Fr) => k < |items| && items[k] == Some(frame)
  }

  /** What the report says of the first `n` items. */
  ghost predicate Counts<Fr, F>(rules: Rules<Fr, F>, state: Fingerprints<F>, items: seq<Option<Fr>>, n: nat,
          report: Report<Fr, F>)
  {
    && report.filtered == |Below(n, PrivateAt(rules, items))|
    && report.duplicates == |Below(n, RepeatAt(rules, state, items))|
    && Picks(n, NewAt(rules, state, items), FrameAt(rules, items), report.persisted)
  }

  ghost predicate Latest<Fr, F>(rules: Rules<Fr, F>, items: seq<Option<Fr>>, n: nat, latest: Option<F>) {
    LatestIs(rules, items, n, ShownAt(rules, items), None, latest)
  }

  lemma CountsMore<Fr, F>(rules: Rules<Fr, F>, state: Fingerprints<F>, items: seq<Option<Fr>>, n: nat,
          p: Progress<Fr, F>)
    requires n < |items| && !p.failed && Counts(rules, state, items, n, p.report)
    requires Knows(rules, state, items[..n], p.state) && !Take(rules, p, items[n]).failed
    ensures var report := Take(rules, p, items[n]).report;
            && Counts(rules, state, items, n + 1, report) && report.observed == p.report.observed + 1
            && report.latest == if ShownAt(rules, items)(n) then rules.read(items[n].value) else p.report.latest
  {
    var frame := items[n].value;
    var keep, says := NewAt(rules, state, items), FrameAt(rules, items);
    OneBelow(n, PrivateAt(rules, items));
    OneBelow(n, RepeatAt(rules, state, items));
    assert Get(p.state, rules.display(frame)) == Last(rules, state, items[..n], rules.display(frame));
    if keep(n) {
      PicksMore(n, keep, says, p.report.persisted, frame);
    } else {
      PicksSame(n, keep, says, p.report.persisted);
    }
  }

  lemma ReportStep<Fr, F>(rules: Rules<Fr, F>, state: Fingerprints<F>, items: seq<Option<Fr>>, n: nat)
    requires n < |items| && !Run(rules, state, items[..n]).failed
    ensures Knows(rules, state, items[..n], Run(rules, state, items[..n]).state)
    ensures Run(rules, state, items[..n + 1]) == Take(rules, Run(rules, state, items[..n]), items[n])
  {
    RunStores(rules, state, items[..n]);
    assert items[..n][..n] == items[..n];
    assert items[..n + 1] == items[..n] + [items[n]];
    RunSnoc(rules, state, items[..n], items[n]);
  }

  lemma {:induction false} HandledReport<Fr, F>(rules: Rules<Fr, F>, state: Fingerprints<F>, items: seq<Option<Fr>>,
          n: nat)
    requires n <= |items| && !Run(rules, state, items[..n]).failed
    ensures var report := Run(rules, state, items[..n]).report;
            report.observed == n && Counts(rules, state, items, n, report) && Latest(rules, items, n, report.latest)
  {
    if n == 0 {
      PicksNothing(NewAt(rules, state, items), FrameAt(rules, items));
    } else {
      assert items[..n][..n - 1] == items[..n - 1];
      HandledReport(rules, state, items, n - 1);
      ReportStep(rules, state, items, n - 1);
      var p := Run(rules, state, items[..n - 1]);
      CountsMore(rules, state, items, n - 1, p);
      LatestMore(rules, items, n - 1, ShownAt(rules, items), None, p.report.latest);
    }
  }

  /** The whole report of any run, failed or not. Everything before the first failure is counted, as private, as a
      repetition or as stored, each of these where it is one; a frame the run fails on has been observed, and is the
      latest when it could be read. */
  lemma ReportIs<Fr, F>(rules: Rules<Fr, F>, state: Fingerprints<F>, items: seq<Option<Fr>>)
    ensures var n, report := Handled(rules, state, items), Run(rules, state, items).report;
            && Counts(rules, state, items, n, report)
            && report.observed == n + (if n < |items| && items[n].Some? then 1 else 0)
            && Latest(rules, items, Reached(rules, state, items), report.latest)
  {
    var n := Handled(rules, state, items);
    HandledPrefix(rules, state, items);
    RunStores(rules, state, items[..n]);
    HandledReport(rules, state, items, n);
    if n < |items| {
      NextFails(rules, state, items, n);
      LatestMore(rules, items, n, ShownAt(rules, items), None, Run(rules, state, items[..n]).report.latest);
      RunStores(rules, state, items);
      FailingStep(rules, state, items, n, Run(rules, state, items[..n]));
    } else {
      assert items[..n] == items;
    }
  }

  lemma FailingStep<Fr, F>(rules: Rules<Fr, F>, state: Fingerprints<F>, items: seq<Option<Fr>>, n: nat,
          p: Progress<Fr, F>)
    requires n < |items| && Take(rules, p, items[n]).failed && Counts(rules, state, items, n, p.report)
    requires !p.failed
    ensures var report := Take(rules, p, items[n]).report;
            && Counts(rules, state, items, n, report)
            && report.observed == p.report.observed + (if items[n].Some? then 1 else 0)
            && report.latest == if ShownAt(rules, items)(n) then rules.read(items[n].value) else p.report.latest
  {
  }

  /** The first failure is where it is said to be. */
  lemma FirstFailure<Fr, F>(rules: Rules<Fr, F>, state: Fingerprints<F>, items: seq<Option<Fr>>)
    ensures forall k :: 0 <= k < Handled(rules, state, items) ==> !Fails(rules, state, items[..k], items[k])
    ensures var n := Handled(rules, state, items); n < |items| ==> Fails(rules, state, items[..n], items[n])
  {
    NoneFailsBefore(rules, state, items);
    if Handled(rules, state, items) < |items| {
      HandledMore(rules, state, items);
    }
  }

  lemma {:induction false} NoneFailsBefore<Fr, F>(rules: Rules<Fr, F>, state: Fingerprints<F>, items: seq<Option<Fr>>)
    ensures forall k :: 0 <= k < Handled(rules, state, items) ==> !Fails(rules, state, items[..k], items[k])
  {
    if items != [] {
      var before := items[..|items| - 1];
      NoneFailsBefore(rules, state, before);
      forall k | 0 <= k < Handled(rules, state, items) ensures !Fails(rules, state, items[..k], items[k]) {
        assert k < |before| ==> before[..k] == items[..k] && before[k] == items[k];
      }
    }
  }

  // -------------------------------------------------------------------------------- the manager

  class RecorderManager<!Fr, F(==)> {
    const rules: Rules<Fr, F>
    var source: seq<Option<Fr>>
    var previousFingerprints: Fingerprints<F>

    constructor (rules: Rules<Fr, F>, source: seq<Option<Fr>>, state: Fingerprints<F>)
      ensures this.rules == rules && this.source == source && previousFingerprints == state
    {
      this.rules, this.source, previousFingerprints := rules, source, state;
    }

    /** The body of the loop, for what the source gives next. */
    method TakeOne(item: Option<Fr>, report: Report<Fr, F>) returns (r: Report<Fr, F>, failed: bool)
      modifies this`previousFingerprints
      ensures Progress(previousFingerprints, r, failed)
           == Take(rules, Progress(old(previousFingerprints), report, false), item)
    {
      if item.None? {
        return report, true;
      }
      var frame := item.value;
      r := report.(observed := report.observed + 1);
      if rules.excluded(frame) {
        return r.(filtered := r.filtered + 1), false;
      }
      var read := rules.read(frame);
      if read.None? {
        return r, true;
      }
      var mark := read.value;
      r := r.(latest := Some(mark));
      var d := rules.display(frame);
      if d in previousFingerprints && previousFingerprints[d] == mark {
        return r.(duplicates := r.duplicates + 1), false;
      }
      previousFingerprints := previousFingerprints[d := mark];
      if !rules.stores(frame) {
        return r, true;
      }
      return r.(persisted := r.persisted + [frame]), false;
    }

    /** `run_until_exhausted`; an error ends it with the state as it then is, and drops the report. */
    method RunUntilExhausted() returns (r: Outcome<Report<Fr, F>>)
      modifies this
      ensures var p := Run(rules, old(previousFingerprints), old(source));
              && previousFingerprints == p.state
              && r == if p.failed then Failed else Ok(p.report)
      ensures r.Ok? ==> source == []
    {
      var report := Report(0, 0, 0, [], None);
      ghost var items, state := source, previousFingerprints;
      ghost var k := 0;
      assert items[..0] == [];
      while source != []
        invariant k <= |items| && source == items[k..]
        invariant Run(rules, state, items[..k]) == Progress(previousFingerprints, report, false)
        decreases |source|
      {
        var item := source[0];
        source := source[1..];
        ghost var p := Progress(previousFingerprints, report, false);
        var failed: bool;
        report, failed := TakeOne(item, report);
        OneTaken(rules, state, items, k, p);
        Stops(rules, state, items, k + 1);
        k := k + 1;
        if failed {
          return Failed;
        }
      }
      assert items[..k] == items;
      r := Ok(report);
    }

    /** `into_state` */
    method IntoState() returns (state: Fingerprints<F>)
      ensures state == previousFingerprints
    {
      state := previousFingerprints;
    }
  }

  lemma OneTaken<Fr, F>(rules: Rules<Fr, F>, state: Fingerprints<F>, items: seq<Option<Fr>>, k: nat, p: Progress<Fr, F>)
    requires k < |items| && Run(rules, state, items[..k]) == p && !p.failed
    ensures Run(rules, state, items[..k + 1]) == Take(rules, p, items[k])
  {
    assert items[..k + 1][..k] == items[..k];
  }

  function Ending<Fr, F>(p: Progress<Fr, F>): Outcome<Report<Fr, F>> {
    if p.failed then Failed else Ok(p.report)
  }

  /** What each round ends with when the state is handed on, whether its run failed or not. */
  function Endings<Fr, F(==)>(rules: Rules<Fr, F>, state: Fingerprints<F>,
          batches: seq<seq<Option<Fr>>>): seq<Outcome<Report<Fr, F>>>
  {
    if batches == [] then []
    else
      var before := batches[..|batches| - 1];
      Endings(rules, state, before) + [Ending(Run(rules, Carry(rules, state, before), batches[|batches| - 1]))]
  }

  /** `capture_inbox`: a new manager each time, started with the state that the last one left. */
  method CaptureOnce<Fr, F(==)>(rules: Rules<Fr, F>, source: seq<Option<Fr>>, state: Fingerprints<F>)
    returns (r: Outcome<Report<Fr, F>>, next: Fingerprints<F>)
    ensures next == Run(rules, state, source).state && r == Ending(Run(rules, state, source))
  {
    var manager := new RecorderManager(rules, source, state);
    r := manager.RunUntilExhausted();
    next := manager.IntoState();
  }

  lemma CarrySnoc<Fr, F>(rules: Rules<Fr, F>, state: Fingerprints<F>, batches: seq<seq<Option<Fr>>>, i: nat)
    requires i < |batches|
    ensures var p := Run(rules, Carry(rules, state, batches[..i]), batches[i]);
            && Carry(rules, state, batches[..i + 1]) == p.state
            && Endings(rules, state, batches[..i + 1]) == Endings(rules, state, batches[..i]) + [Ending(p)]
  {
    assert batches[..i + 1][..i] == batches[..i];
  }

  /** The daemon's rounds of it. */
  method CaptureAll<Fr, F(==)>(rules: Rules<Fr, F>, batches: seq<seq<Option<Fr>>>, state: Fingerprints<F>)
    returns (reports: seq<Outcome<Report<Fr, F>>>, next: Fingerprints<F>)
    ensures next == Carry(rules, state, batches) && reports == Endings(rules, state, batches)
  {
    reports, next := [], state;
    for i := 0 to |batches|
      invariant next == Carry(rules, state, batches[..i]) && reports == Endings(rules, state, batches[..i])
    {
      CarrySnoc(rules, state, batches, i);
      var r: Outcome<Report<Fr, F>>;
      r, next := CaptureOnce(rules, batches[i], next);
      reports := reports + [r];
    }
    assert batches[..|batches|] == batches;
  }

  /** A run that has failed part-way ends as it is. */
  lemma {:induction false} Stops<Fr, F>(rules: Rules<Fr, F>, state: Fingerprints<F>, items: seq<Option<Fr>>, k: nat)
    requires k <= |items|
    ensures Run(rules, state, items[..k]).failed ==> Run(rules, state, items) == Run(rules, state, items[..k])
    decreases |items|
  {
    if k < |items| {
      Stops(rules, state, items[..|items| - 1], k);
      assert items[..|items| - 1][..k] == items[..k];
    } else {
      assert items[..k] == items;
    }
  }
}
